/** Single bytes as `bv8` and as integers. */
module Bytes {

  lemma ByteValue(n: int)
    requires 0 <= n < 256
    ensures (n as bv8) as int == n
  {}

  lemma ByteBits(c: bv8)
    ensures (c as int) as bv8 == c
  {}

  lemma ByteWiden(c: bv8)
    ensures (c as bv32) as int == c as int
  {}

  /** The low five bits of a byte are its value modulo 32. */
  lemma ByteLowBits(c: bv8)
    ensures (c & 31) as int == (c as int) % 32
  {}

  /** The low seven bits of a byte are its value modulo 128. */
  lemma ByteLowSeven(c: bv8)
    ensures (c & 0x7F) as int == (c as int) % 128
  {}
}

/**
 * Unsigned 32-bit values and their bit patterns.
 *
 * A `bv32` pattern is related to its value through its four little-endian byte
 * lanes; the two directions of that correspondence are the only place where
 * bit-vector and integer reasoning meet.
 */
module Bits {
  import opened Bytes

  const MODULUS: int := 0x1_0000_0000

  type U32 = u: int | 0 <= u < MODULUS

  // ---------------------------------------------------------------------
  // Little-endian byte lanes of a 32-bit word

  /** The word whose little-endian bytes are b0, b1, b2, b3. */
  function Glue(b0: bv8, b1: bv8, b2: bv8, b3: bv8): bv32 {
    (b0 as bv32) | (b1 as bv32 << 8) | (b2 as bv32 << 16) | (b3 as bv32 << 24)
  }

  function Lane0(w: bv32): bv8 { (w & 0xFF) as bv8 }
  function Lane1(w: bv32): bv8 { ((w >> 8) & 0xFF) as bv8 }
  function Lane2(w: bv32): bv8 { ((w >> 16) & 0xFF) as bv8 }
  function Lane3(w: bv32): bv8 { (w >> 24) as bv8 }

  lemma LanesOfGlue(b0: bv8, b1: bv8, b2: bv8, b3: bv8)
    ensures Lane0(Glue(b0, b1, b2, b3)) == b0 && Lane1(Glue(b0, b1, b2, b3)) == b1
    ensures Lane2(Glue(b0, b1, b2, b3)) == b2 && Lane3(Glue(b0, b1, b2, b3)) == b3
  {}

  lemma GlueOfLanes(w: bv32)
    ensures Glue(Lane0(w), Lane1(w), Lane2(w), Lane3(w)) == w
  {}

  // ---------------------------------------------------------------------
  // Unsigned values and their bit patterns

  /** The bit pattern of an unsigned value. */
  function BitsOf(u: U32): bv32 {
    Glue((u % 256) as bv8, ((u / 256) % 256) as bv8, ((u / 65536) % 256) as bv8, (u / 16777216) as bv8)
  }

  /** The unsigned value of a bit pattern. */
  function ValueOf(w: bv32): U32 {
    Lane0(w) as int + 256 * Lane1(w) as int + 65536 * Lane2(w) as int + 16777216 * Lane3(w) as int
  }

  lemma Digits(u: U32)
    ensures u % 256 + 256 * ((u / 256) % 256) + 65536 * ((u / 65536) % 256) + 16777216 * (u / 16777216) == u
  {
    var q1 := u / 256;
    var q2 := q1 / 256;
    var q3 := q2 / 256;
    assert u == 256 * q1 + u % 256;
    assert q1 == 256 * q2 + q1 % 256;
    assert q2 == 256 * q3 + q2 % 256;
    assert u / 65536 == q2;
    assert u / 16777216 == q3;
  }

  lemma Undigits(a: int, b: int, c: int, d: int)
    requires 0 <= a < 256 && 0 <= b < 256 && 0 <= c < 256 && 0 <= d < 256
    ensures var u := a + 256 * b + 65536 * c + 16777216 * d;
      u % 256 == a && (u / 256) % 256 == b && (u / 65536) % 256 == c && u / 16777216 == d
  {
    var u := a + 256 * b + 65536 * c + 16777216 * d;
    assert u == a + 256 * (b + 256 * c + 65536 * d);
    assert u / 256 == b + 256 * (c + 256 * d);
    assert u / 65536 == c + 256 * d;
  }

  lemma {:induction false} ValueOfBitsOf(u: U32)
    ensures ValueOf(BitsOf(u)) == u
  {
    Digits(u);
    LanesOfGlue((u % 256) as bv8, ((u / 256) % 256) as bv8, ((u / 65536) % 256) as bv8, (u / 16777216) as bv8);
    ByteValue(u % 256);
    ByteValue((u / 256) % 256);
    ByteValue((u / 65536) % 256);
    ByteValue(u / 16777216);
  }

  /** An unsigned value whose base-256 digits are the given bytes has them as its lanes. */
  lemma BitsOfDigits(u: U32, c0: bv8, c1: bv8, c2: bv8, c3: bv8)
    requires u % 256 == c0 as int && (u / 256) % 256 == c1 as int
    requires (u / 65536) % 256 == c2 as int && u / 16777216 == c3 as int
    ensures BitsOf(u) == Glue(c0, c1, c2, c3)
  {
    ByteBits(c0);
    ByteBits(c1);
    ByteBits(c2);
    ByteBits(c3);
  }

  lemma {:induction false} BitsOfValueOf(w: bv32)
    ensures BitsOf(ValueOf(w)) == w
  {
    Undigits(Lane0(w) as int, Lane1(w) as int, Lane2(w) as int, Lane3(w) as int);
    BitsOfDigits(ValueOf(w), Lane0(w), Lane1(w), Lane2(w), Lane3(w));
    GlueOfLanes(w);
  }


  /** The top bit of a pattern is the top bit of its last lane. */
  lemma TopBit(w: bv32)
    ensures (w & 0x8000_0000 != 0) == (Lane3(w) >= 128)
  {}

  /** A value is at least 2^31 exactly when its last lane is at least 128. */
  lemma TopLane(w: bv32)
    ensures (ValueOf(w) >= 0x8000_0000) == (Lane3(w) as int >= 128)
  {}

  // ---------------------------------------------------------------------
  // Shifts and rotates of a pattern by an amount below the width

  function Shl(w: bv32, s: bv32): bv32 requires s < 32 { w << s }
  function Shr(w: bv32, s: bv32): bv32 requires s < 32 { w >> s }

  /** Arithmetic right shift: the vacated bits copy the top bit. */
  function Sar(w: bv32, s: bv32): bv32
    requires s < 32
  {
    if w & 0x8000_0000 == 0 then Shr(w, s) else !Shr(!w, s)
  }

  function RotL(w: bv32, s: bv32): bv32 requires s < 32 { (w << s) | (w >> ((32 - s) & 31)) }
  function RotR(w: bv32, s: bv32): bv32 requires s < 32 { (w >> s) | (w << ((32 - s) & 31)) }

  lemma RotateInverse(w: bv32, s: bv32)
    requires s < 32
    ensures RotR(RotL(w, s), s) == w
  {}

  lemma RotateInverseRL(w: bv32, s: bv32)
    requires s < 32
    ensures RotL(RotR(w, s), s) == w
  {}

  /** The low five bits of a pattern are those of its first lane. */
  lemma LowLane(w: bv32)
    ensures w & 31 == (Lane0(w) & 31) as bv32
  {}

  /** The first lane of a value's pattern is the value modulo 256. */
  lemma LaneZero(u: U32)
    ensures Lane0(BitsOf(u)) == (u % 256) as bv8
  {
    LanesOfGlue((u % 256) as bv8, ((u / 256) % 256) as bv8, ((u / 65536) % 256) as bv8, (u / 16777216) as bv8);
  }
}
