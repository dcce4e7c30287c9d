/**
 * Two's-complement 32-bit integers as Rust's `i32` and `u32` see them.
 *
 * Signed values are unbounded `int`s restricted to the `i32` range; wrap-around is
 * written out with `Wrap`. Bit-level operators use `ToBits` / `FromBits`, which go
 * through the byte lanes of module `Bits`.
 */
module Int32 {
  import opened Bytes
  import opened Bits
  import opened Arith
  import opened BitArith

  const MIN: int := -0x8000_0000
  const MAX: int := 0x7FFF_FFFF

  type I32 = x: int | MIN <= x <= MAX

  /** `x as u32`: reinterpret a signed value as unsigned. */
  function Unsigned(x: I32): U32 {
    if x < 0 then x + MODULUS else x
  }

  /** `u as i32`: reinterpret an unsigned value as signed. */
  function Signed(u: U32): I32 {
    if u > MAX then u - MODULUS else u
  }

  lemma UnsignedSigned(u: U32)
    ensures Unsigned(Signed(u)) == u
  {}

  lemma SignedUnsigned(x: I32)
    ensures Signed(Unsigned(x)) == x
  {}

  /** Reduce a mathematical integer to the `i32` it wraps to. */
  function Wrap(n: int): (r: I32)
    ensures (r - n) % MODULUS == 0
    ensures MIN <= n <= MAX ==> r == n
  {
    Signed(n % MODULUS)
  }

  function Abs(n: int): int {
    if n < 0 then -n else n
  }

  // ---------------------------------------------------------------------
  // Signed values and their bit patterns (`to_bits` / `from_bits` of an i32)

  function ToBits(x: I32): bv32 {
    BitsOf(Unsigned(x))
  }

  function FromBits(w: bv32): I32 {
    Signed(ValueOf(w))
  }

  /** Reinterpreting a value as bits and back gives the value. */
  lemma FromBitsToBits(x: I32)
    ensures FromBits(ToBits(x)) == x
  {
    ValueOfBitsOf(Unsigned(x));
  }

  /** Reinterpreting bits as a value and back gives the bits. */
  lemma ToBitsFromBits(w: bv32)
    ensures ToBits(FromBits(w)) == w
  {
    BitsOfValueOf(w);
  }

  /** The value is negative exactly when the top bit of its pattern is set. */
  lemma SignBit(w: bv32)
    ensures (FromBits(w) < 0) == (w & 0x8000_0000 != 0)
  {
    TopBit(w);
    TopLane(w);
  }

  /** Two values with the same remainder modulo 32 have the same low five bits. */
  lemma LowBitsDependOnRemainder(x: I32, y: I32)
    requires x % 32 == y % 32
    ensures ToBits(x) & 31 == ToBits(y) & 31
  {
    LowByte(x);
    LowByte(y);
    UnsignedRemainder(x);
    UnsignedRemainder(y);
    SameLowBits(Unsigned(x) % 256, Unsigned(y) % 256);
  }

  lemma LowByte(x: I32)
    ensures ToBits(x) & 31 == (((Unsigned(x) % 256) as bv8) & 31) as bv32
  {
    LowLane(ToBits(x));
    LaneZero(Unsigned(x));
  }

  lemma UnsignedRemainder(x: I32)
    ensures (Unsigned(x) % 256) % 32 == x % 32
  {}

  lemma SameLowBits(a: int, b: int)
    requires 0 <= a < 256 && 0 <= b < 256 && a % 32 == b % 32
    ensures (a as bv8) & 31 == (b as bv8) & 31
  {
    ByteValue(a);
    ByteValue(b);
    ByteLowBits(a as bv8);
    ByteLowBits(b as bv8);
    ByteBits((a as bv8) & 31);
    ByteBits((b as bv8) & 31);
  }

  /** Complementing every bit of an `i32` gives `-x - 1`. */
  lemma ComplementValue(x: I32)
    ensures FromBits(!ToBits(x)) == -(x as int) - 1
  {
    NotValue(ToBits(x));
    ValueOfBitsOf(Unsigned(x));
    ComplementArith(x, ValueOf(!ToBits(x)));
  }

  lemma ComplementArith(x: I32, v: U32)
    requires v == MODULUS - 1 - Unsigned(x)
    ensures Signed(v) == -(x as int) - 1
  {}

  /**
   * An arithmetic right shift by `s` divides by 2^s rounding toward negative
   * infinity (Dafny's `/` with a positive divisor).
   */
  lemma SarValue(w: bv32, s: bv32)
    requires s < 32
    ensures FromBits(Sar(w, s)) == FromBits(w) / Pow2(s as int)
  {
    SignBit(w);
    if w & 0x8000_0000 == 0 {
      SarOfNonNegative(w, s);
    } else {
      SarOfNegative(w, s);
    }
  }

  lemma SarOfNonNegative(w: bv32, s: bv32)
    requires s < 32 && FromBits(w) >= 0
    ensures FromBits(Shr(w, s)) == FromBits(w) / Pow2(s as int)
  {
    ShrValue(w, s);
    DivAtMost(ValueOf(w), Pow2(s as int));
  }

  lemma SarOfNegative(w: bv32, s: bv32)
    requires s < 32 && FromBits(w) < 0
    ensures FromBits(!Shr(!w, s)) == FromBits(w) / Pow2(s as int)
  {
    NotValue(w);
    ShrValue(!w, s);
    NotValue(Shr(!w, s));
    NegativeFloor(ValueOf(w), Pow2(s as int), ValueOf(Shr(!w, s)), ValueOf(!Shr(!w, s)));
  }

  /** The value arithmetic behind `SarOfNegative`, with the bits abstracted away. */
  lemma NegativeFloor(u: U32, p: int, q: int, v: U32)
    requires u > MAX && p >= 1
    requires q == (MODULUS - 1 - u) / p && v == MODULUS - 1 - q
    ensures Signed(v) == Signed(u) / p
  {
    DivAtMost(MODULUS - 1 - u, p);
    FloorOfComplement(MODULUS - 1 - u, p, Signed(u));
  }

  /** For `x == -n - 1 < 0`, flooring `x / p` is `-1 - n / p`. */
  lemma FloorOfComplement(n: int, p: int, x: int)
    requires n >= 0 && p >= 1 && x == -n - 1
    ensures x / p == -1 - n / p
  {
    var q, r := n / p, n % p;
    assert n == q * p + r;
    assert x == (-1 - q) * p + (p - 1 - r);
    DivUnique(x, p, -1 - q, p - 1 - r);
  }

  // ---------------------------------------------------------------------
  // Little-endian 4-byte fields inside a byte buffer

  /** The little-endian `u32` stored at `offset` (`read_u32::<LittleEndian>`). */
  function ReadWord(bytes: seq<bv8>, offset: nat): bv32
    requires offset + 4 <= |bytes|
  {
    Glue(bytes[offset], bytes[offset + 1], bytes[offset + 2], bytes[offset + 3])
  }

  /** `bytes` with the little-endian encoding of `w` at `offset` (`write_u32::<LittleEndian>`). */
  function WriteWord(bytes: seq<bv8>, offset: nat, w: bv32): (r: seq<bv8>)
    requires offset + 4 <= |bytes|
    ensures |r| == |bytes|
    ensures forall j :: 0 <= j < |bytes| && !(offset <= j < offset + 4) ==> r[j] == bytes[j]
    ensures ReadWord(r, offset) == w
  {
    GlueOfLanes(w);
    bytes[offset := Lane0(w)][offset + 1 := Lane1(w)][offset + 2 := Lane2(w)][offset + 3 := Lane3(w)]
  }

  /** Writing back the word that is already stored changes nothing. */
  lemma WriteReadWord(bytes: seq<bv8>, offset: nat)
    requires offset + 4 <= |bytes|
    ensures WriteWord(bytes, offset, ReadWord(bytes, offset)) == bytes
  {
    var w := ReadWord(bytes, offset);
    LanesOfGlue(bytes[offset], bytes[offset + 1], bytes[offset + 2], bytes[offset + 3]);
    var r := WriteWord(bytes, offset, w);
    assert forall j :: 0 <= j < |bytes| ==> r[j] == bytes[j];
  }
}
