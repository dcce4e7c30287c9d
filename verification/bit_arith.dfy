/**
 * What shifts and complements of a bit pattern do to its value: a right shift
 * divides by a power of two, a left shift multiplies modulo 2^32, complement
 * mirrors the value. Proved one bit step at a time through the byte lanes.
 */
module BitArith {
  import opened Bytes
  import opened Bits
  import opened Arith

  function Pow2(k: nat): (p: nat)
    ensures p >= 1
  {
    if k == 0 then 1 else 2 * Pow2(k - 1)
  }

  // ---------------------------------------------------------------------
  // Byte-level facts

  lemma ByteHalfTop(x: bv8)
    ensures (x >> 1) as int == x as int / 2 && x >> 1 < 128
  {}

  lemma ByteParity(y: bv8)
    ensures (y & 1 == 0) == (y as int % 2 == 0)
  {}

  lemma ByteSetTop(c: bv8)
    requires c < 128
    ensures (c | 128) as int == c as int + 128
  {}

  lemma ByteHalf(x: bv8, y: bv8)
    ensures ((x >> 1) | ((y & 1) << 7)) as int == x as int / 2 + 128 * (y as int % 2)
  {
    ByteHalfTop(x);
    ByteParity(y);
    if y & 1 == 0 {
      assert (x >> 1) | ((y & 1) << 7) == x >> 1;
    } else {
      assert (x >> 1) | ((y & 1) << 7) == (x >> 1) | 128;
      ByteSetTop(x >> 1);
    }
  }

  lemma ByteDouble(x: bv8)
    ensures (x << 1) as int == 2 * (x as int % 128) && (x << 1) & 1 == 0
  {}

  lemma ByteTop(y: bv8)
    ensures (y >> 7) as int == y as int / 128 && y >> 7 <= 1
  {}

  lemma ByteSetLow(c: bv8, b: bv8)
    requires c & 1 == 0 && b <= 1
    ensures (c | b) as int == c as int + b as int
  {}

  lemma ByteShiftIn(x: bv8, y: bv8)
    ensures ((x << 1) | (y >> 7)) as int == 2 * (x as int % 128) + y as int / 128
  {
    ByteDouble(x);
    ByteTop(y);
    ByteSetLow(x << 1, y >> 7);
  }

  lemma ByteNot(c: bv8)
    ensures (!c) as int == 255 - c as int
  {}

  // ---------------------------------------------------------------------
  // One-bit steps

  lemma LanesShr1(w: bv32)
    ensures Lane0(Shr(w, 1)) == (Lane0(w) >> 1) | ((Lane1(w) & 1) << 7)
    ensures Lane1(Shr(w, 1)) == (Lane1(w) >> 1) | ((Lane2(w) & 1) << 7)
    ensures Lane2(Shr(w, 1)) == (Lane2(w) >> 1) | ((Lane3(w) & 1) << 7)
    ensures Lane3(Shr(w, 1)) == Lane3(w) >> 1
  {}

  lemma LanesShl1(w: bv32)
    ensures Lane0(Shl(w, 1)) == (Lane0(w) << 1) | (0 >> 7)
    ensures Lane1(Shl(w, 1)) == (Lane1(w) << 1) | (Lane0(w) >> 7)
    ensures Lane2(Shl(w, 1)) == (Lane2(w) << 1) | (Lane1(w) >> 7)
    ensures Lane3(Shl(w, 1)) == (Lane3(w) << 1) | (Lane2(w) >> 7)
  {}

  lemma HalfStep(w: bv32)
    ensures ValueOf(Shr(w, 1)) == ValueOf(w) / 2
  {
    LanesShr1(w);
    ByteHalf(Lane0(w), Lane1(w));
    ByteHalf(Lane1(w), Lane2(w));
    ByteHalf(Lane2(w), Lane3(w));
    ByteHalfTop(Lane3(w));
  }

  lemma DoubleStep(w: bv32)
    ensures ValueOf(Shl(w, 1)) == (2 * ValueOf(w)) % MODULUS
  {
    LanesShl1(w);
    ByteShiftIn(Lane0(w), 0);
    ByteShiftIn(Lane1(w), Lane0(w));
    ByteShiftIn(Lane2(w), Lane1(w));
    ByteShiftIn(Lane3(w), Lane2(w));
    var a0, a1, a2, a3 := Lane0(w) as int, Lane1(w) as int, Lane2(w) as int, Lane3(w) as int;
    var v := ValueOf(Shl(w, 1));
    assert v == 2 * (a0 % 128) + 256 * (2 * (a1 % 128) + a0 / 128)
      + 65536 * (2 * (a2 % 128) + a1 / 128) + 16777216 * (2 * (a3 % 128) + a2 / 128);
    assert 2 * ValueOf(w) == (a3 / 128) * MODULUS + v;
    DivUnique(2 * ValueOf(w), MODULUS, a3 / 128, v);
  }

  lemma ShrSucc(w: bv32, s: bv32)
    requires 1 <= s < 32
    ensures Shr(w, s) == Shr(Shr(w, s - 1), 1)
  {}

  lemma ShlSucc(w: bv32, s: bv32)
    requires 1 <= s < 32
    ensures Shl(w, s) == Shl(Shl(w, s - 1), 1)
  {}

  // ---------------------------------------------------------------------
  // Whole shifts

  /** A logical right shift by `s` divides the value by 2^s. */
  lemma {:induction false} ShrValue(w: bv32, s: bv32)
    requires s < 32
    ensures ValueOf(Shr(w, s)) == ValueOf(w) / Pow2(s as int)
    decreases s
  {
    if s == 0 {
      assert Shr(w, s) == w;
    } else {
      ShrValue(w, s - 1);
      ShrSucc(w, s);
      HalfStep(Shr(w, s - 1));
      assert (s as int) - 1 == (s - 1) as int;
      DivDiv(ValueOf(w), Pow2((s - 1) as int));
    }
  }

  /** A left shift by `s` multiplies the value by 2^s modulo 2^32. */
  lemma {:induction false} ShlValue(w: bv32, s: bv32)
    requires s < 32
    ensures ValueOf(Shl(w, s)) == (ValueOf(w) * Pow2(s as int)) % MODULUS
    decreases s
  {
    if s == 0 {
      assert Shl(w, s) == w;
      assert Pow2(s as int) == 1;
      ShlBase(ValueOf(w));
    } else {
      ShlValue(w, s - 1);
      ShlSucc(w, s);
      DoubleStep(Shl(w, s - 1));
      assert (s as int) - 1 == (s - 1) as int;
      ShlStep(ValueOf(w), Pow2((s - 1) as int), ValueOf(Shl(w, s - 1)), ValueOf(Shl(w, s)));
    }
  }

  lemma ShlBase(v: nat)
    requires v < MODULUS
    ensures (v * 1) % MODULUS == v
  {}

  lemma ShlStep(v: nat, p: nat, prev: int, next: int)
    requires prev == (v * p) % MODULUS
    requires next == (2 * prev) % MODULUS
    ensures next == (v * (2 * p)) % MODULUS
  {
    DoubleMod(v * p);
    assert v * (2 * p) == 2 * (v * p);
  }

  lemma DoubleMod(x: int)
    requires x >= 0
    ensures (2 * (x % MODULUS)) % MODULUS == (2 * x) % MODULUS
  {
    var q, r := x / MODULUS, x % MODULUS;
    assert 2 * x == (2 * q) * MODULUS + 2 * r;
    var q2, r2 := (2 * r) / MODULUS, (2 * r) % MODULUS;
    assert 2 * x == (2 * q + q2) * MODULUS + r2;
    DivUnique(2 * x, MODULUS, 2 * q + q2, r2);
  }

  lemma LanesNot(w: bv32)
    ensures Lane0(!w) == !Lane0(w) && Lane1(!w) == !Lane1(w)
    ensures Lane2(!w) == !Lane2(w) && Lane3(!w) == !Lane3(w)
  {}

  /** Complementing every bit mirrors the value within `[0, 2^32)`. */
  lemma NotValue(w: bv32)
    ensures ValueOf(!w) == MODULUS - 1 - ValueOf(w)
  {
    LanesNot(w);
    ByteNot(Lane0(w));
    ByteNot(Lane1(w));
    ByteNot(Lane2(w));
    ByteNot(Lane3(w));
  }
}
