/**
 * The two-operand operators of the register machine (`BinaryOp`) and their
 * integer semantics, plus the typed dispatchers that mix integer and float
 * operands.
 */
module BinaryOperators {
  import opened Optional
  import opened Bits
  import opened Int32
  import opened Float32
  import opened FloatFacts
  import opened Arith
  import opened Bytes
  import opened BitArith
  import opened Math

  datatype BinaryOp =
    | Add | Sub | Mul | Div | Remainder
    | Min | Max
    | AbsDiff | CopySign
    | BitwiseAnd | BitwiseOr | BitwiseXor
    | ShiftLeftSignExtend | ShiftRightSignExtend | RotateLeft | RotateRight
    | ShiftLeftZeroExtend | ShiftRightZeroExtend
    | EqualityApproximate | LessThan | LessThanEqual | GreaterThan | GreaterThanEqual

  /** The `u32` discriminant of each operator. */
  function Code(op: BinaryOp): U32 {
    match op
    case Add => 0x00
    case Sub => 0x01
    case Mul => 0x02
    case Div => 0x03
    case Remainder => 0x04
    case Min => 0x10
    case Max => 0x11
    case AbsDiff => 0x20
    case CopySign => 0x21
    case BitwiseAnd => 0xB0
    case BitwiseOr => 0xB1
    case BitwiseXor => 0xB2
    case ShiftLeftSignExtend => 0xB3
    case ShiftRightSignExtend => 0xB4
    case RotateLeft => 0xB5
    case RotateRight => 0xB6
    case ShiftLeftZeroExtend => 0xB7
    case ShiftRightZeroExtend => 0xB8
    case EqualityApproximate => 0xC0
    case LessThan => 0xC1
    case LessThanEqual => 0xC2
    case GreaterThan => 0xC3
    case GreaterThanEqual => 0xC4
  }

  /** `BinaryOp::from_u32`: the operator with this discriminant, if any. */
  function Decode(v: U32): Option<BinaryOp> {
    if v == 0x00 then Some(Add)
    else if v == 0x01 then Some(Sub)
    else if v == 0x02 then Some(Mul)
    else if v == 0x03 then Some(Div)
    else if v == 0x04 then Some(Remainder)
    else if v == 0x10 then Some(Min)
    else if v == 0x11 then Some(Max)
    else if v == 0x20 then Some(AbsDiff)
    else if v == 0x21 then Some(CopySign)
    else if v == 0xB0 then Some(BitwiseAnd)
    else if v == 0xB1 then Some(BitwiseOr)
    else if v == 0xB2 then Some(BitwiseXor)
    else if v == 0xB3 then Some(ShiftLeftSignExtend)
    else if v == 0xB4 then Some(ShiftRightSignExtend)
    else if v == 0xB5 then Some(RotateLeft)
    else if v == 0xB6 then Some(RotateRight)
    else if v == 0xB7 then Some(ShiftLeftZeroExtend)
    else if v == 0xB8 then Some(ShiftRightZeroExtend)
    else if v == 0xC0 then Some(EqualityApproximate)
    else if v == 0xC1 then Some(LessThan)
    else if v == 0xC2 then Some(LessThanEqual)
    else if v == 0xC3 then Some(GreaterThan)
    else if v == 0xC4 then Some(GreaterThanEqual)
    else None
  }

  /** Decoding is the inverse of the discriminant, in both directions. */
  lemma DecodeCode(op: BinaryOp, v: U32)
    ensures Decode(Code(op)) == Some(op)
    ensures Decode(v) == Some(op) <==> Code(op) == v
  {}

  // ---------------------------------------------------------------------
  // Integer closures

  /** Division rounding toward zero, as Rust's `/` on integers. */
  function TruncDiv(a: int, b: int): int
    requires b != 0
  {
    var q := Abs(a) / Abs(b);
    if (a < 0) == (b < 0) then q else -q
  }

  /** `i32::wrapping_div`: truncating division, where only `MIN / -1` overflows (to `MIN`). */
  function WrappingDiv(l: I32, r: I32): I32
    requires r != 0
  {
    if l == MIN && r == -1 then MIN
    else
      QuotientBound(l, r);
      TruncDiv(l, r)
  }

  lemma QuotientBound(a: int, b: int)
    requires b != 0
    ensures 0 <= Abs(a) / Abs(b) <= Abs(a)
  {
    DivAtMost(Abs(a), Abs(b));
  }

  /** `i32::wrapping_rem_euclid`: the truncating remainder moved into `[0, |r|)`; `x rem -1` is 0. */
  function WrappingRemEuclid(l: I32, r: I32): I32
    requires r != 0
  {
    if r == -1 then 0
    else
      var t := l - r * TruncDiv(l, r);
      TruncRemBound(l, r);
      if t < 0 then t + Abs(r) else t
  }

  lemma TruncRemBound(a: int, b: int)
    requires b != 0
    ensures Abs(a - b * TruncDiv(a, b)) < Abs(b)
    ensures var t := a - b * TruncDiv(a, b); t == 0 || (t < 0) == (a < 0)
  {
    var q := Abs(a) / Abs(b);
    var m := Abs(a) % Abs(b);
    assert Abs(a) == q * Abs(b) + m;
    var t := a - b * TruncDiv(a, b);
    if (a < 0) == (b < 0) {
      assert TruncDiv(a, b) == q;
      if a < 0 {
        assert b * q == -(Abs(b) * q);
        assert t == -m;
      } else {
        assert b * q == Abs(b) * q;
        assert t == m;
      }
    } else {
      assert TruncDiv(a, b) == -q;
      if a < 0 {
        assert b * (-q) == -(Abs(b) * q);
        assert t == -m;
      } else {
        assert b * (-q) == Abs(b) * q;
        assert t == m;
      }
    }
  }

  /** `i32::abs_diff` converted back with `try_into`, saturating at `MAX` on failure. */
  function AbsDiffI32(l: I32, r: I32): I32 {
    var d := Abs(l - r);
    if d <= MAX then d else MAX
  }

  /** `i32::abs` as compiled without overflow checks: `MIN` stays `MIN`. */
  function WrappingAbs(x: I32): I32 {
    if x == MIN then MIN else Abs(x)
  }

  /** `-x` as compiled without overflow checks: `-MIN` is `MIN`. */
  function WrappingNeg(x: I32): I32 {
    if x == MIN then MIN else -x
  }

  function CopySignI32(l: I32, r: I32): I32 {
    var a := WrappingAbs(l);
    if r < 0 then WrappingNeg(a) else a
  }

  /** A shift or rotate amount: `rhs as u32` masked to the width, as `wrapping_shl` and `rotate_left` do. */
  function Amount(r: I32): (s: bv32)
    ensures s < 32
  {
    ToBits(r) & 31
  }

  function And(l: I32, r: I32): I32 { FromBits(ToBits(l) & ToBits(r)) }
  function Or(l: I32, r: I32): I32 { FromBits(ToBits(l) | ToBits(r)) }
  function Xor(l: I32, r: I32): I32 { FromBits(ToBits(l) ^ ToBits(r)) }

  /** `i32::wrapping_shl(rhs as u32)`. */
  function ShlSigned(l: I32, r: I32): I32 { FromBits(Shl(ToBits(l), Amount(r))) }

  /** `i32::wrapping_shr(rhs as u32)`: the vacated bits copy the sign bit. */
  function ShrSigned(l: I32, r: I32): I32 { FromBits(Sar(ToBits(l), Amount(r))) }

  /** `i32::rotate_left(rhs as u32)` and `i32::rotate_right(rhs as u32)`. */
  function RotateL(l: I32, r: I32): I32 { FromBits(RotL(ToBits(l), Amount(r))) }
  function RotateR(l: I32, r: I32): I32 { FromBits(RotR(ToBits(l), Amount(r))) }

  /** `(lhs as u32).wrapping_shl(rhs as u32) as i32`. */
  function ShlUnsigned(l: I32, r: I32): I32 { Signed(ValueOf(Shl(BitsOf(Unsigned(l)), Amount(r)))) }

  /** `(lhs as u32).wrapping_shr(rhs as u32) as i32`: the vacated bits are zero. */
  function ShrUnsigned(l: I32, r: I32): I32 { Signed(ValueOf(Shr(BitsOf(Unsigned(l)), Amount(r)))) }

  /** The integer closure of each operator (`$int_func` in the operator table). */
  function IntOp(op: BinaryOp, l: I32, r: I32): I32 {
    match op
    case Add => Wrap(l + r)
    case Sub => Wrap(l - r)
    case Mul => Wrap(l * r)
    case Div => if r != 0 then WrappingDiv(l, r) else 0
    case Remainder => if r != 0 then WrappingRemEuclid(l, r) else 0
    case Min => if l <= r then l else r
    case Max => if l >= r then l else r
    case AbsDiff => AbsDiffI32(l, r)
    case CopySign => CopySignI32(l, r)
    case BitwiseAnd => And(l, r)
    case BitwiseOr => Or(l, r)
    case BitwiseXor => Xor(l, r)
    case ShiftLeftSignExtend => ShlSigned(l, r)
    case ShiftRightSignExtend => ShrSigned(l, r)
    case RotateLeft => RotateL(l, r)
    case RotateRight => RotateR(l, r)
    case ShiftLeftZeroExtend => ShlUnsigned(l, r)
    case ShiftRightZeroExtend => ShrUnsigned(l, r)
    case EqualityApproximate => FromBool(l == r)
    case LessThan => FromBool(l < r)
    case LessThanEqual => FromBool(l <= r)
    case GreaterThan => FromBool(l > r)
    case GreaterThanEqual => FromBool(l >= r)
  }

  /** `handle_binary_operation_i32_i32_i32`. */
  function HandleI32I32I32(l: I32, r: I32, op: BinaryOp): I32 {
    IntOp(op, l, r)
  }

  // ---------------------------------------------------------------------
  // Properties of the integer closures

  /** Addition, subtraction and multiplication wrap modulo 2^32 and never fail. */
  lemma ArithmeticWraps(l: I32, r: I32)
    ensures (HandleI32I32I32(l, r, Add) - (l + r)) % MODULUS == 0
    ensures (HandleI32I32I32(l, r, Sub) - (l - r)) % MODULUS == 0
    ensures (HandleI32I32I32(l, r, Mul) - l * r) % MODULUS == 0
    ensures MIN <= l + r <= MAX ==> HandleI32I32I32(l, r, Add) == l + r
    ensures MIN <= l - r <= MAX ==> HandleI32I32I32(l, r, Sub) == l - r
  {}

  /** Division by zero and remainder by zero give 0. */
  lemma ByZeroIsZero(l: I32)
    ensures HandleI32I32I32(l, 0, Div) == 0
    ensures HandleI32I32I32(l, 0, Remainder) == 0
  {}

  /** Outside the one overflowing case, `Div` is division rounding toward zero. */
  lemma DivTruncates(l: I32, r: I32)
    requires r != 0 && !(l == MIN && r == -1)
    ensures var q := HandleI32I32I32(l, r, Div); var rem := l - q * r;
      Abs(rem) < Abs(r) && (rem == 0 || (rem < 0) == (l < 0))
  {
    TruncRemBound(l, r);
    assert l - r * TruncDiv(l, r) == l - TruncDiv(l, r) * r;
  }

  /** `MIN / -1` wraps to `MIN`. */
  lemma DivOverflow()
    ensures HandleI32I32I32(MIN, -1, Div) == MIN
  {}

  /** For a nonzero divisor, `Remainder` is the Euclidean remainder. */
  lemma RemainderIsEuclidean(l: I32, r: I32)
    requires r != 0
    ensures HandleI32I32I32(l, r, Remainder) == l % r
  {
    var res := WrappingRemEuclid(l, r);
    var k: int;
    if r == -1 {
      k := -(l as int);
    } else {
      TruncRemBound(l, r);
      var q := TruncDiv(l, r);
      var t := l - r * q;
      if t < 0 && r > 0 {
        k := q - 1;
      } else if t < 0 {
        k := q + 1;
      } else {
        k := q;
      }
    }
    assert l == k * r + res;
    EuclideanUnique(l, r, k, res);
  }

  /** The Euclidean remainder is the unique value in `[0, |r|)` congruent to `l`. */
  lemma EuclideanUnique(l: int, r: int, k: int, res: int)
    requires r != 0 && 0 <= res < Abs(r)
    requires l == k * r + res
    ensures res == l % r
  {
    var k2 := l / r;
    var res2 := l % r;
    assert l == k2 * r + res2;
    assert (k - k2) * r == res2 - res;
    if k != k2 {
      ProductAtLeast(k - k2, r);
    }
  }

  /** `AbsDiff` is `|l - r|` saturated at `MAX`: never negative, and symmetric. */
  lemma AbsDiffSaturates(l: I32, r: I32)
    ensures var d := HandleI32I32I32(l, r, AbsDiff);
      d >= 0 && d == (if Abs(l - r) <= MAX then Abs(l - r) else MAX)
    ensures HandleI32I32I32(l, r, AbsDiff) == HandleI32I32I32(r, l, AbsDiff)
  {}

  /** `CopySign` gives `|l|` for a non-negative `r` and `-|l|` for a negative one; `MIN` is its own image. */
  lemma CopySignSpec(l: I32, r: I32)
    ensures l != MIN ==> HandleI32I32I32(l, r, CopySign) == (if r < 0 then -Abs(l) else Abs(l))
    ensures l == MIN ==> HandleI32I32I32(l, r, CopySign) == MIN
  {}

  /**
   * Off `MIN`, `CopySign` keeps the magnitude of `l` and takes the sign of `r`
   * (a zero `l` stays zero), so applying it twice with the same `r` changes
   * nothing, and copying the sign of `l` itself gives back `l`.
   */
  lemma CopySignMagnitudeAndSign(l: I32, r: I32)
    requires l != MIN
    ensures var c := HandleI32I32I32(l, r, CopySign);
      && Abs(c) == Abs(l)
      && (c < 0 <==> r < 0 && l != 0)
      && (c > 0 <==> r >= 0 && l != 0)
      && c != MIN
      && HandleI32I32I32(c, r, CopySign) == c
    ensures HandleI32I32I32(l, l, CopySign) == l
  {}

  /** `Min` and `Max` return one of their operands and respect the order. */
  lemma MinMaxSpec(l: I32, r: I32)
    ensures var m := HandleI32I32I32(l, r, Min); (m == l || m == r) && m <= l && m <= r
    ensures var m := HandleI32I32I32(l, r, Max); (m == l || m == r) && m >= l && m >= r
  {}

  /** `And`, `Or` and `Xor` act bit by bit on the two's-complement patterns. */
  lemma BitwiseSpec(l: I32, r: I32)
    ensures ToBits(HandleI32I32I32(l, r, BitwiseAnd)) == ToBits(l) & ToBits(r)
    ensures ToBits(HandleI32I32I32(l, r, BitwiseOr)) == ToBits(l) | ToBits(r)
    ensures ToBits(HandleI32I32I32(l, r, BitwiseXor)) == ToBits(l) ^ ToBits(r)
  {
    ToBitsFromBits(ToBits(l) & ToBits(r));
    ToBitsFromBits(ToBits(l) | ToBits(r));
    ToBitsFromBits(ToBits(l) ^ ToBits(r));
  }

  /** Comparisons give exactly 1 or 0, and `EqualityApproximate` is exact on integers. */
  lemma ComparisonsAreBool(l: I32, r: I32)
    ensures HandleI32I32I32(l, r, EqualityApproximate) == (if l == r then 1 else 0)
    ensures HandleI32I32I32(l, r, LessThan) == (if l < r then 1 else 0)
    ensures HandleI32I32I32(l, r, LessThanEqual) == (if l <= r then 1 else 0)
    ensures HandleI32I32I32(l, r, GreaterThan) == (if l > r then 1 else 0)
    ensures HandleI32I32I32(l, r, GreaterThanEqual) == (if l >= r then 1 else 0)
  {}

  predicate IsShiftOrRotate(op: BinaryOp) {
    op.ShiftLeftSignExtend? || op.ShiftRightSignExtend? || op.RotateLeft? || op.RotateRight?
    || op.ShiftLeftZeroExtend? || op.ShiftRightZeroExtend?
  }

  /** Shift and rotate amounts only matter modulo 32. */
  lemma AmountModulo32(op: BinaryOp, l: I32, r1: I32, r2: I32)
    requires IsShiftOrRotate(op)
    requires r1 % 32 == r2 % 32
    ensures HandleI32I32I32(l, r1, op) == HandleI32I32I32(l, r2, op)
  {
    LowBitsDependOnRemainder(r1, r2);
  }

  /** The sign-extending and the zero-extending left shift agree on every input. */
  lemma LeftShiftsAgree(l: I32, r: I32)
    ensures HandleI32I32I32(l, r, ShiftLeftSignExtend) == HandleI32I32I32(l, r, ShiftLeftZeroExtend)
  {}

  /** Rotating right by the amount just rotated left by restores the value, and conversely. */
  lemma RotateRoundTrip(x: I32, n: I32)
    ensures HandleI32I32I32(HandleI32I32I32(x, n, RotateLeft), n, RotateRight) == x
    ensures HandleI32I32I32(HandleI32I32I32(x, n, RotateRight), n, RotateLeft) == x
  {
    ToBitsFromBits(RotL(ToBits(x), Amount(n)));
    ToBitsFromBits(RotR(ToBits(x), Amount(n)));
    RotateInverse(ToBits(x), Amount(n));
    RotateInverseRL(ToBits(x), Amount(n));
    FromBitsToBits(x);
  }

  /** The masked amount is the shift count modulo 32, as a number. */
  lemma AmountValue(r: I32)
    ensures Amount(r) as int == r % 32
  {
    var c := (Unsigned(r) % 256) as bv8;
    LowByte(r);
    ByteWiden(c & 31);
    ByteValue(Unsigned(r) % 256);
    ByteLowBits(c);
    UnsignedRemainder(r);
  }

  /** The sign-extending right shift is division by 2^(r mod 32), rounded toward negative infinity. */
  lemma ShiftRightSignExtendFloors(l: I32, r: I32)
    ensures HandleI32I32I32(l, r, ShiftRightSignExtend) == l / Pow2(r % 32)
  {
    AmountValue(r);
    SarValue(ToBits(l), Amount(r));
    FromBitsToBits(l);
  }

  /**
   * The zero-extending right shift divides the unsigned reading of `l` by
   * 2^(r mod 32); any nonzero count leaves a non-negative result.
   */
  lemma ShiftRightZeroExtendDivides(l: I32, r: I32)
    ensures Unsigned(HandleI32I32I32(l, r, ShiftRightZeroExtend)) == Unsigned(l) / Pow2(r % 32)
    ensures r % 32 != 0 ==> HandleI32I32I32(l, r, ShiftRightZeroExtend) == Unsigned(l) / Pow2(r % 32)
  {
    AmountValue(r);
    ShrValue(BitsOf(Unsigned(l)), Amount(r));
    ValueOfBitsOf(Unsigned(l));
    QuotientReading(Unsigned(l), r % 32, ValueOf(Shr(BitsOf(Unsigned(l)), Amount(r))));
  }

  lemma QuotientReading(u: U32, k: nat, v: U32)
    requires v == u / Pow2(k)
    ensures Unsigned(Signed(v)) == u / Pow2(k)
    ensures k >= 1 ==> Signed(v) == u / Pow2(k)
  {
    UnsignedSigned(v);
    if k >= 1 {
      HalfAtMost(u, k);
    }
  }

  lemma HalfAtMost(u: U32, k: nat)
    requires k >= 1
    ensures u / Pow2(k) <= MAX
  {
    assert Pow2(k) == 2 * Pow2(k - 1);
    DivAtLeastTwo(u, Pow2(k));
  }

  /** The left shift multiplies by 2^(r mod 32), wrapping to 32 bits. */
  lemma ShiftLeftMultiplies(l: I32, r: I32)
    ensures HandleI32I32I32(l, r, ShiftLeftSignExtend) == Wrap(l * Pow2(r % 32))
  {
    AmountValue(r);
    ShlValue(BitsOf(Unsigned(l)), Amount(r));
    ValueOfBitsOf(Unsigned(l));
    WrapUnsignedProduct(l, Pow2(r % 32));
  }

  lemma WrapUnsignedProduct(l: I32, p: nat)
    ensures Signed((Unsigned(l) * p) % MODULUS) == Wrap(l * p)
  {
    if l < 0 {
      assert Unsigned(l) * p == l * p + p * MODULUS;
      ModAddMultiple(l * p, p, MODULUS);
    }
  }

  // ---------------------------------------------------------------------
  // Float closures and the handlers that mix `f32` and `i32`

  /**
   * The float arithmetic the closures call: `+`, `-`, `*`, `/`, `%`, `min`, `max`,
   * `abs_diff`, `copysign` through `arith`, and `near_eq`, `<`, `<=`, `>`, `>=`
   * through `compare`. IEEE-754 arithmetic is not modelled; the rest of each
   * float closure is.
   */
  datatype FloatArith = FloatArith(
    arith: (BinaryOp, F32, F32) -> F32,
    compare: (BinaryOp, F32, F32) -> bool)

  /** The float amount of a shift or rotate: `rhs as u32`, masked to the width. */
  function FloatAmount(c: Casts, r: F32): (s: bv32)
    ensures s < 32
  {
    BitsOf(c.toU32(r)) & 31
  }

  predicate IsBitwise(op: BinaryOp) {
    op.BitwiseAnd? || op.BitwiseOr? || op.BitwiseXor?
  }

  /** The bit pattern each bitwise, shift and rotate operator computes. */
  function BitsOp(op: BinaryOp, a: bv32, b: bv32, s: bv32): bv32
    requires IsBitwise(op) || IsShiftOrRotate(op)
    requires s < 32
  {
    match op
    case BitwiseAnd => a & b
    case BitwiseOr => a | b
    case BitwiseXor => a ^ b
    case ShiftLeftSignExtend => Shl(a, s)
    case ShiftRightSignExtend => Sar(a, s)
    case RotateLeft => RotL(a, s)
    case RotateRight => RotR(a, s)
    case ShiftLeftZeroExtend => Shl(a, s)
    case ShiftRightZeroExtend => Shr(a, s)
  }

  predicate IsComparison(op: BinaryOp) {
    op.EqualityApproximate? || op.LessThan? || op.LessThanEqual? || op.GreaterThan? || op.GreaterThanEqual?
  }

  /**
   * The float closure of each operator (`$float_func` in the operator table):
   * bitwise, shift and rotate operators work on the bit patterns (the shift
   * amount is `rhs as u32`), comparisons give `1.0` or `0.0`, division and
   * remainder by a zero give `0.0`, and the rest is float arithmetic.
   */
  function FloatOp(fa: FloatArith, c: Casts, op: BinaryOp, l: F32, r: F32): F32 {
    if IsBitwise(op) || IsShiftOrRotate(op) then F32(BitsOp(op, l.bits, r.bits, FloatAmount(c, r)))
    else if IsComparison(op) then FloatFromBool(fa.compare(op, l, r))
    else if (op.Div? || op.Remainder?) && IsZero(r) then ZERO
    else fa.arith(op, l, r)
  }

  /** A float result stored as `i32`: `float as i32` when finite, else 0. */
  function FiniteToInt(c: Casts, f: F32): I32 {
    if IsFinite(f) then c.toInt(f) else 0
  }

  /** `handle_binary_operation_f32_f32_f32`. */
  function HandleF32F32F32(fa: FloatArith, c: Casts, l: F32, r: F32, op: BinaryOp): F32 {
    Clean(FloatOp(fa, c, op, l, r))
  }

  /** `handle_binary_operation_f32_i32_f32`: the integer operand is cast with `as f32` first. */
  function HandleF32I32F32(fa: FloatArith, c: Casts, l: F32, r: I32, op: BinaryOp): F32 {
    Clean(FloatOp(fa, c, op, l, c.fromInt(r)))
  }

  /** `handle_binary_operation_i32_f32_f32`. */
  function HandleI32F32F32(fa: FloatArith, c: Casts, l: I32, r: F32, op: BinaryOp): F32 {
    Clean(FloatOp(fa, c, op, c.fromInt(l), r))
  }

  /** `handle_binary_operation_i32_i32_f32`: the integer closure, then `as f32` (no cleaning). */
  function HandleI32I32F32(c: Casts, l: I32, r: I32, op: BinaryOp): F32 {
    c.fromInt(IntOp(op, l, r))
  }

  /** `handle_binary_operation_f32_f32_i32`. */
  function HandleF32F32I32(fa: FloatArith, c: Casts, l: F32, r: F32, op: BinaryOp): I32 {
    FiniteToInt(c, FloatOp(fa, c, op, l, r))
  }

  /** `handle_binary_operation_f32_i32_i32`. */
  function HandleF32I32I32(fa: FloatArith, c: Casts, l: F32, r: I32, op: BinaryOp): I32 {
    FiniteToInt(c, FloatOp(fa, c, op, l, c.fromInt(r)))
  }

  /** `handle_binary_operation_i32_f32_i32`. */
  function HandleI32F32I32(fa: FloatArith, c: Casts, l: I32, r: F32, op: BinaryOp): I32 {
    FiniteToInt(c, FloatOp(fa, c, op, c.fromInt(l), r))
  }

  // ---------------------------------------------------------------------
  // Properties of the float and mixed handlers

  /**
   * Whenever any operand is a float, the integer operands are promoted with
   * `as f32` and the float closure decides: every mixed handler is the
   * all-float handler on promoted operands.
   */
  lemma MixedHandlersPromote(fa: FloatArith, c: Casts, f: F32, i: I32, op: BinaryOp)
    ensures HandleF32I32F32(fa, c, f, i, op) == HandleF32F32F32(fa, c, f, c.fromInt(i), op)
    ensures HandleI32F32F32(fa, c, i, f, op) == HandleF32F32F32(fa, c, c.fromInt(i), f, op)
    ensures HandleF32I32I32(fa, c, f, i, op) == HandleF32F32I32(fa, c, f, c.fromInt(i), op)
    ensures HandleI32F32I32(fa, c, i, f, op) == HandleF32F32I32(fa, c, c.fromInt(i), f, op)
  {}

  /**
   * A float-to-integer handler is the float handler followed by `as i32`: a
   * non-finite result becomes 0 whether it is cleaned first or not.
   */
  lemma IntResultIsCastOfFloatResult(fa: FloatArith, c: Casts, l: F32, r: F32, op: BinaryOp)
    requires SaneCasts(c)
    ensures HandleF32F32I32(fa, c, l, r, op) == c.toInt(HandleF32F32F32(fa, c, l, r, op))
  {}

  /** Float division and remainder by either zero give `0.0`, like the integer ones. */
  lemma FloatByZeroIsZero(fa: FloatArith, c: Casts, l: F32, z: F32)
    requires SaneCasts(c) && IsZero(z)
    ensures HandleF32F32F32(fa, c, l, z, Div) == ZERO
    ensures HandleF32F32F32(fa, c, l, z, Remainder) == ZERO
    ensures HandleF32F32I32(fa, c, l, z, Div) == 0
    ensures HandleF32F32I32(fa, c, l, z, Remainder) == 0
  {}

  /** Float comparisons give exactly `1.0` or `0.0`, which read as the integers 1 and 0. */
  lemma FloatComparisonsAreBool(fa: FloatArith, c: Casts, l: F32, r: F32, op: BinaryOp)
    requires SaneCasts(c)
    requires IsComparison(op)
    ensures HandleF32F32F32(fa, c, l, r, op) == FloatFromBool(fa.compare(op, l, r))
    ensures HandleF32F32I32(fa, c, l, r, op) == FromBool(fa.compare(op, l, r))
  {
    assert !(IsBitwise(op) || IsShiftOrRotate(op));
    assert FloatOp(fa, c, op, l, r) == FloatFromBool(fa.compare(op, l, r));
    FloatFromBoolCasts(c, fa.compare(op, l, r));
  }

  /** Integer inputs with an `f32` destination: the exact integer result, cast once. */
  lemma IntToFloatCastsIntResult(c: Casts, l: I32, r: I32, op: BinaryOp)
    ensures HandleI32I32F32(c, l, r, op) == c.fromInt(HandleI32I32I32(l, r, op))
  {}

  lemma IntOpIsBitsOp(op: BinaryOp, x: I32, y: I32)
    requires IsBitwise(op) || IsShiftOrRotate(op)
    ensures IntOp(op, x, y) == FromBits(BitsOp(op, ToBits(x), ToBits(y), Amount(y)))
  {
    match op {
      case BitwiseAnd =>
      case BitwiseOr =>
      case BitwiseXor =>
      case ShiftLeftSignExtend =>
      case ShiftRightSignExtend =>
      case RotateLeft =>
      case RotateRight =>
      case ShiftLeftZeroExtend =>
      case ShiftRightZeroExtend =>
    }
  }

  /** The bitwise closures on floats are the integer closures on the bit patterns. */
  lemma FloatBitwiseIsIntBitwise(fa: FloatArith, c: Casts, op: BinaryOp, l: F32, r: F32)
    requires IsBitwise(op)
    ensures FloatOp(fa, c, op, l, r).bits == ToBits(IntOp(op, FromBits(l.bits), FromBits(r.bits)))
  {
    var y := FromBits(r.bits);
    IntOpIsBitsOp(op, FromBits(l.bits), y);
    ToBitsFromBits(l.bits);
    ToBitsFromBits(r.bits);
    ToBitsFromBits(BitsOp(op, l.bits, r.bits, Amount(y)));
  }

  /**
   * The shift and rotate closures on floats are the integer closures on the
   * left operand's bit pattern, shifted by the right operand cast to `u32`.
   */
  lemma FloatShiftIsIntShift(fa: FloatArith, c: Casts, op: BinaryOp, l: F32, r: F32)
    requires IsShiftOrRotate(op)
    ensures FloatOp(fa, c, op, l, r).bits == ToBits(IntOp(op, FromBits(l.bits), Signed(c.toU32(r))))
  {
    var k := Signed(c.toU32(r));
    UnsignedSigned(c.toU32(r));
    assert FloatAmount(c, r) == Amount(k);
    IntOpIsBitsOp(op, FromBits(l.bits), k);
    ToBitsFromBits(l.bits);
    ToBitsFromBits(BitsOp(op, l.bits, ToBits(k), Amount(k)));
  }
}
