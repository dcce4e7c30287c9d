/**
 * Operators with one operand (`UnaryOp`), applied to an `f32`, an `i32` or a
 * `bool` by `operation_f32`, `operation_i32` and `operation_bool`.
 */
module UnaryOperators {
  import opened Optional
  import opened Bits
  import opened Int32
  import opened Float32
  import opened FloatFacts
  import opened Math
  import opened Arith

  datatype UnaryOp =
    | Floor | Ceil | Round | Fract
    | SqrtWithNegative | Sin | Cos | Square
    | Abs | Signum | Negate
    | IsPositive | IsNegative
    | BitwiseNot
    | LogicalNot

  /** The `#[repr(u32)]` discriminant of each operator. */
  function Code(op: UnaryOp): U32 {
    match op
    case Floor => 0x00
    case Ceil => 0x01
    case Round => 0x02
    case Fract => 0x03
    case SqrtWithNegative => 0x10
    case Sin => 0x11
    case Cos => 0x12
    case Square => 0x13
    case Abs => 0x20
    case Signum => 0x21
    case Negate => 0x22
    case IsPositive => 0x30
    case IsNegative => 0x31
    case BitwiseNot => 0xB0
    case LogicalNot => 0xC0
  }

  /** `UnaryOp::from_u32`: `None` for a value that names no operator. */
  function Decode(v: U32): Option<UnaryOp> {
    if v == 0x00 then Some(Floor)
    else if v == 0x01 then Some(Ceil)
    else if v == 0x02 then Some(Round)
    else if v == 0x03 then Some(Fract)
    else if v == 0x10 then Some(SqrtWithNegative)
    else if v == 0x11 then Some(Sin)
    else if v == 0x12 then Some(Cos)
    else if v == 0x13 then Some(Square)
    else if v == 0x20 then Some(Abs)
    else if v == 0x21 then Some(Signum)
    else if v == 0x22 then Some(Negate)
    else if v == 0x30 then Some(IsPositive)
    else if v == 0x31 then Some(IsNegative)
    else if v == 0xB0 then Some(BitwiseNot)
    else if v == 0xC0 then Some(LogicalNot)
    else None
  }

  /** Decoding inverts the discriminant, and only the discriminant decodes to an operator. */
  lemma DecodeCode(op: UnaryOp, v: U32)
    ensures Decode(Code(op)) == Some(op)
    ensures Decode(v) == Some(op) <==> Code(op) == v
  {}

  // ---------------------------------------------------------------------
  // Integer closures

  /** `i32::isqrt` on a non-negative value: the floor of the square root. */
  function ISqrt(n: nat): (r: nat)
    ensures r * r <= n < (r + 1) * (r + 1)
    ensures r <= n
    decreases n
  {
    if n < 2 then n
    else
      var h := ISqrt(n / 4);
      SqrtStep(n, h);
      if (2 * h + 1) * (2 * h + 1) <= n then 2 * h + 1 else 2 * h
  }

  /** The root of `n / 4`, doubled, is within one of the root of `n`. */
  lemma SqrtStep(n: nat, h: nat)
    requires h * h <= n / 4 < (h + 1) * (h + 1)
    ensures (2 * h) * (2 * h) <= n < (2 * h + 2) * (2 * h + 2)
  {
    assert (2 * h) * (2 * h) == 4 * (h * h);
    assert (2 * h + 2) * (2 * h + 2) == 4 * ((h + 1) * (h + 1));
  }

  /** `SqrtWithNegative` panics on `i32::MIN`: `abs` cannot represent its magnitude. */
  predicate Panics(op: UnaryOp, v: I32) {
    op == SqrtWithNegative && v == MIN
  }

  /** The scaled integer sine and cosine, `(approx_sin(v as f32 * DEGREES_TO_RADIANS) * 16384.0) as i32`. */
  type IntTrig = (UnaryOp, I32) -> I32

  /** The integer closure of each operator (`operation_i32`). */
  function OpI32(trig: IntTrig, op: UnaryOp, v: I32): I32
    requires !Panics(op, v)
  {
    match op
    case Floor => v
    case Ceil => v
    case Round => v
    case Fract => 0
    case SqrtWithNegative => if v < 0 then -(ISqrt(-(v as int)) as int) else ISqrt(v)
    case Sin => trig(op, v)
    case Cos => trig(op, v)
    case Square => Wrap(v * v)
    case Abs => if v == MIN then MAX else if v < 0 then -(v as int) else v
    case Signum => if v < 0 then -1 else if v == 0 then 0 else 1
    case Negate => if v == MIN then MAX else -(v as int)
    case IsPositive => FromBool(v > 0)
    case IsNegative => FromBool(v < 0)
    case BitwiseNot => FromBits(!ToBits(v))
    case LogicalNot => FromBool(!IsTrue(v))
  }

  // ---------------------------------------------------------------------
  // Float and bool closures

  /**
   * The float arithmetic the closures call: `floor`, `ceil`, `round`, `fract`,
   * `sqrt` (under `SqrtWithNegative`), `approx_sin`, `approx_cos` and `v * v`.
   */
  type FloatUnary = (UnaryOp, F32) -> F32

  /** The float closure of each operator, before cleaning. */
  function RawOpF32(fu: FloatUnary, op: UnaryOp, f: F32): F32 {
    match op
    case SqrtWithNegative =>
      if LessThanZero(f) then FloatNeg(fu(op, FloatAbs(f))) else fu(op, f)
    case Abs => FloatAbs(f)
    case Signum => FloatSignum(f)
    case Negate => FloatNeg(f)
    case IsPositive => FloatFromBool(GreaterThanZero(f))
    case IsNegative => FloatFromBool(LessThanZero(f))
    case BitwiseNot => F32(!f.bits)
    case LogicalNot => FloatFromBool(!FloatIsTrue(f))
    case _ => fu(op, f)
  }

  /** `operation_f32`: the float closure, with a non-finite result replaced by `0.0`. */
  function OpF32(fu: FloatUnary, op: UnaryOp, f: F32): F32 {
    Clean(RawOpF32(fu, op, f))
  }

  /** `operation_bool`: the three negations flip the value, every other operator keeps it. */
  function OpBool(op: UnaryOp, b: bool): bool {
    if op == Negate || op == BitwiseNot || op == LogicalNot then !b else b
  }

  // ---------------------------------------------------------------------
  // Properties of the integer closures

  /** `SqrtWithNegative` is the floor square root, mirrored for negative values. */
  lemma SqrtWithNegativeSpec(trig: IntTrig, v: I32)
    requires v != MIN
    ensures var r := OpI32(trig, SqrtWithNegative, v);
      var m := if v < 0 then -(r as int) else r as int;
      var a := if v < 0 then -(v as int) else v as int;
      (r < 0 ==> v < 0) && (v > 0 ==> r > 0) && m >= 0 && m * m <= a < (m + 1) * (m + 1)
    ensures OpI32(trig, SqrtWithNegative, -(v as int)) == -(OpI32(trig, SqrtWithNegative, v) as int)
  {
  }

  /** `Abs` and `Negate` saturate: exact everywhere except `i32::MIN`, which gives `i32::MAX`. */
  lemma SaturatingSpec(trig: IntTrig, v: I32)
    ensures v != MIN ==> OpI32(trig, Abs, v) == (if v < 0 then -(v as int) else v as int)
    ensures v != MIN ==> OpI32(trig, Negate, v) == -(v as int)
    ensures OpI32(trig, Abs, MIN) == MAX && OpI32(trig, Negate, MIN) == MAX
    ensures OpI32(trig, Abs, v) >= 0
    ensures v != MIN ==> OpI32(trig, Negate, OpI32(trig, Negate, v)) == v
  {}

  /**
   * On integers `Floor`, `Ceil` and `Round` change nothing and `Fract` is
   * always 0; `Signum` is -1, 0 or 1 by the sign, and the sign tests give 1 or 0.
   */
  lemma RoundingAndSignSpec(trig: IntTrig, v: I32)
    ensures OpI32(trig, Floor, v) == v && OpI32(trig, Ceil, v) == v && OpI32(trig, Round, v) == v
    ensures OpI32(trig, Fract, v) == 0
    ensures -1 <= OpI32(trig, Signum, v) <= 1
    ensures (OpI32(trig, Signum, v) < 0 <==> v < 0) && (OpI32(trig, Signum, v) > 0 <==> v > 0)
    ensures OpI32(trig, IsPositive, v) == (if v > 0 then 1 else 0)
    ensures OpI32(trig, IsNegative, v) == (if v < 0 then 1 else 0)
  {}

  /** Every value is its sign times its absolute value, below `i32::MIN`'s saturation. */
  lemma SignumTimesAbs(trig: IntTrig, v: I32)
    requires v != MIN
    ensures OpI32(trig, Signum, v) * OpI32(trig, Abs, v) == v
    ensures OpI32(trig, Signum, v) == OpI32(trig, IsPositive, v) - OpI32(trig, IsNegative, v)
  {}

  /** Bitwise not is `-v - 1` and undoes itself. */
  lemma BitwiseNotSpec(trig: IntTrig, v: I32)
    ensures OpI32(trig, BitwiseNot, v) == -(v as int) - 1
    ensures OpI32(trig, BitwiseNot, OpI32(trig, BitwiseNot, v)) == v
  {
    ComplementValue(v);
    ComplementValue(OpI32(trig, BitwiseNot, v));
  }

  /** Logical not gives 1 or 0, and applying it twice normalises to `bool_roundtrip`. */
  lemma LogicalNotSpec(trig: IntTrig, v: I32)
    ensures OpI32(trig, LogicalNot, v) == (if v == 0 then 1 else 0)
    ensures OpI32(trig, LogicalNot, OpI32(trig, LogicalNot, v)) == BoolRoundtrip(v)
  {}

  /** `Square` is the product wrapped to 32 bits, and never negative while it fits. */
  lemma SquareSpec(trig: IntTrig, v: I32)
    ensures (OpI32(trig, Square, v) - v * v) % MODULUS == 0
    ensures -46340 <= v <= 46340 ==> OpI32(trig, Square, v) == v * v
  {
    if -46340 <= v <= 46340 {
      SquareFits(v);
    }
  }

  lemma SquareFits(v: int)
    requires -46340 <= v <= 46340
    ensures 0 <= v * v <= MAX
  {
    var a := if v < 0 then -v else v;
    assert v * v == a * a;
    MulMonotone(a, 46340, a);
    MulMonotone(a, 46340, 46340);
  }

  // ---------------------------------------------------------------------
  // Properties of the float and bool closures

  /** Negating a finite float twice gives it back; `Abs` and `Negate` agree on magnitude. */
  lemma FloatNegateSpec(fu: FloatUnary, f: F32)
    requires IsFinite(f)
    ensures OpF32(fu, Negate, OpF32(fu, Negate, f)) == f
    ensures OpF32(fu, Abs, OpF32(fu, Negate, f)) == OpF32(fu, Abs, f)
  {
    NegFinite(f);
    NegationInvolution(f);
    NegMagnitude(f);
    AbsFinite(f);
    AbsFinite(FloatNeg(f));
  }

  /** Float logical not inverts float truthiness; the float sign tests are 1.0 or 0.0. */
  lemma FloatLogicalSpec(fu: FloatUnary, f: F32)
    ensures FloatIsTrue(OpF32(fu, LogicalNot, f)) == !FloatIsTrue(f)
    ensures OpF32(fu, IsPositive, f) == FloatFromBool(GreaterThanZero(f))
    ensures OpF32(fu, IsNegative, f) == FloatFromBool(LessThanZero(f))
  {
    FloatFromBoolRoundTrip(!FloatIsTrue(f));
    FloatFromBoolRoundTrip(GreaterThanZero(f));
    FloatFromBoolRoundTrip(LessThanZero(f));
  }

  /** Every bool closure is its own inverse. */
  lemma BoolInvolution(op: UnaryOp, b: bool)
    ensures OpBool(op, OpBool(op, b)) == b
    ensures OpBool(op, b) != b <==> (op == Negate || op == BitwiseNot || op == LogicalNot)
  {}

  /** Operators whose bool closure matches their integer closure on 0 and 1. */
  predicate BoolAgrees(op: UnaryOp) {
    op in {Floor, Ceil, Round, SqrtWithNegative, Square, Abs, Signum, IsPositive, LogicalNot}
  }

  /**
   * On the integer bools 0 and 1, the bool closure and the integer closure agree
   * for the operators of `BoolAgrees`; `Fract`, `IsNegative`, `Negate` and
   * `BitwiseNot` do not (their integer results on 1 are 0, 0, -1 and -2).
   */
  lemma BoolMatchesInt(trig: IntTrig, op: UnaryOp, b: bool)
    requires BoolAgrees(op)
    ensures FromBool(OpBool(op, b)) == OpI32(trig, op, FromBool(b))
    ensures OpI32(trig, Fract, FromBool(true)) == 0 && OpI32(trig, IsNegative, FromBool(true)) == 0
    ensures OpI32(trig, Negate, FromBool(true)) == -1
  {
    if op == SqrtWithNegative {
      assert ISqrt(0) == 0;
      assert ISqrt(1) == 1;
    }
  }
}
