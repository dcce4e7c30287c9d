/**
 * Single-precision floats as the register machine sees them.
 *
 * An `f32` is known by its IEEE-754 bit pattern. What the machine decides from
 * the bits alone (finiteness, zero, sign, `abs`, negation, truthiness) is
 * defined here exactly; rounding arithmetic and the casts between floats and
 * integers are parameters collected in `Casts`.
 */
module Float32 {
  import opened Bits
  import opened Int32

  /** An `f32`, identified by its IEEE-754 bit pattern. */
  datatype F32 = F32(bits: bv32)

  const SIGN: bv32 := 0x8000_0000
  const EXPONENT: bv32 := 0x7F80_0000
  const MAGNITUDE: bv32 := 0x7FFF_FFFF

  /** `0.0_f32` and `1.0_f32` (`f32::FALSE` and `f32::TRUE`), and `-1.0_f32`. */
  const ZERO: F32 := F32(0)
  const ONE: F32 := F32(0x3F80_0000)
  const MINUS_ONE: F32 := F32(0xBF80_0000)

  /** `f32::NAN`. */
  const NAN: F32 := F32(0x7FC0_0000)

  /** `COMPARISON_EPSILON`, the nearest `f32` to 0.000001. */
  const EPSILON: F32 := F32(0x3586_37BD)

  /** `f32::is_finite`: the exponent field is not all ones. */
  predicate IsFinite(f: F32) {
    f.bits & EXPONENT != EXPONENT
  }

  /** `f32::is_nan`: all-ones exponent with a nonzero fraction. */
  predicate IsNaN(f: F32) {
    !IsFinite(f) && f.bits & 0x007F_FFFF != 0
  }

  /** Both zeros, `+0.0` and `-0.0`: the values equal to `0.0`. */
  predicate IsZero(f: F32) {
    f.bits & MAGNITUDE == 0
  }

  predicate SignBitSet(f: F32) {
    f.bits & SIGN != 0
  }

  /** `f > 0.0`: not NaN, not a zero, sign clear. */
  predicate GreaterThanZero(f: F32) {
    !IsNaN(f) && !IsZero(f) && !SignBitSet(f)
  }

  /** `f < 0.0`: not NaN, not a zero, sign set. */
  predicate LessThanZero(f: F32) {
    !IsNaN(f) && !IsZero(f) && SignBitSet(f)
  }

  /** `f32::abs`: clears the sign bit. */
  function FloatAbs(f: F32): F32 {
    F32(f.bits & MAGNITUDE)
  }

  /** Multiplying by `-1.0`: flips the sign bit (for a NaN only the NaN-ness matters here). */
  function FloatNeg(f: F32): F32 {
    F32(f.bits ^ SIGN)
  }

  /** `f32::signum`: `1.0` or `-1.0` by the sign bit, NaN for NaN. */
  function FloatSignum(f: F32): F32 {
    if IsNaN(f) then NAN else if SignBitSet(f) then MINUS_ONE else ONE
  }

  /**
   * `<f32 as Truthful>::is_true`: false exactly when `abs_diff(f, 0.0) <
   * COMPARISON_EPSILON`. `f - 0.0` is `f`, its `abs` clears the sign, and
   * non-NaN magnitudes compare like their bit patterns, so the test is an
   * unsigned comparison of the magnitude bits; a NaN compares false and so is
   * true, as its magnitude bits already exceed the epsilon's.
   */
  predicate FloatIsTrue(f: F32) {
    f.bits & MAGNITUDE >= EPSILON.bits
  }

  /** `<bool as NumFromBool<f32>>::from_bool`, also `bool_to_f32` and `f32_bool`. */
  function FloatFromBool(b: bool): F32 {
    if b then ONE else ZERO
  }

  /** `clean_float`: a non-finite value is replaced by `0.0`. */
  function Clean(f: F32): (r: F32)
    ensures IsFinite(r)
    ensures IsFinite(f) ==> r == f
    ensures !IsFinite(f) ==> r == ZERO
  {
    if IsFinite(f) then f else ZERO
  }

  /** The float/integer casts, supplied by the platform. */
  datatype Casts = Casts(
    toInt: F32 -> I32,      // `f as i32` (saturating, NaN becomes 0)
    toU32: F32 -> U32,      // `f as u32` (saturating, NaN and negatives become 0)
    fromInt: I32 -> F32)    // `i as f32` (rounding to nearest)

  /** What every IEEE-754 platform's casts do with zero and one. */
  predicate SaneCasts(c: Casts) {
    && c.toInt(ZERO) == 0 && c.toU32(ZERO) == 0 && c.fromInt(0) == ZERO
    && c.toInt(ONE) == 1 && c.fromInt(1) == ONE
  }

}

/** What the bit-level float definitions imply. */
module FloatFacts {
  import opened Float32

  /** Cleaning is idempotent and never touches a finite value. */
  lemma CleanIdempotent(f: F32)
    ensures Clean(Clean(f)) == Clean(f)
    ensures (Clean(f) == f) == IsFinite(f)
  {}

  /** The float bools are finite, read back as the same bool, and are not zero exactly when true. */
  lemma FloatFromBoolRoundTrip(b: bool)
    ensures IsFinite(FloatFromBool(b))
    ensures FloatIsTrue(FloatFromBool(b)) == b
    ensures IsZero(FloatFromBool(b)) == !b
  {}

  /** With sane casts, the float bools cast to the integer bools. */
  lemma FloatFromBoolCasts(c: Casts, b: bool)
    requires SaneCasts(c)
    ensures c.toInt(FloatFromBool(b)) == (if b then 1 else 0)
  {}

  /** Negation is an involution. */
  lemma NegationInvolution(f: F32)
    ensures FloatNeg(FloatNeg(f)) == f
  {
    FlipSign(f.bits);
  }

  /** Negation keeps the magnitude, finiteness and truthiness and swaps the signs. */
  lemma NegationKeeps(f: F32)
    ensures FloatAbs(FloatNeg(f)) == FloatAbs(f)
    ensures IsFinite(FloatNeg(f)) == IsFinite(f)
    ensures FloatIsTrue(FloatNeg(f)) == FloatIsTrue(f)
    ensures GreaterThanZero(FloatNeg(f)) == LessThanZero(f)
  {
    NegMagnitude(f);
    NegFinite(f);
    NegNaN(f);
    NegZero(f);
    NegSign(f);
  }

  lemma NegMagnitude(f: F32)
    ensures FloatAbs(FloatNeg(f)) == FloatAbs(f)
    ensures FloatIsTrue(FloatNeg(f)) == FloatIsTrue(f)
  {
    FlipSign(f.bits);
  }

  lemma NegFinite(f: F32)
    ensures IsFinite(FloatNeg(f)) == IsFinite(f)
  {
    FlipSign(f.bits);
  }

  lemma NegNaN(f: F32)
    ensures IsNaN(FloatNeg(f)) == IsNaN(f)
  {
    FlipSign(f.bits);
  }

  lemma NegZero(f: F32)
    ensures IsZero(FloatNeg(f)) == IsZero(f)
  {
    FlipSign(f.bits);
  }

  lemma NegSign(f: F32)
    ensures SignBitSet(FloatNeg(f)) == !SignBitSet(f)
  {
    FlipSign(f.bits);
  }

  lemma FlipSign(w: bv32)
    ensures (w ^ SIGN) ^ SIGN == w
    ensures (w ^ SIGN) & MAGNITUDE == w & MAGNITUDE
    ensures (w ^ SIGN) & EXPONENT == w & EXPONENT
    ensures (w ^ SIGN) & 0x007F_FFFF == w & 0x007F_FFFF
    ensures ((w ^ SIGN) & SIGN != 0) == (w & SIGN == 0)
  {}

  /** `abs` is idempotent, keeps finiteness and truthiness, and never leaves a negative. */
  lemma AbsFacts(f: F32)
    ensures FloatAbs(FloatAbs(f)) == FloatAbs(f)
    ensures IsFinite(FloatAbs(f)) == IsFinite(f)
    ensures FloatIsTrue(FloatAbs(f)) == FloatIsTrue(f)
    ensures !LessThanZero(FloatAbs(f))
  {
    AbsMagnitude(f);
    AbsFinite(f);
    AbsSign(f);
  }

  lemma AbsMagnitude(f: F32)
    ensures FloatAbs(FloatAbs(f)) == FloatAbs(f)
    ensures FloatIsTrue(FloatAbs(f)) == FloatIsTrue(f)
  {
    ClearSign(f.bits);
  }

  lemma AbsFinite(f: F32)
    ensures IsFinite(FloatAbs(f)) == IsFinite(f)
  {
    ClearSign(f.bits);
  }

  lemma AbsSign(f: F32)
    ensures !SignBitSet(FloatAbs(f))
  {
    ClearSign(f.bits);
  }

  lemma ClearSign(w: bv32)
    ensures (w & MAGNITUDE) & MAGNITUDE == w & MAGNITUDE
    ensures (w & MAGNITUDE) & EXPONENT == w & EXPONENT
    ensures (w & MAGNITUDE) & SIGN == 0
  {}

  /** Every non-NaN float is exactly one of: a zero, above zero, below zero. */
  lemma Trichotomy(f: F32)
    requires !IsNaN(f)
    ensures IsZero(f) || GreaterThanZero(f) || LessThanZero(f)
    ensures !(GreaterThanZero(f) && LessThanZero(f))
    ensures IsZero(f) ==> !FloatIsTrue(f)
  {}
}
