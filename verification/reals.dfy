/**
 * `f32` values where only their size matters: the clamps and decays on health,
 * meter, the match timer and the suck effect compare and add floats but never
 * look at their bits. Such a value is a finite real, an infinity of either sign,
 * or NaN; `is_finite` holds of the first kind only.
 */
module Reals {

  datatype FloatValue = Finite(value: real) | Infinity(negative: bool) | NaN

  /** `v > 0.0`: true of positive reals and of positive infinity, never of NaN. */
  predicate Positive(v: FloatValue) {
    match v
    case Finite(x) => x > 0.0
    case Infinity(negative) => !negative
    case NaN => false
  }

  /** `v <= x` for a finite bound `x`: false for NaN, as every comparison with NaN. */
  predicate AtMost(v: FloatValue, x: real) {
    match v
    case Finite(y) => y <= x
    case Infinity(negative) => negative
    case NaN => false
  }

  /** `v > x` for a finite bound `x`. */
  predicate Above(v: FloatValue, x: real) {
    match v
    case Finite(y) => y > x
    case Infinity(negative) => !negative
    case NaN => false
  }

  function Max(a: real, b: real): real {
    if a >= b then a else b
  }

  function Min(a: real, b: real): real {
    if a <= b then a else b
  }

  function AbsReal(a: real): real {
    if a < 0.0 then -a else a
  }
}
