/**
 * Truthiness and bool conversion (`Truthful`, `NumFromBool`, `BoolRoundtrip`) and
 * the `Number` carrier used for variables and registers.
 */
module Math {
  import opened Int32
  import opened Float32

  /** `i32::TRUE` and `i32::FALSE`. */
  const TRUE: I32 := 1
  const FALSE: I32 := 0

  /** `<i32 as Truthful>::is_true`: everything but `FALSE` is true. */
  function IsTrue(x: I32): bool {
    x != FALSE
  }

  /** `<bool as NumFromBool<i32>>::from_bool`, also `bool_to_i32` and `i32_bool`. */
  function FromBool(b: bool): I32 {
    if b then TRUE else FALSE
  }

  /** `<i32 as BoolRoundtrip>::bool_roundtrip`. */
  function BoolRoundtrip(x: I32): (r: I32)
    ensures r == 0 || r == 1
    ensures (r == 1) == (x != 0)
  {
    FromBool(IsTrue(x))
  }

  /** Converting a bool to an integer and testing it gives the bool back. */
  lemma IsTrueFromBool(b: bool)
    ensures IsTrue(FromBool(b)) == b
    ensures FromBool(b) == 0 || FromBool(b) == 1
  {}

  /** Normalising a value twice is normalising it once. */
  lemma BoolRoundtripIdempotent(x: I32)
    ensures BoolRoundtrip(BoolRoundtrip(x)) == BoolRoundtrip(x)
    ensures IsTrue(BoolRoundtrip(x)) == IsTrue(x)
  {}

  /** A value carried with its type: `Number::F32` or `Number::I32`. */
  datatype Number = NumF32(f: F32) | NumI32(i: I32)

  /** `Number::TRUE` and `Number::FALSE`. */
  const NUMBER_TRUE: Number := NumI32(TRUE)
  const NUMBER_FALSE: Number := NumI32(FALSE)

  /** `Number::into_int`: an integer payload as is, a float payload cast with `as i32`. */
  function IntoInt(c: Casts, n: Number): (r: I32)
    ensures n.NumI32? ==> r == n.i
  {
    match n
    case NumF32(f) => c.toInt(f)
    case NumI32(i) => i
  }

  /** `Number::into_float`: a float payload as is, an integer payload cast with `as f32`. */
  function IntoFloat(c: Casts, n: Number): (r: F32)
    ensures n.NumF32? ==> r == n.f
  {
    match n
    case NumF32(f) => f
    case NumI32(i) => c.fromInt(i)
  }

  /** `<Number as Truthful>::is_true`: the payload's own truthiness. */
  function NumberIsTrue(n: Number): bool {
    match n
    case NumF32(f) => FloatIsTrue(f)
    case NumI32(i) => IsTrue(i)
  }

  /** `<bool as NumFromBool<Number>>::from_bool`: always an integer 1 or 0. */
  function NumberFromBool(b: bool): (r: Number)
    ensures r.NumI32? && r.i == FromBool(b)
  {
    if b then NUMBER_TRUE else NUMBER_FALSE
  }

  /** `<Number as BoolRoundtrip>::bool_roundtrip`. */
  function NumberBoolRoundtrip(n: Number): Number {
    NumberFromBool(NumberIsTrue(n))
  }

  /** An integer payload round-trips through `Number`, and truthiness is the payload's. */
  lemma NumberOfInt(c: Casts, i: I32)
    ensures IntoInt(c, NumI32(i)) == i
    ensures IntoFloat(c, NumI32(i)) == c.fromInt(i)
    ensures NumberIsTrue(NumI32(i)) == (i != 0)
    ensures NumberBoolRoundtrip(NumI32(i)) == NumI32(BoolRoundtrip(i))
  {}

  /** A bool stored as a `Number` reads back as the same bool. */
  lemma NumberFromBoolIsTrue(c: Casts, b: bool)
    ensures NumberIsTrue(NumberFromBool(b)) == b
    ensures IntoInt(c, NumberFromBool(b)) == FromBool(b)
  {}
}
