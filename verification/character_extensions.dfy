/**
 * The "suck opponent" effect: a character pulls the opposing point character
 * sideways by a magnitude that decays by `delta` every tick until it is
 * negligible. Magnitudes are reals; the opponent's position is changed by a
 * returned motion.
 */
module CharacterExtensions {
  import opened Optional
  import opened Reals
  import opened GameData

  const SUCK_MAX: real := 128.0
  const SUCK_EPSILON: real := 0.001

  /** `SuckOpponent`: the current pull and how much it shrinks per tick. */
  datatype SuckOpponent = SuckOpponent(delta: real, magnitude: real)

  /** The state a fresh store starts with (`CharStore::new`). */
  const NO_SUCK: SuckOpponent := SuckOpponent(0.0, 0.0)

  /** `apply_suck`'s stored state: the magnitude is mirrored for a character facing left. */
  function SuckFor(facing: Facing, magnitude: real, delta: real): (s: SuckOpponent)
    ensures s.delta == delta
    ensures AbsReal(s.magnitude) == AbsReal(magnitude)
  {
    match facing
    case Left => SuckOpponent(delta, -magnitude)
    case Right => SuckOpponent(delta, magnitude)
  }

  /**
   * The magnitude after one tick of `handle_suck`: zero when it is already
   * negligible; otherwise clamped to `SUCK_MAX` in size, moved `delta` towards
   * zero, and zeroed if that leaves it negligible on its side.
   */
  function Decay(s: SuckOpponent): real {
    var m := s.magnitude;
    if AbsReal(m) < SUCK_EPSILON then 0.0
    else if m > 0.0 then
      var n := Min(m, SUCK_MAX) - s.delta;
      if n < SUCK_EPSILON then 0.0 else n
    else
      var n := Max(m, -SUCK_MAX) + s.delta;
      if n > -SUCK_EPSILON then 0.0 else n
  }

  /** A horizontal move of a character by `dx` (`set_x_pos(get_x_pos() + dx)`). */
  datatype Motion = Motion(target: Char, dx: real)

  /** One tick of `handle_suck`: the new state and the opponent's move, if any. */
  function HandleSuck(s: SuckOpponent, r: Roster, owner: Char): (SuckOpponent, Option<Motion>) {
    var next := s.(magnitude := Decay(s));
    if next.magnitude == 0.0 then (next, None)
    else match OpponentPoint(r, owner)
      case Some(op) => (next, Some(Motion(op, next.magnitude)))
      case None => (next, None)
  }

  /** The decay is the same for both signs: pulling left mirrors pulling right. */
  lemma DecaySymmetric(delta: real, m: real)
    ensures Decay(SuckOpponent(delta, -m)) == -Decay(SuckOpponent(delta, m))
  {}

  /**
   * With a non-negative delta the magnitude never grows past `SUCK_MAX` and
   * never changes sign; a surviving magnitude is never negligible.
   */
  lemma DecayBounded(s: SuckOpponent)
    requires s.delta >= 0.0
    ensures var n := Decay(s);
      -SUCK_MAX <= n <= SUCK_MAX
      && (n > 0.0 ==> s.magnitude > 0.0)
      && (n < 0.0 ==> s.magnitude < 0.0)
      && (n != 0.0 ==> AbsReal(n) >= SUCK_EPSILON)
  {}

  /** A positive magnitude is clamped, then reduced by `delta`; a result below the epsilon stops the pull. */
  lemma DecayPositive(s: SuckOpponent)
    requires s.magnitude >= SUCK_EPSILON
    ensures var n := Min(s.magnitude, SUCK_MAX) - s.delta;
      Decay(s) == (if n < SUCK_EPSILON then 0.0 else n)
  {}

  /**
   * The opponent's point character moves by exactly the new magnitude, and only
   * when the pull survives and an opponent resolves; the delta never changes.
   */
  lemma HandleSuckSpec(s: SuckOpponent, r: Roster, owner: Char)
    ensures HandleSuck(s, r, owner).0 == SuckOpponent(s.delta, Decay(s))
    ensures HandleSuck(s, r, owner).1.Some? <==> Decay(s) != 0.0 && IsValid(r, owner)
    ensures HandleSuck(s, r, owner).1.Some? ==>
      HandleSuck(s, r, owner).1.value == Motion(OpponentPoint(r, owner).value, Decay(s))
    ensures AbsReal(s.magnitude) < SUCK_EPSILON ==> HandleSuck(s, r, owner) == (s.(magnitude := 0.0), None)
  {
    OpponentPointSpec(r, owner);
  }

  /** A pull with nothing left to decay stays at rest. */
  lemma RestIsFixed(r: Roster, owner: Char, delta: real)
    ensures HandleSuck(SuckOpponent(delta, 0.0), r, owner) == (SuckOpponent(delta, 0.0), None)
  {}
}
