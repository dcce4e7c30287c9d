/**
 * Starting a pull (`SuckOpponent::apply_suck`): the executing character's
 * store gets a new pull state, created on demand.
 */
module SuckEffect {
  import opened Optional
  import opened GameData
  import opened CharacterExtensions
  import opened Storage

  /** The store with the pull replaced. */
  function WithSuck(s: CharStore, suck: SuckOpponent): (CharStore, ()) {
    (s.(suck := suck), ())
  }

  /**
   * `apply_suck`: the pull `magnitude` (mirrored for a character facing left,
   * `facing` being its `get_facing`) and `delta` replace the pull in the
   * character's store, which is created if it does not exist.
   */
  function ApplySuck(m: StoreMap, exeChar: Char, facing: Facing, magnitude: real, delta: real): StoreMap {
    With(m, exeChar.ptr, s => WithSuck(s, SuckFor(facing, magnitude, delta))).0
  }

  /**
   * After `apply_suck` the character has a store whose pull is the new one and
   * whose registers are what they were (defaults for a new store); no other
   * store changes.
   */
  lemma ApplySuckSpec(m: StoreMap, exeChar: Char, facing: Facing, magnitude: real, delta: real)
    ensures var m' := ApplySuck(m, exeChar, facing, magnitude, delta);
      && exeChar.ptr in m'
      && m'.Keys == m.Keys + {exeChar.ptr}
      && m'[exeChar.ptr].suck == SuckFor(facing, magnitude, delta)
      && m'[exeChar.ptr].suck.magnitude == (if facing == Left then -magnitude else magnitude)
      && (exeChar.ptr in m ==> m'[exeChar.ptr] == m[exeChar.ptr].(suck := SuckFor(facing, magnitude, delta)))
      && (exeChar.ptr !in m ==> m'[exeChar.ptr] == NewStore(exeChar.ptr).(suck := SuckFor(facing, magnitude, delta)))
      && forall k :: k in m && k != exeChar.ptr ==> m'[k] == m[k]
  {
    WithSpec(m, exeChar.ptr, s => WithSuck(s, SuckFor(facing, magnitude, delta)));
  }
}
