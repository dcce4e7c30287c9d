/**
 * The work done at the start of every character's update tick: clearing all
 * stores once when a round restarts, then advancing the character's pull.
 */
module CharacterTick {
  import opened Optional
  import opened Reals
  import opened GameData
  import opened CharacterExtensions
  import opened Storage
  import opened MatchInfo

  /** Whether the stores were cleared for the current restart. */
  datatype RestartState = Awaiting | JustRestarted

  /** `RESTART_TIME`: frame-timer seconds within which a restart is recognised. */
  const RESTART_TIME: real := 1.01

  /** The phases in which a round (re)starts. */
  predicate IsRestartPhase(m: MatchState) {
    m == RestartingFadeIn || m == PreIntro || m == Intro
  }

  /**
   * The restart latch of `generic_character_tick`: the next latch state and
   * whether `reset_all` runs. `timer` is `get_match_frame_time`.
   */
  function StepRestart(state: RestartState, phase: MatchState, timer: FloatValue): (RestartState, bool) {
    match state
    case Awaiting =>
      if IsRestartPhase(phase) && AtMost(timer, RESTART_TIME) then (JustRestarted, true) else (Awaiting, false)
    case JustRestarted =>
      if Above(timer, RESTART_TIME) then (Awaiting, false) else (JustRestarted, false)
  }

  /** What one character tick does to the shared state, and the move it applies to an opponent. */
  datatype TickResult = TickResult(state: RestartState, stores: StoreMap, motion: Option<Motion>)

  /** The pull of the owner's store advanced by one tick. */
  function AdvanceSuck(r: Roster, owner: Char, s: CharStore): CharStore {
    s.(suck := HandleSuck(s.suck, r, owner).0)
  }

  /**
   * `generic_character_tick`: step the latch, clear every store if it fires,
   * then advance the owner's pull only if the owner has a store.
   */
  function GenericCharacterTick(state: RestartState, phase: MatchState, timer: FloatValue,
                                m: StoreMap, r: Roster, owner: Char): TickResult {
    var (state', reset) := StepRestart(state, phase, timer);
    var m1 := if reset then ResetAll(m) else m;
    var motion := if owner.ptr in m1 then HandleSuck(m1[owner.ptr].suck, r, owner).1 else None;
    TickResult(state', WithNoMake(m1, owner.ptr, s => AdvanceSuck(r, owner, s)), motion)
  }

  /**
   * The stores are cleared exactly when the latch is waiting, the match is in
   * a starting phase and the frame timer is at most `RESTART_TIME`; a cleared
   * latch never clears again until the timer has passed `RESTART_TIME`.
   */
  lemma StepRestartSpec(state: RestartState, phase: MatchState, timer: FloatValue)
    ensures StepRestart(state, phase, timer).1 <==>
      state == Awaiting && IsRestartPhase(phase) && AtMost(timer, RESTART_TIME)
    ensures StepRestart(state, phase, timer).1 ==> StepRestart(state, phase, timer).0 == JustRestarted
    ensures StepRestart(state, phase, timer).0 == Awaiting ==>
      state == Awaiting || Above(timer, RESTART_TIME)
    ensures state == JustRestarted && !Above(timer, RESTART_TIME) ==>
      StepRestart(state, phase, timer) == (JustRestarted, false)
  {}

  /** Two ticks at the same restart moment clear the stores at most once. */
  lemma ResetAtMostOnce(state: RestartState, phase: MatchState, timer: FloatValue)
    requires StepRestart(state, phase, timer).1
    ensures !StepRestart(StepRestart(state, phase, timer).0, phase, timer).1
  {}

  /**
   * A tick that clears the stores leaves none, so the owner moves nobody; a
   * tick that does not clear them advances the owner's pull, moves the
   * opponent as `handle_suck` says, and leaves every other store alone. An
   * owner without a store gets none.
   */
  lemma GenericCharacterTickSpec(state: RestartState, phase: MatchState, timer: FloatValue,
                                 m: StoreMap, r: Roster, owner: Char)
    ensures var t := GenericCharacterTick(state, phase, timer, m, r, owner);
      && t.state == StepRestart(state, phase, timer).0
      && (StepRestart(state, phase, timer).1 ==> t.stores == map[] && t.motion == None)
      && (!StepRestart(state, phase, timer).1 ==>
            && t.stores.Keys == m.Keys
            && (owner.ptr in m ==>
                  && t.stores[owner.ptr].suck == HandleSuck(m[owner.ptr].suck, r, owner).0
                  && t.stores[owner.ptr].floats == m[owner.ptr].floats
                  && t.stores[owner.ptr].ints == m[owner.ptr].ints
                  && t.motion == HandleSuck(m[owner.ptr].suck, r, owner).1)
            && (owner.ptr !in m ==> t.stores == m && t.motion == None)
            && forall k :: k in m && k != owner.ptr ==> t.stores[k] == m[k])
  {
    var (state', reset) := StepRestart(state, phase, timer);
    var m1 := if reset then ResetAll(m) else m;
    WithNoMakeSpec(m1, owner.ptr, s => AdvanceSuck(r, owner, s));
  }
}
