/**
 * Match-wide state that belongs to no character: the phase of the match and
 * the round timer.
 *
 * The game keeps the timer in real seconds, 180 of them for the 99 "game
 * seconds" shown on screen; the getter and setter convert between the two. The
 * timer is modelled as a `FloatValue`, so the ratios are exact reals.
 */
module MatchInfo {
  import opened Optional
  import opened Int32
  import opened Reals

  /** The phases of a match, with `Error` for a value the game should never hold. */
  datatype MatchState =
    | NotPlaying | PreIntro | Intro | Starting | RestartingFadeIn | Fighting
    | Death | DeadBody | PreOutro | Outro | Unknown10 | PostOutro | RestartingFadeOut
    | Error

  /** The `#[repr(i32)]` discriminant of each phase. */
  function Code(m: MatchState): I32 {
    match m
    case NotPlaying => 0
    case PreIntro => 1
    case Intro => 2
    case Starting => 3
    case RestartingFadeIn => 4
    case Fighting => 5
    case Death => 6
    case DeadBody => 7
    case PreOutro => 8
    case Outro => 9
    case Unknown10 => 10
    case PostOutro => 11
    case RestartingFadeOut => 12
    case Error => -1
  }

  /** `get_match_state`: the phase named by the game's value, `Error` for any other value. */
  function GetMatchState(raw: I32): MatchState {
    if raw == 0 then NotPlaying
    else if raw == 1 then PreIntro
    else if raw == 2 then Intro
    else if raw == 3 then Starting
    else if raw == 4 then RestartingFadeIn
    else if raw == 5 then Fighting
    else if raw == 6 then Death
    else if raw == 7 then DeadBody
    else if raw == 8 then PreOutro
    else if raw == 9 then Outro
    else if raw == 10 then Unknown10
    else if raw == 11 then PostOutro
    else if raw == 12 then RestartingFadeOut
    else Error
  }

  /**
   * Every phase is read back from its own discriminant, and exactly the values
   * outside 0..12 read as `Error`.
   */
  lemma GetMatchStateSpec(m: MatchState, raw: I32)
    ensures GetMatchState(Code(m)) == m
    ensures GetMatchState(raw) == Error <==> !(0 <= raw <= 12)
    ensures GetMatchState(raw) != Error ==> Code(GetMatchState(raw)) == raw
  {}

  /** `GET_TIMER_RATIO` and `SET_TIMER_RATIO`. */
  const GET_TIMER_RATIO: real := 99.0 / 180.0
  const SET_TIMER_RATIO: real := 180.0 / 99.0

  /**
   * `get_match_game_time`: a running timer converted to game seconds; zero, the
   * "infinite" marker -1 and every other non-positive value as stored.
   */
  function GetMatchGameTime(timer: FloatValue): FloatValue {
    if Positive(timer) && timer.Finite? then Finite(timer.value * GET_TIMER_RATIO)
    else timer
  }

  /**
   * `set_match_game_time`: the value written to the timer, or `None` when
   * nothing is written. Only a finite request is honoured, a negative one
   * counts as zero, and a timer that is not running (expired or infinite) is
   * never changed.
   */
  function SetMatchGameTime(newTime: FloatValue, timer: FloatValue): Option<real> {
    if !newTime.Finite? then None
    else
      var t := if newTime.value > 0.0 then newTime.value else 0.0;
      if Positive(GetMatchGameTime(timer)) then Some(t * SET_TIMER_RATIO) else None
  }

  /** Reading converts a running timer by 99/180 and passes everything else through. */
  lemma GetMatchGameTimeSpec(timer: FloatValue)
    ensures Positive(GetMatchGameTime(timer)) <==> Positive(timer)
    ensures timer.Finite? && timer.value > 0.0 ==> GetMatchGameTime(timer) == Finite(timer.value * 99.0 / 180.0)
    ensures !Positive(timer) ==> GetMatchGameTime(timer) == timer
    ensures GetMatchGameTime(Finite(-1.0)) == Finite(-1.0)
  {}

  /**
   * A write happens exactly for a finite request while the timer runs; what
   * is written is never negative, and reading it back gives the request
   * clamped at zero.
   */
  lemma SetMatchGameTimeSpec(newTime: FloatValue, timer: FloatValue)
    ensures SetMatchGameTime(newTime, timer).Some? <==> newTime.Finite? && Positive(timer)
    ensures SetMatchGameTime(newTime, timer).Some? ==>
      var w := SetMatchGameTime(newTime, timer).value;
      w >= 0.0 && GetMatchGameTime(Finite(w)) == Finite(Max(newTime.value, 0.0))
  {
    if newTime.Finite? && Positive(timer) {
      var t := Max(newTime.value, 0.0);
      assert t * SET_TIMER_RATIO * GET_TIMER_RATIO == t;
    }
  }
}
