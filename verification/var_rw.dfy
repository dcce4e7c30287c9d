/**
 * The gameplay variables that commands read and write by numeric ID (the
 * `MatchState` variable table of `var_rw`).
 *
 * Each variable has a read closure giving a typed `Number` and a write closure
 * taking the stored value. Reading an ID outside the table gives the integer
 * 0 and writing one does nothing. A variable of a character reads 0 and is not
 * written unless its owner passes a validity gate. Game memory is a `Game`
 * record of raw readings; a store returns the write it performs as a `Write`
 * value instead of performing it.
 */
module VarRw {
  import opened Optional
  import opened Bits
  import opened Int32
  import opened Float32
  import opened Math
  import opened BinaryOperators
  import opened GameData
  import opened MatchInfo

  datatype Var =
    | Timer | FrameTimerReadOnly | MatchStateReadOnly
    | Health | RedHealth | MaxHealth | AnmChrIdReadonly
    | XPosition | YPosition
    | SpecialAirActionCounter | NormalAirActionCounter | CharacterComboCounter | AssistCooldown
    | Meter | TeamComboCounterReadOnly | InputsReadOnly | InputsForwardBackwardReadOnly | InputsUpDownReadOnly
    | FacingReadOnly | CharOrderReadOnly | AssistType
    | ConditionRegister
    | AirGroundStateFlags
    | FlyingScreenInstallFlag

  /** The `#[repr(u32)]` ID of each variable. */
  function Id(v: Var): U32 {
    match v
    case Timer => 0x00
    case FrameTimerReadOnly => 0x01
    case MatchStateReadOnly => 0x02
    case Health => 0x10
    case RedHealth => 0x11
    case MaxHealth => 0x12
    case AnmChrIdReadonly => 0x13
    case XPosition => 0x20
    case YPosition => 0x21
    case SpecialAirActionCounter => 0x30
    case NormalAirActionCounter => 0x31
    case CharacterComboCounter => 0x32
    case AssistCooldown => 0x33
    case Meter => 0x40
    case TeamComboCounterReadOnly => 0x41
    case InputsReadOnly => 0x42
    case InputsForwardBackwardReadOnly => 0x43
    case InputsUpDownReadOnly => 0x44
    case FacingReadOnly => 0xB0
    case CharOrderReadOnly => 0xB1
    case AssistType => 0xB2
    case ConditionRegister => 0xC0
    case AirGroundStateFlags => 0xF0
    case FlyingScreenInstallFlag => 0x1000
  }

  /** `FromPrimitive::from_u32`: the variable with this ID, if any. */
  function FromId(id: U32): Option<Var> {
    if id == 0x00 then Some(Timer)
    else if id == 0x01 then Some(FrameTimerReadOnly)
    else if id == 0x02 then Some(MatchStateReadOnly)
    else if id == 0x10 then Some(Health)
    else if id == 0x11 then Some(RedHealth)
    else if id == 0x12 then Some(MaxHealth)
    else if id == 0x13 then Some(AnmChrIdReadonly)
    else if id == 0x20 then Some(XPosition)
    else if id == 0x21 then Some(YPosition)
    else if id == 0x30 then Some(SpecialAirActionCounter)
    else if id == 0x31 then Some(NormalAirActionCounter)
    else if id == 0x32 then Some(CharacterComboCounter)
    else if id == 0x33 then Some(AssistCooldown)
    else if id == 0x40 then Some(Meter)
    else if id == 0x41 then Some(TeamComboCounterReadOnly)
    else if id == 0x42 then Some(InputsReadOnly)
    else if id == 0x43 then Some(InputsForwardBackwardReadOnly)
    else if id == 0x44 then Some(InputsUpDownReadOnly)
    else if id == 0xB0 then Some(FacingReadOnly)
    else if id == 0xB1 then Some(CharOrderReadOnly)
    else if id == 0xB2 then Some(AssistType)
    else if id == 0xC0 then Some(ConditionRegister)
    else if id == 0xF0 then Some(AirGroundStateFlags)
    else if id == 0x1000 then Some(FlyingScreenInstallFlag)
    else None
  }

  /** Every variable is found by its own ID and by no other: the table is injective. */
  lemma FromIdSpec(v: Var, id: U32)
    ensures FromId(Id(v)) == Some(v)
    ensures FromId(id) == Some(v) <==> Id(v) == id
  {}

  /** Which owner check guards a variable. */
  datatype Gate =
    | Global            // not tied to a character
    | IfValid           // `Char::if_valid`: the owner itself, if it is on a team
    | IfValidAncestor   // `Char::if_valid_ancestor`: the owner's resolved ancestor
    | IfValidPoint      // `Char::if_valid_point`: the owner's resolved point character

  function GateOf(v: Var): Gate {
    match v
    case Timer | FrameTimerReadOnly | MatchStateReadOnly => Global
    case Health | RedHealth | MaxHealth | SpecialAirActionCounter | NormalAirActionCounter
      | AssistCooldown | CharOrderReadOnly | AssistType | FlyingScreenInstallFlag => IfValidAncestor
    case InputsReadOnly | InputsForwardBackwardReadOnly | InputsUpDownReadOnly => IfValidPoint
    case _ => IfValid
  }

  /** The variables whose write closure is empty. */
  predicate ReadOnly(v: Var) {
    v in {FrameTimerReadOnly, MatchStateReadOnly, AnmChrIdReadonly, TeamComboCounterReadOnly,
          InputsReadOnly, InputsForwardBackwardReadOnly, InputsUpDownReadOnly,
          FacingReadOnly, CharOrderReadOnly}
  }

  /** The variables whose read closure gives `Number::F32`. */
  predicate IsFloatVar(v: Var) {
    v in {Timer, FrameTimerReadOnly, Health, RedHealth, XPosition, YPosition, AssistCooldown, Meter}
  }

  /**
   * The game as the read closures see it. `ancestor` and `point` stand for
   * `Char::if_valid_ancestor` and `Char::if_valid_point`, which resolve an
   * owner address to the character they act on, or to nothing; `floatField`
   * and `intField` are the character getters the table calls.
   */
  datatype Game = Game(
    roster: Roster,
    gameTime: F32,                  // `get_match_game_time`
    frameTime: F32,                 // `get_match_frame_time`
    matchStateRaw: I32,             // the value `get_match_state` decodes
    ancestor: Ptr -> Option<Char>,
    point: Ptr -> Option<Char>,
    floatField: (Char, Var) -> F32,
    intField: (Char, Var) -> I32,
    meter: Player -> F32,
    teamCombo: Player -> I32,
    facingByte: Char -> bv8,
    flyingScreenByte: Char -> bv8)

  /** The character a gated variable acts on, if its owner passes the gate. */
  function Subject(g: Game, gate: Gate, ptr: Ptr): Option<Char> {
    match gate
    case Global => None
    case IfValid => if IsValid(g.roster, Char(ptr)) then Some(Char(ptr)) else None
    case IfValidAncestor => g.ancestor(ptr)
    case IfValidPoint => g.point(ptr)
  }

  /** The read closure of each variable, for the owner at `ptr`. */
  function Load(g: Game, v: Var, ptr: Ptr): Number {
    var subject := Subject(g, GateOf(v), ptr);
    match v
    case Timer => NumF32(g.gameTime)
    case FrameTimerReadOnly => NumF32(g.frameTime)
    case MatchStateReadOnly => NumI32(MatchInfo.Code(GetMatchState(g.matchStateRaw)))
    case Meter =>
      NumF32(if subject.Some? && CharPlayer(g.roster, subject.value).Some?
             then g.meter(CharPlayer(g.roster, subject.value).value) else ZERO)
    case TeamComboCounterReadOnly =>
      NumI32(if subject.Some? && CharPlayer(g.roster, subject.value).Some?
             then g.teamCombo(CharPlayer(g.roster, subject.value).value) else 0)
    case FacingReadOnly =>
      NumI32(if subject.Some? then FromBool(FacingOf(g.facingByte(subject.value)) == Left) else 0)
    case FlyingScreenInstallFlag =>
      NumI32(if subject.Some? then FromBool(GetFlag(g.flyingScreenByte(subject.value), FLYING_SCREEN_INSTALL)) else 0)
    case Health | RedHealth | XPosition | YPosition | AssistCooldown =>
      NumF32(if subject.Some? then g.floatField(subject.value, v) else ZERO)
    case MaxHealth | AnmChrIdReadonly | SpecialAirActionCounter | NormalAirActionCounter
      | CharacterComboCounter | InputsReadOnly | InputsForwardBackwardReadOnly | InputsUpDownReadOnly
      | CharOrderReadOnly | AssistType | ConditionRegister | AirGroundStateFlags =>
      NumI32(if subject.Some? then g.intField(subject.value, v) else 0)
  }

  /** `load`: the variable's read closure, or the integer 0 for an ID outside the table. */
  function LoadId(g: Game, id: U32, ptr: Ptr): Number {
    match FromId(id)
    case Some(v) => Load(g, v, ptr)
    case None => NumI32(0)
  }

  /** `load_f32`: an integer is cast `as f32`, a non-finite float reads as 0. */
  function LoadF32(c: Casts, g: Game, id: U32, ptr: Ptr): F32 {
    match LoadId(g, id, ptr)
    case NumI32(i) => c.fromInt(i)
    case NumF32(f) => Clean(f)
  }

  /** `load_i32`: a finite float is cast `as i32`, a non-finite one reads as 0. */
  function LoadI32(c: Casts, g: Game, id: U32, ptr: Ptr): I32 {
    match LoadId(g, id, ptr)
    case NumI32(i) => i
    case NumF32(f) => FiniteToInt(c, f)
  }

  /** The effect of a write closure on the game. */
  datatype Write =
    | SetGameTime(time: F32)                          // `set_match_game_time`
    | SetField(target: Char, v: Var, number: Number)  // the variable's setter on a character
    | SetPlayerMeter(player: Player, meter: F32)      // `Player::set_meter`
    | SetFlyingScreenByte(target: Char, byte: bv8)    // the flag byte after `set_flying_screen_install`

  /**
   * The write closure of each variable, given the value the store function
   * passes (an `f32` from `store_f32`, an `i32` from `store_i32`); the closure
   * casts it to the type of the setter it calls.
   */
  function Store(c: Casts, g: Game, v: Var, ptr: Ptr, value: Number): Option<Write> {
    var subject := Subject(g, GateOf(v), ptr);
    match v
      case FrameTimerReadOnly | MatchStateReadOnly | AnmChrIdReadonly | TeamComboCounterReadOnly
        | InputsReadOnly | InputsForwardBackwardReadOnly | InputsUpDownReadOnly
        | FacingReadOnly | CharOrderReadOnly => None
      case Timer => Some(SetGameTime(IntoFloat(c, value)))
      case Meter =>
        if subject.Some? && CharPlayer(g.roster, subject.value).Some?
        then Some(SetPlayerMeter(CharPlayer(g.roster, subject.value).value, IntoFloat(c, value)))
        else None
      case FlyingScreenInstallFlag =>
        if subject.Some?
        then
          var b := g.flyingScreenByte(subject.value);
          Some(SetFlyingScreenByte(subject.value, SetFlag(b, FLYING_SCREEN_INSTALL, IsTrue(IntoInt(c, value)))))
        else None
      case Health | RedHealth | XPosition | YPosition | AssistCooldown =>
        if subject.Some? then Some(SetField(subject.value, v, NumF32(IntoFloat(c, value)))) else None
      case MaxHealth | SpecialAirActionCounter | NormalAirActionCounter | CharacterComboCounter
        | AssistType | ConditionRegister | AirGroundStateFlags =>
        if subject.Some? then Some(SetField(subject.value, v, NumI32(IntoInt(c, value)))) else None
  }

  /** `store_f32`. */
  function StoreF32(c: Casts, g: Game, id: U32, ptr: Ptr, newValue: F32): Option<Write> {
    match FromId(id)
    case Some(v) => Store(c, g, v, ptr, NumF32(newValue))
    case None => None
  }

  /** `store_i32`. */
  function StoreI32(c: Casts, g: Game, id: U32, ptr: Ptr, newValue: I32): Option<Write> {
    match FromId(id)
    case Some(v) => Store(c, g, v, ptr, NumI32(newValue))
    case None => None
  }

  /** The game after a flag-byte write; other writes go to memory this model does not read back. */
  function ApplyFlagWrite(g: Game, w: Write): Game {
    match w
    case SetFlyingScreenByte(target, b) =>
      g.(flyingScreenByte := ch => if ch == target then b else g.flyingScreenByte(ch))
    case _ => g
  }

  // ---------------------------------------------------------------------
  // Properties

  /** An ID outside the table loads as the integer 0, through both typed loads, and stores nothing. */
  lemma UnknownIdSpec(c: Casts, g: Game, id: U32, ptr: Ptr, f: F32, i: I32)
    requires FromId(id).None?
    ensures LoadId(g, id, ptr) == NumI32(0)
    ensures LoadI32(c, g, id, ptr) == 0 && LoadF32(c, g, id, ptr) == c.fromInt(0)
    ensures StoreF32(c, g, id, ptr, f).None? && StoreI32(c, g, id, ptr, i).None?
  {}

  /** A read-only variable's write closure does nothing, whatever the value and the owner. */
  lemma ReadOnlySpec(c: Casts, g: Game, v: Var, ptr: Ptr, f: F32, i: I32)
    requires ReadOnly(v)
    ensures StoreF32(c, g, Id(v), ptr, f).None? && StoreI32(c, g, Id(v), ptr, i).None?
  {
    FromIdSpec(v, Id(v));
  }

  /**
   * Every variable of a character reads as 0 of its own type and is never
   * written when its owner fails the gate; `Global` variables have no gate.
   */
  lemma GateSpec(c: Casts, g: Game, v: Var, ptr: Ptr, value: Number)
    requires GateOf(v) != Global && Subject(g, GateOf(v), ptr).None?
    ensures Load(g, v, ptr) == (if IsFloatVar(v) then NumF32(ZERO) else NumI32(0))
    ensures Store(c, g, v, ptr, value).None?
  {}

  /** The read closure's variant is the variable's declared type, and a written value is cast to it. */
  lemma TypeSpec(c: Casts, g: Game, v: Var, ptr: Ptr, value: Number)
    ensures Load(g, v, ptr).NumF32? <==> IsFloatVar(v)
    ensures var w := Store(c, g, v, ptr, value);
      w.Some? && w.value.SetField? ==>
        w.value.number == (if IsFloatVar(v) then NumF32(IntoFloat(c, value)) else NumI32(IntoInt(c, value)))
    ensures Store(c, g, v, ptr, value).Some? ==> !ReadOnly(v)
  {
    LoadTypeIsDeclared(g, v, ptr);
    StoreCastsToDeclared(c, g, v, ptr, value);
  }

  /** The load half of `TypeSpec`. */
  lemma LoadTypeIsDeclared(g: Game, v: Var, ptr: Ptr)
    ensures Load(g, v, ptr).NumF32? <==> IsFloatVar(v)
  {}

  /** The store half of `TypeSpec`. */
  lemma StoreCastsToDeclared(c: Casts, g: Game, v: Var, ptr: Ptr, value: Number)
    ensures var w := Store(c, g, v, ptr, value);
      w.Some? && w.value.SetField? ==>
        w.value.number == (if IsFloatVar(v) then NumF32(IntoFloat(c, value)) else NumI32(IntoInt(c, value)))
    ensures Store(c, g, v, ptr, value).Some? ==> !ReadOnly(v)
  {}

  /**
   * `load_i32` passes an integer through, casts a finite float `as i32` and
   * reads a non-finite one as 0; `load_f32` casts an integer `as f32` and
   * reads a non-finite float as 0.0, so it never returns a non-finite value.
   */
  lemma TypedLoadSpec(c: Casts, g: Game, id: U32, ptr: Ptr)
    ensures LoadId(g, id, ptr).NumI32? ==> LoadI32(c, g, id, ptr) == LoadId(g, id, ptr).i
    ensures LoadId(g, id, ptr).NumF32? ==>
      LoadI32(c, g, id, ptr) == (if IsFinite(LoadId(g, id, ptr).f) then c.toInt(LoadId(g, id, ptr).f) else 0)
    ensures LoadId(g, id, ptr).NumF32? ==> IsFinite(LoadF32(c, g, id, ptr))
    ensures LoadId(g, id, ptr).NumF32? && IsFinite(LoadId(g, id, ptr).f) ==> LoadF32(c, g, id, ptr) == LoadId(g, id, ptr).f
  {}

  /**
   * Storing an integer into the flying screen install flag sets the flag to
   * its truthiness without touching the other bits of the byte, and the flag
   * then reads back as 1 or 0: the value's `bool_roundtrip`.
   */
  lemma FlyingScreenRoundTrip(c: Casts, g: Game, ptr: Ptr, x: I32)
    requires g.ancestor(ptr).Some?
    ensures var w := StoreI32(c, g, Id(FlyingScreenInstallFlag), ptr, x);
      && w.Some?
      && w.value == SetFlyingScreenByte(g.ancestor(ptr).value,
           SetFlag(g.flyingScreenByte(g.ancestor(ptr).value), FLYING_SCREEN_INSTALL, IsTrue(x)))
      && LoadI32(c, ApplyFlagWrite(g, w.value), Id(FlyingScreenInstallFlag), ptr) == BoolRoundtrip(x)
  {
    FromIdSpec(FlyingScreenInstallFlag, Id(FlyingScreenInstallFlag));
    var target := g.ancestor(ptr).value;
    FlagRoundTrip(g.flyingScreenByte(target), FLYING_SCREEN_INSTALL, IsTrue(x));
  }

  /** The match state variable reads the decoded phase's discriminant: a value in -1..12. */
  lemma MatchStateVarSpec(g: Game, ptr: Ptr)
    ensures Load(g, MatchStateReadOnly, ptr) == NumI32(MatchInfo.Code(GetMatchState(g.matchStateRaw)))
    ensures -1 <= Load(g, MatchStateReadOnly, ptr).i <= 12
  {}
}
