/**
 * The register-machine commands the mod adds to the game's anmchr scripts
 * (`handle_ano_command` and the functions it calls).
 *
 * A command decodes its operands from a fixed window of bytes (module
 * `AnmchrOperands`) and acts on the register store of the executing
 * character, or of a character related to it. Its result is an `Effect`:
 * the store map afterwards and the condition-register write it performs, if
 * any. Helpers the commands call but whose definitions are not part of this
 * model (register flags, indirect registers, operand replacement, bool
 * registers, character relations, projectile filters) are fields of an `Api`
 * value, with no property assumed of them unless a lemma says so.
 */
module AnmchrCommands {
  import opened Optional
  import opened Bits
  import opened Int32
  import opened Float32
  import opened Math
  import opened BinaryOperators
  import opened UnaryOperators
  import opened GameData
  import opened Storage
  import VarRw
  import Ops = AnmchrOperands

  /** The flag bits the commands test (`RegisterFlags`). */
  datatype RegisterFlags = RegisterFlags(
    destinationIndirect: bool,
    lhsIndirect: bool,
    rhsIndirect: bool,
    destinationBool: bool,
    lhsBool: bool)

  /** The commands' view of a register's type: the store's two, plus `Bool` when a flag says so. */
  datatype Kind = FloatKind | IntKind | BoolKind

  /** A register's kind: `Bool` when its flag is set, otherwise what `identify` says. */
  function KindOf(index: bv8, isBool: bool): Kind {
    if isBool then BoolKind
    else match Identify(index)
      case FloatRegister => FloatKind
      case IntRegister => IntKind
  }

  /** The helpers the commands call whose definitions this model does not have. */
  datatype Api = Api(
    casts: Casts,
    arith: FloatArith,
    floatUnary: FloatUnary,
    trig: IntTrig,
    flags: bv8 -> RegisterFlags,                      // `RegisterFlags::read`
    resolve: (CharStore, bv8, bool) -> bv8,           // `resolve_indirect_register`
    readU32: (CharStore, bv32) -> bv32,               // `cursor_read_u32_with_replacement`
    readF32: (CharStore, bv32) -> F32,                // `cursor_read_f32_with_replacement`
    getBool: (CharStore, bv8) -> bool,                // `get_bool`
    setBool: (CharStore, bv8, bool) -> CharStore,     // `set_bool`
    getNumber: (CharStore, bv8) -> Number,            // `get_number_register`
    setNumber: (CharStore, bv8, Number) -> CharStore, // `set_number_register`
    unaryBool: (CharStore, I32, bv8, UnaryOp) -> Outcome, // `immediate_unary_operation_bool`
    compareInt: (BinaryOp, Number, I32) -> bool,      // `operate(..).is_true()` on a number and an `i32`
    compareFloat: (BinaryOp, Number, F32) -> bool,    // ... on a number and an `f32`
    compareBool: (BinaryOp, bool, bool) -> bool,      // ... on two bools
    related: (Char, bv8) -> Option<Char>,             // `related_character(CharacterRelation::decode(..))`
    nameOf: Char -> Ops.Name)                         // the game's name buffer for the character's id

  /** A write to a character's condition register (game memory). */
  datatype ConditionWrite = ConditionWrite(target: Char, value: I32)

  /** What a command leaves behind: the stores, and the condition-register write it made. */
  datatype Effect = Effect(stores: StoreMap, condition: Option<ConditionWrite>)

  /** The owner's store as `with` hands it over: the existing one, or a fresh one. */
  function StoreOf(m: StoreMap, key: Ptr): CharStore {
    if key in m then m[key] else NewStore(key)
  }

  /** The store map changes at most at `key`, which has a store afterwards. */
  predicate OnlyOwner(m: StoreMap, m': StoreMap, key: Ptr) {
    && m'.Keys == m.Keys + {key}
    && forall k :: k in m && k != key ==> m'[k] == m[k]
  }

  /** A store operation's outcome, written back, with its condition write on the store's character. */
  function Finish(m: StoreMap, key: Ptr, s: CharStore, o: Outcome): (e: Effect)
    ensures OnlyOwner(m, e.stores, key) && e.stores[key] == o.store
    ensures e.condition == Some(ConditionWrite(s.character, o.condition))
  {
    Effect(m[key := o.store], Some(ConditionWrite(s.character, o.condition)))
  }

  /** A `with` whose closure only read: the owner now has a store, and nothing else changed. */
  function Untouched(m: StoreMap, key: Ptr): (e: Effect)
    ensures OnlyOwner(m, e.stores, key) && e.stores[key] == StoreOf(m, key) && e.condition == None
    ensures key in m ==> e.stores == m
  {
    Effect(m[key := StoreOf(m, key)], None)
  }

  /** `num::FromPrimitive::from_u32` of the operation word, read with replacement from the owner's store. */
  function Operation(api: Api, s: CharStore, word: bv32): Option<BinaryOp> {
    BinaryOperators.Decode(ValueOf(api.readU32(s, word)))
  }

  function UnaryOperation(api: Api, s: CharStore, word: bv32): Option<UnaryOp> {
    UnaryOperators.Decode(ValueOf(api.readU32(s, word)))
  }

  // ---------------------------------------------------------------------
  // Register commands

  /** `LoadImmediateIntoRegister`: the immediate's bits into the destination, as its type says. */
  function LoadImmediate(api: Api, m: StoreMap, exe: Char, o: Ops.LoadImmediate): (e: Effect)
    ensures OnlyOwner(m, e.stores, exe.ptr)
  {
    var s := StoreOf(m, exe.ptr);
    var d := api.resolve(s, o.destination, api.flags(o.flags).destinationIndirect);
    Finish(m, exe.ptr, s, ReadIntoRegister(api.casts, s, d, o.immediate))
  }

  /**
   * `BinaryOperationRegisterImmediate`: with a known operation, the immediate
   * is an `f32` (read with replacement) when the destination is a float
   * register and the raw `i32` otherwise.
   */
  function RegisterImmediate(api: Api, m: StoreMap, exe: Char, o: Ops.RegisterImmediate): (e: Effect)
    ensures OnlyOwner(m, e.stores, exe.ptr)
  {
    var s := StoreOf(m, exe.ptr);
    match Operation(api, s, o.operation)
    case None => Untouched(m, exe.ptr)
    case Some(op) =>
      var f := api.flags(o.flags);
      var lhs := api.resolve(s, o.lhs, f.lhsIndirect);
      var d := api.resolve(s, o.destination, f.destinationIndirect);
      var out := match Identify(d)
        case FloatRegister => RegisterImmF32(api.arith, api.casts, s, lhs, api.readF32(s, o.immediate), d, op)
        case IntRegister => RegisterImmI32(api.arith, api.casts, s, lhs, FromBits(o.immediate), d, op);
      Finish(m, exe.ptr, s, out)
  }

  /** `BinaryOperationRegisterRegister`. */
  function RegisterRegisterCommand(api: Api, m: StoreMap, exe: Char, o: Ops.RegisterRegister): (e: Effect)
    ensures OnlyOwner(m, e.stores, exe.ptr)
  {
    var s := StoreOf(m, exe.ptr);
    match Operation(api, s, o.operation)
    case None => Untouched(m, exe.ptr)
    case Some(op) =>
      var f := api.flags(o.flags);
      var lhs := api.resolve(s, o.lhs, f.lhsIndirect);
      var rhs := api.resolve(s, o.rhs, f.rhsIndirect);
      var d := api.resolve(s, o.destination, f.destinationIndirect);
      Finish(m, exe.ptr, s, RegisterRegister(api.arith, api.casts, s, lhs, rhs, d, op))
  }

  /** Whether `UnaryOperationRegister` reaches an integer operation that panics. */
  predicate UnaryRegisterPanics(api: Api, m: StoreMap, exe: Char, o: Ops.UnaryRegister) {
    var s := StoreOf(m, exe.ptr);
    var f := api.flags(o.flags);
    var source := api.resolve(s, o.source, f.lhsIndirect);
    var d := api.resolve(s, o.destination, f.destinationIndirect);
    && UnaryOperation(api, s, o.operation).Some?
    && Identify(d) == IntRegister
    && Panics(UnaryOperation(api, s, o.operation).value, GetI32(s, source))
  }

  /** `UnaryOperationRegister`. */
  function UnaryRegisterCommand(api: Api, m: StoreMap, exe: Char, o: Ops.UnaryRegister): (e: Effect)
    requires !UnaryRegisterPanics(api, m, exe, o)
    ensures OnlyOwner(m, e.stores, exe.ptr)
  {
    var s := StoreOf(m, exe.ptr);
    match UnaryOperation(api, s, o.operation)
    case None => Untouched(m, exe.ptr)
    case Some(op) =>
      var f := api.flags(o.flags);
      var source := api.resolve(s, o.source, f.lhsIndirect);
      var d := api.resolve(s, o.destination, f.destinationIndirect);
      Finish(m, exe.ptr, s, RegisterUnary(api.floatUnary, api.trig, api.casts, s, source, d, op))
  }

  /** Whether `UnaryOperationImmediate` reaches an integer operation that panics. */
  predicate UnaryImmediatePanics(api: Api, m: StoreMap, exe: Char, o: Ops.UnaryImmediate) {
    var s := StoreOf(m, exe.ptr);
    var f := api.flags(o.flags);
    var d := api.resolve(s, o.destination, f.destinationIndirect);
    && UnaryOperation(api, s, o.operation).Some?
    && KindOf(d, f.lhsBool || f.destinationBool) == IntKind
    && Panics(UnaryOperation(api, s, o.operation).value, FromBits(o.immediate))
  }

  /**
   * `UnaryOperationImmediate`: a bool operation when either bool flag is set,
   * otherwise the destination's type picks how the immediate is read.
   */
  function UnaryImmediateCommand(api: Api, m: StoreMap, exe: Char, o: Ops.UnaryImmediate): (e: Effect)
    requires !UnaryImmediatePanics(api, m, exe, o)
    ensures OnlyOwner(m, e.stores, exe.ptr)
  {
    var s := StoreOf(m, exe.ptr);
    match UnaryOperation(api, s, o.operation)
    case None => Untouched(m, exe.ptr)
    case Some(op) =>
      var f := api.flags(o.flags);
      var d := api.resolve(s, o.destination, f.destinationIndirect);
      var out := match KindOf(d, f.lhsBool || f.destinationBool)
        case FloatKind => ImmediateUnaryF32(api.floatUnary, api.casts, s, api.readF32(s, o.immediate), d, op)
        case IntKind => ImmediateUnaryI32(api.trig, api.casts, s, FromBits(o.immediate), d, op)
        case BoolKind => api.unaryBool(s, FromBits(o.immediate), d, op);
      Finish(m, exe.ptr, s, out)
  }

  /**
   * An operation word that names no operation leaves every register as it
   * was: the only change is the store `with` creates for an owner that had
   * none, and no condition register is written.
   */
  lemma UnknownOperationChangesNothing(api: Api, m: StoreMap, exe: Char,
    ri: Ops.RegisterImmediate, rr: Ops.RegisterRegister, ur: Ops.UnaryRegister, ui: Ops.UnaryImmediate)
    requires Operation(api, StoreOf(m, exe.ptr), ri.operation).None?
    requires Operation(api, StoreOf(m, exe.ptr), rr.operation).None?
    requires UnaryOperation(api, StoreOf(m, exe.ptr), ur.operation).None?
    requires UnaryOperation(api, StoreOf(m, exe.ptr), ui.operation).None?
    ensures RegisterImmediate(api, m, exe, ri) == Effect(m[exe.ptr := StoreOf(m, exe.ptr)], None)
    ensures RegisterRegisterCommand(api, m, exe, rr) == Effect(m[exe.ptr := StoreOf(m, exe.ptr)], None)
    ensures UnaryRegisterCommand(api, m, exe, ur) == Effect(m[exe.ptr := StoreOf(m, exe.ptr)], None)
    ensures UnaryImmediateCommand(api, m, exe, ui) == Effect(m[exe.ptr := StoreOf(m, exe.ptr)], None)
    ensures exe.ptr in m ==> RegisterImmediate(api, m, exe, ri).stores == m
  {}

  /**
   * The immediate's bits land unchanged in the destination's own array, and
   * the condition register of the executing store gets the value written.
   */
  lemma LoadImmediateSpec(api: Api, m: StoreMap, exe: Char, o: Ops.LoadImmediate)
    ensures var s := StoreOf(m, exe.ptr);
      var d := api.resolve(s, o.destination, api.flags(o.flags).destinationIndirect);
      var e := LoadImmediate(api, m, exe, o);
      && WritesInto(api.casts, s, Outcome(e.stores[exe.ptr], e.condition.value.value), d, Identify(d))
      && e.condition.value.target == s.character
      && (Identify(d) == IntRegister ==> ToBits(GetI32(e.stores[exe.ptr], d)) == o.immediate)
      && (Identify(d) == FloatRegister ==> GetF32(e.stores[exe.ptr], d).bits == o.immediate)
  {
    var s := StoreOf(m, exe.ptr);
    ReadIntoRegisterSpec(api.casts, s, api.resolve(s, o.destination, api.flags(o.flags).destinationIndirect), o.immediate);
  }

  /**
   * With a known operation, the register-immediate command writes the array
   * of the destination's type, because the immediate is read with that type:
   * an integer destination gets the exact integer closure on an integer left
   * operand and the immediate's bits as an `i32`, and a float destination
   * never holds a non-finite result.
   */
  lemma RegisterImmediateSpec(api: Api, m: StoreMap, exe: Char, o: Ops.RegisterImmediate)
    requires Operation(api, StoreOf(m, exe.ptr), o.operation).Some?
    ensures var s := StoreOf(m, exe.ptr);
      var op := Operation(api, s, o.operation).value;
      var f := api.flags(o.flags);
      var lhs := api.resolve(s, o.lhs, f.lhsIndirect);
      var d := api.resolve(s, o.destination, f.destinationIndirect);
      var e := RegisterImmediate(api, m, exe, o);
      && e.condition.Some? && e.condition.value.target == s.character
      && WritesInto(api.casts, s, Outcome(e.stores[exe.ptr], e.condition.value.value), d, Identify(d))
      && (Identify(d) == IntRegister && Identify(lhs) == IntRegister ==>
            GetI32(e.stores[exe.ptr], d) == IntOp(op, GetI32(s, lhs), FromBits(o.immediate)))
      && (Identify(d) == FloatRegister ==> IsFinite(GetF32(e.stores[exe.ptr], d)))
  {
    var s := StoreOf(m, exe.ptr);
    var op := Operation(api, s, o.operation).value;
    var f := api.flags(o.flags);
    var lhs := api.resolve(s, o.lhs, f.lhsIndirect);
    var d := api.resolve(s, o.destination, f.destinationIndirect);
    if Identify(d) == FloatRegister {
      RegisterImmF32WritesFloats(api.arith, api.casts, s, lhs, api.readF32(s, o.immediate), d, op);
    } else {
      RegisterImmI32WritesInts(api.arith, api.casts, s, lhs, FromBits(o.immediate), d, op);
    }
  }

  /** With a known operation, the register-register command writes the array of the destination's type. */
  lemma RegisterRegisterCommandSpec(api: Api, m: StoreMap, exe: Char, o: Ops.RegisterRegister)
    requires Operation(api, StoreOf(m, exe.ptr), o.operation).Some?
    ensures var s := StoreOf(m, exe.ptr);
      var d := api.resolve(s, o.destination, api.flags(o.flags).destinationIndirect);
      var e := RegisterRegisterCommand(api, m, exe, o);
      && e.condition.Some? && e.condition.value.target == s.character
      && WritesInto(api.casts, s, Outcome(e.stores[exe.ptr], e.condition.value.value), d, Identify(d))
  {
    var s := StoreOf(m, exe.ptr);
    var f := api.flags(o.flags);
    RegisterRegisterDispatch(api.arith, api.casts, s, api.resolve(s, o.lhs, f.lhsIndirect),
      api.resolve(s, o.rhs, f.rhsIndirect), api.resolve(s, o.destination, f.destinationIndirect),
      Operation(api, s, o.operation).value);
  }

  /**
   * With a known operation, the unary register command writes the array of
   * the destination's type, and is the immediate form applied to the source
   * register read with that type.
   */
  lemma UnaryRegisterCommandSpec(api: Api, m: StoreMap, exe: Char, o: Ops.UnaryRegister)
    requires !UnaryRegisterPanics(api, m, exe, o)
    requires UnaryOperation(api, StoreOf(m, exe.ptr), o.operation).Some?
    ensures var s := StoreOf(m, exe.ptr);
      var op := UnaryOperation(api, s, o.operation).value;
      var f := api.flags(o.flags);
      var source := api.resolve(s, o.source, f.lhsIndirect);
      var d := api.resolve(s, o.destination, f.destinationIndirect);
      var e := UnaryRegisterCommand(api, m, exe, o);
      && e.condition.Some?
      && WritesInto(api.casts, s, Outcome(e.stores[exe.ptr], e.condition.value.value), d, Identify(d))
      && (Identify(d) == IntRegister ==>
            e.stores[exe.ptr] == ImmediateUnaryI32(api.trig, api.casts, s, GetI32(s, source), d, op).store)
      && (Identify(d) == FloatRegister ==>
            e.stores[exe.ptr] == ImmediateUnaryF32(api.floatUnary, api.casts, s, GetF32(s, source), d, op).store)
  {
    var s := StoreOf(m, exe.ptr);
    var f := api.flags(o.flags);
    UnaryDispatch(api.floatUnary, api.trig, api.casts, s, api.resolve(s, o.source, f.lhsIndirect),
      api.resolve(s, o.destination, f.destinationIndirect), UnaryOperation(api, s, o.operation).value);
  }

  /**
   * With a known operation and no bool flag, the unary immediate command
   * stores the operation's result with the destination's type and passes the
   * result, as an integer, to the condition register.
   */
  lemma UnaryImmediateCommandSpec(api: Api, m: StoreMap, exe: Char, o: Ops.UnaryImmediate)
    requires !UnaryImmediatePanics(api, m, exe, o)
    requires UnaryOperation(api, StoreOf(m, exe.ptr), o.operation).Some?
    requires !api.flags(o.flags).lhsBool && !api.flags(o.flags).destinationBool
    ensures var s := StoreOf(m, exe.ptr);
      var op := UnaryOperation(api, s, o.operation).value;
      var d := api.resolve(s, o.destination, api.flags(o.flags).destinationIndirect);
      var e := UnaryImmediateCommand(api, m, exe, o);
      && e.condition.Some?
      && (Identify(d) == IntRegister ==>
            GetI32(e.stores[exe.ptr], d) == OpI32(api.trig, op, FromBits(o.immediate))
            && e.condition.value.value == OpI32(api.trig, op, FromBits(o.immediate)))
      && (Identify(d) == FloatRegister ==>
            e.condition.value.value == api.casts.toInt(OpF32(api.floatUnary, op, api.readF32(s, o.immediate))))
  {
    var s := StoreOf(m, exe.ptr);
    var op := UnaryOperation(api, s, o.operation).value;
    var d := api.resolve(s, o.destination, api.flags(o.flags).destinationIndirect);
    if Identify(d) == IntRegister {
      ImmediateUnarySpec(api.floatUnary, api.trig, api.casts, s, api.readF32(s, o.immediate), FromBits(o.immediate), d, op);
      WriteResultSpec(api.casts, s, d, NumI32(OpI32(api.trig, op, FromBits(o.immediate))));
    }
  }

  // ---------------------------------------------------------------------
  // Variables of a related character

  /** The loading function `load_var_into_register` is given: a variable's value for a register kind. */
  type Loader = (Char, Kind, bv32) -> Number

  /** The `LoadVarIntoRegister` loader: the match-state table, read as `f32` for a float register and as `i32` otherwise. */
  function MatchStateLoader(c: Casts, g: VarRw.Game): Loader {
    (ch: Char, k: Kind, v: bv32) =>
      match k
      case FloatKind => NumF32(VarRw.LoadF32(c, g, ValueOf(v), ch.ptr))
      case _ => NumI32(VarRw.LoadI32(c, g, ValueOf(v), ch.ptr))
  }

  /**
   * `load_var_into_register`: the related character's variable into the
   * destination; with no related character the destination gets zero and no
   * condition register is written.
   */
  function LoadVar(api: Api, load: Loader, m: StoreMap, exe: Char, o: Ops.VarRegister): (e: Effect)
    ensures OnlyOwner(m, e.stores, exe.ptr)
  {
    var rel := api.related(exe, o.relation);
    var f := api.flags(o.flags);
    var s := StoreOf(m, exe.ptr);
    var d := api.resolve(s, o.register, f.destinationIndirect);
    match KindOf(d, f.destinationBool)
    case FloatKind =>
      var result := if rel.Some? then IntoFloat(api.casts, load(rel.value, FloatKind, o.variable)) else ZERO;
      Effect(m[exe.ptr := SetF32(s, d, result)],
        if rel.Some? then Some(ConditionWrite(rel.value, api.casts.toInt(result))) else None)
    case IntKind =>
      var result := if rel.Some? then IntoInt(api.casts, load(rel.value, IntKind, o.variable)) else 0;
      Effect(m[exe.ptr := SetI32(s, d, result)],
        if rel.Some? then Some(ConditionWrite(rel.value, result)) else None)
    case BoolKind =>
      var result := if rel.Some? then IntoInt(api.casts, load(rel.value, IntKind, o.variable)) else 0;
      Effect(m[exe.ptr := api.setBool(s, d, IsTrue(result))],
        if rel.Some? then Some(ConditionWrite(rel.value, result)) else None)
  }

  /** With no related character, `load_var_into_register` writes zero (or false) and touches no condition register. */
  lemma LoadVarUnresolved(api: Api, load: Loader, m: StoreMap, exe: Char, o: Ops.VarRegister)
    requires api.related(exe, o.relation).None?
    ensures var s := StoreOf(m, exe.ptr);
      var f := api.flags(o.flags);
      var d := api.resolve(s, o.register, f.destinationIndirect);
      var e := LoadVar(api, load, m, exe, o);
      && e.condition == None
      && (KindOf(d, f.destinationBool) == FloatKind ==> GetF32(e.stores[exe.ptr], d) == ZERO)
      && (KindOf(d, f.destinationBool) == IntKind ==> GetI32(e.stores[exe.ptr], d) == 0)
      && (KindOf(d, f.destinationBool) == BoolKind ==> e.stores[exe.ptr] == api.setBool(s, d, false))
  {
    var s := StoreOf(m, exe.ptr);
    var d := api.resolve(s, o.register, api.flags(o.flags).destinationIndirect);
    SetGetF32(s, d, d, ZERO);
    SetGetI32(s, d, d, 0);
  }

  /**
   * With a related character, its condition register gets the value the
   * destination now holds (as `i32`), and a numeric destination holds the
   * loader's value for its kind.
   */
  lemma LoadVarResolved(api: Api, load: Loader, m: StoreMap, exe: Char, o: Ops.VarRegister)
    requires api.related(exe, o.relation).Some?
    ensures var rel := api.related(exe, o.relation).value;
      var s := StoreOf(m, exe.ptr);
      var f := api.flags(o.flags);
      var d := api.resolve(s, o.register, f.destinationIndirect);
      var e := LoadVar(api, load, m, exe, o);
      && e.condition.Some? && e.condition.value.target == rel
      && (KindOf(d, f.destinationBool) == FloatKind ==>
            GetF32(e.stores[exe.ptr], d) == IntoFloat(api.casts, load(rel, FloatKind, o.variable))
            && e.condition.value.value == api.casts.toInt(GetF32(e.stores[exe.ptr], d)))
      && (KindOf(d, f.destinationBool) == IntKind ==>
            GetI32(e.stores[exe.ptr], d) == IntoInt(api.casts, load(rel, IntKind, o.variable))
            && e.condition.value.value == GetI32(e.stores[exe.ptr], d))
      && (KindOf(d, f.destinationBool) == BoolKind ==>
            e.stores[exe.ptr] == api.setBool(s, d, IsTrue(e.condition.value.value)))
  {
    var rel := api.related(exe, o.relation).value;
    var s := StoreOf(m, exe.ptr);
    var d := api.resolve(s, o.register, api.flags(o.flags).destinationIndirect);
    SetGetF32(s, d, d, IntoFloat(api.casts, load(rel, FloatKind, o.variable)));
    SetGetI32(s, d, d, IntoInt(api.casts, load(rel, IntKind, o.variable)));
  }

  /**
   * Loading a match-state variable: a float register gets `load_f32` of the
   * variable for the related character, an integer register gets `load_i32`.
   */
  lemma LoadMatchStateVar(api: Api, g: VarRw.Game, m: StoreMap, exe: Char, o: Ops.VarRegister)
    requires api.related(exe, o.relation).Some?
    ensures var rel := api.related(exe, o.relation).value;
      var s := StoreOf(m, exe.ptr);
      var f := api.flags(o.flags);
      var d := api.resolve(s, o.register, f.destinationIndirect);
      var e := LoadVar(api, MatchStateLoader(api.casts, g), m, exe, o);
      && (KindOf(d, f.destinationBool) == FloatKind ==>
            GetF32(e.stores[exe.ptr], d) == VarRw.LoadF32(api.casts, g, ValueOf(o.variable), rel.ptr))
      && (KindOf(d, f.destinationBool) == IntKind ==>
            GetI32(e.stores[exe.ptr], d) == VarRw.LoadI32(api.casts, g, ValueOf(o.variable), rel.ptr))
  {
    LoadVarResolved(api, MatchStateLoader(api.casts, g), m, exe, o);
  }

  /** What a store-to-variable command did: the stores, and the write it asked the variable table for. */
  datatype VarEffect<W> = VarEffect(stores: StoreMap, condition: Option<ConditionWrite>, write: Option<W>)

  /** The storing function `store_var_from_register` is given. */
  type Storer<W> = (Char, bv32, Kind, Number) -> W

  /** The `StoreVarFromRegister` storer: `store_f32` of the float value for a float register, `store_i32` of the integer value otherwise. */
  function MatchStateStorer(c: Casts, g: VarRw.Game): Storer<Option<VarRw.Write>> {
    (ch: Char, v: bv32, k: Kind, n: Number) =>
      match k
      case FloatKind => VarRw.StoreF32(c, g, ValueOf(v), ch.ptr, IntoFloat(c, n))
      case _ => VarRw.StoreI32(c, g, ValueOf(v), ch.ptr, IntoInt(c, n))
  }

  /** The value a source register holds, by kind; a bool reads as 1 or 0. */
  function SourceValue(api: Api, s: CharStore, source: bv8, k: Kind): Number {
    match k
    case FloatKind => NumF32(GetF32(s, source))
    case IntKind => NumI32(GetI32(s, source))
    case BoolKind => NumI32(FromBool(api.getBool(s, source)))
  }

  /**
   * `store_var_from_register`: returns early, before touching any store, when
   * there is no related character; otherwise stores the source register's
   * value into the related character's variable and its condition register.
   */
  function StoreVarFromRegister<W>(api: Api, store: Storer<W>, m: StoreMap, exe: Char, o: Ops.VarRegister): (e: VarEffect<W>)
    ensures api.related(exe, o.relation).Some? ==> OnlyOwner(m, e.stores, exe.ptr)
  {
    match api.related(exe, o.relation)
    case None => VarEffect(m, None, None)
    case Some(rel) =>
      var f := api.flags(o.flags);
      var s := StoreOf(m, exe.ptr);
      var source := api.resolve(s, o.register, f.lhsIndirect);
      var k := KindOf(source, f.lhsBool);
      var value := SourceValue(api, s, source, k);
      VarEffect(m[exe.ptr := s], Some(ConditionWrite(rel, IntoInt(api.casts, value))), Some(store(rel, o.variable, k, value)))
  }

  /**
   * `store_var_from_immediate`: returns early with no related character;
   * otherwise the variable's number type picks how the immediate is read, and
   * a variable without one is not written. No condition register is written.
   */
  function StoreVarFromImmediate<W>(api: Api, numberType: bv32 -> Option<Kind>,
    storeF32: (Char, bv32, F32) -> W, storeI32: (Char, bv32, I32) -> W,
    m: StoreMap, exe: Char, o: Ops.VarImmediate): (e: VarEffect<W>)
    ensures e.condition == None
  {
    match api.related(exe, o.relation)
    case None => VarEffect(m, None, None)
    case Some(rel) =>
      match numberType(o.variable)
      case Some(FloatKind) =>
        var s := StoreOf(m, exe.ptr);
        VarEffect(m[exe.ptr := s], None, Some(storeF32(rel, o.variable, api.readF32(s, o.immediate))))
      case Some(_) => VarEffect(m, None, Some(storeI32(rel, o.variable, FromBits(o.immediate))))
      case None => VarEffect(m, None, None)
  }

  /** With no related character, neither store-to-variable command has any effect. */
  lemma StoreVarUnresolved<W>(api: Api, store: Storer<W>, numberType: bv32 -> Option<Kind>,
    storeF32: (Char, bv32, F32) -> W, storeI32: (Char, bv32, I32) -> W,
    m: StoreMap, exe: Char, r: Ops.VarRegister, i: Ops.VarImmediate)
    requires api.related(exe, r.relation).None? && api.related(exe, i.relation).None?
    ensures StoreVarFromRegister(api, store, m, exe, r) == VarEffect(m, None, None)
    ensures StoreVarFromImmediate(api, numberType, storeF32, storeI32, m, exe, i) == VarEffect(m, None, None)
  {}

  /**
   * With a related character, storing from a register changes no register,
   * writes the source's value (as `i32`) to the related character's condition
   * register, and hands a match-state variable the value the register holds.
   */
  lemma StoreVarFromRegisterSpec(api: Api, g: VarRw.Game, m: StoreMap, exe: Char, o: Ops.VarRegister)
    requires api.related(exe, o.relation).Some?
    ensures var rel := api.related(exe, o.relation).value;
      var s := StoreOf(m, exe.ptr);
      var f := api.flags(o.flags);
      var source := api.resolve(s, o.register, f.lhsIndirect);
      var e := StoreVarFromRegister(api, MatchStateStorer(api.casts, g), m, exe, o);
      && e.stores[exe.ptr] == s
      && (KindOf(source, f.lhsBool) == IntKind ==>
            e.condition == Some(ConditionWrite(rel, GetI32(s, source)))
            && e.write == Some(VarRw.StoreI32(api.casts, g, ValueOf(o.variable), rel.ptr, GetI32(s, source))))
      && (KindOf(source, f.lhsBool) == FloatKind ==>
            e.condition == Some(ConditionWrite(rel, api.casts.toInt(GetF32(s, source))))
            && e.write == Some(VarRw.StoreF32(api.casts, g, ValueOf(o.variable), rel.ptr, GetF32(s, source))))
      && (KindOf(source, f.lhsBool) == BoolKind ==>
            e.condition == Some(ConditionWrite(rel, FromBool(api.getBool(s, source)))))
  {}

  // ---------------------------------------------------------------------
  // CheckCharacterName

  /**
   * The name comparison: the expected name and the character's agree up to
   * and including the expected name's first 0 byte, or over all 64 bytes
   * when it has none.
   */
  predicate NamesAgree(expected: Ops.Name, actual: Ops.Name) {
    || expected == actual
    || exists k :: 0 <= k < Ops.NAME_LENGTH && expected[k] == 0 && expected[..k + 1] == actual[..k + 1]
  }

  /** A mismatch before any 0 byte of the expected name means the names do not agree. */
  lemma MismatchDisagrees(expected: Ops.Name, actual: Ops.Name, i: nat)
    requires i < Ops.NAME_LENGTH && expected[i] != actual[i]
    requires forall j :: 0 <= j < i ==> expected[j] != 0
    ensures !NamesAgree(expected, actual)
  {
    forall k | 0 <= k < Ops.NAME_LENGTH && expected[k] == 0
      ensures expected[..k + 1] != actual[..k + 1]
    {
      assert expected[..k + 1][i] != actual[..k + 1][i];
    }
  }

  /**
   * The comparison loop of `check_character_name`: byte by byte, stopping at
   * the first mismatch (no match) or at a 0 byte of the expected name (match).
   */
  method CompareNames(expected: Ops.Name, actual: Ops.Name) returns (isMatch: bool)
    ensures isMatch == NamesAgree(expected, actual)
  {
    isMatch := true;
    var i := 0;
    while i < Ops.NAME_LENGTH
      invariant 0 <= i <= Ops.NAME_LENGTH
      invariant expected[..i] == actual[..i]
      invariant forall j :: 0 <= j < i ==> expected[j] != 0
    {
      if expected[i] != actual[i] {
        isMatch := false;
        MismatchDisagrees(expected, actual, i);
        break;
      } else if expected[i] == 0 {
        assert expected[..i + 1] == actual[..i + 1];
        break;
      }
      i := i + 1;
    }
    if i == Ops.NAME_LENGTH {
      assert expected == expected[..i] && actual == actual[..i];
    }
  }

  /**
   * `check_character_name`: compares the related character's name and writes
   * 1 or 0 to the destination (as a bool or a number, by the flags) and to
   * the executing character's condition register.
   */
  function CheckCharacterName(api: Api, m: StoreMap, exe: Char, o: Ops.NameCheck): (e: Effect)
    ensures api.related(exe, o.relation).None? ==> e == Effect(m, None)
  {
    match api.related(exe, o.relation)
    case None => Effect(m, None)
    case Some(rel) =>
      var isMatch := NamesAgree(o.expected, api.nameOf(rel));
      var result := if isMatch then 1 else 0;
      var f := api.flags(o.flags);
      var s := StoreOf(m, exe.ptr);
      var d := api.resolve(s, o.destination, f.destinationIndirect);
      var s' := if f.destinationBool then api.setBool(s, d, isMatch) else api.setNumber(s, d, NumI32(result));
      Effect(m[exe.ptr := s'], Some(ConditionWrite(exe, result)))
  }

  /**
   * The executing character's condition register gets 1 exactly when the
   * names agree and 0 otherwise, and the destination gets the same answer.
   */
  lemma CheckCharacterNameSpec(api: Api, m: StoreMap, exe: Char, o: Ops.NameCheck)
    requires api.related(exe, o.relation).Some?
    ensures var rel := api.related(exe, o.relation).value;
      var agree := NamesAgree(o.expected, api.nameOf(rel));
      var f := api.flags(o.flags);
      var s := StoreOf(m, exe.ptr);
      var d := api.resolve(s, o.destination, f.destinationIndirect);
      var e := CheckCharacterName(api, m, exe, o);
      && OnlyOwner(m, e.stores, exe.ptr)
      && e.condition == Some(ConditionWrite(exe, FromBool(agree)))
      && IsTrue(e.condition.value.value) == agree
      && (f.destinationBool ==> e.stores[exe.ptr] == api.setBool(s, d, agree))
      && (!f.destinationBool ==> e.stores[exe.ptr] == api.setNumber(s, d, NumI32(FromBool(agree))))
  {}

  // ---------------------------------------------------------------------
  // ConditionalBinaryOperation

  /** The comparison: the left register (by its kind) against the comparand (read with the same kind). */
  function ConditionPassed(api: Api, s: CharStore, comparator: BinaryOp, lhs: bv8, lhsKind: Kind, comparand: bv32): bool {
    match lhsKind
    case IntKind => api.compareInt(comparator, api.getNumber(s, lhs), FromBits(comparand))
    case FloatKind => api.compareFloat(comparator, api.getNumber(s, lhs), api.readF32(s, comparand))
    case BoolKind => api.compareBool(comparator, api.getBool(s, lhs), IsTrue(FromBits(comparand)))
  }

  /** The result operation: the destination combined with the operand, back into the destination. */
  function ResultOperation(api: Api, s: CharStore, op: BinaryOp, d: bv8, opKind: Kind, operand: bv32): Outcome {
    match opKind
    case FloatKind => RegisterImmF32(api.arith, api.casts, s, d, api.readF32(s, operand), d, op)
    case _ => RegisterImmI32(api.arith, api.casts, s, d, FromBits(operand), d, op)
  }

  /**
   * The immediate write that ends a passed conditional; a bool immediate goes
   * to `boolTarget`.
   */
  function ImmediateWrite(api: Api, s: CharStore, lhs: bv8, lhsKind: Kind, boolTarget: bv8, immediate: bv32): CharStore {
    match lhsKind
    case IntKind => SetI32(s, lhs, FromBits(immediate))
    case FloatKind => SetF32(s, lhs, api.readF32(s, immediate))
    case BoolKind => api.setBool(s, boolTarget, IsTrue(FromBits(immediate)))
  }

  /**
   * `conditional_binary_operation` with the bool immediate written to
   * `boolTarget(lhs, destination)`; shared by the code as written and by the
   * corrected version.
   */
  function ConditionalWith(api: Api, m: StoreMap, exe: Char, o: Ops.Conditional, boolToLhs: bool): (e: Effect)
    ensures OnlyOwner(m, e.stores, exe.ptr)
  {
    var s := StoreOf(m, exe.ptr);
    match (Operation(api, s, o.comparator), Operation(api, s, o.operation))
    case (Some(comparator), Some(op)) =>
      var f := api.flags(o.flags);
      var lhs := api.resolve(s, o.lhs, f.lhsIndirect);
      var d := api.resolve(s, o.destination, f.destinationIndirect);
      var lhsKind := KindOf(lhs, f.lhsBool);
      if ConditionPassed(api, s, comparator, lhs, lhsKind, o.comparand) then
        var out := ResultOperation(api, s, op, d, KindOf(d, f.destinationBool), o.operand);
        var s' := ImmediateWrite(api, out.store, lhs, lhsKind, if boolToLhs then lhs else d, o.immediate);
        Effect(m[exe.ptr := s'], Some(ConditionWrite(s.character, out.condition)))
      else
        Untouched(m, exe.ptr)
    case _ => Untouched(m, exe.ptr)
  }

  /** `conditional_binary_operation` as written: a bool immediate goes to the destination. */
  function ConditionalAsWritten(api: Api, m: StoreMap, exe: Char, o: Ops.Conditional): (e: Effect)
    ensures OnlyOwner(m, e.stores, exe.ptr)
  {
    ConditionalWith(api, m, exe, o, false)
  }

  /** `conditional_binary_operation` as intended: every immediate goes to the left register. */
  function Conditional(api: Api, m: StoreMap, exe: Char, o: Ops.Conditional): (e: Effect)
    ensures OnlyOwner(m, e.stores, exe.ptr)
  {
    ConditionalWith(api, m, exe, o, true)
  }

  /**
   * When an operation word is unknown or the comparison fails, the
   * conditional changes no register and writes no condition register.
   */
  lemma ConditionalFailedChangesNothing(api: Api, m: StoreMap, exe: Char, o: Ops.Conditional)
    requires var s := StoreOf(m, exe.ptr);
      var f := api.flags(o.flags);
      var lhs := api.resolve(s, o.lhs, f.lhsIndirect);
      || Operation(api, s, o.comparator).None? || Operation(api, s, o.operation).None?
      || !ConditionPassed(api, s, Operation(api, s, o.comparator).value, lhs, KindOf(lhs, f.lhsBool), o.comparand)
    ensures ConditionalAsWritten(api, m, exe, o) == Effect(m[exe.ptr := StoreOf(m, exe.ptr)], None)
    ensures Conditional(api, m, exe, o) == Effect(m[exe.ptr := StoreOf(m, exe.ptr)], None)
  {}

  /**
   * A passed integer or float comparison ends with the immediate in the left
   * register (a float one read with replacement, after the result operation),
   * and the version as written agrees with the corrected one.
   */
  lemma ConditionalNumericLhs(api: Api, m: StoreMap, exe: Char, o: Ops.Conditional)
    requires var s := StoreOf(m, exe.ptr);
      var f := api.flags(o.flags);
      var lhs := api.resolve(s, o.lhs, f.lhsIndirect);
      && Operation(api, s, o.comparator).Some? && Operation(api, s, o.operation).Some?
      && KindOf(lhs, f.lhsBool) != BoolKind
      && ConditionPassed(api, s, Operation(api, s, o.comparator).value, lhs, KindOf(lhs, f.lhsBool), o.comparand)
    ensures var s := StoreOf(m, exe.ptr);
      var f := api.flags(o.flags);
      var lhs := api.resolve(s, o.lhs, f.lhsIndirect);
      var e := ConditionalAsWritten(api, m, exe, o);
      && e == Conditional(api, m, exe, o)
      && e.condition.Some? && e.condition.value.target == s.character
      && (KindOf(lhs, f.lhsBool) == IntKind ==> GetI32(e.stores[exe.ptr], lhs) == FromBits(o.immediate))
    ensures var s := StoreOf(m, exe.ptr);
      var f := api.flags(o.flags);
      var lhs := api.resolve(s, o.lhs, f.lhsIndirect);
      var d := api.resolve(s, o.destination, f.destinationIndirect);
      var out := ResultOperation(api, s, Operation(api, s, o.operation).value, d, KindOf(d, f.destinationBool), o.operand);
      KindOf(lhs, f.lhsBool) == FloatKind ==>
        GetF32(ConditionalAsWritten(api, m, exe, o).stores[exe.ptr], lhs) == api.readF32(out.store, o.immediate)
  {
    var s := StoreOf(m, exe.ptr);
    var f := api.flags(o.flags);
    var lhs := api.resolve(s, o.lhs, f.lhsIndirect);
    var d := api.resolve(s, o.destination, f.destinationIndirect);
    var out := ResultOperation(api, s, Operation(api, s, o.operation).value, d, KindOf(d, f.destinationBool), o.operand);
    if KindOf(lhs, f.lhsBool) == IntKind {
      SetGetI32(out.store, lhs, lhs, FromBits(o.immediate));
    } else {
      SetGetF32(out.store, lhs, lhs, api.readF32(out.store, o.immediate));
    }
  }

  /**
   * Bool registers as the bool-lhs branch needs them: a written bool reads
   * back, and writing one register leaves the bools of other slots alone.
   */
  ghost predicate BoolRegisters(api: Api) {
    && (forall s: CharStore, i: bv8, b: bool :: api.getBool(api.setBool(s, i, b), i) == b)
    && (forall s: CharStore, i: bv8, j: bv8, b: bool ::
          Slot(i) != Slot(j) ==> api.getBool(api.setBool(s, i, b), j) == api.getBool(s, j))
  }

  /** Bools kept as 1 and 0 in the integer array are bool registers in that sense. */
  lemma IntBackedBoolRegisters(api: Api)
    requires forall s: CharStore, i: bv8, b: bool :: api.setBool(s, i, b) == SetI32(s, i, FromBool(b))
    requires forall s: CharStore, i: bv8 :: api.getBool(s, i) == IsTrue(GetI32(s, i))
    ensures BoolRegisters(api)
  {
    forall s: CharStore, i: bv8, j: bv8, b: bool
      ensures api.getBool(api.setBool(s, i, b), j) == if Slot(i) == Slot(j) then b else api.getBool(s, j)
    {
      SetGetI32(s, i, j, FromBool(b));
    }
  }

  /** The left register's bool after a passed bool comparison, with the result operation's store. */
  ghost predicate BoolLhsPassed(api: Api, m: StoreMap, exe: Char, o: Ops.Conditional) {
    var s := StoreOf(m, exe.ptr);
    var f := api.flags(o.flags);
    var lhs := api.resolve(s, o.lhs, f.lhsIndirect);
    && Operation(api, s, o.comparator).Some? && Operation(api, s, o.operation).Some?
    && f.lhsBool
    && ConditionPassed(api, s, Operation(api, s, o.comparator).value, lhs, BoolKind, o.comparand)
  }

  /** The store after the result operation of a passed conditional. */
  function AfterOperation(api: Api, m: StoreMap, exe: Char, o: Ops.Conditional): CharStore
    requires Operation(api, StoreOf(m, exe.ptr), o.operation).Some?
  {
    var s := StoreOf(m, exe.ptr);
    var f := api.flags(o.flags);
    var d := api.resolve(s, o.destination, f.destinationIndirect);
    ResultOperation(api, s, Operation(api, s, o.operation).value, d, KindOf(d, f.destinationBool), o.operand).store
  }

  /**
   * As written, a passed bool comparison writes its immediate to the
   * destination: the left register keeps the bool the result operation left
   * there whenever the two registers are in different slots.
   */
  lemma ConditionalAsWrittenMissesLhs(api: Api, m: StoreMap, exe: Char, o: Ops.Conditional)
    requires BoolRegisters(api)
    requires BoolLhsPassed(api, m, exe, o)
    ensures var s := StoreOf(m, exe.ptr);
      var f := api.flags(o.flags);
      var lhs := api.resolve(s, o.lhs, f.lhsIndirect);
      var d := api.resolve(s, o.destination, f.destinationIndirect);
      var final := ConditionalAsWritten(api, m, exe, o).stores[exe.ptr];
      && api.getBool(final, d) == IsTrue(FromBits(o.immediate))
      && (Slot(lhs) != Slot(d) ==> api.getBool(final, lhs) == api.getBool(AfterOperation(api, m, exe, o), lhs))
  {}

  /** Corrected, a passed bool comparison leaves the immediate in the left register, like the other two kinds. */
  lemma ConditionalWritesLhs(api: Api, m: StoreMap, exe: Char, o: Ops.Conditional)
    requires BoolRegisters(api)
    requires BoolLhsPassed(api, m, exe, o)
    ensures var s := StoreOf(m, exe.ptr);
      var lhs := api.resolve(s, o.lhs, api.flags(o.flags).lhsIndirect);
      api.getBool(Conditional(api, m, exe, o).stores[exe.ptr], lhs) == IsTrue(FromBits(o.immediate))
  {}

  // ---------------------------------------------------------------------
  // Projectile cursor

  /**
   * The projectile filters the game hands out, as far as the cursor needs
   * them: `filterOf` is `get_projectiles` with the command's filter flags,
   * `step` advances to the next matching projectile, `found` says whether the
   * filter now points at one.
   */
  datatype Projectiles<!F> = Projectiles(filterOf: (Char, seq<bv8>) -> Option<F>, step: F -> F, found: F -> bool)

  /** The stores beside each store's projectile filter (`CharStore::projectile_filter`). */
  datatype Cursors<F> = Cursors(stores: StoreMap, filters: map<Ptr, Option<F>>)

  /** Every store has a filter slot, and a kept filter points at a projectile. */
  predicate CursorsValid<F>(p: Projectiles<F>, c: Cursors<F>) {
    && c.filters.Keys == c.stores.Keys
    && forall k :: k in c.filters && c.filters[k].Some? ==> p.found(c.filters[k].value)
  }

  /** The owner's filter as `with` hands it over: a fresh store has none. */
  function FilterOf<F>(c: Cursors<F>, key: Ptr): Option<F> {
    if key in c.filters then c.filters[key] else None
  }

  /** `with` on the owner, setting its filter slot. */
  function SetFilter<F>(c: Cursors<F>, key: Ptr, filter: Option<F>): Cursors<F> {
    Cursors(c.stores[key := StoreOf(c.stores, key)], c.filters[key := filter])
  }

  /** What the cursor commands leave: the cursors, and the condition write. */
  datatype CursorEffect<F> = CursorEffect(cursors: Cursors<F>, condition: Option<ConditionWrite>)

  /**
   * `get_projectile`: returns early with no related character; otherwise
   * takes the related character's filter and steps it once. No filter clears
   * the slot; a step that finds a projectile keeps the filter; a step that
   * finds none leaves the slot as it was. The executing character's condition
   * register gets TRUE exactly when a projectile was found.
   */
  function GetProjectile<F>(api: Api, p: Projectiles<F>, c: Cursors<F>, exe: Char, bytes: seq<bv8>): (e: CursorEffect<F>)
    requires |bytes| >= Ops.GET_PROJECTILE_CURSOR
  {
    match api.related(exe, Ops.DecodeProjectileRelation(bytes))
    case None => CursorEffect(c, None)
    case Some(rel) =>
      match p.filterOf(rel, bytes[4..])
      case None => CursorEffect(SetFilter(c, exe.ptr, None), Some(ConditionWrite(exe, FALSE)))
      case Some(filter) =>
        var next := p.step(filter);
        if p.found(next) then CursorEffect(SetFilter(c, exe.ptr, Some(next)), Some(ConditionWrite(exe, TRUE)))
        else CursorEffect(SetFilter(c, exe.ptr, FilterOf(c, exe.ptr)), Some(ConditionWrite(exe, FALSE)))
  }

  /**
   * `next_projectile`: steps the kept filter; a step that finds a projectile
   * keeps it, anything else leaves no filter. The condition register gets
   * TRUE exactly when a projectile was found.
   */
  function NextProjectile<F>(p: Projectiles<F>, c: Cursors<F>, exe: Char): (e: CursorEffect<F>)
  {
    match FilterOf(c, exe.ptr)
    case None => CursorEffect(SetFilter(c, exe.ptr, None), Some(ConditionWrite(exe, FALSE)))
    case Some(filter) =>
      var next := p.step(filter);
      if p.found(next) then CursorEffect(SetFilter(c, exe.ptr, Some(next)), Some(ConditionWrite(exe, TRUE)))
      else CursorEffect(SetFilter(c, exe.ptr, None), Some(ConditionWrite(exe, FALSE)))
  }

  /** Setting a filter slot keeps the cursors valid when the filter kept points at a projectile. */
  lemma SetFilterSpec<F>(p: Projectiles<F>, c: Cursors<F>, key: Ptr, filter: Option<F>)
    requires CursorsValid(p, c)
    requires filter.Some? ==> p.found(filter.value)
    ensures CursorsValid(p, SetFilter(c, key, filter))
    ensures OnlyOwner(c.stores, SetFilter(c, key, filter).stores, key)
    ensures FilterOf(SetFilter(c, key, filter), key) == filter
    ensures forall k :: k in c.filters && k != key ==> SetFilter(c, key, filter).filters[k] == c.filters[k]
  {}

  /**
   * `get_projectile` keeps the cursors valid, writes no condition register
   * exactly when there is no related character, and otherwise reports TRUE
   * exactly when the executing character now keeps a filter the step found a
   * projectile with; on FALSE the slot is cleared or left as it was. No
   * filter from the game reports FALSE and clears the slot; a filter whose
   * step finds a projectile reports TRUE and is kept stepped; one whose step
   * finds none reports FALSE and leaves the old slot.
   */
  lemma GetProjectileSpec<F>(api: Api, p: Projectiles<F>, c: Cursors<F>, exe: Char, bytes: seq<bv8>)
    requires CursorsValid(p, c)
    requires |bytes| >= Ops.GET_PROJECTILE_CURSOR
    ensures var g := GetProjectile(api, p, c, exe, bytes);
      && CursorsValid(p, g.cursors)
      && (api.related(exe, Ops.DecodeProjectileRelation(bytes)).None? <==> g.condition.None?)
      && (g.condition.None? ==> g.cursors == c)
      && (g.condition.Some? ==> g.condition.value.target == exe && OnlyOwner(c.stores, g.cursors.stores, exe.ptr))
      && (g.condition == Some(ConditionWrite(exe, TRUE)) ==> FilterOf(g.cursors, exe.ptr).Some?)
      && (g.condition == Some(ConditionWrite(exe, FALSE)) ==>
            FilterOf(g.cursors, exe.ptr) == None || FilterOf(g.cursors, exe.ptr) == FilterOf(c, exe.ptr))
    ensures var g := GetProjectile(api, p, c, exe, bytes);
      var rel := api.related(exe, Ops.DecodeProjectileRelation(bytes));
      rel.Some? ==>
        && (p.filterOf(rel.value, bytes[4..]).None? ==>
              g.condition == Some(ConditionWrite(exe, FALSE)) && FilterOf(g.cursors, exe.ptr) == None)
        && (p.filterOf(rel.value, bytes[4..]).Some? ==>
              var next := p.step(p.filterOf(rel.value, bytes[4..]).value);
              && (g.condition == Some(ConditionWrite(exe, TRUE)) <==> p.found(next))
              && (p.found(next) ==> FilterOf(g.cursors, exe.ptr) == Some(next))
              && (!p.found(next) ==> FilterOf(g.cursors, exe.ptr) == FilterOf(c, exe.ptr)))
  {
    match api.related(exe, Ops.DecodeProjectileRelation(bytes))
    case None =>
    case Some(rel) =>
      match p.filterOf(rel, bytes[4..])
      case None => SetFilterSpec(p, c, exe.ptr, None);
      case Some(filter) =>
        if p.found(p.step(filter)) {
          SetFilterSpec(p, c, exe.ptr, Some(p.step(filter)));
        } else {
          SetFilterSpec(p, c, exe.ptr, FilterOf(c, exe.ptr));
        }
  }

  /**
   * `next_projectile` keeps the cursors valid, always writes the executing
   * character's condition register, and reports TRUE exactly when it now
   * keeps a filter, which is then the old one stepped once.
   */
  lemma NextProjectileSpec<F>(p: Projectiles<F>, c: Cursors<F>, exe: Char)
    requires CursorsValid(p, c)
    ensures var n := NextProjectile(p, c, exe);
      && CursorsValid(p, n.cursors)
      && OnlyOwner(c.stores, n.cursors.stores, exe.ptr)
      && n.condition.Some? && n.condition.value.target == exe
      && (n.condition.value.value == TRUE <==> FilterOf(n.cursors, exe.ptr).Some?)
      && (n.condition.value.value == TRUE ==>
            FilterOf(c, exe.ptr).Some? && FilterOf(n.cursors, exe.ptr) == Some(p.step(FilterOf(c, exe.ptr).value)))
  {
    match FilterOf(c, exe.ptr)
    case None => SetFilterSpec(p, c, exe.ptr, None);
    case Some(filter) =>
      if p.found(p.step(filter)) {
        SetFilterSpec(p, c, exe.ptr, Some(p.step(filter)));
      } else {
        SetFilterSpec(p, c, exe.ptr, None);
      }
  }

  /** Without a kept filter, `next_projectile` reports FALSE and keeps none. */
  lemma NextWithoutFilter<F>(p: Projectiles<F>, c: Cursors<F>, exe: Char)
    requires FilterOf(c, exe.ptr).None?
    ensures NextProjectile(p, c, exe).condition == Some(ConditionWrite(exe, FALSE))
    ensures FilterOf(NextProjectile(p, c, exe).cursors, exe.ptr).None?
  {}
}
