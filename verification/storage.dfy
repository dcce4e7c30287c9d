/**
 * The per-character register bank (`CharStore`) and the map that owns one per
 * character (`CHAR_STORAGE`).
 *
 * A store has 128 float and 128 integer registers, each array allocated on its
 * first write. A register index is a byte: bit 7 says which array it names
 * (`RegisterType::identify`), and every access masks it to its low 7 bits.
 * Each operation also writes its result to the condition register of the
 * store's character, a game-memory field; an operation here returns that
 * value beside the new store.
 */
module Storage {
  import opened Optional
  import opened Bytes
  import opened Bits
  import opened Int32
  import opened Float32
  import opened Math
  import opened BinaryOperators
  import opened UnaryOperators
  import opened GameData
  import opened CharacterExtensions

  const REGISTER_COUNT: nat := 128
  const DEFAULT_F32: F32 := ZERO
  const DEFAULT_I32: I32 := 0

  /** `F32_REGISTER_MASK` and `F32_REGISTER_UNMASK`. */
  const F32_MASK: bv8 := 0x80
  const F32_UNMASK: bv8 := 0x7F

  type FloatBank = s: seq<F32> | |s| == REGISTER_COUNT witness seq(128, _ => ZERO)
  type IntBank = s: seq<I32> | |s| == REGISTER_COUNT witness seq(128, _ => 0)

  datatype CharStore = CharStore(
    character: Char,
    floats: Option<FloatBank>,
    ints: Option<IntBank>,
    suck: SuckOpponent)

  datatype RegisterType = IntRegister | FloatRegister

  /** `RegisterType::identify`: a float register exactly when bit 7 is set. */
  function Identify(index: bv8): RegisterType {
    if index & F32_MASK == F32_MASK then FloatRegister else IntRegister
  }

  /** The array slot an index addresses: its low 7 bits. */
  function Slot(index: bv8): (k: nat)
    ensures k < REGISTER_COUNT
  {
    (index & F32_UNMASK) as nat
  }

  /**
   * The slot is the index modulo 128, so an index and the same index with bit 7
   * set address the same slot, in the integer and in the float array; the two
   * differ in type exactly by bit 7.
   */
  lemma SlotAliasing(index: bv8)
    ensures Slot(index) == index as int % 128
    ensures Slot(index | F32_MASK) == Slot(index) == Slot(index & F32_UNMASK)
    ensures Identify(index | F32_MASK) == FloatRegister
    ensures Identify(index & F32_UNMASK) == IntRegister
    ensures Identify(index) == FloatRegister <==> index as int >= 128
  {
    ByteLowSeven(index);
  }

  /** `CharStore::new`: no arrays yet and no pull. */
  function NewStore(ptr: Ptr): CharStore {
    CharStore(Char(ptr), None, None, NO_SUCK)
  }

  // ---------------------------------------------------------------------
  // Register reads and writes

  /** `get_f32_register`: the slot's value, or the default when no float was ever written. */
  function GetF32(s: CharStore, index: bv8): F32 {
    match s.floats
    case Some(bank) => bank[Slot(index)]
    case None => DEFAULT_F32
  }

  /** `get_i32_register`. */
  function GetI32(s: CharStore, index: bv8): I32 {
    match s.ints
    case Some(bank) => bank[Slot(index)]
    case None => DEFAULT_I32
  }

  /** `set_f32_register`: allocate the float array filled with the default if needed, then write the slot. */
  function SetF32(s: CharStore, index: bv8, v: F32): CharStore {
    var bank: FloatBank := if s.floats.Some? then s.floats.value else seq(REGISTER_COUNT, _ => DEFAULT_F32);
    s.(floats := Some(bank[Slot(index) := v]))
  }

  /** `set_i32_register`. */
  function SetI32(s: CharStore, index: bv8, v: I32): CharStore {
    var bank: IntBank := if s.ints.Some? then s.ints.value else seq(REGISTER_COUNT, _ => DEFAULT_I32);
    s.(ints := Some(bank[Slot(index) := v]))
  }

  /** A fresh store reads the defaults everywhere. */
  lemma NewStoreReadsDefaults(ptr: Ptr, i: bv8)
    ensures GetF32(NewStore(ptr), i) == ZERO && GetI32(NewStore(ptr), i) == 0
    ensures NewStore(ptr).character == Char(ptr)
  {}

  /**
   * After a float write, the written slot reads back the value and every other
   * float slot reads as before; the integer array, the character and the pull
   * are untouched.
   */
  lemma SetGetF32(s: CharStore, i: bv8, j: bv8, v: F32)
    ensures GetF32(SetF32(s, i, v), j) == if Slot(j) == Slot(i) then v else GetF32(s, j)
    ensures SetF32(s, i, v).ints == s.ints
    ensures SetF32(s, i, v).character == s.character && SetF32(s, i, v).suck == s.suck
    ensures GetI32(SetF32(s, i, v), j) == GetI32(s, j)
  {
    var bank := if s.floats.Some? then s.floats.value else seq(REGISTER_COUNT, _ => DEFAULT_F32);
    assert SetF32(s, i, v).floats == Some(bank[Slot(i) := v]);
  }

  /** The integer write, likewise. */
  lemma SetGetI32(s: CharStore, i: bv8, j: bv8, v: I32)
    ensures GetI32(SetI32(s, i, v), j) == if Slot(j) == Slot(i) then v else GetI32(s, j)
    ensures SetI32(s, i, v).floats == s.floats
    ensures SetI32(s, i, v).character == s.character && SetI32(s, i, v).suck == s.suck
    ensures GetF32(SetI32(s, i, v), j) == GetF32(s, j)
  {
    var bank := if s.ints.Some? then s.ints.value else seq(REGISTER_COUNT, _ => DEFAULT_I32);
    assert SetI32(s, i, v).ints == Some(bank[Slot(i) := v]);
  }

  /** Writing what a register already reads is invisible to every later read. */
  lemma SetSameIsInvisible(s: CharStore, i: bv8, j: bv8)
    ensures GetF32(SetF32(s, i, GetF32(s, i)), j) == GetF32(s, j)
    ensures GetI32(SetI32(s, i, GetI32(s, i)), j) == GetI32(s, j)
  {}

  // ---------------------------------------------------------------------
  // Operations

  /**
   * The store after an operation, and the value the operation wrote to the
   * condition register of the store's character.
   */
  datatype Outcome = Outcome(store: CharStore, condition: I32)

  /**
   * The common tail of the operations: a float result goes into the float
   * array and reaches the condition register as `result as i32`; an integer
   * result goes into the integer array and to the condition register as is.
   */
  function WriteResult(c: Casts, s: CharStore, destination: bv8, result: Number): Outcome {
    match result
    case NumF32(f) => Outcome(SetF32(s, destination, f), c.toInt(f))
    case NumI32(i) => Outcome(SetI32(s, destination, i), i)
  }

  /** The result's type as a register type. */
  function TypeOf(n: Number): RegisterType {
    if n.NumF32? then FloatRegister else IntRegister
  }

  /**
   * `read_into_register`: the four little-endian bytes at the cursor, read as
   * an `f32` or an `i32` according to the destination's type. `word` stands for
   * those bytes; the cursor itself is not modelled.
   */
  function ReadIntoRegister(c: Casts, s: CharStore, destination: bv8, word: bv32): Outcome {
    match Identify(destination)
    case FloatRegister => WriteResult(c, s, destination, NumF32(F32(word)))
    case IntRegister => WriteResult(c, s, destination, NumI32(FromBits(word)))
  }

  /** The result of `register_unary_operation`: the source is read with the destination's type. */
  function RegisterUnaryResult(fu: FloatUnary, trig: IntTrig, s: CharStore, source: bv8, destination: bv8, op: UnaryOp): Number
    requires Identify(destination) == IntRegister ==> !Panics(op, GetI32(s, source))
  {
    match Identify(destination)
    case FloatRegister => NumF32(OpF32(fu, op, GetF32(s, source)))
    case IntRegister => NumI32(OpI32(trig, op, GetI32(s, source)))
  }

  /** `register_unary_operation`. */
  function RegisterUnary(fu: FloatUnary, trig: IntTrig, c: Casts, s: CharStore, source: bv8, destination: bv8, op: UnaryOp): Outcome
    requires Identify(destination) == IntRegister ==> !Panics(op, GetI32(s, source))
  {
    WriteResult(c, s, destination, RegisterUnaryResult(fu, trig, s, source, destination, op))
  }

  /** `immediate_unary_operation_f32`: a float result, stored with the destination's type. */
  function ImmediateUnaryF32(fu: FloatUnary, c: Casts, s: CharStore, immediate: F32, destination: bv8, op: UnaryOp): Outcome {
    var result := OpF32(fu, op, immediate);
    match Identify(destination)
    case FloatRegister => WriteResult(c, s, destination, NumF32(result))
    case IntRegister => WriteResult(c, s, destination, NumI32(c.toInt(result)))
  }

  /**
   * `immediate_unary_operation_i32`: an integer result, stored with the
   * destination's type; the condition register gets the integer result even
   * when the register gets it `as f32`.
   */
  function ImmediateUnaryI32(trig: IntTrig, c: Casts, s: CharStore, immediate: I32, destination: bv8, op: UnaryOp): Outcome
    requires !Panics(op, immediate)
  {
    var result := OpI32(trig, op, immediate);
    match Identify(destination)
    case FloatRegister => Outcome(SetF32(s, destination, c.fromInt(result)), result)
    case IntRegister => WriteResult(c, s, destination, NumI32(result))
  }

  /** `register_imm_operation_i32`: the left operand by its own type, the result always into the integer array. */
  function RegisterImmI32(fa: FloatArith, c: Casts, s: CharStore, lhs: bv8, rhs: I32, destination: bv8, op: BinaryOp): Outcome {
    var result := match Identify(lhs)
      case FloatRegister => HandleF32I32I32(fa, c, GetF32(s, lhs), rhs, op)
      case IntRegister => HandleI32I32I32(GetI32(s, lhs), rhs, op);
    WriteResult(c, s, destination, NumI32(result))
  }

  /** `register_imm_operation_f32`: the result always into the float array. */
  function RegisterImmF32(fa: FloatArith, c: Casts, s: CharStore, lhs: bv8, rhs: F32, destination: bv8, op: BinaryOp): Outcome {
    var result := match Identify(lhs)
      case FloatRegister => HandleF32F32F32(fa, c, GetF32(s, lhs), rhs, op)
      case IntRegister => HandleI32F32F32(fa, c, GetI32(s, lhs), rhs, op);
    WriteResult(c, s, destination, NumF32(result))
  }

  /** The result of `register_register_operation`: one handler for each of the 8 (lhs, rhs, destination) type combinations. */
  function RegisterRegisterResult(fa: FloatArith, c: Casts, s: CharStore, lhs: bv8, rhs: bv8, destination: bv8, op: BinaryOp): Number {
    match (Identify(lhs), Identify(rhs), Identify(destination))
    case (FloatRegister, FloatRegister, FloatRegister) => NumF32(HandleF32F32F32(fa, c, GetF32(s, lhs), GetF32(s, rhs), op))
    case (IntRegister, FloatRegister, FloatRegister) => NumF32(HandleI32F32F32(fa, c, GetI32(s, lhs), GetF32(s, rhs), op))
    case (FloatRegister, IntRegister, FloatRegister) => NumF32(HandleF32I32F32(fa, c, GetF32(s, lhs), GetI32(s, rhs), op))
    case (IntRegister, IntRegister, FloatRegister) => NumF32(HandleI32I32F32(c, GetI32(s, lhs), GetI32(s, rhs), op))
    case (FloatRegister, FloatRegister, IntRegister) => NumI32(HandleF32F32I32(fa, c, GetF32(s, lhs), GetF32(s, rhs), op))
    case (IntRegister, FloatRegister, IntRegister) => NumI32(HandleI32F32I32(fa, c, GetI32(s, lhs), GetF32(s, rhs), op))
    case (FloatRegister, IntRegister, IntRegister) => NumI32(HandleF32I32I32(fa, c, GetF32(s, lhs), GetI32(s, rhs), op))
    case (IntRegister, IntRegister, IntRegister) => NumI32(HandleI32I32I32(GetI32(s, lhs), GetI32(s, rhs), op))
  }

  /** `register_register_operation`. */
  function RegisterRegister(fa: FloatArith, c: Casts, s: CharStore, lhs: bv8, rhs: bv8, destination: bv8, op: BinaryOp): Outcome {
    WriteResult(c, s, destination, RegisterRegisterResult(fa, c, s, lhs, rhs, destination, op))
  }

  // ---------------------------------------------------------------------
  // Properties of the operations

  /**
   * Where an operation's result lands: into the destination's slot of the array
   * its type selects, leaving the other array, the character and the pull as
   * they were; the condition register gets the stored value, as `i32`.
   */
  ghost predicate WritesInto(c: Casts, s: CharStore, o: Outcome, destination: bv8, t: RegisterType) {
    && o.store.character == s.character && o.store.suck == s.suck
    && match t
       case FloatRegister =>
         o.store.ints == s.ints && o.condition == c.toInt(GetF32(o.store, destination))
         && forall j: bv8 :: Slot(j) != Slot(destination) ==> GetF32(o.store, j) == GetF32(s, j)
       case IntRegister =>
         o.store.floats == s.floats && o.condition == GetI32(o.store, destination)
         && forall j: bv8 :: Slot(j) != Slot(destination) ==> GetI32(o.store, j) == GetI32(s, j)
  }

  /** A result is stored in the array of its own type, at the destination, and reads back unchanged. */
  lemma WriteResultSpec(c: Casts, s: CharStore, destination: bv8, result: Number)
    ensures WritesInto(c, s, WriteResult(c, s, destination, result), destination, TypeOf(result))
    ensures result.NumF32? ==> GetF32(WriteResult(c, s, destination, result).store, destination) == result.f
    ensures result.NumI32? ==> GetI32(WriteResult(c, s, destination, result).store, destination) == result.i
  {
    var o := WriteResult(c, s, destination, result);
    match result
    case NumF32(f) =>
      forall j: bv8 ensures GetF32(o.store, j) == if Slot(j) == Slot(destination) then f else GetF32(s, j) {
        SetGetF32(s, destination, j, f);
      }
    case NumI32(i) =>
      forall j: bv8 ensures GetI32(o.store, j) == if Slot(j) == Slot(destination) then i else GetI32(s, j) {
        SetGetI32(s, destination, j, i);
      }
  }

  /**
   * Reading an immediate into a register writes it where the destination's type
   * says, bit for bit, and passes it to the condition register.
   */
  lemma ReadIntoRegisterSpec(c: Casts, s: CharStore, destination: bv8, word: bv32)
    ensures WritesInto(c, s, ReadIntoRegister(c, s, destination, word), destination, Identify(destination))
    ensures Identify(destination) == IntRegister ==>
      ToBits(GetI32(ReadIntoRegister(c, s, destination, word).store, destination)) == word
    ensures Identify(destination) == FloatRegister ==>
      GetF32(ReadIntoRegister(c, s, destination, word).store, destination).bits == word
  {
    if Identify(destination) == FloatRegister {
      WriteResultSpec(c, s, destination, NumF32(F32(word)));
    } else {
      WriteResultSpec(c, s, destination, NumI32(FromBits(word)));
      ToBitsFromBits(word);
    }
  }

  /** The register-register operation writes the array of the destination's type, whatever the operands' types. */
  lemma RegisterRegisterDispatch(fa: FloatArith, c: Casts, s: CharStore, lhs: bv8, rhs: bv8, destination: bv8, op: BinaryOp)
    ensures WritesInto(c, s, RegisterRegister(fa, c, s, lhs, rhs, destination, op), destination, Identify(destination))
  {
    var n := RegisterRegisterResult(fa, c, s, lhs, rhs, destination, op);
    assert TypeOf(n) == Identify(destination);
    WriteResultSpec(c, s, destination, n);
  }

  /** The all-integer combination stores the exact integer closure in the integer array. */
  lemma RegisterRegisterAllInt(fa: FloatArith, c: Casts, s: CharStore, lhs: bv8, rhs: bv8, destination: bv8, op: BinaryOp)
    requires Identify(lhs) == IntRegister && Identify(rhs) == IntRegister && Identify(destination) == IntRegister
    ensures var o := RegisterRegister(fa, c, s, lhs, rhs, destination, op);
      o.store == SetI32(s, destination, IntOp(op, GetI32(s, lhs), GetI32(s, rhs)))
      && o.condition == IntOp(op, GetI32(s, lhs), GetI32(s, rhs))
  {}

  /** An operand as the float closure sees it: a float register as is, an integer register cast `as f32`. */
  function Promoted(c: Casts, s: CharStore, index: bv8): F32 {
    match Identify(index)
    case FloatRegister => GetF32(s, index)
    case IntRegister => c.fromInt(GetI32(s, index))
  }

  /**
   * As soon as one operand is a float register, the register-register
   * operation is the float closure on the promoted operands: cleaned for a
   * float destination, cast `as i32` for an integer one.
   */
  lemma RegisterRegisterPromotes(fa: FloatArith, c: Casts, s: CharStore, lhs: bv8, rhs: bv8, destination: bv8, op: BinaryOp)
    requires Identify(lhs) == FloatRegister || Identify(rhs) == FloatRegister
    ensures var o := RegisterRegister(fa, c, s, lhs, rhs, destination, op);
      var f := FloatOp(fa, c, op, Promoted(c, s, lhs), Promoted(c, s, rhs));
      (Identify(destination) == FloatRegister ==> GetF32(o.store, destination) == Clean(f))
      && (Identify(destination) == IntRegister ==> GetI32(o.store, destination) == FiniteToInt(c, f))
  {
    WriteResultSpec(c, s, destination, RegisterRegisterResult(fa, c, s, lhs, rhs, destination, op));
  }

  /** The integer-immediate operation always writes the integer array, even for a float-typed destination. */
  lemma RegisterImmI32WritesInts(fa: FloatArith, c: Casts, s: CharStore, lhs: bv8, rhs: I32, destination: bv8, op: BinaryOp)
    ensures WritesInto(c, s, RegisterImmI32(fa, c, s, lhs, rhs, destination, op), destination, IntRegister)
    ensures Identify(lhs) == IntRegister ==>
      RegisterImmI32(fa, c, s, lhs, rhs, destination, op).condition == IntOp(op, GetI32(s, lhs), rhs)
  {
    var result := match Identify(lhs)
      case FloatRegister => HandleF32I32I32(fa, c, GetF32(s, lhs), rhs, op)
      case IntRegister => HandleI32I32I32(GetI32(s, lhs), rhs, op);
    WriteResultSpec(c, s, destination, NumI32(result));
  }

  /** The float-immediate operation always writes the float array, even for an integer-typed destination, and never stores a non-finite value. */
  lemma RegisterImmF32WritesFloats(fa: FloatArith, c: Casts, s: CharStore, lhs: bv8, rhs: F32, destination: bv8, op: BinaryOp)
    ensures WritesInto(c, s, RegisterImmF32(fa, c, s, lhs, rhs, destination, op), destination, FloatRegister)
    ensures IsFinite(GetF32(RegisterImmF32(fa, c, s, lhs, rhs, destination, op).store, destination))
  {
    var result := match Identify(lhs)
      case FloatRegister => HandleF32F32F32(fa, c, GetF32(s, lhs), rhs, op)
      case IntRegister => HandleI32F32F32(fa, c, GetI32(s, lhs), rhs, op);
    WriteResultSpec(c, s, destination, NumF32(result));
  }

  /** The register unary operation writes the destination's array; it is the immediate form applied to the source register. */
  lemma UnaryDispatch(fu: FloatUnary, trig: IntTrig, c: Casts, s: CharStore, source: bv8, destination: bv8, op: UnaryOp)
    requires Identify(destination) == IntRegister ==> !Panics(op, GetI32(s, source))
    ensures WritesInto(c, s, RegisterUnary(fu, trig, c, s, source, destination, op), destination, Identify(destination))
    ensures Identify(destination) == IntRegister ==>
      RegisterUnary(fu, trig, c, s, source, destination, op) == ImmediateUnaryI32(trig, c, s, GetI32(s, source), destination, op)
    ensures Identify(destination) == FloatRegister ==>
      RegisterUnary(fu, trig, c, s, source, destination, op) == ImmediateUnaryF32(fu, c, s, GetF32(s, source), destination, op)
  {
    WriteResultSpec(c, s, destination, RegisterUnaryResult(fu, trig, s, source, destination, op));
  }

  /**
   * The immediate unary operations store their result with the destination's
   * type, and the condition register always gets the result as an integer.
   */
  lemma ImmediateUnarySpec(fu: FloatUnary, trig: IntTrig, c: Casts, s: CharStore, f: F32, i: I32, destination: bv8, op: UnaryOp)
    requires !Panics(op, i)
    ensures ImmediateUnaryF32(fu, c, s, f, destination, op).condition == c.toInt(OpF32(fu, op, f))
    ensures ImmediateUnaryI32(trig, c, s, i, destination, op).condition == OpI32(trig, op, i)
    ensures Identify(destination) == IntRegister ==>
      GetI32(ImmediateUnaryF32(fu, c, s, f, destination, op).store, destination) == c.toInt(OpF32(fu, op, f))
    ensures Identify(destination) == FloatRegister ==>
      GetF32(ImmediateUnaryI32(trig, c, s, i, destination, op).store, destination) == c.fromInt(OpI32(trig, op, i))
  {
    SetGetI32(s, destination, destination, c.toInt(OpF32(fu, op, f)));
    SetGetF32(s, destination, destination, c.fromInt(OpI32(trig, op, i)));
  }

  // ---------------------------------------------------------------------
  // The map of stores

  /** `CHAR_STORAGE`: one store per owner address. */
  type StoreMap = map<Ptr, CharStore>

  /**
   * `with`: create the owner's store if it has none, then run `f` on it; the
   * result of `f` is returned beside the updated map.
   */
  function With<T>(m: StoreMap, key: Ptr, f: CharStore -> (CharStore, T)): (StoreMap, T) {
    var s := if key in m then m[key] else NewStore(key);
    var (s', t) := f(s);
    (m[key := s'], t)
  }

  /** `with_no_make`: run `f` on the owner's store only if it already has one. */
  function WithNoMake(m: StoreMap, key: Ptr, f: CharStore -> CharStore): StoreMap {
    if key in m then m[key := f(m[key])] else m
  }

  /** `reset_all`: forget every store. */
  function ResetAll(m: StoreMap): StoreMap {
    map[]
  }

  /**
   * After `with` the owner has a store, the one `f` produced from its old store
   * or a fresh one; no other owner's store changes.
   */
  lemma WithSpec<T>(m: StoreMap, key: Ptr, f: CharStore -> (CharStore, T))
    ensures key in With(m, key, f).0
    ensures With(m, key, f).0.Keys == m.Keys + {key}
    ensures key !in m ==> With(m, key, f) == (m[key := f(NewStore(key)).0], f(NewStore(key)).1)
    ensures key in m ==> With(m, key, f) == (m[key := f(m[key]).0], f(m[key]).1)
    ensures forall k :: k in m && k != key ==> With(m, key, f).0[k] == m[k]
  {}

  /** `with_no_make` never adds an owner, leaves the map alone without one, and touches no other owner. */
  lemma WithNoMakeSpec(m: StoreMap, key: Ptr, f: CharStore -> CharStore)
    ensures WithNoMake(m, key, f).Keys == m.Keys
    ensures key !in m ==> WithNoMake(m, key, f) == m
    ensures key in m ==> WithNoMake(m, key, f)[key] == f(m[key])
    ensures forall k :: k in m && k != key ==> WithNoMake(m, key, f)[k] == m[k]
  {}

  /** After `reset_all` no owner has a store, so the next `with` starts from a fresh one. */
  lemma ResetAllSpec<T>(m: StoreMap, key: Ptr, f: CharStore -> (CharStore, T))
    ensures ResetAll(m).Keys == {}
    ensures With(ResetAll(m), key, f) == (map[key := f(NewStore(key)).0], f(NewStore(key)).1)
    ensures WithNoMake(ResetAll(m), key, s => s) == map[]
  {}
}
