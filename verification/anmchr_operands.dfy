/**
 * The fixed operand layouts of the anmchr commands added by the mod
 * (`anmchr_commands.rs`).
 *
 * Each command reads its operands through a cursor over a fixed number of
 * bytes at the command's data: little-endian `u32` words, single bytes, and
 * skipped bytes. A layout here decodes those bytes into a record and encodes
 * a record back; the skipped bytes encode as zero. Every layout reads no more
 * bytes than its cursor holds, so none of the source's `unwrap`s on a read
 * can fail.
 */
module AnmchrOperands {
  import opened Bits
  import opened Int32

  /** The little-endian bytes of a word (`write_u32::<LittleEndian>`). */
  function WordBytes(w: bv32): (bytes: seq<bv8>)
    ensures |bytes| == 4
  {
    [Lane0(w), Lane1(w), Lane2(w), Lane3(w)]
  }

  /** The word read where its little-endian bytes were written is that word. */
  lemma ReadWordBytes(bytes: seq<bv8>, at: nat, w: bv32)
    requires at + 4 <= |bytes| && bytes[at..at + 4] == WordBytes(w)
    ensures ReadWord(bytes, at) == w
  {
    assert bytes[at] == Lane0(w) && bytes[at + 1] == Lane1(w);
    assert bytes[at + 2] == Lane2(w) && bytes[at + 3] == Lane3(w);
    GlueOfLanes(w);
  }

  /** A word read at the end of a sequence reads the word appended there. */
  lemma ReadWordAtEnd(a: seq<bv8>, w: bv32)
    ensures ReadWord(a + WordBytes(w), |a|) == w
  {
    ReadWordBytes(a + WordBytes(w), |a|, w);
  }

  /** Appending bytes does not change a word read before them. */
  lemma ReadWordPrefix(a: seq<bv8>, b: seq<bv8>, at: nat)
    requires at + 4 <= |a|
    ensures ReadWord(a + b, at) == ReadWord(a, at)
  {}

  // ---------------------------------------------------------------------
  // BinaryOperationRegisterImmediate: [u32 op][lhs][skip][flags][dest][u32 immediate]

  const REGISTER_IMMEDIATE_CURSOR: nat := 12

  datatype RegisterImmediate = RegisterImmediate(operation: bv32, lhs: bv8, flags: bv8, destination: bv8, immediate: bv32)

  function DecodeRegisterImmediate(bytes: seq<bv8>): RegisterImmediate
    requires |bytes| >= REGISTER_IMMEDIATE_CURSOR
  {
    RegisterImmediate(ReadWord(bytes, 0), bytes[4], bytes[6], bytes[7], ReadWord(bytes, 8))
  }

  function EncodeRegisterImmediate(o: RegisterImmediate): (bytes: seq<bv8>)
    ensures |bytes| == REGISTER_IMMEDIATE_CURSOR
  {
    WordBytes(o.operation) + [o.lhs, 0, o.flags, o.destination] + WordBytes(o.immediate)
  }

  /** Decoding what was encoded gives the operands back. */
  lemma RegisterImmediateRoundTrip(o: RegisterImmediate)
    ensures DecodeRegisterImmediate(EncodeRegisterImmediate(o)) == o
  {
    var bytes := EncodeRegisterImmediate(o);
    ReadWordBytes(bytes, 0, o.operation);
    ReadWordBytes(bytes, 8, o.immediate);
  }

  // ---------------------------------------------------------------------
  // BinaryOperationRegisterRegister: [u32 op][lhs][rhs][flags][dest]

  const REGISTER_REGISTER_CURSOR: nat := 8

  datatype RegisterRegister = RegisterRegister(operation: bv32, lhs: bv8, rhs: bv8, flags: bv8, destination: bv8)

  function DecodeRegisterRegister(bytes: seq<bv8>): RegisterRegister
    requires |bytes| >= REGISTER_REGISTER_CURSOR
  {
    RegisterRegister(ReadWord(bytes, 0), bytes[4], bytes[5], bytes[6], bytes[7])
  }

  function EncodeRegisterRegister(o: RegisterRegister): (bytes: seq<bv8>)
    ensures |bytes| == REGISTER_REGISTER_CURSOR
  {
    WordBytes(o.operation) + [o.lhs, o.rhs, o.flags, o.destination]
  }

  /** Decoding what was encoded gives the operands back; the layout has no skipped byte, so the converse holds too. */
  lemma RegisterRegisterRoundTrip(o: RegisterRegister, bytes: seq<bv8>)
    requires |bytes| == REGISTER_REGISTER_CURSOR
    ensures DecodeRegisterRegister(EncodeRegisterRegister(o)) == o
    ensures EncodeRegisterRegister(DecodeRegisterRegister(bytes)) == bytes
  {
    ReadWordBytes(EncodeRegisterRegister(o), 0, o.operation);
    LanesOfGlue(bytes[0], bytes[1], bytes[2], bytes[3]);
    assert EncodeRegisterRegister(DecodeRegisterRegister(bytes))[..4] == bytes[..4];
  }

  // ---------------------------------------------------------------------
  // UnaryOperationRegister: [u32 op][source][skip][flags][dest]

  const UNARY_REGISTER_CURSOR: nat := 8

  datatype UnaryRegister = UnaryRegister(operation: bv32, source: bv8, flags: bv8, destination: bv8)

  function DecodeUnaryRegister(bytes: seq<bv8>): UnaryRegister
    requires |bytes| >= UNARY_REGISTER_CURSOR
  {
    UnaryRegister(ReadWord(bytes, 0), bytes[4], bytes[6], bytes[7])
  }

  function EncodeUnaryRegister(o: UnaryRegister): (bytes: seq<bv8>)
    ensures |bytes| == UNARY_REGISTER_CURSOR
  {
    WordBytes(o.operation) + [o.source, 0, o.flags, o.destination]
  }

  lemma UnaryRegisterRoundTrip(o: UnaryRegister)
    ensures DecodeUnaryRegister(EncodeUnaryRegister(o)) == o
  {
    ReadWordBytes(EncodeUnaryRegister(o), 0, o.operation);
  }

  // ---------------------------------------------------------------------
  // UnaryOperationImmediate: [u32 op][skip][skip][flags][dest][u32 immediate]

  const UNARY_IMMEDIATE_CURSOR: nat := 12

  datatype UnaryImmediate = UnaryImmediate(operation: bv32, flags: bv8, destination: bv8, immediate: bv32)

  function DecodeUnaryImmediate(bytes: seq<bv8>): UnaryImmediate
    requires |bytes| >= UNARY_IMMEDIATE_CURSOR
  {
    UnaryImmediate(ReadWord(bytes, 0), bytes[6], bytes[7], ReadWord(bytes, 8))
  }

  function EncodeUnaryImmediate(o: UnaryImmediate): (bytes: seq<bv8>)
    ensures |bytes| == UNARY_IMMEDIATE_CURSOR
  {
    WordBytes(o.operation) + [0, 0, o.flags, o.destination] + WordBytes(o.immediate)
  }

  lemma UnaryImmediateRoundTrip(o: UnaryImmediate)
    ensures DecodeUnaryImmediate(EncodeUnaryImmediate(o)) == o
  {
    var bytes := EncodeUnaryImmediate(o);
    ReadWordBytes(bytes, 0, o.operation);
    ReadWordBytes(bytes, 8, o.immediate);
  }

  // ---------------------------------------------------------------------
  // LoadImmediateIntoRegister: [skip][skip][flags][dest][u32 immediate]

  const LOAD_IMMEDIATE_CURSOR: nat := 8

  datatype LoadImmediate = LoadImmediate(flags: bv8, destination: bv8, immediate: bv32)

  function DecodeLoadImmediate(bytes: seq<bv8>): LoadImmediate
    requires |bytes| >= LOAD_IMMEDIATE_CURSOR
  {
    LoadImmediate(bytes[2], bytes[3], ReadWord(bytes, 4))
  }

  function EncodeLoadImmediate(o: LoadImmediate): (bytes: seq<bv8>)
    ensures |bytes| == LOAD_IMMEDIATE_CURSOR
  {
    [0, 0, o.flags, o.destination] + WordBytes(o.immediate)
  }

  lemma LoadImmediateRoundTrip(o: LoadImmediate)
    ensures DecodeLoadImmediate(EncodeLoadImmediate(o)) == o
  {
    ReadWordBytes(EncodeLoadImmediate(o), 4, o.immediate);
  }

  // ---------------------------------------------------------------------
  // LoadVarIntoRegister and StoreVarFromRegister: [skip][relation][flags][register][u32 var]

  const VAR_REGISTER_CURSOR: nat := 8

  datatype VarRegister = VarRegister(relation: bv8, flags: bv8, register: bv8, variable: bv32)

  function DecodeVarRegister(bytes: seq<bv8>): VarRegister
    requires |bytes| >= VAR_REGISTER_CURSOR
  {
    VarRegister(bytes[1], bytes[2], bytes[3], ReadWord(bytes, 4))
  }

  function EncodeVarRegister(o: VarRegister): (bytes: seq<bv8>)
    ensures |bytes| == VAR_REGISTER_CURSOR
  {
    [0, o.relation, o.flags, o.register] + WordBytes(o.variable)
  }

  lemma VarRegisterRoundTrip(o: VarRegister)
    ensures DecodeVarRegister(EncodeVarRegister(o)) == o
  {
    ReadWordBytes(EncodeVarRegister(o), 4, o.variable);
  }

  // ---------------------------------------------------------------------
  // StoreVarFromImmediate: [skip][relation][flags][skip][u32 var][u32 immediate]

  const VAR_IMMEDIATE_CURSOR: nat := 12

  datatype VarImmediate = VarImmediate(relation: bv8, flags: bv8, variable: bv32, immediate: bv32)

  function DecodeVarImmediate(bytes: seq<bv8>): VarImmediate
    requires |bytes| >= VAR_IMMEDIATE_CURSOR
  {
    VarImmediate(bytes[1], bytes[2], ReadWord(bytes, 4), ReadWord(bytes, 8))
  }

  function EncodeVarImmediate(o: VarImmediate): (bytes: seq<bv8>)
    ensures |bytes| == VAR_IMMEDIATE_CURSOR
  {
    [0, o.relation, o.flags, 0] + WordBytes(o.variable) + WordBytes(o.immediate)
  }

  lemma VarImmediateRoundTrip(o: VarImmediate)
    ensures DecodeVarImmediate(EncodeVarImmediate(o)) == o
  {
    var bytes := EncodeVarImmediate(o);
    ReadWordBytes(bytes, 4, o.variable);
    ReadWordBytes(bytes, 8, o.immediate);
  }

  // ---------------------------------------------------------------------
  // ConditionalBinaryOperation:
  // [u32 comparator][u32 operation][lhs][skip][flags][dest][u32 comparand][u32 operand][u32 immediate]

  const CONDITIONAL_CURSOR: nat := 24

  datatype Conditional = Conditional(
    comparator: bv32, operation: bv32, lhs: bv8, flags: bv8, destination: bv8,
    comparand: bv32, operand: bv32, immediate: bv32)

  function DecodeConditional(bytes: seq<bv8>): Conditional
    requires |bytes| >= CONDITIONAL_CURSOR
  {
    Conditional(ReadWord(bytes, 0), ReadWord(bytes, 4), bytes[8], bytes[10], bytes[11],
      ReadWord(bytes, 12), ReadWord(bytes, 16), ReadWord(bytes, 20))
  }

  function EncodeConditional(o: Conditional): (bytes: seq<bv8>)
    ensures |bytes| == CONDITIONAL_CURSOR
  {
    WordBytes(o.comparator) + WordBytes(o.operation) + [o.lhs, 0, o.flags, o.destination]
      + WordBytes(o.comparand) + WordBytes(o.operand) + WordBytes(o.immediate)
  }

  lemma ConditionalRoundTrip(o: Conditional)
    ensures DecodeConditional(EncodeConditional(o)) == o
  {
    var p1 := WordBytes(o.comparator);
    var p2 := p1 + WordBytes(o.operation);
    var p3 := p2 + [o.lhs, 0, o.flags, o.destination];
    var p4 := p3 + WordBytes(o.comparand);
    var p5 := p4 + WordBytes(o.operand);
    ReadWordAtEnd(p4, o.operand);
    ReadWordAtEnd(p3, o.comparand);
    ReadWordAtEnd(p1, o.operation);
    ReadWordBytes(p1, 0, o.comparator);
    ReadWordAtEnd(p5, o.immediate);
    ReadWordPrefix(p5, WordBytes(o.immediate), 16);
    ReadWordPrefix(p4, WordBytes(o.operand), 12);
    ReadWordPrefix(p5, WordBytes(o.immediate), 12);
    ReadWordPrefix(p2, [o.lhs, 0, o.flags, o.destination], 4);
    ReadWordPrefix(p3, WordBytes(o.comparand), 4);
    ReadWordPrefix(p4, WordBytes(o.operand), 4);
    ReadWordPrefix(p5, WordBytes(o.immediate), 4);
    ReadWordPrefix(p1, WordBytes(o.operation), 0);
    ReadWordPrefix(p2, [o.lhs, 0, o.flags, o.destination], 0);
    ReadWordPrefix(p3, WordBytes(o.comparand), 0);
    ReadWordPrefix(p4, WordBytes(o.operand), 0);
    ReadWordPrefix(p5, WordBytes(o.immediate), 0);
  }

  // ---------------------------------------------------------------------
  // CheckCharacterName: [skip][relation][flags][dest][64 name bytes]

  const NAME_LENGTH: nat := 64
  const NAME_CURSOR: nat := 4 + NAME_LENGTH

  /** A fixed-size name buffer. */
  type Name = s: seq<bv8> | |s| == NAME_LENGTH witness seq(64, _ => 0)

  datatype NameCheck = NameCheck(relation: bv8, flags: bv8, destination: bv8, expected: Name)

  function DecodeNameCheck(bytes: seq<bv8>): NameCheck
    requires |bytes| >= NAME_CURSOR
  {
    NameCheck(bytes[1], bytes[2], bytes[3], bytes[4..NAME_CURSOR])
  }

  function EncodeNameCheck(o: NameCheck): (bytes: seq<bv8>)
    ensures |bytes| == NAME_CURSOR
  {
    [0, o.relation, o.flags, o.destination] + o.expected
  }

  lemma NameCheckRoundTrip(o: NameCheck)
    ensures DecodeNameCheck(EncodeNameCheck(o)) == o
  {
    assert EncodeNameCheck(o)[4..NAME_CURSOR] == o.expected;
  }

  // ---------------------------------------------------------------------
  // GetProjectile: [skip][relation][skip][skip][filter flags]

  const GET_PROJECTILE_CURSOR: nat := 8

  /** The relation byte of `GetProjectile`; the filter flags that follow are not part of this model. */
  function DecodeProjectileRelation(bytes: seq<bv8>): bv8
    requires |bytes| >= GET_PROJECTILE_CURSOR
  {
    bytes[1]
  }
}
