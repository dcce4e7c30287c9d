# mag_patch in Dafny

mag_patch is a mod for a fighting game. It extends the game's animation
scripts ("anmchr" commands) with a small typed register machine. Each
character gets a bank of 128 float and 128 integer registers. New commands
compute on those registers, read and write gameplay variables, compare
character names and walk a character's projectiles. Before the game runs one
of its own commands, float parameters can be patched from registers and put
back afterwards. Around that engine sit small pieces of game logic: the
"suck opponent" pull, the per-tick round-restart latch, the match timer, the
SOCD input cleanup and the health and meter clamps.

This project models that core as pure functions over immutable values:

- `I32` is an `int` in the `i32` range. Wrap-around, saturation and
  truncating division are written out.
- An `f32` is its IEEE-754 bit pattern (`F32(bits: bv32)`). Everything the
  code decides from the bits alone is defined exactly: finiteness, zeros,
  sign, `abs`, negation and truthiness. Float arithmetic is a parameter.
- Where a float is only clamped or compared (health, meter, timer, the
  pull), it is a `real`, or a `FloatValue` that may be non-finite.
- The global store map is a `map<Ptr, CharStore>`. Game memory and the
  character relation are records of function values. A command returns its
  effect: the new map, plus the condition-register write it makes.

Modules follow the source files:

- `BinaryOperators`, `UnaryOperators` and `Math` are the operator engine.
- `Storage` is the register bank.
- `Reload` is the patch/restore overlay. `ReloadTests` holds the unit test
  that goes with it.
- `AnmchrOperands` holds the command operand layouts. `AnmchrCommands` holds
  the commands.
- `VarRw`, `GameData`, `Strings`, `MatchInfo`, `CharacterExtensions`,
  `SuckEffect`, `CharacterTick` and `InputParse` are the smaller pieces.
- `Optional`, `Arith`, `BitArith`, `Bytes`, `Bits`, `Int32`, `Float32` and
  `Reals` are support modules for `Option`, integer and bit-vector
  arithmetic, two's complement and float bit patterns.

## Model

| member | source | states |
|---|---|---|
| Math.IsTrueFromBool | src/math.rs:27-48 | `from_bool` gives 1 or 0, and `is_true` of it gives the bool back |
| Math.BoolRoundtripIdempotent | src/math.rs:79-83 | `bool_roundtrip` keeps truthiness and is idempotent |
| Math.NumberOfInt | src/math.rs:152-180 | an integer `Number` gives its payload back through `into_int` and its cast through `into_float`; it is true exactly when nonzero, and its `bool_roundtrip` is the payload's |
| Math.NumberFromBoolIsTrue | src/math.rs:182-198 | a bool turned into a `Number` reads back as the same bool, and `into_int` of it is `from_bool` |
| FloatFacts.CleanIdempotent | src/math.rs:136-142 | `clean_float` is idempotent and leaves a value unchanged exactly when it is finite |
| FloatFacts.FloatFromBoolRoundTrip | src/math.rs:51-77 | the float bools 1.0 and 0.0 are finite, read back as the bool that made them, and are zero exactly for false |
| FloatFacts.NegationKeeps | src/unary_operators.rs:202 | multiplying by -1.0 keeps magnitude, finiteness and truthiness and swaps the sign tests |
| FloatFacts.AbsFacts | src/unary_operators.rs:185 | `abs` is idempotent, keeps finiteness and truthiness, and never gives a negative value |
| FloatFacts.Trichotomy | src/unary_operators.rs:211-220 | a float that is not NaN is a zero, above zero or below zero, never both above and below; a zero is false |
| BinaryOperators.DecodeCode | src/binary_operators.rs:6-22 | `from_u32` inverts the operator discriminants, and only a discriminant decodes to an operator |
| BinaryOperators.ArithmeticWraps | src/binary_operators.rs:163-180 | integer `Add`, `Sub` and `Mul` are congruent to the exact result modulo 2^32, and `Add` and `Sub` are exact while the result fits |
| BinaryOperators.ByZeroIsZero | src/binary_operators.rs:181-217 | integer division and remainder by zero give 0 |
| BinaryOperators.DivTruncates | src/binary_operators.rs:192-198 | for a nonzero divisor outside `MIN / -1`, `Div` rounds toward zero: the remainder it leaves is smaller than the divisor in size and has the sign of `lhs` |
| BinaryOperators.DivOverflow | src/binary_operators.rs:192-198 | `MIN / -1` wraps to `MIN` |
| BinaryOperators.RemainderIsEuclidean | src/binary_operators.rs:210-216 | for a nonzero divisor, `Remainder` lies in `[0, abs(rhs))` and is congruent to `lhs` modulo `rhs` |
| BinaryOperators.EuclideanUnique | src/binary_operators.rs:210-216 | a value in `[0, abs(rhs))` that differs from `lhs` by a multiple of `rhs` is the Euclidean remainder |
| BinaryOperators.AbsDiffSaturates | src/binary_operators.rs:239-246 | `AbsDiff` is `abs(lhs - rhs)` capped at `i32::MAX`: never negative, and symmetric |
| BinaryOperators.CopySignSpec | src/binary_operators.rs:254-262 | `CopySign` gives `abs(lhs)` for a non-negative `rhs` and `-abs(lhs)` for a negative one; `MIN` maps to itself in a build without overflow checks |
| BinaryOperators.CopySignMagnitudeAndSign | src/binary_operators.rs:254-262 | off `i32::MIN`, the result has the magnitude of `lhs` and the sign of `rhs` (zero stays zero), applying it again with the same `rhs` changes nothing, and copying a value's own sign returns it |
| BinaryOperators.MinMaxSpec | src/binary_operators.rs:220-231 | `Min` and `Max` return one of their operands, at most and at least both of them |
| BinaryOperators.BitwiseSpec | src/binary_operators.rs:271-297 | `And`, `Or` and `Xor` are the bit-by-bit operations on the two's-complement patterns |
| BinaryOperators.ComparisonsAreBool | src/binary_operators.rs:353-407 | integer comparisons give 1 when the relation holds and 0 otherwise; `EqualityApproximate` is exact equality |
| BinaryOperators.AmountModulo32 | src/binary_operators.rs:298-351 | shift and rotate results depend on `rhs` only modulo 32 |
| BinaryOperators.LeftShiftsAgree | src/binary_operators.rs:298-306 | `ShiftLeftSignExtend` and `ShiftLeftZeroExtend` agree on every pair of integers |
| BinaryOperators.RotateRoundTrip | src/binary_operators.rs:316-333 | rotating right by the amount just rotated left by gives the value back, and the reverse |
| BinaryOperators.ShiftRightSignExtendFloors | src/binary_operators.rs:307-315 | the sign-extending right shift is `lhs` divided by 2^(rhs mod 32), rounded toward negative infinity |
| BinaryOperators.ShiftRightZeroExtendDivides | src/binary_operators.rs:343-351 | the zero-extending right shift divides the unsigned reading of `lhs` by 2^(rhs mod 32); any nonzero count gives a non-negative result |
| BinaryOperators.ShiftLeftMultiplies | src/binary_operators.rs:298-306 | the left shift is `lhs * 2^(rhs mod 32)` wrapped to 32 bits |
| BinaryOperators.MixedHandlersPromote | src/binary_operators.rs:27-142 | a handler with any float operand casts its integer operands with `as f32` and gives the all-float handler's result |
| BinaryOperators.IntResultIsCastOfFloatResult | src/binary_operators.rs:91-142 | a float-to-integer handler is the float closure followed by `as i32`, with a non-finite result giving 0 |
| BinaryOperators.IntToFloatCastsIntResult | src/binary_operators.rs:80-89 | integer operands with a float destination give the exact integer result cast once, not cleaned |
| BinaryOperators.FloatByZeroIsZero | src/binary_operators.rs:181-217 | float division and remainder by either zero give 0.0 |
| BinaryOperators.FloatComparisonsAreBool | src/binary_operators.rs:353-407 | float comparisons give exactly 1.0 or 0.0, which read as the integers 1 and 0 |
| BinaryOperators.FloatBitwiseIsIntBitwise | src/binary_operators.rs:271-297 | the bitwise closures on floats are the integer closures on the bit patterns |
| BinaryOperators.FloatShiftIsIntShift | src/binary_operators.rs:298-351 | the shift and rotate closures on floats act on the bit pattern of `lhs`, shifted by `rhs as u32` |
| UnaryOperators.DecodeCode | src/unary_operators.rs:7-23 | `from_u32` inverts the operator discriminants, and only a discriminant decodes to an operator |
| UnaryOperators.RoundingAndSignSpec | src/unary_operators.rs:86-117 | on integers `Floor`, `Ceil` and `Round` change nothing and `Fract` is 0; `Signum` is -1, 0 or 1 by the sign; `IsPositive` and `IsNegative` give 1 or 0 |
| UnaryOperators.SqrtWithNegativeSpec | src/unary_operators.rs:130-136 | away from `i32::MIN`, the result `r` has the sign of `v` and `abs(r)` is the floor square root of `abs(v)`; the operator is odd |
| UnaryOperators.SaturatingSpec | src/unary_operators.rs:183-205 | `Abs` and `Negate` are exact except that `i32::MIN` gives `i32::MAX`; `Abs` is never negative |
| UnaryOperators.SignumTimesAbs | src/unary_operators.rs:189-222 | away from `i32::MIN`, `Signum(v) * Abs(v) == v`, and `Signum` is `IsPositive - IsNegative` |
| UnaryOperators.BitwiseNotSpec | src/unary_operators.rs:224-233 | integer `BitwiseNot` is `-v - 1` and undoes itself |
| UnaryOperators.LogicalNotSpec | src/unary_operators.rs:235-246 | integer `LogicalNot` is 1 exactly for 0, and applying it twice is `bool_roundtrip` |
| UnaryOperators.SquareSpec | src/unary_operators.rs:169-179 | `Square` is `v * v` modulo 2^32, and exactly `v * v` while that fits |
| UnaryOperators.FloatNegateSpec | src/unary_operators.rs:183-205 | on finite floats, float `Negate` undoes itself and does not change `Abs` |
| UnaryOperators.FloatLogicalSpec | src/unary_operators.rs:207-246 | float `LogicalNot` inverts float truthiness; float `IsPositive` and `IsNegative` give 1.0 or 0.0 from the sign tests |
| UnaryOperators.BoolInvolution | src/unary_operators.rs:71-80 | every bool closure undoes itself, and exactly `Negate`, `BitwiseNot` and `LogicalNot` change the value |
| UnaryOperators.BoolMatchesInt | src/unary_operators.rs:86-246 | on 0 and 1, the bool closure and the integer closure agree for the listed operators; `Fract`, `IsNegative` and `Negate` differ |
| Storage.SlotAliasing | src/storage.rs:94-135 | every access uses the index modulo 128, so `i` and `i \| 0x80` address the same slot; the two differ in type only by bit 7 |
| Storage.NewStoreReadsDefaults | src/storage.rs:82-92 | a fresh store reads 0 and 0.0 in every slot and belongs to its character |
| Storage.SetGetF32 | src/storage.rs:94-104 | after a float write the slot reads the value, other float slots read as before, and the integer array, character and pull are unchanged |
| Storage.SetGetI32 | src/storage.rs:106-116 | after an integer write the slot reads the value, other integer slots read as before, and the float array, character and pull are unchanged |
| Storage.SetSameIsInvisible | src/storage.rs:94-135 | writing the value a register already reads changes no later read |
| Storage.ReadIntoRegisterSpec | src/storage.rs:137-154 | an immediate lands bit for bit in the array the destination's type selects, and goes to the condition register |
| Storage.WriteResultSpec | src/storage.rs:156-352 | a result is stored in the array of its own type, at the destination, and reads back unchanged |
| Storage.RegisterRegisterDispatch | src/storage.rs:271-352 | the register-register operation writes the array of the destination's type, whatever the operand types |
| Storage.RegisterRegisterAllInt | src/storage.rs:342-350 | with three integer registers, the integer closure's exact result goes into the integer array and to the condition register |
| Storage.RegisterRegisterPromotes | src/storage.rs:277-341 | once an operand is a float register, the result is the float closure on promoted operands: cleaned for a float destination, cast `as i32` for an integer one |
| Storage.RegisterImmI32WritesInts | src/storage.rs:217-242 | the integer-immediate operation always writes the integer array, whatever the destination's type bit |
| Storage.RegisterImmF32WritesFloats | src/storage.rs:244-269 | the float-immediate operation always writes the float array and never stores a non-finite value |
| Storage.UnaryDispatch | src/storage.rs:156-179 | the register unary operation writes the destination's array and equals the immediate form applied to the source register |
| Storage.ImmediateUnarySpec | src/storage.rs:181-215 | the immediate unary operations store with the destination's type, and the condition register gets the result as an integer |
| Storage.WithSpec | src/storage.rs:34-48 | after `with` the key has a store: what `f` made of its old store, or of a fresh one; no other key changes |
| Storage.WithNoMakeSpec | src/storage.rs:50-64 | `with_no_make` never adds a key, changes nothing without one, and touches no other key |
| Storage.ResetAllSpec | src/storage.rs:22-31 | after `reset_all` no key has a store, and the next `with` starts from a fresh one |
| Reload.WordsWellFormed | src/reload.rs:60-535 | each listed command names its float words in increasing order, between word 3 and word 36 |
| Reload.OffsetsWellFormed | src/reload.rs:10-535 | each layout's fields are disjoint, 4-aligned words, after the 12-byte header and wholly inside the 512-byte window |
| Reload.SharedLayouts | src/reload.rs:387-480 | group 1 commands 0xB7-0xBE share offset 12, 0xCC-0xD1 share 36, 40 and 44, and 0xE7-0xEF share 20 |
| Reload.UnlistedCommands | src/reload.rs:534-535 | groups other than 0 and 1, and commands outside their listed ranges, have no float fields |
| Reload.NewReload | src/reload.rs:22-27 | a new reload has no records and keeps its target |
| Reload.SaveFrame | src/reload.rs:42-539 | saving leaves every byte outside the listed fields alone |
| Reload.SaveReads | src/reload.rs:42-539 | after saving, each listed field holds the store's replacement for its old word |
| Reload.SaveRecordsPositions | src/reload.rs:60-535 | every record saving keeps is at one of the command's listed offsets |
| Reload.SaveRecordsSound | src/reload.rs:29-39 | each record holds the word its field held before saving, a word the store replaced |
| Reload.SaveRecordsComplete | src/reload.rs:42-539 | every field the store replaced has a record |
| Reload.RestoreUndoesSave | src/reload.rs:29-39 | restoring what saving recorded gives the window back as it was |
| Reload.RestoreWordsFrame | src/reload.rs:29-39 | restoring writes only inside the recorded fields: every other byte of the window is unchanged |
| Reload.SaveThenRestore | src/reload.rs:29-539 | `save_anmchr_command` then `restore` leaves the command bytes as they were; at most the character's store was created |
| Reload.SaveAnmchrCommandStores | src/reload.rs:42-539 | the character's store is created for exactly the commands that get patched, and no other key's store changes |
| Reload.SaveAnmchrCommandWindow | src/reload.rs:42-539 | a missing group or command, or an unlisted one, changes nothing; otherwise only the command's fields change, each to the store's replacement |
| ReloadTests.ToBytesSpec | src/tests.rs:5-28 | `to_bytes` fails exactly when some pair is not a byte; otherwise it gives `len / 2` bytes, byte k spelled by characters 2k and 2k+1 |
| ReloadTests.ToBytesToHex | src/tests.rs:5-28 | decoding the upper-case hex string of any bytes gives the bytes back |
| ReloadTests.FirstTest | src/tests.rs:58-63 | the first test: the `FFFFFFFF` word is zeroed and restoring gives the input back |
| ReloadTests.SecondTest | src/tests.rs:64-69 | the second test: both `FFFFFFFF` words are zeroed and restoring gives the input back |
| AnmchrOperands.RegisterImmediateRoundTrip | src/anmchr_commands.rs:182-197 | the register-immediate operands survive encoding then decoding |
| AnmchrOperands.RegisterRegisterRoundTrip | src/anmchr_commands.rs:224-238 | the 8-byte `[op u32][lhs][rhs][flags][dest]` layout decodes what it encodes, and encodes what it decodes |
| AnmchrOperands.UnaryRegisterRoundTrip | src/anmchr_commands.rs:253-268 | the unary-register operands survive encoding then decoding |
| AnmchrOperands.UnaryImmediateRoundTrip | src/anmchr_commands.rs:282-300 | the unary-immediate operands survive encoding then decoding |
| AnmchrOperands.LoadImmediateRoundTrip | src/anmchr_commands.rs:166-171 | the load-immediate operands survive encoding then decoding |
| AnmchrOperands.VarRegisterRoundTrip | src/anmchr_commands.rs:440-456 | the variable-register operands survive encoding then decoding |
| AnmchrOperands.VarImmediateRoundTrip | src/anmchr_commands.rs:568-588 | the variable-immediate operands survive encoding then decoding |
| AnmchrOperands.ConditionalRoundTrip | src/anmchr_commands.rs:806-850 | the conditional operands survive encoding then decoding |
| AnmchrOperands.NameCheckRoundTrip | src/anmchr_commands.rs:912-931 | the name-check operands and the 64-byte expected name survive encoding then decoding |
| AnmchrCommands.UnknownOperationChangesNothing | src/anmchr_commands.rs:182-331 | an operation word that names no operator changes no register and writes no condition register; at most the store is created |
| AnmchrCommands.LoadImmediateSpec | src/anmchr_commands.rs:166-181 | the immediate's bits land unchanged in the destination's array, and the executing store's condition register gets them |
| AnmchrCommands.RegisterImmediateSpec | src/anmchr_commands.rs:182-223 | with a known operator the result goes into the array of the destination's type; an integer destination with an integer operand gets the exact integer closure, a float destination a finite value |
| AnmchrCommands.RegisterRegisterCommandSpec | src/anmchr_commands.rs:224-252 | with a known operator the result goes into the array of the destination's type |
| AnmchrCommands.UnaryRegisterCommandSpec | src/anmchr_commands.rs:253-281 | with a known operator the result goes into the destination's array, and equals the immediate form applied to the source read with that type |
| AnmchrCommands.UnaryImmediateCommandSpec | src/anmchr_commands.rs:282-331 | with a known operator and no bool flag, the result is stored with the destination's type and reaches the condition register as an integer |
| AnmchrCommands.LoadVarUnresolved | src/anmchr_commands.rs:440-512 | with no related character the destination gets zero or false and no condition register is written |
| AnmchrCommands.LoadVarResolved | src/anmchr_commands.rs:440-512 | with a related character, its condition register gets the value the destination now holds, and a numeric destination holds the loader's value |
| AnmchrCommands.LoadMatchStateVar | src/anmchr_commands.rs:332-348 | a float destination gets `load_f32` of the variable, an integer one `load_i32` |
| AnmchrCommands.StoreVarUnresolved | src/anmchr_commands.rs:514-609 | with no related character neither store-to-variable command has any effect |
| AnmchrCommands.StoreVarFromRegisterSpec | src/anmchr_commands.rs:349-363 | with a related character, no register changes, the source value goes to that character's condition register, and the variable gets the register's value |
| AnmchrCommands.CompareNames | src/anmchr_commands.rs:941-955 | the loop's answer is true exactly when the names agree up to and including the expected name's first 0 byte, or over all 64 bytes |
| AnmchrCommands.MismatchDisagrees | src/anmchr_commands.rs:947-949 | a mismatch before any 0 byte of the expected name means no match |
| AnmchrCommands.CheckCharacterNameSpec | src/anmchr_commands.rs:912-977 | with a related character, the executing character's condition register and the destination get 1 exactly when the names agree; without one nothing happens |
| AnmchrCommands.ConditionalFailedChangesNothing | src/anmchr_commands.rs:806-873 | with an unknown operator or a failed comparison no register changes and no condition register is written |
| AnmchrCommands.ConditionalNumericLhs | src/anmchr_commands.rs:873-899 | a passed integer comparison ends with the immediate in the left register, a passed float comparison with the immediate read with replacement; the version as written agrees with the corrected one there |
| AnmchrCommands.IntBackedBoolRegisters | src/anmchr_commands.rs:900-904 | bools kept as 1 and 0 in the integer array satisfy the bool-register assumptions, so those assumptions can hold |
| AnmchrCommands.ConditionalAsWrittenMissesLhs | src/anmchr_commands.rs:900-904 | as written, a passed bool comparison puts the immediate in the destination; the left register keeps the operation's value when the slots differ |
| AnmchrCommands.ConditionalWritesLhs | src/anmchr_commands.rs:889-904 | corrected, a passed bool comparison leaves the immediate in the left register, like the numeric kinds |
| AnmchrCommands.SetFilterSpec | src/anmchr_commands.rs:1005-1024 | setting a store's filter keeps every store paired with a filter slot, and a kept filter points at a projectile |
| AnmchrCommands.GetProjectileSpec | src/anmchr_commands.rs:979-1030 | no related character means no effect; otherwise no filter from the game reports FALSE and clears the slot, a filter whose step finds a projectile reports TRUE and is kept stepped, and one whose step finds none reports FALSE and leaves the old slot; the cursors stay valid |
| AnmchrCommands.NextProjectileSpec | src/anmchr_commands.rs:1034-1067 | the condition register is always written, TRUE exactly when a filter is kept, which is then the old one stepped once |
| AnmchrCommands.NextWithoutFilter | src/anmchr_commands.rs:1040-1044 | without a kept filter, `next_projectile` reports FALSE and keeps none |
| VarRw.FromIdSpec | src/var_rw.rs:24-32 | every variable is found by its own ID and by no other |
| VarRw.UnknownIdSpec | src/var_rw.rs:37-117 | an ID outside the table loads as integer 0 through both typed loads and stores nothing |
| VarRw.ReadOnlySpec | src/var_rw.rs:133-145 | a read-only variable's write does nothing, whatever the value and the owner |
| VarRw.GateSpec | src/var_rw.rs:146-212 | a gated variable reads 0 of its own type and is never written when its owner fails the gate |
| VarRw.TypeSpec | src/var_rw.rs:121-461 | each read gives the variable's declared type, and a written value is cast to it |
| VarRw.TypedLoadSpec | src/var_rw.rs:54-101 | `load_i32` passes integers through and casts finite floats, 0 for non-finite; `load_f32` casts integers and gives 0.0 for non-finite, so never returns one |
| VarRw.FlyingScreenRoundTrip | src/var_rw.rs:447-460 | storing an integer sets the flag to its truthiness and keeps the other bits; the flag reads back as the value's `bool_roundtrip` |
| VarRw.MatchStateVarSpec | src/var_rw.rs:140-145 | the match-state variable reads the decoded phase's discriminant, a value in -1..12 |
| GameData.OppositeSpec | src/game_data.rs:234-252 | `opposite` undoes itself, fixes exactly `Unknown`, and maps the two players to each other |
| GameData.IndexOfCharFinds | src/game_data.rs:192-205 | the roster search finds a node exactly when some node of the chain holds the character |
| GameData.IdentifyTeamSpec | src/game_data.rs:315-333 | the team is player 1 exactly when that chain holds the character, otherwise player 2 exactly when that chain does, otherwise `Unknown` |
| GameData.FromCharMatchesTeam | src/game_data.rs:134-160 | a node is found exactly for characters of a known team; it holds the character and comes from that team's chain |
| GameData.OpponentPointSpec | src/game_data.rs:353-364 | the opponent's point character resolves exactly for characters of a known team, to the other team's point |
| GameData.TrueAncestorSpec | src/game_data.rs:162-186 | the true ancestor has no parent, a node without a parent is its own, and a node shares its parent's |
| GameData.AncestorIsSmaller | src/game_data.rs:162-186 | every ancestor of a node is the node itself or strictly smaller, so following parents terminates |
| GameData.FlagRoundTrip | src/game_data.rs:30-60 | setting a nonzero flag then reading it gives what was written, and no other bit changes |
| GameData.DecodersReadOneBit | src/game_data.rs:370-393 | facing is left exactly when bit 0x20 is set; `KnockdownOrNonHitstun` exactly when bit 0x04 is set |
| GameData.SetMeterClamps | src/game_data.rs:483-501 | the meter written is the value clamped to `[0, 50000]`, and 0 for a non-finite value |
| GameData.DeadHealthIsF32 | src/game_data.rs:407-409 | the dead bound is the `f32` value of `0.1`, just above the decimal 0.1, and a health exactly at it blocks the write |
| GameData.SetHealthStable | src/game_data.rs:395-425 | a written health is at least 2.0, so the owner stays alive, and asking for the written value again produces the same write |
| GameData.SetHealthSpec | src/game_data.rs:395-425 | health is written exactly for a finite value while the owner's health is above `0.1f32` (exactly 13421773/2^27), as `max(value, 2.0)` with no upper bound, to the true ancestor; never for a character on neither roster |
| Strings.NextSpec | src/strings.rs:92-116 | from the start, the iterator yields the bytes before the first 0 byte within the capacity, in order, then stops |
| Strings.ContentsSpec | src/strings.rs:92-104 | the contents never hold a 0 byte and never exceed the capacity |
| Strings.Collect | src/strings.rs:89-116 | draining the iterator gives exactly the contents |
| Strings.EqIgnoreAsciiCase | src/strings.rs:50-70 | the loop answers whether the two contents agree, ignoring ASCII case, over the positions both reach; the same view is always equal |
| Strings.EqAsWrittenSpec | src/strings.rs:50-70 | the same-view shortcut never changes the answer, and the comparison is symmetric |
| Strings.PrefixComparesEqual | src/strings.rs:56-69 | a string compares equal to every string whose contents start with its own, ignoring case |
| Strings.EqAsWrittenIsPrefixTest | src/strings.rs:56-69 | "ab" equals "abc", and "a" equals "ab" and "ac", which differ: the comparison is neither content equality nor transitive |
| Strings.EqIgnoreAsciiCaseExactSpec | src/strings.rs:50-70 | the exact case-insensitive comparison is an equivalence, implies the written one, and agrees with it on equal lengths |
| Strings.FromCursorSpec | src/strings.rs:23-40 | below 2^63 the string starts at the old position and the cursor moves by the capacity, unless that overflows and nothing moves |
| MatchInfo.GetMatchStateSpec | src/match_state.rs:14-58 | each phase decodes from its own discriminant, and exactly the values outside 0..12 decode to `Error` |
| MatchInfo.GetMatchGameTimeSpec | src/match_state.rs:66-78 | a positive timer reads as `timer * 99 / 180`; every other value reads as stored |
| MatchInfo.SetMatchGameTimeSpec | src/match_state.rs:81-98 | a write happens exactly for a finite request while the timer runs; it is never negative, and over exact reals it reads back as the request clamped at 0 |
| InputParse.CleanSocdSafe | src/input_parse.rs:13-18 | the output never has both 0x04 and 0x08 set, and cleaning twice is cleaning once |
| InputParse.CleanSocdMinimal | src/input_parse.rs:13-18 | the input changes only when both bits are set, and then only bit 0x08 is cleared |
| CharacterTick.StepRestartSpec | src/character_tick.rs:22-50 | stores are cleared exactly when the latch waits, the phase is `RestartingFadeIn`, `PreIntro` or `Intro` and the timer is at most 1.01; the latch returns to waiting only after the timer passes 1.01 |
| CharacterTick.ResetAtMostOnce | src/character_tick.rs:29-50 | two ticks at the same restart moment clear the stores at most once |
| CharacterTick.GenericCharacterTickSpec | src/character_tick.rs:24-57 | a clearing tick leaves no store and moves nobody; otherwise only the owner's pull advances, and an owner without a store gets none |
| CharacterExtensions.DecaySymmetric | src/character_extensions.rs:49-81 | the decay of a negative pull mirrors the decay of the positive one |
| CharacterExtensions.DecayBounded | src/character_extensions.rs:42-81 | for `delta >= 0` the new magnitude is 0 or has the old sign with size at most 128, and a surviving one is not negligible |
| CharacterExtensions.DecayPositive | src/character_extensions.rs:54-65 | a positive pull is clamped to 128 and reduced by `delta`; below 0.001 it stops |
| CharacterExtensions.HandleSuckSpec | src/character_extensions.rs:40-88 | the opponent's point character moves by exactly the new magnitude, only when the pull survives and an opponent resolves; `delta` is kept |
| CharacterExtensions.RestIsFixed | src/character_extensions.rs:42-47 | a pull below 0.001 in size becomes 0 and moves nobody |
| SuckEffect.ApplySuckSpec | src/character_extensions.rs:21-37 | the character's store gets the pull (mirrored when facing left) and `delta`, with registers as before or fresh; no other store changes |

## Left out

- Relative teleport (`src/anmchr_commands.rs:59-165`): float positions read from live game memory and averaged in float arithmetic.
- The commands that combine a variable with a register or immediate (`binary_operation_var_register`, `binary_operation_var_immediate`, `unary_operation_var`, `src/anmchr_commands.rs:611-804`): they evaluate through `load_number` and `operate` on a `Number`, neither of which is defined in the files modelled, and they lie outside the modelled core of register, variable, conditional and projectile commands.
- `SuckX` (`src/anmchr_commands.rs:379-393`): it only reads two floats and calls `apply_suck`, which is modelled as `SuckEffect.ApplySuck`.
- The projectile variable commands (`src/anmchr_commands.rs:403-438`): the projectile variable table and projectile state are not part of this model.
- `ProjectileFilterFlags` and the projectile filter's own stepping: the filter is a type parameter, and finding the filter and stepping it are parameters of the model.
- The register flags, `resolve_indirect_register`, the `*_with_replacement` reads, `set_bool`/`get_bool`, `get_number_register`/`set_number_register`, `related_character` and `store_f32_for_reload` are not defined in `src/storage.rs`, and `Char::if_valid_ancestor` and `Char::if_valid_point` are not defined in `src/game_data.rs`. They are fields of the `AnmchrCommands.Api` and `VarRw.Game` records, or parameters, with no behaviour assumed beyond what each lemma requires.
- AnmchrCommands.RegisterImmediate: the `register_flags` argument at the `register_*` call sites is dropped, because `src/storage.rs` takes no such argument.
- AnmchrCommands.Operation: a read with replacement is assumed to leave the store unchanged; only its result is modelled.
- Reload.SaveAnmchrCommand: `store_f32_for_reload` is modelled as "replace this word, or leave it", given by the store. How it recognises the sentinel is not defined in the files modelled.
- AnmchrCommands.UnaryRegisterCommand: requires that the integer operation does not panic. `SqrtWithNegative` on `i32::MIN` panics in the source, and a panic is not modelled.
- AnmchrCommands.UnaryImmediateCommand: requires the same absence of a panic, for the same reason.
- Storage.RegisterUnaryResult: requires the same absence of a panic when the destination is an integer register, for the same reason.
- Storage.RegisterUnary: requires the same absence of a panic, for the same reason.
- Storage.ImmediateUnaryI32: requires the same absence of a panic, for the same reason.
- Storage.UnaryDispatch: requires the same absence of a panic, for the same reason.
- Storage.ImmediateUnarySpec: requires the same absence of a panic, for the same reason.
- BinaryOperators.CopySignSpec: assumes a build without overflow checks, where `abs()` and `-` leave `i32::MIN` unchanged; with overflow checks `CopySign(i32::MIN, _)` panics, and a panic is not modelled. `BinaryOperators.CopySignMagnitudeAndSign` states only what holds in both builds, off `i32::MIN`.
- UnaryOperators.SqrtWithNegativeSpec: requires `v != i32::MIN`, the input where the source panics.
- Float arithmetic on registers: `+`, `*`, `/`, `floor`, `sqrt`, `approx_sin`/`approx_cos`, `near_eq` and the integer `Sin`/`Cos` are parameters. For register values the model fixes only what follows from bit patterns and IEEE-754 zero and one.
- Float rounding in game values: the health, meter, timer and suck-pull computations are exact arithmetic over `real`, with constants that are the exact values of their `f32` literals where a comparison could tell the difference. The rounding of each `f32` product, sum and difference is not modelled.
- MatchInfo.SetMatchGameTimeSpec: the read-back of the request clamped at 0 holds over reals. `GET_TIMER_RATIO` and `SET_TIMER_RATIO` are the `f32` roundings of 99/180 and 180/99 (`src/match_state.rs:66`, `:81`), and both products round, so in `f32` the read-back can differ in the last bits.
- CharacterExtensions.HandleSuckSpec: a NaN or infinite pull or delta cannot be represented. `SuckX` reads both with no `is_finite` check (`src/anmchr_commands.rs:379-392`). A NaN pull fails every test in `handle_suck` (`src/character_extensions.rs:42-80`), so it would move the opponent's x to NaN on every tick (`:83-86`).
- Hooks, detours, `DllMain`, raw memory access and message boxes (`src/hook_helpers.rs`, `src/lib.rs`, `src/error.rs`) and the tick-hook address table (`src/character_tick.rs:62-161`) are foreign code or I/O.
- The mutexes and `LazyLock` globals: the store map and the restart latch are single-threaded values, passed in and returned.
- `reset_all`'s capacity shrinking (`src/storage.rs:27-30`) changes no contents and is not modelled.
- GameData.TrueAncestor: parent links form an inductive datatype, so a cyclic chain of nodes in game memory cannot be expressed.
- Reload.Restore: `original_values` is an `Option` of a list in the source; `None` and the empty list restore the same nothing and are one value here.
- ReloadTests.FirstTest: the test's hex strings are given as byte sequences built from four-byte words; `ReloadTests.ToBytesToHex` connects bytes and hex text.
- ReloadTests.SecondTest: as for the first test.

## Notes on the source

- `register_register_operation` dispatches exactly 8 float/integer combinations of lhs, rhs and destination (`src/storage.rs:271-352`), and `src/storage.rs` itself holds no bool registers; bools reach the registers only through `set_bool`/`get_bool`, which are parameters here.
- `get_f32_register` and `get_i32_register` return the default when their own array was never allocated, whatever the other array holds in that slot (`src/storage.rs:118-135`).
- `SqrtWithNegative` on `i32::MIN` reaches `isqrt` of a negative value (`src/unary_operators.rs:130-136`), which panics.
- The integer `CopySign` uses plain `abs()` and unary minus (`src/binary_operators.rs:254-262`), unlike the `wrapping_*` and `saturating_*` calls of the other integer closures, so `CopySign(i32::MIN, _)` depends on whether overflow checks are compiled in.
- `set_health` has a lower clamp at `MIN_HEALTH` and no upper clamp (`src/game_data.rs:410-416`).
- `src/reload.rs` patches only single four-byte float words at fixed offsets of a 512-byte window.
- The doc comment on `HitstunFlagA::HitstunAirStandCrouch` (`src/game_data.rs:265`) says bit 0x04 means "in hitstun, not knocked down". `get_hitstun_non_knockdown` maps a set bit 0x04 to `KnockdownOrNonHitstun` (`src/game_data.rs:383-393`). `GameData.HitstunOf` follows the code.

## Findings

| source | as written | input that shows it | evidently intended | confidence | as-written member | corrected member |
|---|---|---|---|---|---|---|
| src/anmchr_commands.rs:900-904 | after a passed comparison on a bool left register, the immediate is written with `set_bool(destination, …)` | a bool `lhs` in slot 1, `destination` in slot 2, a passing comparison: `destination` gets the immediate, and `lhs` is not written: it keeps whatever bool the result operation left there | write the immediate to `lhs`, as the integer and float arms at lines 890-899 do | not executed; medium | AnmchrCommands.ConditionalAsWrittenMissesLhs | AnmchrCommands.ConditionalWritesLhs |
| src/strings.rs:56-69 | `eq_ignore_ascii_case` zips the two iterators, so it stops when the shorter string ends | "ab" and "abc", each in a 4-byte buffer, compare equal; "a" equals both "ab" and "ac", which differ | equal lengths as well as equal bytes ignoring case, like `str::eq_ignore_ascii_case` | not executed; medium | Strings.EqAsWrittenIsPrefixTest | Strings.EqIgnoreAsciiCaseExactSpec |
