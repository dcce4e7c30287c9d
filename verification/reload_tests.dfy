/**
 * The reload unit test (`tests.rs`): commands written as hex strings, patched
 * through a store whose replacement turns the word `FFFFFFFF` into zero, then
 * restored.
 */
module ReloadTests {
  import opened Optional
  import opened Bytes
  import opened Bits
  import opened Int32
  import opened GameData
  import opened Storage
  import opened Reload

  // ---------------------------------------------------------------------
  // Hex strings

  /** The value of one hexadecimal digit, either case (`to_digit(16)`). */
  function HexDigit(c: char): (d: Option<nat>)
    ensures d.Some? ==> d.value < 16
  {
    if '0' <= c <= '9' then Some(c as nat - '0' as nat)
    else if 'a' <= c <= 'f' then Some(c as nat - 'a' as nat + 10)
    else if 'A' <= c <= 'F' then Some(c as nat - 'A' as nat + 10)
    else None
  }

  /**
   * `u8::from_str_radix` of a two-character string in base 16: two digits, or
   * a `+` sign followed by one digit; anything else is an error.
   */
  function HexByte(hi: char, lo: char): Option<bv8> {
    if hi == '+' then
      match HexDigit(lo)
      case Some(d) => Some(d as bv8)
      case None => None
    else
      match (HexDigit(hi), HexDigit(lo))
      case (Some(h), Some(l)) => Some((16 * h + l) as bv8)
      case _ => None
  }

  /** The byte the `k`th pair of characters spells, if any. */
  function Pair(s: string, k: nat): Option<bv8>
    requires 2 * k + 1 < |s|
  {
    HexByte(s[2 * k], s[2 * k + 1])
  }

  /** Every whole pair of characters spells a byte. */
  ghost predicate AllPairs(s: string) {
    forall k: nat :: 2 * k + 1 < |s| ==> Pair(s, k).Some?
  }

  /** Dropping the first pair shifts every later pair down by one. */
  lemma PairOfTail(s: string, k: nat)
    requires 2 * k + 3 < |s|
    ensures Pair(s[2..], k) == Pair(s, k + 1)
  {
    assert s[2..][2 * k] == s[2 * (k + 1)] && s[2..][2 * k + 1] == s[2 * (k + 1) + 1];
  }

  /**
   * `to_bytes`: one byte per pair of characters, a trailing odd character
   * ignored; `None` where the source's `unwrap` panics on a pair that is not
   * a byte.
   */
  function ToBytes(s: string): (r: Option<seq<bv8>>)
    decreases |s|
  {
    if |s| < 2 then Some([])
    else match (Pair(s, 0), ToBytes(s[2..]))
      case (Some(b), Some(bs)) => Some([b] + bs)
      case _ => None
  }

  /** `to_bytes` fails exactly when some pair is not a byte, and otherwise yields each pair's byte in order. */
  lemma {:induction false} ToBytesSpec(s: string)
    ensures ToBytes(s).Some? <==> AllPairs(s)
    ensures ToBytes(s).Some? ==> |ToBytes(s).value| == |s| / 2
    ensures ToBytes(s).Some? ==> forall k: nat :: 2 * k + 1 < |s| ==> ToBytes(s).value[k] == Pair(s, k).value
    decreases |s|
  {
    if |s| >= 2 {
      var t := s[2..];
      ToBytesSpec(t);
      forall k: nat | 2 * k + 1 < |t| ensures Pair(t, k) == Pair(s, k + 1) {
        PairOfTail(s, k);
      }
      if AllPairs(s) {
        assert Pair(s, 0).Some?;
        assert AllPairs(t) by {
          forall k: nat | 2 * k + 1 < |t| ensures Pair(t, k).Some? {
            assert Pair(s, k + 1).Some?;
          }
        }
        var bs := ToBytes(s).value;
        forall k: nat | 2 * k + 1 < |s| ensures bs[k] == Pair(s, k).value {
          if k > 0 {
            assert bs[k] == ToBytes(t).value[k - 1];
          }
        }
      } else {
        var k: nat :| 2 * k + 1 < |s| && Pair(s, k).None?;
        if k > 0 {
          assert Pair(t, k - 1).None?;
        }
      }
    }
  }

  /** The upper-case digit for a value below 16. */
  function DigitChar(d: nat): (c: char)
    requires d < 16
    ensures HexDigit(c) == Some(d)
  {
    if d < 10 then ('0' as nat + d) as char else ('A' as nat + d - 10) as char
  }

  /** The bytes as a hex string, two upper-case digits each. */
  function ToHex(bytes: seq<bv8>): (s: string)
    ensures |s| == 2 * |bytes|
  {
    if bytes == [] then ""
    else [DigitChar(bytes[0] as nat / 16), DigitChar(bytes[0] as nat % 16)] + ToHex(bytes[1..])
  }

  /** The upper-case pair for one byte spells that byte. */
  lemma HexByteOfDigits(b: bv8)
    ensures HexByte(DigitChar(b as nat / 16), DigitChar(b as nat % 16)) == Some(b)
  {
    var n := b as nat;
    ByteBits(b);
    HexPairValue(n, DigitChar(n / 16), DigitChar(n % 16));
  }

  /** Two digits that are not a sign spell the byte they stand for. */
  lemma HexPairValue(n: nat, hi: char, lo: char)
    requires n < 256 && HexDigit(hi) == Some(n / 16) && HexDigit(lo) == Some(n % 16)
    ensures HexByte(hi, lo) == Some(n as bv8)
  {
    assert hi != '+';
    assert 16 * (n / 16) + n % 16 == n;
  }

  /** Decoding the hex string of any bytes gives the bytes back. */
  lemma {:induction false} ToBytesToHex(bytes: seq<bv8>)
    ensures ToBytes(ToHex(bytes)) == Some(bytes)
  {
    if bytes != [] {
      var s := ToHex(bytes);
      ToBytesToHex(bytes[1..]);
      assert s[2..] == ToHex(bytes[1..]);
      HexByteOfDigits(bytes[0]);
      assert Pair(s, 0) == Some(bytes[0]);
      assert [bytes[0]] + bytes[1..] == bytes;
    }
  }

  // ---------------------------------------------------------------------
  // The two test vectors of `test_reload_all`

  /** The test's store key (`STORAGE_KEY`). */
  const STORAGE_KEY: Ptr := 1111

  /** The command under test starts 8 bytes into the buffer. */
  const COMMAND_AT: nat := 8

  /** The bytes of the first test's input: command `0x21` of group 0, with the marker in its one float field. */
  const FIRST_INPUT: seq<bv8> :=
    [0x00, 0x00, 0x00, 0x00] + [0x21, 0x00, 0x00, 0x00] + [0x04, 0x00, 0x00, 0x00] + [0x00, 0x00, 0x00, 0x00] +
    [0x03, 0x00, 0x00, 0x00] + [0x03, 0x00, 0x00, 0x00] + [0x06, 0x00, 0x00, 0x00] + [0x03, 0x00, 0x00, 0x00] +
    [0x01, 0x00, 0x00, 0x00] + [0x2D, 0x00, 0x00, 0x00] + [0xFF, 0xFF, 0xFF, 0xFF] + [0x03, 0x00, 0x00, 0x00]

  /** The bytes the first test expects after patching: the marker has become zero. */
  const FIRST_EXPECTED: seq<bv8> :=
    [0x00, 0x00, 0x00, 0x00] + [0x21, 0x00, 0x00, 0x00] + [0x04, 0x00, 0x00, 0x00] + [0x00, 0x00, 0x00, 0x00] +
    [0x03, 0x00, 0x00, 0x00] + [0x03, 0x00, 0x00, 0x00] + [0x06, 0x00, 0x00, 0x00] + [0x03, 0x00, 0x00, 0x00] +
    [0x01, 0x00, 0x00, 0x00] + [0x2D, 0x00, 0x00, 0x00] + [0x00, 0x00, 0x00, 0x00] + [0x03, 0x00, 0x00, 0x00]

  /** The bytes of the second test's input: command `0x22` of group 0, with the marker in both float fields. */
  const SECOND_INPUT: seq<bv8> :=
    [0x00, 0x00, 0x00, 0x00] + [0x22, 0x00, 0x00, 0x00] + [0x05, 0x00, 0x00, 0x00] + [0x00, 0x00, 0x00, 0x00] +
    [0x03, 0x00, 0x00, 0x00] + [0x03, 0x00, 0x00, 0x00] + [0x06, 0x00, 0x00, 0x00] + [0x06, 0x00, 0x00, 0x00] +
    [0x03, 0x00, 0x00, 0x00] + [0x01, 0x00, 0x00, 0x00] + [0x02, 0x00, 0x00, 0x00] + [0xFF, 0xFF, 0xFF, 0xFF] +
    [0xFF, 0xFF, 0xFF, 0xFF] + [0x03, 0x00, 0x00, 0x00]

  /** The bytes the second test expects after patching. */
  const SECOND_EXPECTED: seq<bv8> :=
    [0x00, 0x00, 0x00, 0x00] + [0x22, 0x00, 0x00, 0x00] + [0x05, 0x00, 0x00, 0x00] + [0x00, 0x00, 0x00, 0x00] +
    [0x03, 0x00, 0x00, 0x00] + [0x03, 0x00, 0x00, 0x00] + [0x06, 0x00, 0x00, 0x00] + [0x06, 0x00, 0x00, 0x00] +
    [0x03, 0x00, 0x00, 0x00] + [0x01, 0x00, 0x00, 0x00] + [0x02, 0x00, 0x00, 0x00] + [0x00, 0x00, 0x00, 0x00] +
    [0x00, 0x00, 0x00, 0x00] + [0x03, 0x00, 0x00, 0x00]

  /** The store the test's key has, or gets, when the command is saved. */
  function TestStore(m: StoreMap): CharStore {
    if STORAGE_KEY in m then m[STORAGE_KEY] else NewStore(STORAGE_KEY)
  }

  /**
   * `test_reload_one`: the group is the input's byte 0 and the command its
   * byte 4; the command's data starts at byte 8. Returns the patched bytes and
   * the bytes after restoring.
   */
  function ReloadOne(m: StoreMap, input: seq<bv8>, replace: Replace): (seq<bv8>, seq<bv8>)
    requires |input| >= 8 && Fits(input, COMMAND_AT, Offsets(input[0] as int, input[4] as int))
  {
    var (_, patched, reload) := SaveAnmchrCommand(m, STORAGE_KEY, input, COMMAND_AT,
      Some(input[0] as int), Some(input[4] as int), replace);
    SaveThenRestore(m, STORAGE_KEY, input, COMMAND_AT, Some(input[0] as int), Some(input[4] as int), replace);
    (patched, Restore(patched, reload))
  }

  /** The first test: the marker word is zeroed, and restoring gives the input back. */
  lemma FirstTest(m: StoreMap, replace: Replace)
    requires replace(TestStore(m), 0xFFFF_FFFF) == Some(0)
    ensures Fits(FIRST_INPUT, COMMAND_AT, Offsets(FIRST_INPUT[0] as int, FIRST_INPUT[4] as int))
    ensures ReloadOne(m, FIRST_INPUT, replace) == (FIRST_EXPECTED, FIRST_INPUT)
  {
    var s := TestStore(m);
    assert FIRST_INPUT[0] == 0 && FIRST_INPUT[4] == 0x21;
    ByteValue(0);
    ByteValue(0x21);
    assert Offsets(0, 0x21) == [32];
    assert ReadWord(FIRST_INPUT, 40) == 0xFFFF_FFFF;
    assert WriteWord(FIRST_INPUT, 40, 0) == FIRST_EXPECTED;
    SaveStep(FIRST_INPUT, COMMAND_AT, [32], s, replace);
    assert FirstSaved(FIRST_INPUT, COMMAND_AT, [32], s, replace) == FIRST_EXPECTED;
    assert SaveWords(FIRST_INPUT, COMMAND_AT, [32], s, replace).0 == FIRST_EXPECTED;
    SaveAnmchrCommandStores(m, STORAGE_KEY, FIRST_INPUT, COMMAND_AT, Some(0), Some(0x21), replace);
    SaveThenRestore(m, STORAGE_KEY, FIRST_INPUT, COMMAND_AT, Some(0), Some(0x21), replace);
  }

  /** Patching the second test's two fields through a store that zeroes the marker. */
  lemma SecondPatch(s: CharStore, replace: Replace)
    requires replace(s, 0xFFFF_FFFF) == Some(0)
    ensures Fits(SECOND_INPUT, COMMAND_AT, [36, 40])
    ensures SaveWords(SECOND_INPUT, COMMAND_AT, [36, 40], s, replace).0 == SECOND_EXPECTED
  {
    var middle := WriteWord(SECOND_INPUT, 44, 0);
    assert ReadWord(SECOND_INPUT, 44) == 0xFFFF_FFFF;
    assert ReadWord(middle, 48) == 0xFFFF_FFFF;
    assert WriteWord(middle, 48, 0) == SECOND_EXPECTED;
    SaveStep(SECOND_INPUT, COMMAND_AT, [36, 40], s, replace);
    assert FirstSaved(SECOND_INPUT, COMMAND_AT, [36, 40], s, replace) == middle;
    assert [36, 40][1..] == [40];
    SaveStep(middle, COMMAND_AT, [40], s, replace);
  }

  /** The second test: both marker words are zeroed, and restoring gives the input back. */
  lemma SecondTest(m: StoreMap, replace: Replace)
    requires replace(TestStore(m), 0xFFFF_FFFF) == Some(0)
    ensures Fits(SECOND_INPUT, COMMAND_AT, Offsets(SECOND_INPUT[0] as int, SECOND_INPUT[4] as int))
    ensures ReloadOne(m, SECOND_INPUT, replace) == (SECOND_EXPECTED, SECOND_INPUT)
  {
    assert SECOND_INPUT[0] == 0 && SECOND_INPUT[4] == 0x22;
    ByteValue(0);
    ByteValue(0x22);
    assert Offsets(0, 0x22) == [36, 40];
    SecondPatch(TestStore(m), replace);
    SaveAnmchrCommandStores(m, STORAGE_KEY, SECOND_INPUT, COMMAND_AT, Some(0), Some(0x22), replace);
    SaveThenRestore(m, STORAGE_KEY, SECOND_INPUT, COMMAND_AT, Some(0), Some(0x22), replace);
  }
}
