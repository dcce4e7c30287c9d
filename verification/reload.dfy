/**
 * Reloading values in an anmchr command from registers (`reload.rs`).
 *
 * Before the game runs an anmchr command, `save_anmchr_command` looks up the
 * command's layout: the byte offsets of its float parameters inside a
 * 512-byte window starting at the command's data. At each offset the
 * character's store may substitute a register value for the stored word; the
 * word it replaces is recorded in a `Reload`, and `Reload::restore` writes the
 * recorded words back once the command has run.
 *
 * The window of game memory is modelled as a byte sequence `buf` with the
 * command's data at index `at`. The per-word substitution
 * (`CharStore::store_f32_for_reload`) is not part of this model: it is the
 * parameter `replace`, which, given the store and the word found, either
 * supplies the word to write or declines.
 */
module Reload {
  import opened Optional
  import opened Bits
  import opened Int32
  import opened GameData
  import opened Storage

  /** `RELOAD_SIZE`: 128 words of 4 bytes. */
  const RELOAD_SIZE: nat := 512
  const WORD_SIZE: nat := 4

  // ---------------------------------------------------------------------
  // The table of command layouts

  /**
   * The word indices of the float parameters of command `command` in command
   * group `group`, in the order `save_anmchr_command` visits them; the empty
   * sequence for every command it leaves alone.
   */
  function Words(group: U32, command: U32): seq<nat> {
    if group == 0 then
      if command == 0x21 then [8]
      else if command == 0x22 then [9, 10]
      else if command == 0x23 then [10, 11]
      else if command == 0x24 then [11, 12]
      else if command == 0x26 then [4]
      else if command == 0x31 || command == 0x37 then [11, 15, 16, 17, 19, 20, 21]
      else if command == 0x32 || command == 0x38 then [9, 13, 14, 15]
      else if command == 0x45 then [3, 4, 5]
      else []
    else if group == 1 then
      if command == 0x0C then [7]
      else if command == 0x79 || command == 0x7C then [3]
      else if command == 0x7E then [12, 13, 14, 16, 17, 18]
      else if command == 0x7F then [30, 31, 32, 34, 35, 36]
      else if command == 0x89 || command == 0x8A then [3]
      else if command == 0x8B then [6]
      else if command == 0xA4 then [3, 4, 5]
      else if command == 0xA5 then [5, 7, 8]
      else if command == 0xA6 || command == 0xAA || command == 0xAE || command == 0xAF then [4, 5]
      else if command == 0xA7 || command == 0xA8 || command == 0xA9 then [3]
      else if command == 0xAB || command == 0xAC || command == 0xAD then [3]
      else if command == 0xB0 || command == 0xB4 || command == 0xDD then [3]
      else if command == 0xB1 then [5, 6, 7]
      else if command == 0xB3 || command == 0xC1 then [4, 5]
      else if command == 0xB6 then [3, 4, 5]
      else if 0xB7 <= command <= 0xBE then [3]
      else if command == 0xBF then [4, 5, 6]
      else if command == 0xC3 then [7, 8, 9, 10]
      else if command == 0xCA || command == 0xD2 then [5, 6, 7]
      else if 0xCC <= command <= 0xD1 then [9, 10, 11]
      else if command == 0xDC then [9, 10, 12]
      else if 0xE7 <= command <= 0xEF then [5]
      else if command == 0xF0 then [6]
      else if command == 0xF7 then [9]
      else if command == 0xF8 then [5]
      else if command == 0xF9 || command == 0xFB || command == 0xFD then [5, 6, 7]
      else []
    else []
  }

  /** The byte offsets of a command's float parameters (`SIZE_U32 * n`). */
  function Offsets(group: U32, command: U32): (offsets: seq<nat>)
    ensures |offsets| == |Words(group, command)|
    ensures forall i :: 0 <= i < |offsets| ==> offsets[i] == WORD_SIZE * Words(group, command)[i]
  {
    seq(|Words(group, command)|, i requires 0 <= i < |Words(group, command)| => WORD_SIZE * Words(group, command)[i])
  }

  /** Each word index is larger than the one before it. */
  predicate Ascending(ws: seq<nat>) {
    forall i :: 0 < i < |ws| ==> ws[i - 1] < ws[i]
  }

  /** No two offsets name overlapping 4-byte fields: each starts at least a word after every earlier one. */
  predicate Spaced(offsets: seq<nat>) {
    forall i, j :: 0 <= i < j < |offsets| ==> offsets[i] + WORD_SIZE <= offsets[j]
  }

  /** Every listed command names its words in increasing order, past the 3-word header, inside the window. */
  lemma WordsWellFormed(group: U32, command: U32)
    ensures Ascending(Words(group, command))
    ensures forall i :: 0 <= i < |Words(group, command)| ==> 3 <= Words(group, command)[i] <= 36
  {}

  /** An ascending sequence is ascending between any two positions, not just neighbours. */
  lemma {:induction false} AscendingPairwise(ws: seq<nat>)
    requires Ascending(ws)
    ensures forall i, j :: 0 <= i < j < |ws| ==> ws[i] < ws[j]
  {
    if |ws| > 1 {
      var tail := ws[1..];
      assert Ascending(tail) by {
        forall i | 0 < i < |tail| ensures tail[i - 1] < tail[i] {
          assert tail[i - 1] == ws[i] && tail[i] == ws[i + 1];
        }
      }
      AscendingPairwise(tail);
      forall i, j | 0 <= i < j < |ws| ensures ws[i] < ws[j] {
        if i == 0 {
          if j > 1 {
            assert ws[1] == tail[0] && ws[j] == tail[j - 1];
          }
        } else {
          assert ws[i] == tail[i - 1] && ws[j] == tail[j - 1];
        }
      }
    }
  }

  /**
   * The layout of every command: the fields are disjoint words, each
   * 4-aligned, past the 12-byte header and wholly inside the 512-byte window.
   */
  lemma OffsetsWellFormed(group: U32, command: U32)
    ensures Spaced(Offsets(group, command))
    ensures forall i :: 0 <= i < |Offsets(group, command)| ==>
      var o := Offsets(group, command)[i];
      12 <= o && o % WORD_SIZE == 0 && o + WORD_SIZE <= RELOAD_SIZE
  {
    WordsWellFormed(group, command);
    AscendingPairwise(Words(group, command));
  }

  /** Runs of consecutive commands in group 1 that share one layout. */
  lemma SharedLayouts(command: U32)
    ensures 0xB7 <= command <= 0xBE ==> Offsets(1, command) == [12]
    ensures 0xCC <= command <= 0xD1 ==> Offsets(1, command) == [36, 40, 44]
    ensures 0xE7 <= command <= 0xEF ==> Offsets(1, command) == [20]
  {}

  /** The commands `save_anmchr_command` leaves alone: the default arm. */
  lemma UnlistedCommands(group: U32, command: U32)
    requires group > 1 || (group == 0 && !(0x21 <= command <= 0x45)) || (group == 1 && !(0x0C <= command <= 0xFD))
    ensures Offsets(group, command) == []
  {}

  // ---------------------------------------------------------------------
  // Saving and restoring

  /** One replaced word: its offset inside the window and the word it held. */
  datatype Record = Record(position: nat, original: bv32)

  /** `Reload`: where the window starts and the words to put back, in the order they were replaced. */
  datatype Reload = Reload(originals: seq<Record>, target: nat)

  /** `Reload::new`: nothing to put back. */
  function NewReload(target: nat): (r: Reload)
    ensures r.originals == [] && r.target == target
  {
    Reload([], target)
  }

  /** The substitution a store offers for a word it finds (`store_f32_for_reload`). */
  type Replace = (CharStore, bv32) -> Option<bv32>

  /** Every field of `offsets` lies inside `buf` when the window starts at `at`. */
  predicate Fits(buf: seq<bv8>, at: nat, offsets: seq<nat>) {
    forall i :: 0 <= i < |offsets| ==> at + offsets[i] + WORD_SIZE <= |buf|
  }

  /** Every record's field lies inside `buf` when the window starts at `at`. */
  predicate RecordsFit(buf: seq<bv8>, at: nat, records: seq<Record>) {
    forall k :: 0 <= k < |records| ==> at + records[k].position + WORD_SIZE <= |buf|
  }

  /** The word a field holds after the store has had its say. */
  function Replaced(s: CharStore, replace: Replace, w: bv32): bv32 {
    match replace(s, w)
    case Some(n) => n
    case None => w
  }

  /**
   * The calls to `store_f32_for_reload` of one arm, in order: each field the
   * store replaces is overwritten and its old word appended to the records.
   */
  function SaveWords(buf: seq<bv8>, at: nat, offsets: seq<nat>, s: CharStore, replace: Replace): (r: (seq<bv8>, seq<Record>))
    requires Fits(buf, at, offsets)
    ensures |r.0| == |buf|
    decreases |offsets|
  {
    if offsets == [] then (buf, [])
    else
      var o := offsets[0];
      var w := ReadWord(buf, at + o);
      match replace(s, w)
      case None => SaveWords(buf, at, offsets[1..], s, replace)
      case Some(n) =>
        var (b, records) := SaveWords(WriteWord(buf, at + o, n), at, offsets[1..], s, replace);
        (b, [Record(o, w)] + records)
  }

  /** Byte `j` lies inside the field of one of the records. */
  predicate InRecordField(j: int, at: nat, records: seq<Record>) {
    exists k :: 0 <= k < |records| && at + records[k].position <= j < at + records[k].position + WORD_SIZE
  }

  /** Every byte of `buf` outside the records' fields reads the same in `r`. */
  predicate KeptOutside(r: seq<bv8>, buf: seq<bv8>, at: nat, records: seq<Record>)
    requires |r| == |buf|
  {
    forall j :: 0 <= j < |buf| && !InRecordField(j, at, records) ==> r[j] == buf[j]
  }

  /** `Reload::restore`'s loop: write each recorded word back at its offset, in order. */
  function RestoreWords(buf: seq<bv8>, at: nat, records: seq<Record>): (r: seq<bv8>)
    requires RecordsFit(buf, at, records)
    ensures |r| == |buf|
    decreases |records|
  {
    if records == [] then buf
    else RestoreWords(WriteWord(buf, at + records[0].position, records[0].original), at, records[1..])
  }

  /** Restoring changes no byte outside the recorded fields. */
  lemma {:induction false} RestoreWordsFrame(buf: seq<bv8>, at: nat, records: seq<Record>)
    requires RecordsFit(buf, at, records)
    ensures KeptOutside(RestoreWords(buf, at, records), buf, at, records)
    decreases |records|
  {
    if records != [] {
      var b1 := WriteWord(buf, at + records[0].position, records[0].original);
      RestoreWordsFrame(b1, at, records[1..]);
      forall j | 0 <= j < |buf| && !InRecordField(j, at, records)
        ensures RestoreWords(buf, at, records)[j] == buf[j]
      {
        assert !(at + records[0].position <= j < at + records[0].position + WORD_SIZE);
      }
    }
  }

  /** `Reload::restore`. */
  function Restore(buf: seq<bv8>, r: Reload): (b: seq<bv8>)
    requires RecordsFit(buf, r.target, r.originals)
    ensures |b| == |buf|
  {
    RestoreWords(buf, r.target, r.originals)
  }

  /** The layout of the command, when both its group and its number are known. */
  function Layout(group: Option<U32>, command: Option<U32>): seq<nat> {
    if group.Some? && command.Some? then Offsets(group.value, command.value) else []
  }

  /**
   * `save_anmchr_command`: an unknown group or number, or a command without
   * float parameters, leaves everything alone; any other command creates the
   * character's store if it has none, and patches the window through it.
   */
  function SaveAnmchrCommand(m: StoreMap, exe: Ptr, buf: seq<bv8>, at: nat,
                             group: Option<U32>, command: Option<U32>, replace: Replace): (r: (StoreMap, seq<bv8>, Reload))
    requires Fits(buf, at, Layout(group, command))
    ensures |r.1| == |buf| && r.2.target == at
  {
    var offsets := Layout(group, command);
    if offsets == [] then (m, buf, NewReload(at))
    else
      var (m', s) := With(m, exe, (s: CharStore) => (s, s));
      var (b, records) := SaveWords(buf, at, offsets, s, replace);
      (m', b, Reload(records, at))
  }

  // ---------------------------------------------------------------------
  // Properties of saving and restoring

  /** `i` falls inside the field at one of `offsets`. */
  ghost predicate InSomeField(i: int, at: nat, offsets: seq<nat>) {
    exists k :: 0 <= k < |offsets| && at + offsets[k] <= i < at + offsets[k] + WORD_SIZE
  }

  /** Fields that are not overlapped by the remaining fields keep their word. */
  lemma WordUntouched(a: seq<bv8>, b: seq<bv8>, p: nat)
    requires p + WORD_SIZE <= |a| == |b|
    requires forall j :: p <= j < p + WORD_SIZE ==> a[j] == b[j]
    ensures ReadWord(a, p) == ReadWord(b, p)
  {
    assert a[p] == b[p] && a[p + 1] == b[p + 1] && a[p + 2] == b[p + 2] && a[p + 3] == b[p + 3];
  }

  /** The window after the first field of `offsets` has been handled. */
  function FirstSaved(buf: seq<bv8>, at: nat, offsets: seq<nat>, s: CharStore, replace: Replace): (b: seq<bv8>)
    requires offsets != [] && Fits(buf, at, offsets)
    ensures |b| == |buf| && Fits(b, at, offsets[1..])
  {
    var o := offsets[0];
    var w := ReadWord(buf, at + o);
    if replace(s, w).Some? then WriteWord(buf, at + o, replace(s, w).value) else buf
  }

  /** Handling the first field leaves every field after it as it was. */
  lemma FirstSavedKeepsLater(buf: seq<bv8>, at: nat, offsets: seq<nat>, s: CharStore, replace: Replace, p: nat)
    requires offsets != [] && Fits(buf, at, offsets)
    requires offsets[0] + WORD_SIZE <= p && at + p + WORD_SIZE <= |buf|
    ensures ReadWord(FirstSaved(buf, at, offsets, s, replace), at + p) == ReadWord(buf, at + p)
  {
    WordUntouched(FirstSaved(buf, at, offsets, s, replace), buf, at + p);
  }

  /** One step of `SaveWords`: handle the first field, then the rest from the window that leaves. */
  lemma SaveStep(buf: seq<bv8>, at: nat, offsets: seq<nat>, s: CharStore, replace: Replace)
    requires offsets != [] && Fits(buf, at, offsets)
    ensures var w := ReadWord(buf, at + offsets[0]);
      var rest := SaveWords(FirstSaved(buf, at, offsets, s, replace), at, offsets[1..], s, replace);
      SaveWords(buf, at, offsets, s, replace)
        == (rest.0, if replace(s, w).Some? then [Record(offsets[0], w)] + rest.1 else rest.1)
  {}

  /** In a spaced layout the first field lies before every later one. */
  lemma FirstBeforeRest(offsets: seq<nat>)
    requires offsets != [] && Spaced(offsets)
    ensures Spaced(offsets[1..])
    ensures forall i :: 0 <= i < |offsets[1..]| ==> offsets[0] + WORD_SIZE <= offsets[1..][i]
  {
    forall i | 0 <= i < |offsets[1..]| ensures offsets[0] + WORD_SIZE <= offsets[1..][i] {
      assert offsets[1..][i] == offsets[i + 1];
    }
  }

  /** A byte in a field of the tail of a layout is in a field of the layout. */
  lemma InTailField(j: int, at: nat, offsets: seq<nat>)
    requires offsets != [] && InSomeField(j, at, offsets[1..])
    ensures InSomeField(j, at, offsets)
  {
    var k :| 0 <= k < |offsets[1..]| && at + offsets[1..][k] <= j < at + offsets[1..][k] + WORD_SIZE;
    assert offsets[1..][k] == offsets[k + 1];
  }

  /** In a spaced layout no byte of the first field is in a later one. */
  lemma FirstFieldApart(j: int, at: nat, offsets: seq<nat>)
    requires offsets != [] && Spaced(offsets)
    requires at + offsets[0] <= j < at + offsets[0] + WORD_SIZE
    ensures !InSomeField(j, at, offsets[1..])
  {
    FirstBeforeRest(offsets);
  }

  /** Saving leaves every byte outside the listed fields alone. */
  lemma {:induction false} SaveFrame(buf: seq<bv8>, at: nat, offsets: seq<nat>, s: CharStore, replace: Replace)
    requires Fits(buf, at, offsets)
    ensures var b := SaveWords(buf, at, offsets, s, replace).0;
      forall j :: 0 <= j < |buf| && !InSomeField(j, at, offsets) ==> b[j] == buf[j]
    decreases |offsets|
  {
    if offsets != [] {
      var buf1 := FirstSaved(buf, at, offsets, s, replace);
      SaveStep(buf, at, offsets, s, replace);
      SaveFrame(buf1, at, offsets[1..], s, replace);
      var b := SaveWords(buf, at, offsets, s, replace).0;
      forall j | 0 <= j < |buf| && !InSomeField(j, at, offsets) ensures b[j] == buf[j] {
        if InSomeField(j, at, offsets[1..]) {
          InTailField(j, at, offsets);
          assert false;
        }
        assert !(at + offsets[0] <= j < at + offsets[0] + WORD_SIZE);
      }
    }
  }

  /** After saving, the first field holds the store's replacement for its original word. */
  lemma SaveReadsFirst(buf: seq<bv8>, at: nat, offsets: seq<nat>, s: CharStore, replace: Replace)
    requires Fits(buf, at, offsets) && Spaced(offsets) && offsets != []
    ensures ReadWord(SaveWords(buf, at, offsets, s, replace).0, at + offsets[0])
      == Replaced(s, replace, ReadWord(buf, at + offsets[0]))
  {
    var o := offsets[0];
    var buf1 := FirstSaved(buf, at, offsets, s, replace);
    SaveStep(buf, at, offsets, s, replace);
    SaveFrame(buf1, at, offsets[1..], s, replace);
    var b := SaveWords(buf, at, offsets, s, replace).0;
    forall j | at + o <= j < at + o + WORD_SIZE ensures b[j] == buf1[j] {
      FirstFieldApart(j, at, offsets);
    }
    WordUntouched(b, buf1, at + o);
  }

  /** Each field of `offsets` holds in `b` the store's replacement for the word it holds in `buf`. */
  predicate HoldReplacements(b: seq<bv8>, buf: seq<bv8>, at: nat, offsets: seq<nat>, s: CharStore, replace: Replace) {
    Fits(buf, at, offsets) && |b| == |buf|
    && forall i :: 0 <= i < |offsets| ==>
      ReadWord(b, at + offsets[i]) == Replaced(s, replace, ReadWord(buf, at + offsets[i]))
  }

  /** Replacements of later fields relative to the window after the first field are replacements relative to the original. */
  lemma ReplacementsCarryOver(b: seq<bv8>, buf: seq<bv8>, at: nat, offsets: seq<nat>, s: CharStore, replace: Replace)
    requires offsets != [] && Fits(buf, at, offsets) && Spaced(offsets)
    requires HoldReplacements(b, FirstSaved(buf, at, offsets, s, replace), at, offsets[1..], s, replace)
    requires ReadWord(b, at + offsets[0]) == Replaced(s, replace, ReadWord(buf, at + offsets[0]))
    ensures HoldReplacements(b, buf, at, offsets, s, replace)
  {
    FirstBeforeRest(offsets);
    forall i | 0 < i < |offsets|
      ensures ReadWord(b, at + offsets[i]) == Replaced(s, replace, ReadWord(buf, at + offsets[i]))
    {
      assert offsets[i] == offsets[1..][i - 1];
      FirstSavedKeepsLater(buf, at, offsets, s, replace, offsets[i]);
    }
  }

  /** After saving, each listed field holds the store's replacement for its original word. */
  lemma {:induction false} SaveReads(buf: seq<bv8>, at: nat, offsets: seq<nat>, s: CharStore, replace: Replace)
    requires Fits(buf, at, offsets) && Spaced(offsets)
    ensures HoldReplacements(SaveWords(buf, at, offsets, s, replace).0, buf, at, offsets, s, replace)
    decreases |offsets|
  {
    if offsets != [] {
      var buf1 := FirstSaved(buf, at, offsets, s, replace);
      FirstBeforeRest(offsets);
      SaveStep(buf, at, offsets, s, replace);
      SaveReads(buf1, at, offsets[1..], s, replace);
      SaveReadsFirst(buf, at, offsets, s, replace);
      ReplacementsCarryOver(SaveWords(buf, at, offsets, s, replace).0, buf, at, offsets, s, replace);
    }
  }

  /** Saving records only fields of the layout. */
  lemma {:induction false} SaveRecordsPositions(buf: seq<bv8>, at: nat, offsets: seq<nat>, s: CharStore, replace: Replace)
    requires Fits(buf, at, offsets)
    ensures var records := SaveWords(buf, at, offsets, s, replace).1;
      forall k :: 0 <= k < |records| ==> records[k].position in offsets
    decreases |offsets|
  {
    if offsets != [] {
      var buf1 := FirstSaved(buf, at, offsets, s, replace);
      SaveStep(buf, at, offsets, s, replace);
      SaveRecordsPositions(buf1, at, offsets[1..], s, replace);
      var records1 := SaveWords(buf1, at, offsets[1..], s, replace).1;
      forall k | 0 <= k < |records1| ensures records1[k].position in offsets {
        var i :| 0 <= i < |offsets[1..]| && offsets[1..][i] == records1[k].position;
        assert offsets[1..][i] == offsets[i + 1];
      }
    }
  }

  /** Each record holds the word its field holds in `buf`, a word the store replaces. */
  predicate HoldOriginals(buf: seq<bv8>, at: nat, records: seq<Record>, s: CharStore, replace: Replace) {
    RecordsFit(buf, at, records)
    && forall k :: 0 <= k < |records| ==>
      records[k].original == ReadWord(buf, at + records[k].position)
      && replace(s, records[k].original).Some?
  }

  /** Records of later fields hold the same words before and after the first field is handled. */
  lemma OriginalsCarryOver(buf: seq<bv8>, at: nat, offsets: seq<nat>, s: CharStore, replace: Replace, records: seq<Record>)
    requires offsets != [] && Fits(buf, at, offsets) && Spaced(offsets)
    requires HoldOriginals(FirstSaved(buf, at, offsets, s, replace), at, records, s, replace)
    requires forall k :: 0 <= k < |records| ==> records[k].position in offsets[1..]
    ensures HoldOriginals(buf, at, records, s, replace)
  {
    FirstBeforeRest(offsets);
    forall k | 0 <= k < |records|
      ensures records[k].original == ReadWord(buf, at + records[k].position)
    {
      var p := records[k].position;
      FirstSavedKeepsLater(buf, at, offsets, s, replace, p);
    }
  }

  /** Each record holds the word its field held before saving, which the store replaced. */
  lemma {:induction false} SaveRecordsSound(buf: seq<bv8>, at: nat, offsets: seq<nat>, s: CharStore, replace: Replace)
    requires Fits(buf, at, offsets) && Spaced(offsets)
    ensures HoldOriginals(buf, at, SaveWords(buf, at, offsets, s, replace).1, s, replace)
    decreases |offsets|
  {
    if offsets != [] {
      var w := ReadWord(buf, at + offsets[0]);
      var buf1 := FirstSaved(buf, at, offsets, s, replace);
      SaveStep(buf, at, offsets, s, replace);
      SaveRecordsSound(buf1, at, offsets[1..], s, replace);
      SaveRecordsPositions(buf1, at, offsets[1..], s, replace);
      var records := SaveWords(buf, at, offsets, s, replace).1;
      var records1 := SaveWords(buf1, at, offsets[1..], s, replace).1;
      OriginalsCarryOver(buf, at, offsets, s, replace, records1);
      if replace(s, w).Some? {
        assert records == [Record(offsets[0], w)] + records1;
        forall k | 0 < k < |records| ensures records[k] == records1[k - 1] {}
      } else {
        assert records == records1;
      }
    }
  }

  /** Saving records every field the store replaced. */
  lemma {:induction false} SaveRecordsComplete(buf: seq<bv8>, at: nat, offsets: seq<nat>, s: CharStore, replace: Replace)
    requires Fits(buf, at, offsets) && Spaced(offsets)
    ensures var records := SaveWords(buf, at, offsets, s, replace).1;
      forall i :: 0 <= i < |offsets| && replace(s, ReadWord(buf, at + offsets[i])).Some? ==>
        exists k :: 0 <= k < |records| && records[k].position == offsets[i]
    decreases |offsets|
  {
    if offsets != [] {
      var rest := offsets[1..];
      var w := ReadWord(buf, at + offsets[0]);
      var buf1 := FirstSaved(buf, at, offsets, s, replace);
      FirstBeforeRest(offsets);
      SaveStep(buf, at, offsets, s, replace);
      SaveRecordsComplete(buf1, at, rest, s, replace);
      var records := SaveWords(buf, at, offsets, s, replace).1;
      var records1 := SaveWords(buf1, at, rest, s, replace).1;
      forall i | 0 <= i < |offsets| && replace(s, ReadWord(buf, at + offsets[i])).Some?
        ensures exists k :: 0 <= k < |records| && records[k].position == offsets[i]
      {
        if i == 0 {
          assert records[0].position == offsets[0];
        } else {
          assert offsets[i] == rest[i - 1];
          FirstSavedKeepsLater(buf, at, offsets, s, replace, rest[i - 1]);
          var k :| 0 <= k < |records1| && records1[k].position == rest[i - 1];
          if replace(s, w).Some? {
            assert records[k + 1] == records1[k];
          } else {
            assert records[k] == records1[k];
          }
        }
      }
    }
  }

  /** Two writes to disjoint fields can be done in either order. */
  lemma WritesCommute(buf: seq<bv8>, p: nat, v: bv32, q: nat, w: bv32)
    requires p + WORD_SIZE <= |buf| && q + WORD_SIZE <= |buf|
    requires p + WORD_SIZE <= q || q + WORD_SIZE <= p
    ensures WriteWord(WriteWord(buf, p, v), q, w) == WriteWord(WriteWord(buf, q, w), p, v)
  {
    var a := WriteWord(WriteWord(buf, p, v), q, w);
    var b := WriteWord(WriteWord(buf, q, w), p, v);
    assert forall j :: 0 <= j < |buf| ==> a[j] == b[j];
  }

  /** A second write to a field replaces the first. */
  lemma WriteOverwrites(buf: seq<bv8>, p: nat, v: bv32, w: bv32)
    requires p + WORD_SIZE <= |buf|
    ensures WriteWord(WriteWord(buf, p, v), p, w) == WriteWord(buf, p, w)
  {
    var a := WriteWord(WriteWord(buf, p, v), p, w);
    var b := WriteWord(buf, p, w);
    assert forall j :: 0 <= j < |buf| ==> a[j] == b[j];
  }

  /** Restoring records that avoid the field at `p` commutes with a write to that field. */
  lemma {:induction false} RestoreCommutes(buf: seq<bv8>, at: nat, records: seq<Record>, p: nat, w: bv32)
    requires RecordsFit(buf, at, records) && at + p + WORD_SIZE <= |buf|
    requires forall k :: 0 <= k < |records| ==> p + WORD_SIZE <= records[k].position
    ensures RecordsFit(WriteWord(buf, at + p, w), at, records)
    ensures RestoreWords(WriteWord(buf, at + p, w), at, records) == WriteWord(RestoreWords(buf, at, records), at + p, w)
    decreases |records|
  {
    if records != [] {
      var r := records[0];
      WritesCommute(buf, at + p, w, at + r.position, r.original);
      RestoreCommutes(WriteWord(buf, at + r.position, r.original), at, records[1..], p, w);
    }
  }

  /** The records `SaveWords` keeps are in the order of `offsets`, so each lies past the fields before it. */
  lemma {:induction false} RecordsAfter(buf: seq<bv8>, at: nat, offsets: seq<nat>, s: CharStore, replace: Replace, p: nat)
    requires Fits(buf, at, offsets)
    requires forall i :: 0 <= i < |offsets| ==> p + WORD_SIZE <= offsets[i]
    ensures var records := SaveWords(buf, at, offsets, s, replace).1;
      forall k :: 0 <= k < |records| ==> p + WORD_SIZE <= records[k].position
    decreases |offsets|
  {
    if offsets != [] {
      var buf1 := FirstSaved(buf, at, offsets, s, replace);
      assert forall i :: 0 <= i < |offsets[1..]| ==> offsets[1..][i] == offsets[i + 1];
      SaveStep(buf, at, offsets, s, replace);
      RecordsAfter(buf1, at, offsets[1..], s, replace, p);
    }
  }

  /** The records of `SaveWords` fit the window it returns, which has the same length. */
  lemma RecordsFitAfterSave(buf: seq<bv8>, at: nat, offsets: seq<nat>, s: CharStore, replace: Replace)
    requires Fits(buf, at, offsets) && Spaced(offsets)
    ensures RecordsFit(SaveWords(buf, at, offsets, s, replace).0, at, SaveWords(buf, at, offsets, s, replace).1)
  {
    SaveRecordsSound(buf, at, offsets, s, replace);
    SaveRecordsPositions(buf, at, offsets, s, replace);
  }

  /**
   * If restoring the later records undoes the later writes, then restoring the
   * first field's record before them undoes the first write too.
   */
  lemma RestoreFirst(buf: seq<bv8>, at: nat, o: nat, n: bv32, b: seq<bv8>, records: seq<Record>)
    requires at + o + WORD_SIZE <= |buf|
    requires RecordsFit(b, at, records) && |b| == |buf|
    requires forall k :: 0 <= k < |records| ==> o + WORD_SIZE <= records[k].position
    requires RestoreWords(b, at, records) == WriteWord(buf, at + o, n)
    ensures RecordsFit(b, at, [Record(o, ReadWord(buf, at + o))] + records)
    ensures RestoreWords(b, at, [Record(o, ReadWord(buf, at + o))] + records) == buf
  {
    var w := ReadWord(buf, at + o);
    var all := [Record(o, w)] + records;
    assert all[1..] == records;
    RestoreCommutes(b, at, records, o, w);
    WriteOverwrites(buf, at + o, n, w);
    WriteReadWord(buf, at + o);
  }

  /** Restoring what `SaveWords` recorded gives back the window as it was. */
  lemma {:induction false} RestoreUndoesSave(buf: seq<bv8>, at: nat, offsets: seq<nat>, s: CharStore, replace: Replace)
    requires Fits(buf, at, offsets) && Spaced(offsets)
    ensures RecordsFit(SaveWords(buf, at, offsets, s, replace).0, at, SaveWords(buf, at, offsets, s, replace).1)
    ensures RestoreWords(SaveWords(buf, at, offsets, s, replace).0, at, SaveWords(buf, at, offsets, s, replace).1) == buf
    decreases |offsets|
  {
    RecordsFitAfterSave(buf, at, offsets, s, replace);
    if offsets != [] {
      var o := offsets[0];
      var w := ReadWord(buf, at + o);
      var buf1 := FirstSaved(buf, at, offsets, s, replace);
      FirstBeforeRest(offsets);
      SaveStep(buf, at, offsets, s, replace);
      RestoreUndoesSave(buf1, at, offsets[1..], s, replace);
      if replace(s, w).Some? {
        RecordsAfter(buf1, at, offsets[1..], s, replace, o);
        RestoreFirst(buf, at, o, replace(s, w).value,
          SaveWords(buf1, at, offsets[1..], s, replace).0, SaveWords(buf1, at, offsets[1..], s, replace).1);
      }
    }
  }

  /**
   * `save_anmchr_command` followed by `restore` leaves the command as it
   * was; only the character's store may have been created on the way.
   */
  lemma SaveThenRestore(m: StoreMap, exe: Ptr, buf: seq<bv8>, at: nat,
                        group: Option<U32>, command: Option<U32>, replace: Replace)
    requires Fits(buf, at, Layout(group, command))
    ensures var (m', b, r) := SaveAnmchrCommand(m, exe, buf, at, group, command, replace);
      RecordsFit(b, r.target, r.originals) && Restore(b, r) == buf
      && m'.Keys <= m.Keys + {exe}
      && (forall k :: k in m ==> m'[k] == m[k])
  {
    var offsets := Layout(group, command);
    if offsets != [] {
      OffsetsWellFormed(group.value, command.value);
      WithSpec(m, exe, (s: CharStore) => (s, s));
      var (m', s) := With(m, exe, (s: CharStore) => (s, s));
      RestoreUndoesSave(buf, at, offsets, s, replace);
    }
  }

  /**
   * `save_anmchr_command` creates the character's store, if it has none, for
   * exactly the commands it patches, and changes no other owner's store.
   */
  lemma SaveAnmchrCommandStores(m: StoreMap, exe: Ptr, buf: seq<bv8>, at: nat,
                                group: Option<U32>, command: Option<U32>, replace: Replace)
    requires Fits(buf, at, Layout(group, command))
    ensures var r := SaveAnmchrCommand(m, exe, buf, at, group, command, replace);
      (Layout(group, command) == [] ==> r.0 == m && r.1 == buf && r.2.originals == [])
      && (Layout(group, command) != [] ==> r.0 == m[exe := if exe in m then m[exe] else NewStore(exe)])
  {
    WithSpec(m, exe, (s: CharStore) => (s, s));
  }

  /**
   * What `save_anmchr_command` does to the window: outside the command's
   * fields nothing changes, and each field holds the replacement the
   * character's store gives for its old word.
   */
  lemma SaveAnmchrCommandWindow(m: StoreMap, exe: Ptr, buf: seq<bv8>, at: nat,
                                group: Option<U32>, command: Option<U32>, replace: Replace)
    requires Fits(buf, at, Layout(group, command))
    ensures var b := SaveAnmchrCommand(m, exe, buf, at, group, command, replace).1;
      var offsets := Layout(group, command);
      var s := if exe in m then m[exe] else NewStore(exe);
      (forall j :: 0 <= j < |buf| && !InSomeField(j, at, offsets) ==> b[j] == buf[j])
      && (forall i :: 0 <= i < |offsets| ==>
            ReadWord(b, at + offsets[i]) == Replaced(s, replace, ReadWord(buf, at + offsets[i])))
  {
    var offsets := Layout(group, command);
    if offsets != [] {
      OffsetsWellFormed(group.value, command.value);
      WithSpec(m, exe, (s: CharStore) => (s, s));
      var s := if exe in m then m[exe] else NewStore(exe);
      assert SaveAnmchrCommand(m, exe, buf, at, group, command, replace).1 == SaveWords(buf, at, offsets, s, replace).0;
      SaveFrame(buf, at, offsets, s, replace);
      SaveReads(buf, at, offsets, s, replace);
    }
  }
}
