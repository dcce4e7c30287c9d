/**
 * The game's fixed-capacity byte strings (`GStr`): a buffer of `capacity`
 * bytes in game memory, ended by the first 0 byte or by the capacity. Game
 * memory is a function from address to byte.
 */
module Strings {
  import opened Optional
  import opened GameData

  /** Game memory, read one byte at a time. */
  type Memory = Ptr -> bv8

  /** A view of `capacity` bytes at `ptr`; the string does not own them. */
  datatype GStr = GStr(ptr: Ptr, capacity: nat)

  /** The buffer a string views. */
  function Buffer(mem: Memory, g: GStr): (b: seq<bv8>)
    ensures |b| == g.capacity
    ensures forall i :: 0 <= i < g.capacity ==> b[i] == mem(g.ptr + i)
  {
    seq(g.capacity, i requires 0 <= i => mem(g.ptr + i))
  }

  // ---------------------------------------------------------------------
  // Iteration

  /** `GStrIter`: a cursor over the string's buffer. */
  datatype GStrIter = GStrIter(buffer: seq<bv8>, position: nat)

  /** `<&GStr as IntoIterator>::into_iter`: a cursor at the start of the buffer. */
  function IntoIter(mem: Memory, g: GStr): GStrIter {
    GStrIter(Buffer(mem, g), 0)
  }

  /**
   * `GStrIter::next`: nothing at the capacity; otherwise the byte under the
   * cursor, which is consumed, with a 0 byte giving nothing.
   */
  function Next(it: GStrIter): (Option<bv8>, GStrIter) {
    if it.position >= |it.buffer| then (None, it)
    else
      var b := it.buffer[it.position];
      (if b == 0 then None else Some(b), it.(position := it.position + 1))
  }

  /** The position of the first 0 byte, or the length when there is none. */
  function ZeroIndex(b: seq<bv8>): (k: nat)
    ensures k <= |b|
    ensures forall i :: 0 <= i < k ==> b[i] != 0
    ensures k < |b| ==> b[k] == 0
  {
    if |b| == 0 then 0
    else if b[0] == 0 then 0
    else 1 + ZeroIndex(b[1..])
  }

  /** The bytes a string holds: those before its terminator, within its capacity. */
  function Contents(b: seq<bv8>): seq<bv8> {
    b[..ZeroIndex(b)]
  }

  /**
   * From the start of the buffer, the iterator yields exactly the contents,
   * byte by byte, and then stops: at position `k` below the terminator it
   * yields byte `k`, and at the terminator it yields nothing.
   */
  lemma NextSpec(b: seq<bv8>, k: nat)
    requires k <= ZeroIndex(b)
    ensures k < ZeroIndex(b) ==> Next(GStrIter(b, k)) == (Some(Contents(b)[k]), GStrIter(b, k + 1))
    ensures k == ZeroIndex(b) ==> Next(GStrIter(b, k)).0 == None
  {}

  /** The contents never hold a 0 byte and never exceed the capacity. */
  lemma ContentsSpec(b: seq<bv8>)
    ensures |Contents(b)| <= |b|
    ensures forall i :: 0 <= i < |Contents(b)| ==> Contents(b)[i] != 0 && Contents(b)[i] == b[i]
    ensures |Contents(b)| < |b| ==> b[|Contents(b)|] == 0
  {}

  /** Draining the iterator (`for c in gstr`): the bytes it yields, in order. */
  method Collect(mem: Memory, g: GStr) returns (out: seq<bv8>)
    ensures out == Contents(Buffer(mem, g))
  {
    var it := IntoIter(mem, g);
    ghost var b := it.buffer;
    out := [];
    while true
      invariant it.buffer == b && it.position <= ZeroIndex(b)
      invariant out == b[..it.position]
      decreases |b| - it.position
    {
      var (x, next) := Next(it);
      if x.None? {
        assert it.position == ZeroIndex(b);
        return;
      }
      out := out + [x.value];
      it := next;
    }
  }

  // ---------------------------------------------------------------------
  // Case-insensitive comparison

  /** `u8::to_ascii_lowercase`. */
  function ToAsciiLower(c: bv8): bv8 {
    if 0x41 <= c <= 0x5A then c + 0x20 else c
  }

  /** `u8::eq_ignore_ascii_case`. */
  predicate ByteEqIgnoreCase(x: bv8, y: bv8) {
    ToAsciiLower(x) == ToAsciiLower(y)
  }

  /** Byte-wise agreement, ignoring ASCII case, over the positions both sequences have. */
  predicate AgreeOnCommonPrefix(x: seq<bv8>, y: seq<bv8>) {
    forall i :: 0 <= i < |x| && i < |y| ==> ByteEqIgnoreCase(x[i], y[i])
  }

  /**
   * What `GStr::eq_ignore_ascii_case` computes: true for the same view, and
   * otherwise agreement of the two contents over the positions both reach.
   */
  predicate EqAsWritten(mem: Memory, a: GStr, b: GStr) {
    (a.ptr == b.ptr && a.capacity == b.capacity)
    || AgreeOnCommonPrefix(Contents(Buffer(mem, a)), Contents(Buffer(mem, b)))
  }

  /**
   * `GStr::eq_ignore_ascii_case`: the two iterators zipped, stopping at the
   * first mismatch or as soon as either runs out.
   */
  method EqIgnoreAsciiCase(mem: Memory, a: GStr, b: GStr) returns (r: bool)
    ensures r == EqAsWritten(mem, a, b)
  {
    if a.ptr == b.ptr && a.capacity == b.capacity {
      return true;
    }
    var ia := IntoIter(mem, a);
    var ib := IntoIter(mem, b);
    ghost var ca := Contents(ia.buffer);
    ghost var cb := Contents(ib.buffer);
    r := true;
    while true
      invariant ia.buffer == Buffer(mem, a) && ib.buffer == Buffer(mem, b)
      invariant ia.position == ib.position
      invariant ia.position <= |ca| && ia.position <= |cb|
      invariant r && forall i :: 0 <= i < ia.position ==> ByteEqIgnoreCase(ca[i], cb[i])
      decreases |ia.buffer| - ia.position
    {
      var (x, ia') := Next(ia);
      if x.None? {
        assert ia.position == |ca|;
        return;
      }
      var (y, ib') := Next(ib);
      if y.None? {
        assert ib.position == |cb|;
        return;
      }
      assert x.value == ca[ia.position] && y.value == cb[ib.position];
      if !ByteEqIgnoreCase(x.value, y.value) {
        r := false;
        return;
      } else if x.value == 0 {
        // never reached: the iterator does not yield the terminator
        return;
      }
      ia, ib := ia', ib';
    }
  }

  /**
   * The same-view shortcut never changes the answer, since every string agrees
   * with itself; the comparison is symmetric.
   */
  lemma EqAsWrittenSpec(mem: Memory, a: GStr, b: GStr)
    ensures EqAsWritten(mem, a, a)
    ensures EqAsWritten(mem, a, b) <==> AgreeOnCommonPrefix(Contents(Buffer(mem, a)), Contents(Buffer(mem, b)))
    ensures EqAsWritten(mem, a, b) == EqAsWritten(mem, b, a)
  {}

  /** A string compares equal to every string whose contents start with its own, ignoring case. */
  lemma PrefixComparesEqual(mem: Memory, a: GStr, b: GStr)
    requires |Contents(Buffer(mem, a))| <= |Contents(Buffer(mem, b))|
    requires AgreeOnCommonPrefix(Contents(Buffer(mem, a)), Contents(Buffer(mem, b))[..|Contents(Buffer(mem, a))|])
    ensures EqAsWritten(mem, a, b)
  {
    var ca, cb := Contents(Buffer(mem, a)), Contents(Buffer(mem, b));
    forall i | 0 <= i < |ca| && i < |cb|
      ensures ByteEqIgnoreCase(ca[i], cb[i])
    {
      assert cb[..|ca|][i] == cb[i];
    }
  }

  /** Memory holding "ab" at 0, "abc" at 16 and "ac" at 32, each followed by zero bytes. */
  function SampleMemory(): Memory {
    p => if p == 0 || p == 16 || p == 32 then 0x61
         else if p == 1 || p == 17 then 0x62
         else if p == 18 then 0x63
         else if p == 33 then 0x63
         else 0
  }

  /**
   * A four-byte "ab" compares equal to a four-byte "abc", and "a" compares
   * equal to both "ab" and "ac", which do not compare equal to each other: the
   * comparison is neither equality of contents nor transitive.
   */
  lemma EqAsWrittenIsPrefixTest()
    ensures var mem := SampleMemory();
      && Contents(Buffer(mem, GStr(0, 4))) == [0x61, 0x62]
      && Contents(Buffer(mem, GStr(16, 4))) == [0x61, 0x62, 0x63]
      && EqAsWritten(mem, GStr(0, 4), GStr(16, 4))
      && EqAsWritten(mem, GStr(0, 1), GStr(0, 4)) && EqAsWritten(mem, GStr(0, 1), GStr(32, 4))
      && !EqAsWritten(mem, GStr(0, 4), GStr(32, 4))
  {
    var mem := SampleMemory();
    var b0, b16, b32, b1 := Buffer(mem, GStr(0, 4)), Buffer(mem, GStr(16, 4)), Buffer(mem, GStr(32, 4)), Buffer(mem, GStr(0, 1));
    assert b0 == [0x61, 0x62, 0, 0];
    assert ZeroIndex(b0) == 2 by {
      assert ZeroIndex(b0[1..][1..]) == 0;
      assert ZeroIndex(b0[1..]) == 1;
    }
    assert b16 == [0x61, 0x62, 0x63, 0];
    assert ZeroIndex(b16) == 3 by {
      assert ZeroIndex(b16[1..][1..][1..]) == 0;
      assert ZeroIndex(b16[1..][1..]) == 1;
      assert ZeroIndex(b16[1..]) == 2;
    }
    assert b32 == [0x61, 0x63, 0, 0];
    assert ZeroIndex(b32) == 2 by {
      assert ZeroIndex(b32[1..][1..]) == 0;
      assert ZeroIndex(b32[1..]) == 1;
    }
    assert b1 == [0x61];
    assert ZeroIndex(b1) == 1 by { assert ZeroIndex(b1[1..]) == 0; }
    assert Contents(b0)[1] == 0x62 && Contents(b32)[1] == 0x63;
  }

  /**
   * The comparison the name suggests, as `str::eq_ignore_ascii_case` does it:
   * equal lengths, and agreement at every position ignoring ASCII case.
   */
  predicate EqIgnoreAsciiCaseExact(mem: Memory, a: GStr, b: GStr) {
    var ca, cb := Contents(Buffer(mem, a)), Contents(Buffer(mem, b));
    |ca| == |cb| && AgreeOnCommonPrefix(ca, cb)
  }

  /**
   * The exact comparison is an equivalence (reflexive, symmetric and
   * transitive), it implies the written one, and the two agree on contents of
   * equal length.
   */
  lemma EqIgnoreAsciiCaseExactSpec(mem: Memory, a: GStr, b: GStr, c: GStr)
    ensures EqIgnoreAsciiCaseExact(mem, a, a)
    ensures EqIgnoreAsciiCaseExact(mem, a, b) ==> EqIgnoreAsciiCaseExact(mem, b, a)
    ensures EqIgnoreAsciiCaseExact(mem, a, b) && EqIgnoreAsciiCaseExact(mem, b, c) ==> EqIgnoreAsciiCaseExact(mem, a, c)
    ensures EqIgnoreAsciiCaseExact(mem, a, b) ==> EqAsWritten(mem, a, b)
    ensures |Contents(Buffer(mem, a))| == |Contents(Buffer(mem, b))| ==>
      (EqIgnoreAsciiCaseExact(mem, a, b) <==> AgreeOnCommonPrefix(Contents(Buffer(mem, a)), Contents(Buffer(mem, b))))
  {}

  // ---------------------------------------------------------------------
  // Taking a string out of a command

  const U64_MODULUS: int := 0x1_0000_0000_0000_0000
  const I64_LIMIT: int := 0x8000_0000_0000_0000

  /** A read cursor over a buffer in game memory at `base`. */
  datatype Cursor = Cursor(base: Ptr, position: nat)

  /**
   * `Cursor::seek(SeekFrom::Current(capacity as i64))`: the new position, or
   * `None` when it would be negative or overflow `u64`. The cast wraps a
   * capacity of 2^63 or more to a negative offset.
   */
  function SeekForward(position: nat, capacity: nat): Option<nat>
    requires position < U64_MODULUS && capacity < U64_MODULUS
  {
    var offset := if capacity < I64_LIMIT then capacity else capacity - U64_MODULUS;
    var p := position + offset;
    if 0 <= p < U64_MODULUS then Some(p) else None
  }

  /**
   * `GStr::from_cursor`: the string at the cursor's position, the cursor
   * moved past its `capacity` bytes; nothing, and the cursor where it was,
   * when the seek fails.
   */
  function FromCursor(cur: Cursor, capacity: nat): (Option<GStr>, Cursor)
    requires cur.position < U64_MODULUS && capacity < U64_MODULUS
  {
    match SeekForward(cur.position, capacity)
    case None => (None, cur)
    case Some(p) => (Some(GStr(cur.base + cur.position, capacity)), cur.(position := p))
  }

  /**
   * For any realistic capacity (below 2^63) the string starts at the old
   * position and the cursor advances by exactly the capacity, unless that
   * would overflow, in which case nothing moves.
   */
  lemma FromCursorSpec(cur: Cursor, capacity: nat)
    requires cur.position < U64_MODULUS && capacity < I64_LIMIT
    ensures var (g, cur') := FromCursor(cur, capacity);
      && (g.Some? <==> cur.position + capacity < U64_MODULUS)
      && (g.Some? ==> g.value == GStr(cur.base + cur.position, capacity)
                      && cur'.position == cur.position + capacity && cur'.base == cur.base)
      && (g.None? ==> cur' == cur)
  {}
}
