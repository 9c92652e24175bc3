/**
 * The entry pool and the stores of `struct PieceTable` (filebuf.c:77-108, 315-332): handing
 * out and freeing entry slots, the invariant that keeps every pointer inside the arena, the
 * store an entry reads from, and the text that a list of entries spells.
 */
module PieceTables {
  import opened FileBufTypes
  import opened EntryList

  /** A pointer is null or names a slot that has been handed out. Slot 0 never is: see `Valid`. */
  predicate LinkOk(t: PieceTable, l: Link) {
    l.Null? || 1 <= l.handle < t.entriesCount
  }

  /** A handed-out slot whose links stay inside the pool and whose store id is a valid one. */
  predicate SlotOk(t: PieceTable, e: Entry) {
    LinkOk(t, e.prev) && LinkOk(t, e.next) && (e.bufId == BUF_ID_ORIGIN || e.bufId == BUF_ID_MODIFY)
  }

  /** The sizes agree with the allocations and the counters stay within them. */
  predicate Shape(t: PieceTable) {
    && |t.entries| == t.entriesSize
    && 2 <= t.entriesCount <= t.entriesSize
    && 1 <= t.firstEntry < t.entriesCount
    && LinkOk(t, t.freeEntries)
    && |t.modifyBuf| == t.modifyBufSize
    && t.modifyBufCount < t.modifyBufSize
    && |t.originBuf| == t.originBufSize
  }

  /** Every slot in use except `x` is well formed (`x` is being filled in). */
  ghost predicate ValidExcept(t: PieceTable, x: Handle) {
    Shape(t) && forall h | 1 <= h < t.entriesCount && h != x :: SlotOk(t, t.entries[h])
  }

  /**
   * The table invariant: the first entry, the free list and the links of every slot in use
   * point into slots `1 .. entries_count - 1`, and every such slot names one of the two
   * stores. Slot 0 is allocated but never handed out, because `filebuf_init` sets
   * `entries_count = 1` before its first `next_entry` (filebuf.c:45, 49).
   */
  ghost predicate Valid(t: PieceTable) {
    Shape(t) && forall h | 1 <= h < t.entriesCount :: SlotOk(t, t.entries[h])
  }

  /** Every entry that the `next` links reach from the first entry is a slot in use. */
  lemma {:induction false} ChainInPool(t: PieceTable, order: seq<Handle>)
    requires Valid(t) && Chain(t.entries, t.firstEntry, order)
    ensures forall k | 0 <= k < |order| :: 1 <= order[k] < t.entriesCount
  {
    var k := 0;
    while k < |order|
      invariant k <= |order|
      invariant forall m | 0 <= m < k :: 1 <= order[m] < t.entriesCount
    {
      if k > 0 {
        assert t.entries[order[k - 1]].next == To(order[k]);
        assert SlotOk(t, t.entries[order[k - 1]]);
      }
      k := k + 1;
    }
  }

  /** The growth of `next_entry` can be carried out without `entries_size` overflowing. */
  predicate CanAllocate(t: PieceTable) {
    t.freeEntries.To? || t.entriesCount < t.entriesSize || 2 * t.entriesSize < U32_LIMIT
  }

  /**
   * `next_entry` (filebuf.c:80-95): pop the head of the free list, or hand out slot
   * `entries_count`, doubling the array first when it is full. The slot is not cleared:
   * a fresh one holds whatever `fill` the allocator left there.
   */
  function Allocate(t: PieceTable, fill: Entry): (r: (PieceTable, Handle))
    requires |t.entries| == t.entriesSize && 0 < t.entriesSize && t.entriesCount <= t.entriesSize
    requires InArena(t.entries, t.freeEntries) && CanAllocate(t)
    ensures r.1 < |r.0.entries| == r.0.entriesSize && r.0.entriesCount <= r.0.entriesSize
    ensures t.freeEntries.To? ==>
      r.1 == t.freeEntries.handle && r.0 == t.(freeEntries := t.entries[r.1].next)
    ensures t.freeEntries.Null? ==>
      && r.1 == t.entriesCount
      && r.0.entriesCount == t.entriesCount + 1
      && r.0.entriesSize == (if t.entriesCount == t.entriesSize then 2 * t.entriesSize else t.entriesSize)
      && r.0.entries[..|t.entries|] == t.entries && r.0.entries[r.1] == (if t.entriesCount == t.entriesSize then fill else t.entries[r.1])
      && r.0 == t.(entries := r.0.entries, entriesCount := r.0.entriesCount, entriesSize := r.0.entriesSize)
    ensures Valid(t) ==> ValidExcept(r.0, r.1) && 1 <= r.1 < r.0.entriesCount
  {
    if t.freeEntries.To? then
      var h := t.freeEntries.handle;
      (t.(freeEntries := t.entries[h].next), h)
    else
      var t1 := if t.entriesCount == t.entriesSize
        then t.(entriesSize := 2 * t.entriesSize, entries := Grow(t.entries, 2 * t.entriesSize, fill))
        else t;
      (t1.(entriesCount := t1.entriesCount + 1), t.entriesCount)
  }

  /**
   * A slot handed out from the end of the array, rather than from the free list, is not on
   * the list: nothing links to it.
   */
  lemma FreshSlotUnlisted(t: PieceTable, fill: Entry, order: seq<Handle>)
    requires Valid(t) && t.freeEntries.Null? && CanAllocate(t) && Chain(t.entries, t.firstEntry, order)
    ensures Allocate(t, fill).1 !in order
  {
    ChainInPool(t, order);
  }

  /**
   * The table `filebuf_init` and `filebuf_read` end with (filebuf.c:45-57, 387-408): with
   * `origin_buf` replaced by `ob`, a slot handed out by `next_entry` is written as one
   * ORIGIN entry spanning the first `n` characters of `ob`, the free list is emptied and the
   * slot becomes the first entry. The table is valid, and the slot is the whole list, whose
   * content is those `n` characters.
   */
  lemma Restarted(t: PieceTable, ob: seq<char>, n: u32, fill: Entry)
    requires |t.entries| == t.entriesSize && 1 <= t.entriesCount <= t.entriesSize
    requires LinkOk(t, t.freeEntries) && CanAllocate(t)
    requires |t.modifyBuf| == t.modifyBufSize && t.modifyBufCount < t.modifyBufSize
    requires forall h | 1 <= h < t.entriesCount :: SlotOk(t, t.entries[h])
    requires n <= |ob| < U32_LIMIT
    ensures var (t1, e) := Allocate(t.(originBuf := ob, originBufSize := |ob|), fill);
      var r := t1.(entries := t1.entries[e := Entry(Null, Null, 0, n, BUF_ID_ORIGIN, true)],
                   freeEntries := Null, firstEntry := e);
      && 1 <= e < r.entriesCount && t.entriesCount <= r.entriesCount
      && Valid(r) && DoublyLinked(r.entries, e, [e])
      && AllReadable(r, [e]) && Content(r, [e]) == ob[..n]
  {
    var t0 := t.(originBuf := ob, originBufSize := |ob|);
    var (t1, e) := Allocate(t0, fill);
    var r := t1.(entries := t1.entries[e := Entry(Null, Null, 0, n, BUF_ID_ORIGIN, true)],
                 freeEntries := Null, firstEntry := e);
    assert 1 <= e < r.entriesCount;
    forall h | 1 <= h < r.entriesCount
      ensures SlotOk(r, r.entries[h])
    {
      if h != e {
        assert SlotOk(t, t.entries[h]);
      }
    }
    assert Span(r, r.entries[e]) == ob[..n];
    assert Text(r, [e]) == Text(r, []) + Span(r, r.entries[e]);
  }

  /**
   * `delete_entry` (filebuf.c:100-108). With an empty free list the entry becomes its head;
   * otherwise it is attached AFTER the head, overwriting the head's `next`, so that every
   * slot freed earlier except the head drops off the free list.
   */
  function Freed(t: PieceTable, e: Handle): (r: PieceTable)
    requires e < |t.entries| && InArena(t.entries, t.freeEntries)
    ensures |r.entries| == |t.entries| && InArena(r.entries, r.freeEntries)
    ensures r == t.(entries := r.entries, freeEntries := r.freeEntries)
  {
    var es1 := t.entries[e := t.entries[e].(next := Null)];
    if t.freeEntries.Null? then
      t.(entries := es1, freeEntries := To(e))
    else
      var f := t.freeEntries.handle;
      var es2 := es1[f := es1[f].(next := To(e))];
      t.(entries := es2[e := es2[e].(prev := To(f))])
  }

  /** Freeing a slot in use keeps the table invariant. */
  lemma FreedValid(t: PieceTable, e: Handle)
    requires Valid(t) && 1 <= e < t.entriesCount
    ensures Valid(Freed(t, e))
  {
  }

  /**
   * What `delete_entry` does to the links: no span changes; `e`'s `next` is cleared (or,
   * when `e` is the head, points to itself); with an empty free list `e` becomes the head,
   * otherwise the head keeps its place, points on to `e`, and `e` points back to it; no
   * other entry changes.
   */
  lemma FreedLinks(t: PieceTable, e: Handle)
    requires e < |t.entries| && InArena(t.entries, t.freeEntries)
    ensures var r := Freed(t, e);
      && (forall k | 0 <= k < |t.entries| :: SameSpan(r.entries[k], t.entries[k]))
      && (r.entries[e].next == Null || r.entries[e].next == To(e))
      && (t.freeEntries.Null? ==>
            r.freeEntries == To(e) && r.entries == t.entries[e := t.entries[e].(next := Null)])
      && (t.freeEntries.To? ==> r.freeEntries == t.freeEntries && r.entries[e].prev == t.freeEntries)
      && (t.freeEntries.To? && t.freeEntries.handle != e ==>
            && r.entries[t.freeEntries.handle] == t.entries[t.freeEntries.handle].(next := To(e))
            && r.entries[e] == t.entries[e].(next := Null, prev := t.freeEntries)
            && Chain(r.entries, t.freeEntries.handle, [t.freeEntries.handle, e]))
      && (forall k | 0 <= k < |t.entries| && k != e && To(k) != t.freeEntries :: r.entries[k] == t.entries[k])
  {
  }

  /**
   * `delete_entry` on an entry that is still on the list, and not its last, cuts the list
   * right after that entry: the `next` links from the first entry now end there, so the
   * old order is no longer a chain.
   */
  lemma FreeingListedEntryCutsList(t: PieceTable, order: seq<Handle>, i: nat)
    requires Chain(t.entries, t.firstEntry, order) && i + 1 < |order|
    requires InArena(t.entries, t.freeEntries)
    requires t.freeEntries.Null? || t.freeEntries.handle !in order
    ensures Chain(Freed(t, order[i]).entries, t.firstEntry, order[..i + 1])
    ensures !Chain(Freed(t, order[i]).entries, t.firstEntry, order)
  {
    var e := order[i];
    var r := Freed(t, e);
    FreedLinks(t, e);
    forall k | 0 <= k < i
      ensures r.entries[order[k]].next == To(order[k + 1])
    {
      assert order[k] != e && To(order[k]) != t.freeEntries;
    }
    assert r.entries[e].next == Null;
    if Chain(r.entries, t.firstEntry, order) {
      ChainUnique(r.entries, t.firstEntry, order, order[..i + 1]);
    }
  }

  /** `link_entry_after` on a table whose slot `e` is being filled in leaves a valid table. */
  lemma LinkAfterRestoresValid(t: PieceTable, ref: Handle, e: Handle)
    requires ValidExcept(t, e) && 1 <= ref < t.entriesCount && 1 <= e < t.entriesCount
    requires t.entries[e].bufId == BUF_ID_ORIGIN || t.entries[e].bufId == BUF_ID_MODIFY
    requires ref != e ==> SlotOk(t, t.entries[ref])
    ensures InArena(t.entries, t.entries[ref].next) || ref == e
    ensures ref != e ==> Valid(t.(entries := LinkedAfter(t.entries, ref, e)))
  {
    if ref != e {
      var r := t.(entries := LinkedAfter(t.entries, ref, e));
      forall h | 1 <= h < t.entriesCount
        ensures SlotOk(r, r.entries[h])
      {
        assert SameSpan(r.entries[h], t.entries[h]);
        if h != e {
          assert SlotOk(t, t.entries[h]);
        }
      }
    }
  }

  /** The same when the slot being linked is the reference entry itself (a reused `at`). */
  lemma LinkAfterSelfValid(t: PieceTable, e: Handle)
    requires ValidExcept(t, e) && 1 <= e < t.entriesCount && InArena(t.entries, t.entries[e].next)
    requires t.entries[e].bufId == BUF_ID_ORIGIN || t.entries[e].bufId == BUF_ID_MODIFY
    requires LinkOk(t, t.entries[e].next)
    ensures Valid(t.(entries := LinkedAfter(t.entries, e, e)))
  {
    var r := t.(entries := LinkedAfter(t.entries, e, e));
    forall h | 1 <= h < t.entriesCount
      ensures SlotOk(r, r.entries[h])
    {
      assert SameSpan(r.entries[h], t.entries[h]);
      if h != e {
        assert SlotOk(t, t.entries[h]);
      }
    }
  }

  /** `unlink_entry` keeps the table valid. */
  lemma UnlinkKeepsValid(t: PieceTable, e: Handle)
    requires Valid(t) && 1 <= e < t.entriesCount && t.entries[e].prev.To?
    ensures InArena(t.entries, t.entries[e].prev) && InArena(t.entries, t.entries[e].next)
    ensures Valid(t.(entries := Unlinked(t.entries, e)))
  {
    assert SlotOk(t, t.entries[e]);
    var r := t.(entries := Unlinked(t.entries, e));
    forall h | 1 <= h < t.entriesCount
      ensures SlotOk(r, r.entries[h])
    {
      assert SameSpan(r.entries[h], t.entries[h]);
      assert SlotOk(t, t.entries[h]);
    }
  }

  /** The two stores an entry can name. */
  datatype Store = OriginStore | ModifyStore

  /** The outcome of a lookup that ends the program (`exit(EXIT_FAILURE)`) on a bad store id. */
  datatype Lookup<T> = Found(value: T) | ExitInvalidBufId(bufId: i8)

  /** `filebuf_get_buffer` (filebuf.c:316-324): the store an entry's `buf_id` names. */
  function GetBuffer(e: Entry): (r: Lookup<Store>)
    ensures r.Found? <==> e.bufId == BUF_ID_ORIGIN || e.bufId == BUF_ID_MODIFY
    ensures r.Found? ==> (r.value == OriginStore <==> e.bufId == BUF_ID_ORIGIN)
    ensures r.ExitInvalidBufId? ==> r.bufId == e.bufId
  {
    if e.bufId == BUF_ID_ORIGIN then Found(OriginStore)
    else if e.bufId == BUF_ID_MODIFY then Found(ModifyStore)
    else ExitInvalidBufId(e.bufId)
  }

  /** The contents of a store. */
  function StoreBytes(t: PieceTable, s: Store): seq<char> {
    if s == OriginStore then t.originBuf else t.modifyBuf
  }

  /** In a valid table no slot in use makes `filebuf_get_buffer` exit. */
  lemma InUseSlotsHaveBuffer(t: PieceTable, h: Handle)
    requires Valid(t) && 1 <= h < t.entriesCount
    ensures GetBuffer(t.entries[h]).Found?
  {
    assert SlotOk(t, t.entries[h]);
  }

  /** The entry's span lies within the allocation of the store it names. */
  predicate Readable(t: PieceTable, e: Entry) {
    GetBuffer(e).Found? && e.start + e.length <= |StoreBytes(t, GetBuffer(e).value)|
  }

  /**
   * `filebuf_get_text` (filebuf.c:329-332): the store's characters from the entry's start
   * (what the returned pointer can see); the entry's text is the first `length` of them.
   */
  function GetText(t: PieceTable, e: Entry): (r: Lookup<seq<char>>)
    requires GetBuffer(e).Found? ==> e.start <= |StoreBytes(t, GetBuffer(e).value)|
    ensures r.Found? <==> GetBuffer(e).Found?
    ensures r.Found? ==> |r.value| == |StoreBytes(t, GetBuffer(e).value)| - e.start
    ensures r.Found? ==> forall k | 0 <= k < |r.value| :: r.value[k] == StoreBytes(t, GetBuffer(e).value)[e.start + k]
  {
    match GetBuffer(e)
    case Found(s) => Found(StoreBytes(t, s)[e.start..])
    case ExitInvalidBufId(id) => ExitInvalidBufId(id)
  }

  /** The characters an entry stands for. */
  function Span(t: PieceTable, e: Entry): (r: seq<char>)
    requires Readable(t, e)
    ensures |r| == e.length
  {
    GetText(t, e).value[..e.length]
  }

  /** The text of the given entries, concatenated in the given order. */
  function Text(t: PieceTable, hs: seq<Handle>): seq<char>
    requires forall k | 0 <= k < |hs| :: hs[k] < |t.entries| && Readable(t, t.entries[hs[k]])
  {
    if hs == [] then [] else Text(t, hs[..|hs| - 1]) + Span(t, t.entries[hs[|hs| - 1]])
  }

  /** A list's text has as many characters as its entries' lengths add up to. */
  lemma {:induction false} TextLength(t: PieceTable, hs: seq<Handle>)
    requires AllReadable(t, hs)
    ensures |Text(t, hs)| == Sum(Lengths(t.entries, hs), |hs|)
    decreases |hs|
  {
    if hs != [] {
      var hs' := hs[..|hs| - 1];
      assert Lengths(t.entries, hs') == Lengths(t.entries, hs)[..|hs| - 1];
      SumPrefix(Lengths(t.entries, hs), |hs| - 1, |hs| - 1);
      TextLength(t, hs');
    }
  }

  /** The first `j` lengths of a list do not depend on what follows them. */
  lemma {:induction false} SumPrefix(lens: seq<u32>, m: nat, j: nat)
    requires j <= m <= |lens|
    ensures Sum(lens[..m], j) == Sum(lens, j)
    decreases j
  {
    if j > 0 {
      SumPrefix(lens, m, j - 1);
    }
  }

  /** Every entry of the list can be read. */
  ghost predicate AllReadable(t: PieceTable, hs: seq<Handle>) {
    forall k | 0 <= k < |hs| :: hs[k] < |t.entries| && Readable(t, t.entries[hs[k]])
  }

  /**
   * The content of the buffer: the text of the entries that `next` links reach from
   * `first_entry`, in list order. `ChainUnique` makes this independent of the witness.
   */
  ghost function Content(t: PieceTable, order: seq<Handle>): (r: seq<char>)
    requires Chain(t.entries, t.firstEntry, order) && AllReadable(t, order)
    ensures |r| == Sum(Lengths(t.entries, order), |order|)
  {
    TextLength(t, order);
    Text(t, order)
  }

  /** The text of a concatenation is the concatenation of the texts. */
  lemma {:induction false} TextAppend(t: PieceTable, a: seq<Handle>, b: seq<Handle>)
    requires AllReadable(t, a) && AllReadable(t, b)
    ensures AllReadable(t, a + b)
    ensures Text(t, a + b) == Text(t, a) + Text(t, b)
    decreases |b|
  {
    assert AllReadable(t, a + b) by {
      forall k | 0 <= k < |a + b| ensures (a + b)[k] < |t.entries| && Readable(t, t.entries[(a + b)[k]]) {
        if k < |a| { assert (a + b)[k] == a[k]; } else { assert (a + b)[k] == b[k - |a|]; }
      }
    }
    if b != [] {
      var b' := b[..|b| - 1];
      assert (a + b)[..|a + b| - 1] == a + b';
      assert (a + b)[|a + b| - 1] == b[|b| - 1];
      TextAppend(t, a, b');
    } else {
      assert a + b == a;
    }
  }

  /** Text depends only on the spans of the listed entries and on the stores. */
  lemma {:induction false} TextFrame(t: PieceTable, t': PieceTable, hs: seq<Handle>)
    requires AllReadable(t, hs)
    requires t'.originBuf == t.originBuf && t'.modifyBuf == t.modifyBuf && |t'.entries| >= |t.entries|
    requires forall k | 0 <= k < |hs| :: SameSpan(t'.entries[hs[k]], t.entries[hs[k]])
    ensures AllReadable(t', hs) && Text(t', hs) == Text(t, hs)
    decreases |hs|
  {
    if hs != [] {
      TextFrame(t, t', hs[..|hs| - 1]);
    }
  }

  /** The text of `left + [e] + right` is the text of `left`, then `e`'s span, then `right`'s. */
  lemma TextSplice(t: PieceTable, left: seq<Handle>, e: Handle, right: seq<Handle>)
    requires AllReadable(t, left) && AllReadable(t, right) && e < |t.entries| && Readable(t, t.entries[e])
    ensures AllReadable(t, left + [e] + right)
    ensures Text(t, left + [e] + right) == Text(t, left) + Span(t, t.entries[e]) + Text(t, right)
  {
    assert AllReadable(t, [e]);
    TextAppend(t, left, [e]);
    TextAppend(t, left + [e], right);
    assert [e][..0] == [];
  }

  /** The entries of a readable list and of its slices are readable. */
  lemma SlicesReadable(t: PieceTable, order: seq<Handle>, i: nat)
    requires AllReadable(t, order) && i <= |order|
    ensures AllReadable(t, order[..i]) && AllReadable(t, order[i..])
  {
    assert forall k | 0 <= k < |order[i..]| :: order[i..][k] == order[i + k];
  }

  /**
   * Linking an unlisted, readable entry `e` after the `i`-th entry of a list (giving `t'`)
   * splices its text into the content right after the text of the first `i + 1` entries.
   */
  lemma LinkAfterSplicesText(t: PieceTable, order: seq<Handle>, i: nat, e: Handle, t': PieceTable)
    requires DoublyLinked(t.entries, t.firstEntry, order) && AllReadable(t, order)
    requires i < |order| && e < |t.entries| && e !in order && Readable(t, t.entries[e])
    requires InArena(t.entries, t.entries[order[i]].next)
    requires t' == t.(entries := LinkedAfter(t.entries, order[i], e))
    ensures DoublyLinked(t'.entries, t'.firstEntry, order[..i + 1] + [e] + order[i + 1..])
    ensures AllReadable(t', order[..i + 1] + [e] + order[i + 1..])
    ensures Text(t', order[..i + 1] + [e] + order[i + 1..])
      == Text(t, order[..i + 1]) + Span(t, t.entries[e]) + Text(t, order[i + 1..])
  {
    LinkAfterKeepsList(t.entries, t.firstEntry, order, i, e);
    SlicesReadable(t, order, i + 1);
    TextSplice(t, order[..i + 1], e, order[i + 1..]);
    TextFrameAll(t, t', order[..i + 1] + [e] + order[i + 1..]);
  }

  /** `TextFrame` for a table whose every slot keeps its span. */
  lemma TextFrameAll(t: PieceTable, t': PieceTable, hs: seq<Handle>)
    requires AllReadable(t, hs)
    requires t'.originBuf == t.originBuf && t'.modifyBuf == t.modifyBuf && |t'.entries| >= |t.entries|
    requires forall k | 0 <= k < |t.entries| :: SameSpan(t'.entries[k], t.entries[k])
    ensures AllReadable(t', hs) && Text(t', hs) == Text(t, hs)
  {
    TextFrame(t, t', hs);
  }

  /** An entry's text is the slice of its store that its start and length delimit. */
  lemma SpanIsSlice(t: PieceTable, e: Entry)
    requires Readable(t, e)
    ensures Span(t, e) == StoreBytes(t, GetBuffer(e).value)[e.start..e.start + e.length]
  {
  }

  /** The text of a list is the text before its `i`-th entry, that entry's, and the rest. */
  lemma TextAround(t: PieceTable, order: seq<Handle>, i: nat)
    requires AllReadable(t, order) && i < |order|
    ensures Text(t, order) == Text(t, order[..i]) + Span(t, t.entries[order[i]]) + Text(t, order[i + 1..])
  {
    var left, right := order[..i], order[i + 1..];
    SplitAt(order, i);
    SlicesReadable(t, order, i);
    SlicesReadable(t, order, i + 1);
    TextSplice(t, left, order[i], right);
  }

  /** `TextFrame` for the two halves of a list. */
  lemma SlicesFrame(t: PieceTable, t': PieceTable, hs: seq<Handle>, i: nat)
    requires AllReadable(t, hs) && i <= |hs|
    requires t'.originBuf == t.originBuf && t'.modifyBuf == t.modifyBuf && |t'.entries| >= |t.entries|
    requires forall k | 0 <= k < |hs| :: SameSpan(t'.entries[hs[k]], t.entries[hs[k]])
    ensures AllReadable(t', hs) && AllReadable(t, hs[..i]) && AllReadable(t, hs[i..])
    ensures AllReadable(t', hs[..i]) && AllReadable(t', hs[i..])
    ensures Text(t', hs[..i]) == Text(t, hs[..i]) && Text(t', hs[i..]) == Text(t, hs[i..])
  {
    var left, right := hs[..i], hs[i..];
    assert forall k | 0 <= k < |left| :: left[k] == hs[k];
    assert forall k | 0 <= k < |right| :: right[k] == hs[i + k];
    TextFrame(t, t', hs);
    TextFrame(t, t', left);
    TextFrame(t, t', right);
  }

  /** An entry's text depends only on its span and on the stores. */
  lemma SpanFrame(t: PieceTable, t': PieceTable, e: Entry, e': Entry)
    requires Readable(t, e) && SameSpan(e, e') && t'.originBuf == t.originBuf && t'.modifyBuf == t.modifyBuf
    ensures Readable(t', e') && Span(t', e') == Span(t, e)
  {
    SpanIsSlice(t, e);
    SpanIsSlice(t', e');
  }

  /** The text of the first `i + 1` entries ends with the `i`-th entry's text. */
  lemma TextSnoc(t: PieceTable, order: seq<Handle>, i: nat)
    requires AllReadable(t, order) && i < |order|
    ensures AllReadable(t, order[..i]) && AllReadable(t, order[..i + 1])
    ensures Text(t, order[..i + 1]) == Text(t, order[..i]) + Span(t, t.entries[order[i]])
  {
    assert order[..i + 1][..i] == order[..i];
    SlicesReadable(t, order, i);
    SlicesReadable(t, order, i + 1);
  }
}
