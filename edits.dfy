/**
 * What `filebuf_insert` (filebuf.c:189-277) and `filebuf_undo` (filebuf.c:280-305) do to
 * the piece table, written as functions of the table before the call. The `FileBuf` class
 * carries these changes out statement by statement and is proved to end in these states.
 */
module Edits {
  import opened FileBufTypes
  import opened EntryList
  import opened PieceTables

  /** `modify_buf_count += insert_length` and its doubling stay within `uint32_t`. */
  predicate CanAppendModify(t: PieceTable, il: u32) {
    && t.modifyBufCount + il < U32_LIMIT
    && (t.modifyBufCount + il >= t.modifyBufSize ==> 2 * (t.modifyBufCount + il) < U32_LIMIT)
  }

  /**
   * filebuf.c:192-200: the inserted text is appended to `modify_buf`, which is reallocated
   * to twice the new count when the count reaches its size.
   */
  function ModifyAppended(t: PieceTable, text: seq<char>, il: u32, fill: char): (r: PieceTable)
    requires |t.modifyBuf| == t.modifyBufSize && t.modifyBufCount < t.modifyBufSize
    requires |text| >= il && CanAppendModify(t, il)
    ensures r == t.(modifyBuf := r.modifyBuf, modifyBufCount := r.modifyBufCount, modifyBufSize := r.modifyBufSize)
    ensures r.modifyBufCount == t.modifyBufCount + il
    ensures |r.modifyBuf| == r.modifyBufSize && r.modifyBufCount < r.modifyBufSize
    ensures r.modifyBufSize == if t.modifyBufCount + il >= t.modifyBufSize then 2 * (t.modifyBufCount + il) else t.modifyBufSize
    ensures Valid(t) ==> Valid(r)
  {
    var count := t.modifyBufCount + il;
    var t1 := t.(modifyBufCount := count);
    var t2 := if count >= t1.modifyBufSize
      then t1.(modifyBufSize := 2 * count, modifyBuf := Grow(t1.modifyBuf, 2 * count, fill))
      else t1;
    t2.(modifyBuf := Written(t2.modifyBuf, t.modifyBufCount, text[..il]))
  }

  /** The append keeps the MODIFY text already stored and puts the inserted text after it. */
  lemma AppendedStore(t: PieceTable, text: seq<char>, il: u32, fill: char)
    requires |t.modifyBuf| == t.modifyBufSize && t.modifyBufCount < t.modifyBufSize
    requires |text| >= il && CanAppendModify(t, il)
    ensures var r := ModifyAppended(t, text, il, fill);
      && r.modifyBuf[..t.modifyBufCount] == t.modifyBuf[..t.modifyBufCount]
      && r.modifyBuf[t.modifyBufCount..r.modifyBufCount] == text[..il]
  {
  }

  /** The store after `s` has been copied into it at offset `at`, one character at a time. */
  function Written(buf: seq<char>, at: nat, s: seq<char>): (r: seq<char>)
    requires at + |s| <= |buf|
    ensures |r| == |buf| && r[..at] == buf[..at] && r[at..at + |s|] == s && r[at + |s|..] == buf[at + |s|..]
  {
    buf[..at] + s + buf[at + |s|..]
  }

  /** The arena with entry `h` set to `len` characters long. */
  function Resized(es: seq<Entry>, h: Handle, len: u32): (r: seq<Entry>)
    requires h < |es|
    ensures |r| == |es| && r[h] == es[h].(length := len)
    ensures forall k | 0 <= k < |es| && k != h :: r[k] == es[k]
  {
    es[h := es[h].(length := len)]
  }

  /** The table with entry `h` set to `len` characters long. */
  function Relengthed(t: PieceTable, h: Handle, len: u32): (r: PieceTable)
    requires h < |t.entries|
    ensures r.entries == Resized(t.entries, h, len)
    ensures r.originBuf == t.originBuf && r.modifyBuf == t.modifyBuf && r.firstEntry == t.firstEntry
  {
    t.(entries := Resized(t.entries, h, len))
  }

  /** Setting one entry's length leaves every list as it was. */
  lemma ResizedKeepsList(es: seq<Entry>, h: Handle, len: u32, first: Handle, order: seq<Handle>)
    requires DoublyLinked(es, first, order) && h < |es|
    ensures DoublyLinked(Resized(es, h, len), first, order)
  {
    ListFrame(es, Resized(es, h, len), first, order);
  }

  /** Setting one entry's length keeps the table valid. */
  lemma ResizeKeepsValid(t: PieceTable, h: Handle, len: u32)
    requires Valid(t) && h < |t.entries|
    ensures Valid(Relengthed(t, h, len))
  {
    var r := Relengthed(t, h, len);
    forall k | 1 <= k < t.entriesCount ensures SlotOk(r, r.entries[k]) {
      assert SlotOk(t, t.entries[k]);
    }
  }

  /** Linking `e` after `ref` touches no entry but `ref`, `e` and `ref`'s successor. */
  predicate NoAlias(es: seq<Entry>, ref: Handle, e: Handle)
    requires ref < |es|
  {
    e != ref && es[ref].next != To(e) && es[ref].next != To(ref)
  }

  /** The entry arena after slot `e` has been given a span of the MODIFY store. */
  function Spanned(es: seq<Entry>, e: Handle, start: u32, length: u32): (r: seq<Entry>)
    requires e < |es|
    ensures |r| == |es| && r[e] == es[e].(start := start, length := length, bufId := BUF_ID_MODIFY, savedToFile := false)
    ensures forall k | 0 <= k < |es| && k != e :: r[k] == es[k]
  {
    var es1 := es[e := es[e].(start := start)];
    es1[e := es1[e].(length := length, bufId := BUF_ID_MODIFY, savedToFile := false)]
  }

  /**
   * A fresh entry `e` (just handed out by `next_entry`) given a span of the MODIFY store and
   * linked after `at`: the sequence filebuf.c:218-223, 238-244 and 266-272 share.
   */
  function Attached(t: PieceTable, at: Handle, start: u32, length: u32, fill: Entry): (r: (PieceTable, Handle))
    requires Valid(t) && 1 <= at < t.entriesCount && CanAllocate(t)
    ensures r.1 == Allocate(t, fill).1
    ensures InArena(Staged(t, start, length, fill).entries, Staged(t, start, length, fill).entries[at].next)
    ensures r.0 == Staged(t, start, length, fill).(entries := LinkedAfter(Staged(t, start, length, fill).entries, at, r.1))
    ensures Valid(r.0) && 1 <= r.1 < r.0.entriesCount && |r.0.entries| == |Allocate(t, fill).0.entries|
  {
    var e := Allocate(t, fill).1;
    var t2 := Staged(t, start, length, fill);
    StagedLinkValid(t, at, start, length, fill);
    (t2.(entries := LinkedAfter(t2.entries, at, e)), e)
  }

  /** The staged entry can be linked after `at`, and linking it leaves a valid table. */
  lemma StagedLinkValid(t: PieceTable, at: Handle, start: u32, length: u32, fill: Entry)
    requires Valid(t) && 1 <= at < t.entriesCount && CanAllocate(t)
    ensures var t2, e := Staged(t, start, length, fill), Allocate(t, fill).1;
      && InArena(t2.entries, t2.entries[at].next)
      && Valid(t2.(entries := LinkedAfter(t2.entries, at, e)))
  {
    var (t1, e) := Allocate(t, fill);
    assert t1.entries[at] == t.entries[at] && SlotOk(t, t.entries[at]);
    var t2 := Staged(t, start, length, fill);
    assert t2.entries[at].next == t1.entries[at].next by {
      if e == at { assert t2.entries[at].next == t1.entries[e].next; }
    }
    if e != at {
      LinkAfterRestoresValid(t2, at, e);
    } else {
      LinkAfterSelfValid(t2, e);
    }
  }

  /**
   * When the slot handed out is neither `at` nor its neighbour, attaching rewrites exactly
   * two entries: the new one points back to `at` and on to `at`'s old successor, and `at`
   * points on to the new one.
   */
  lemma AttachedLinks(t: PieceTable, at: Handle, start: u32, length: u32, fill: Entry)
    requires Valid(t) && 1 <= at < t.entriesCount && CanAllocate(t)
    ensures var (a, e) := Attached(t, at, start, length, fill);
      NoAlias(Allocate(t, fill).0.entries, at, e) ==>
      && a.entries[e] == Entry(To(at), t.entries[at].next, start, length, BUF_ID_MODIFY, false)
      && a.entries[at] == t.entries[at].(next := To(e))
  {
    var (t1, e) := Allocate(t, fill);
    assert t1.entries[at] == t.entries[at];
    if NoAlias(t1.entries, at, e) {
      var t2 := Staged(t, start, length, fill);
      assert t2.entries[at] == t.entries[at];
    }
  }

  /**
   * The split of filebuf.c:218-226: a right entry starting at `relative_index` in the
   * MODIFY store takes the part of `at`'s length past `relative_index - at->start`, is
   * linked after `at`, and `at` keeps that first part.
   */
  function Split(t: PieceTable, at: Handle, rel: u32, fill: Entry): (r: (PieceTable, Handle))
    requires Valid(t) && 1 <= at < t.entriesCount && CanAllocate(t)
    ensures Valid(r.0) && 1 <= r.1 < r.0.entriesCount && r.1 == Allocate(t, fill).1
    ensures r.0 == Allocate(t, fill).0.(entries := r.0.entries)
    ensures r.0.entries == Resized(Attached(t, at, rel, SplitRightLength(t, at, rel, fill), fill).0.entries, at,
      Wrap(rel - Attached(t, at, rel, SplitRightLength(t, at, rel, fill), fill).0.entries[at].start))
  {
    var len := SplitRightLength(t, at, rel, fill);
    var a := Attached(t, at, rel, len, fill);
    ResizeKeepsValid(a.0, at, Wrap(rel - a.0.entries[at].start));
    (Relengthed(a.0, at, Wrap(rel - a.0.entries[at].start)), a.1)
  }

  /**
   * When the slot handed out is neither `at` nor its neighbour, the right entry takes
   * `at`'s place in the list after it, with the tail of `at`'s span, and `at` keeps its
   * start and the first `relative_index - at->start` characters.
   */
  lemma SplitLinks(t: PieceTable, at: Handle, rel: u32, fill: Entry)
    requires Valid(t) && 1 <= at < t.entriesCount && CanAllocate(t)
    ensures var (r, right) := Split(t, at, rel, fill);
      NoAlias(Allocate(t, fill).0.entries, at, right) ==>
      && r.entries[right] == Entry(To(at), t.entries[at].next, rel,
          Wrap(t.entries[at].length - Wrap(rel - t.entries[at].start)), BUF_ID_MODIFY, false)
      && r.entries[at] == t.entries[at].(next := To(right), length := Wrap(rel - t.entries[at].start))
  {
    var len := SplitRightLength(t, at, rel, fill);
    var (a, e) := Attached(t, at, rel, len, fill);
    AttachedLinks(t, at, rel, len, fill);
    if NoAlias(Allocate(t, fill).0.entries, at, e) {
      assert a.entries[at].start == t.entries[at].start;
      var s := Split(t, at, rel, fill);
      assert s.1 == e;
      assert s.0.entries == Resized(a.entries, at, Wrap(rel - t.entries[at].start));
    }
  }

  /**
   * filebuf.c:219-220: the right entry's length, computed after its start has been set, so
   * that when `next_entry` hands back `at` itself the subtraction reads the new start.
   */
  function SplitRightLength(t: PieceTable, at: Handle, rel: u32, fill: Entry): (r: u32)
    requires Valid(t) && 1 <= at < t.entriesCount && CanAllocate(t)
    ensures Allocate(t, fill).1 != at ==> r == Wrap(t.entries[at].length - Wrap(rel - t.entries[at].start))
    ensures Allocate(t, fill).1 == at ==> r == t.entries[at].length
  {
    var (t1, right) := Allocate(t, fill);
    var es1 := t1.entries[right := t1.entries[right].(start := rel)];
    Wrap(es1[at].length - Wrap(rel - es1[at].start))
  }

  /** uint32 subtraction followed by addition gives back what was there. */
  lemma WrapSubAdd(len: u32, a: u32)
    ensures Wrap(a + Wrap(len - a)) == len
  {
    if a > len {
      assert Wrap(len - a) == len - a + U32_LIMIT;
    }
  }

  /**
   * The split conserves length: the two halves add up to the old entry's length in uint32
   * arithmetic, and exactly when `relative_index - at->start` does not exceed it.
   */
  lemma SplitConservesLength(t: PieceTable, at: Handle, rel: u32, fill: Entry)
    requires Valid(t) && 1 <= at < t.entriesCount && CanAllocate(t)
    requires NoAlias(Allocate(t, fill).0.entries, at, Allocate(t, fill).1)
    ensures var (r, right) := Split(t, at, rel, fill);
      && Wrap(r.entries[at].length + r.entries[right].length) == t.entries[at].length
      && (t.entries[at].start <= rel <= t.entries[at].start + t.entries[at].length ==>
            r.entries[at].length + r.entries[right].length == t.entries[at].length)
  {
    SplitLinks(t, at, rel, fill);
    var (r, right) := Split(t, at, rel, fill);
    var len: int, cut: int := t.entries[at].length, Wrap(rel - t.entries[at].start);
    assert r.entries[at].length == cut && r.entries[right].length == Wrap(len - cut);
    WrapSubAdd(len, cut);
  }

  /**
   * The split puts the right entry directly after `at` in the list (when `next_entry`
   * does not hand out an entry that is still listed).
   */
  lemma SplitKeepsList(t: PieceTable, at: Handle, rel: u32, fill: Entry, order: seq<Handle>, i: nat)
    requires Valid(t) && 1 <= at < t.entriesCount && CanAllocate(t)
    requires DoublyLinked(t.entries, t.firstEntry, order) && i < |order| && order[i] == at
    requires Allocate(t, fill).1 !in order
    ensures DoublyLinked(Split(t, at, rel, fill).0.entries, t.firstEntry,
      order[..i + 1] + [Split(t, at, rel, fill).1] + order[i + 1..])
  {
    var len := SplitRightLength(t, at, rel, fill);
    var a := Attached(t, at, rel, len, fill);
    AttachedKeepsList(t, at, rel, len, fill, order, i);
    var w := Wrap(rel - a.0.entries[at].start);
    ResizedKeepsList(a.0.entries, at, w, t.firstEntry, order[..i + 1] + [a.1] + order[i + 1..]);
    var s := Split(t, at, rel, fill);
    assert s.1 == a.1;
    assert s.0.entries == Resized(a.0.entries, at, w);
  }

  /** Attaching an unlisted fresh entry after the `i`-th listed one keeps the list whole. */
  lemma AttachedKeepsList(t: PieceTable, at: Handle, start: u32, length: u32, fill: Entry, order: seq<Handle>, i: nat)
    requires Valid(t) && 1 <= at < t.entriesCount && CanAllocate(t)
    requires DoublyLinked(t.entries, t.firstEntry, order) && i < |order| && order[i] == at
    requires Allocate(t, fill).1 !in order
    ensures Allocate(t, fill).0.firstEntry == t.firstEntry
    ensures DoublyLinked(Attached(t, at, start, length, fill).0.entries, t.firstEntry,
      order[..i + 1] + [Attached(t, at, start, length, fill).1] + order[i + 1..])
  {
    var (t1, e) := Allocate(t, fill);
    var es2 := Spanned(t1.entries, e, start, length);
    ListSurvivesAllocate(t, fill, order);
    ListFrame(t1.entries, es2, t.firstEntry, order);
    LinkAfterKeepsList(es2, t.firstEntry, order, i, e);
  }

  /** `next_entry` changes no listed entry. */
  lemma ListSurvivesAllocate(t: PieceTable, fill: Entry, order: seq<Handle>)
    requires Valid(t) && CanAllocate(t) && DoublyLinked(t.entries, t.firstEntry, order)
    ensures DoublyLinked(Allocate(t, fill).0.entries, t.firstEntry, order)
    ensures forall k | 0 <= k < |order| :: Allocate(t, fill).0.entries[order[k]] == t.entries[order[k]]
  {
    var t1 := Allocate(t, fill).0;
    ChainInPool(t, order);
    forall k | 0 <= k < |order| ensures t1.entries[order[k]] == t.entries[order[k]] {
      if t.freeEntries.Null? {
        assert t1.entries[..|t.entries|][order[k]] == t.entries[order[k]];
      }
    }
    ListFrame(t.entries, t1.entries, t.firstEntry, order);
  }

  /** What the piece-table part of `filebuf_insert` produces: the table and the new event's fields. */
  datatype EditResult = EditResult(table: PieceTable, entry: Handle, id: EventId, setsData: bool)

  /**
   * The event the branch of filebuf.c:235-273 records: something deleted and something
   * inserted, only deleted, or only inserted after an entry of the MODIFY store or not.
   */
  function Kind(il: u32, db: u32, da: u32, bufId: i8): (r: EventId)
    ensures r == DeleteThenAdd <==> (db > 0 || da > 0) && il > 0
    ensures r == Delete <==> (db > 0 || da > 0) && il == 0
    ensures r == Append <==> db == 0 && da == 0 && bufId == BUF_ID_MODIFY
    ensures r == Add <==> db == 0 && da == 0 && bufId != BUF_ID_MODIFY
  {
    if db > 0 || da > 0 then
      if il > 0 then DeleteThenAdd else Delete
    else if bufId == BUF_ID_MODIFY then Append
    else Add
  }

  /** Whether the branch taken for these counts calls `next_entry`. */
  predicate Allocates(il: u32, db: u32, da: u32, bufId: i8) {
    Kind(il, db, da, bufId) == DeleteThenAdd || Kind(il, db, da, bufId) == Add
  }

  /**
   * filebuf.c:235-273 applied to the entry `at` the text goes after, for text stored at
   * `ib` of the MODIFY store: DELETE_THEN_ADD attaches a new entry after `at`, DELETE
   * records `at`; both then shorten `at` by `delete_length`. With nothing deleted, APPEND
   * lengthens `at` when it already lies in the MODIFY store, and ADD attaches a new entry.
   */
  function Branch(t: PieceTable, at: Handle, ib: u32, il: u32, db: u32, da: u32, fill: Entry): (r: EditResult)
    requires Valid(t) && 1 <= at < t.entriesCount
    requires Allocates(il, db, da, t.entries[at].bufId) ==> CanAllocate(t)
    ensures Valid(r.table) && 1 <= r.entry < r.table.entriesCount
    ensures r.id == Kind(il, db, da, t.entries[at].bufId)
    ensures r.setsData <==> r.id == Append || r.id == Add
    ensures r.id == Delete || r.id == Append ==> r.entry == at
    ensures r.id == DeleteThenAdd || r.id == Add ==> r.entry == Allocate(t, fill).1
    ensures r.table == t.(entries := r.table.entries, freeEntries := r.table.freeEntries,
      entriesCount := r.table.entriesCount, entriesSize := r.table.entriesSize)
    ensures r.table.entriesCount >= t.entriesCount
  {
    match Kind(il, db, da, t.entries[at].bufId)
    case DeleteThenAdd =>
      var (a, e) := Attached(t, at, ib, il, fill);
      ResizeKeepsValid(a, at, Wrap(a.entries[at].length - Wrap(db + da)));
      EditResult(Relengthed(a, at, Wrap(a.entries[at].length - Wrap(db + da))), e, DeleteThenAdd, false)
    case Delete =>
      ResizeKeepsValid(t, at, Wrap(t.entries[at].length - Wrap(db + da)));
      EditResult(Relengthed(t, at, Wrap(t.entries[at].length - Wrap(db + da))), at, Delete, false)
    case Append =>
      ResizeKeepsValid(t, at, Wrap(t.entries[at].length + il));
      EditResult(Relengthed(t, at, Wrap(t.entries[at].length + il)), at, Append, true)
    case Add =>
      var (a, e) := Attached(t, at, ib, il, fill);
      EditResult(a, e, Add, true)
  }

  /** `filebuf_undo` can run on this event without dereferencing a null pointer. */
  predicate CanUndo(t: PieceTable, ev: FileEvent) {
    && ev.entry.To? && 1 <= ev.entry.handle < t.entriesCount && ev.entry.handle < |t.entries|
    && (ev.id == DeleteThenAdd || ev.id == Delete ==> t.entries[ev.entry.handle].prev.To?)
  }

  /**
   * The table change of `filebuf_undo` (filebuf.c:285-301) for the undone event: unlink a
   * DELETE_THEN_ADD entry and lengthen its predecessor by `data`; lengthen a DELETE entry's
   * predecessor by `data`; nothing for ADD; shorten an APPEND entry by `data`.
   */
  function UndoneTable(t: PieceTable, ev: FileEvent): (r: PieceTable)
    requires Valid(t) && CanUndo(t, ev)
    ensures Valid(r) && r == t.(entries := r.entries)
    ensures ev.id == Add ==> r == t
    ensures ev.id == Append ==>
      r.entries == Resized(t.entries, ev.entry.handle, Wrap(t.entries[ev.entry.handle].length - ev.data))
    ensures ev.id == Delete || ev.id == DeleteThenAdd ==> t.entries[ev.entry.handle].prev.handle < |t.entries|
    ensures ev.id == Delete ==> var p := t.entries[ev.entry.handle].prev.handle;
      r.entries == Resized(t.entries, p, Wrap(t.entries[p].length + ev.data))
    ensures ev.id == DeleteThenAdd ==> var p := t.entries[ev.entry.handle].prev.handle;
      r.entries == Resized(Unlinked(t.entries, ev.entry.handle), p, Wrap(t.entries[p].length + ev.data))
  {
    var e := ev.entry.handle;
    assert SlotOk(t, t.entries[e]);
    match ev.id
    case DeleteThenAdd =>
      UnlinkKeepsValid(t, e);
      var es := Unlinked(t.entries, e);
      var p := es[e].prev.handle;
      assert p == t.entries[e].prev.handle && SameSpan(es[p], t.entries[p]);
      ResizeKeepsValid(t.(entries := es), p, Wrap(es[p].length + ev.data));
      Relengthed(t.(entries := es), p, Wrap(es[p].length + ev.data))
    case Delete =>
      var p := t.entries[e].prev.handle;
      ResizeKeepsValid(t, p, Wrap(t.entries[p].length + ev.data));
      Relengthed(t, p, Wrap(t.entries[p].length + ev.data))
    case Add => t
    case Append =>
      ResizeKeepsValid(t, e, Wrap(t.entries[e].length - ev.data));
      Relengthed(t, e, Wrap(t.entries[e].length - ev.data))
  }

  /**
   * Undoing an APPEND gives back the entry arena exactly as it was before the append: the
   * entry's length grows by `insert_length` and shrinks by the recorded `data`.
   */
  lemma UndoAppendRestores(t: PieceTable, at: Handle, ib: u32, il: u32, fill: Entry)
    requires Valid(t) && 1 <= at < t.entriesCount && t.entries[at].bufId == BUF_ID_MODIFY
    ensures var b := Branch(t, at, ib, il, 0, 0, fill);
      var ev := FileEvent(To(b.entry), b.id, il, il, 0, 0);
      b.id == Append && CanUndo(b.table, ev) && UndoneTable(b.table, ev) == t
  {
    var b := Branch(t, at, ib, il, 0, 0, fill);
    var ev := FileEvent(To(b.entry), b.id, il, il, 0, 0);
    var len := t.entries[at].length;
    assert Wrap(Wrap(len + il) - il) == len by {
      if len + il >= U32_LIMIT {
        assert Wrap(len + il) == len + il - U32_LIMIT;
      }
    }
    assert UndoneTable(b.table, ev).entries == t.entries;
  }

  /**
   * Setting the length of the `i`-th listed entry changes the content only in that entry's
   * text; the list stays as it was.
   */
  lemma ResizedText(t: PieceTable, order: seq<Handle>, i: nat, len: u32)
    requires DoublyLinked(t.entries, t.firstEntry, order) && AllReadable(t, order) && i < |order|
    requires Readable(t, t.entries[order[i]].(length := len))
    ensures DoublyLinked(Resized(t.entries, order[i], len), t.firstEntry, order)
    ensures AllReadable(Relengthed(t, order[i], len), order)
    ensures Text(Relengthed(t, order[i], len), order)
      == Text(t, order[..i]) + Span(t, t.entries[order[i]].(length := len)) + Text(t, order[i + 1..])
  {
    ResizedKeepsList(t.entries, order[i], len, t.firstEntry, order);
    ChainAround(t.entries, t.firstEntry, order, i);
    ResizedTextOnly(t, order, i, len);
  }

  lemma ResizedTextOnly(t: PieceTable, order: seq<Handle>, i: nat, len: u32)
    requires AllReadable(t, order) && i < |order| && order[i] !in order[..i] && order[i] !in order[i + 1..]
    requires Readable(t, t.entries[order[i]].(length := len))
    ensures AllReadable(Relengthed(t, order[i], len), order)
    ensures Text(Relengthed(t, order[i], len), order)
      == Text(t, order[..i]) + Span(t, t.entries[order[i]].(length := len)) + Text(t, order[i + 1..])
  {
    var r := Relengthed(t, order[i], len);
    var x := order[i];
    var left, right := order[..i], order[i + 1..];
    SplitAt(order, i);
    assert r.entries[x] == t.entries[x].(length := len);
    SlicesReadable(t, order, i);
    SlicesReadable(t, order, i + 1);
    OthersKeepSpan(t.entries, x, len, left);
    OthersKeepSpan(t.entries, x, len, right);
    TextFrame(t, r, left);
    TextFrame(t, r, right);
    assert Readable(r, r.entries[x]);
    SpanIsSlice(r, r.entries[x]);
    SpanIsSlice(t, t.entries[x].(length := len));
    TextSplice(r, left, x, right);
  }

  /** Setting one entry's length leaves the spans of the entries of a list without it alone. */
  lemma OthersKeepSpan(es: seq<Entry>, h: Handle, len: u32, hs: seq<Handle>)
    requires h < |es| && h !in hs && forall k | 0 <= k < |hs| :: hs[k] < |es|
    ensures forall k | 0 <= k < |hs| :: SameSpan(Resized(es, h, len)[hs[k]], es[hs[k]])
  {
  }

  /** The text of a one-entry list. */
  lemma TextSingle(t: PieceTable, e: Handle)
    requires e < |t.entries| && Readable(t, t.entries[e])
    ensures AllReadable(t, [e]) && Text(t, [e]) == Span(t, t.entries[e])
  {
    assert [e][..0] == [];
  }

  /** A list with one entry in front of a readable list. */
  lemma TextCons(t: PieceTable, e: Handle, hs: seq<Handle>)
    requires e < |t.entries| && Readable(t, t.entries[e]) && AllReadable(t, hs)
    ensures AllReadable(t, [e] + hs) && Text(t, [e] + hs) == Span(t, t.entries[e]) + Text(t, hs)
  {
    TextSingle(t, e);
    TextAppend(t, [e], hs);
  }

  /** The table once `next_entry` has handed out `e` and `e` has been given its span. */
  function Staged(t: PieceTable, start: u32, length: u32, fill: Entry): (r: PieceTable)
    requires |t.entries| == t.entriesSize && 0 < t.entriesSize && t.entriesCount <= t.entriesSize
    requires InArena(t.entries, t.freeEntries) && CanAllocate(t)
    ensures r == Allocate(t, fill).0.(entries := r.entries)
  {
    var (t1, e) := Allocate(t, fill);
    t1.(entries := Spanned(t1.entries, e, start, length))
  }

  /** Handing out an unlisted entry and giving it a span changes no listed entry. */
  lemma StagedKeepsList(t: PieceTable, order: seq<Handle>, start: u32, length: u32, fill: Entry)
    requires Valid(t) && DoublyLinked(t.entries, t.firstEntry, order)
    requires CanAllocate(t) && Allocate(t, fill).1 !in order
    ensures DoublyLinked(Staged(t, start, length, fill).entries, t.firstEntry, order)
    ensures forall k | 0 <= k < |order| :: SameSpan(Staged(t, start, length, fill).entries[order[k]], t.entries[order[k]])
  {
    var (t1, e) := Allocate(t, fill);
    var es2 := Spanned(t1.entries, e, start, length);
    ListSurvivesAllocate(t, fill, order);
    ListFrame(t1.entries, es2, t.firstEntry, order);
  }

  /** ... and so no text the list shows. */
  lemma StagedKeepsText(t: PieceTable, order: seq<Handle>, i: nat, start: u32, length: u32, fill: Entry)
    requires Valid(t) && DoublyLinked(t.entries, t.firstEntry, order) && AllReadable(t, order)
    requires i < |order| && CanAllocate(t) && Allocate(t, fill).1 !in order
    ensures AllReadable(Staged(t, start, length, fill), order)
    ensures AllReadable(t, order[..i + 1]) && AllReadable(t, order[i + 1..])
    ensures AllReadable(Staged(t, start, length, fill), order[..i + 1])
    ensures AllReadable(Staged(t, start, length, fill), order[i + 1..])
    ensures Text(Staged(t, start, length, fill), order[..i + 1]) == Text(t, order[..i + 1])
    ensures Text(Staged(t, start, length, fill), order[i + 1..]) == Text(t, order[i + 1..])
  {
    StagedKeepsList(t, order, start, length, fill);
    SlicesFrame(t, Staged(t, start, length, fill), order, i + 1);
  }

  /** The entry handed out shows the characters it was given. */
  lemma StagedSpan(t: PieceTable, start: u32, length: u32, fill: Entry)
    requires Valid(t) && CanAllocate(t) && start + length <= |t.modifyBuf|
    ensures Readable(Staged(t, start, length, fill), Staged(t, start, length, fill).entries[Allocate(t, fill).1])
    ensures Span(Staged(t, start, length, fill), Staged(t, start, length, fill).entries[Allocate(t, fill).1])
      == t.modifyBuf[start..start + length]
  {
    var t2, e := Staged(t, start, length, fill), Allocate(t, fill).1;
    assert Readable(t2, t2.entries[e]);
    SpanIsSlice(t2, t2.entries[e]);
  }

  /**
   * Attaching an unlisted fresh entry `e` for `length` characters of the MODIFY store
   * from `start` after the `i`-th listed entry (giving `a`) inserts exactly those
   * characters into the content, right after the text of the first `i + 1` entries.
   */
  lemma AttachedText(t: PieceTable, order: seq<Handle>, i: nat, start: u32, length: u32, fill: Entry,
                     a: PieceTable, e: Handle)
    requires Valid(t) && DoublyLinked(t.entries, t.firstEntry, order) && AllReadable(t, order)
    requires i < |order| && 1 <= order[i] < t.entriesCount && CanAllocate(t)
    requires Allocate(t, fill).1 !in order && start + length <= |t.modifyBuf|
    requires (a, e) == Attached(t, order[i], start, length, fill)
    ensures a.firstEntry == t.firstEntry && a.modifyBuf == t.modifyBuf && a.originBuf == t.originBuf
    ensures DoublyLinked(a.entries, a.firstEntry, order[..i + 1] + [e] + order[i + 1..])
    ensures AllReadable(a, order[..i + 1] + [e] + order[i + 1..])
    ensures Text(a, order[..i + 1] + [e] + order[i + 1..])
      == Text(t, order[..i + 1]) + t.modifyBuf[start..start + length] + Text(t, order[i + 1..])
  {
    var t2 := Staged(t, start, length, fill);
    StagedKeepsList(t, order, start, length, fill);
    StagedKeepsText(t, order, i, start, length, fill);
    StagedSpan(t, start, length, fill);
    assert a == t2.(entries := LinkedAfter(t2.entries, order[i], e));
    LinkAfterSplicesText(t2, order, i, e, a);
  }

  /** ... and leaves the spans of the listed entries as they were. */
  lemma AttachedSpans(t: PieceTable, order: seq<Handle>, at: Handle, start: u32, length: u32, fill: Entry,
                      a: PieceTable, e: Handle)
    requires Valid(t) && DoublyLinked(t.entries, t.firstEntry, order)
    requires 1 <= at < t.entriesCount && CanAllocate(t) && Allocate(t, fill).1 !in order
    requires (a, e) == Attached(t, at, start, length, fill)
    ensures forall k | 0 <= k < |order| :: SameSpan(a.entries[order[k]], t.entries[order[k]])
    ensures SameSpan(a.entries[e], Entry(Null, Null, start, length, BUF_ID_MODIFY, false))
  {
    var t2 := Staged(t, start, length, fill);
    StagedKeepsList(t, order, start, length, fill);
    assert a == t2.(entries := LinkedAfter(t2.entries, at, e));
    assert SameSpan(a.entries[e], t2.entries[e]);
  }

  /**
   * ADD: with nothing deleted and `at` in the ORIGIN store, a new entry holding the
   * inserted characters is attached after `at` (`AttachedText` says what that does to the
   * content).
   */
  lemma BranchAdd(t: PieceTable, at: Handle, ib: u32, il: u32, fill: Entry)
    requires Valid(t) && 1 <= at < t.entriesCount && t.entries[at].bufId != BUF_ID_MODIFY && CanAllocate(t)
    ensures Branch(t, at, ib, il, 0, 0, fill).id == Add
    ensures Branch(t, at, ib, il, 0, 0, fill).entry == Attached(t, at, ib, il, fill).1
    ensures Branch(t, at, ib, il, 0, 0, fill).table == Attached(t, at, ib, il, fill).0
  {
  }

  /**
   * APPEND: with nothing deleted and `at` in the MODIFY store, `at` is lengthened by the
   * insert length, which cannot overflow when the inserted characters follow `at`'s span
   * (`AppendText` says what that does to the content).
   */
  lemma BranchAppend(t: PieceTable, at: Handle, ib: u32, il: u32, fill: Entry)
    requires Valid(t) && 1 <= at < t.entriesCount && t.entries[at].bufId == BUF_ID_MODIFY
    requires t.entries[at].start + t.entries[at].length == ib && ib + il <= |t.modifyBuf|
    ensures t.entries[at].length + il < U32_LIMIT
    ensures Branch(t, at, ib, il, 0, 0, fill).id == Append
    ensures Branch(t, at, ib, il, 0, 0, fill).table == Relengthed(t, at, t.entries[at].length + il)
  {
    assert |t.modifyBuf| == t.modifyBufSize;
  }

  /**
   * APPEND on the content: lengthening the `i`-th listed entry, which ends in the MODIFY
   * store where the inserted characters were stored (as it does while one types on), puts
   * them right after its old text; the list stays as it was.
   */
  lemma AppendText(t: PieceTable, order: seq<Handle>, i: nat, ib: u32, il: u32)
    requires DoublyLinked(t.entries, t.firstEntry, order) && AllReadable(t, order) && i < |order|
    requires t.entries[order[i]].start + t.entries[order[i]].length == ib && ib + il <= |t.modifyBuf|
    requires t.entries[order[i]].bufId == BUF_ID_MODIFY
    requires t.entries[order[i]].length + il < U32_LIMIT
    ensures DoublyLinked(Resized(t.entries, order[i], t.entries[order[i]].length + il), t.firstEntry, order)
    ensures AllReadable(Relengthed(t, order[i], t.entries[order[i]].length + il), order)
    ensures Text(Relengthed(t, order[i], t.entries[order[i]].length + il), order)
      == Text(t, order[..i + 1]) + t.modifyBuf[ib..ib + il] + Text(t, order[i + 1..])
  {
    ResizedKeepsList(t.entries, order[i], t.entries[order[i]].length + il, t.firstEntry, order);
    ChainAround(t.entries, t.firstEntry, order, i);
    GrownText(t, order, i, ib, il);
  }

  lemma GrownText(t: PieceTable, order: seq<Handle>, i: nat, ib: u32, il: u32)
    requires AllReadable(t, order) && i < |order| && order[i] !in order[..i] && order[i] !in order[i + 1..]
    requires t.entries[order[i]].start + t.entries[order[i]].length == ib && ib + il <= |t.modifyBuf|
    requires t.entries[order[i]].bufId == BUF_ID_MODIFY
    requires t.entries[order[i]].length + il < U32_LIMIT
    ensures AllReadable(Relengthed(t, order[i], t.entries[order[i]].length + il), order)
    ensures Text(Relengthed(t, order[i], t.entries[order[i]].length + il), order)
      == Text(t, order[..i + 1]) + t.modifyBuf[ib..ib + il] + Text(t, order[i + 1..])
  {
    var at := t.entries[order[i]];
    var len := at.length + il;
    SpanGrows(t, at, ib, il);
    ResizedTextOnly(t, order, i, len);
    TextSnoc(t, order, i);
    SlicesReadable(t, order, i + 1);
    ConcatRegroup(Text(t, order[..i]), Span(t, at), t.modifyBuf[ib..ib + il], Text(t, order[i + 1..]));
  }

  /** Lengthening an entry that ends at `ib` in the MODIFY store adds the characters from `ib` on. */
  lemma SpanGrows(t: PieceTable, at: Entry, ib: u32, il: u32)
    requires Readable(t, at) && at.bufId == BUF_ID_MODIFY && at.start + at.length == ib
    requires ib + il <= |t.modifyBuf| && at.length + il < U32_LIMIT
    ensures Readable(t, at.(length := at.length + il))
    ensures Span(t, at.(length := at.length + il)) == Span(t, at) + t.modifyBuf[ib..ib + il]
  {
    var len := at.length + il;
    assert t.modifyBuf[at.start..at.start + len] == t.modifyBuf[at.start..ib] + t.modifyBuf[ib..ib + il];
    SpanIsSlice(t, at);
    SpanIsSlice(t, at.(length := len));
  }

  lemma ConcatRegroup<T>(a: seq<T>, b: seq<T>, c: seq<T>, d: seq<T>)
    ensures a + (b + c) + d == (a + b) + c + d
  {
  }

  /**
   * DELETE: with nothing inserted, `at` loses the last
   * `delete_before_length + delete_after_length` characters, whichever of the two counts
   * they come from (`TrimmedText` says what that does to the content).
   */
  lemma BranchDelete(t: PieceTable, at: Handle, ib: u32, db: u32, da: u32, fill: Entry)
    requires Valid(t) && 1 <= at < t.entriesCount
    requires (db > 0 || da > 0) && db + da <= t.entries[at].length
    ensures Branch(t, at, ib, 0, db, da, fill).id == Delete
    ensures Branch(t, at, ib, 0, db, da, fill).entry == at
    ensures Branch(t, at, ib, 0, db, da, fill).table == Relengthed(t, at, t.entries[at].length - (db + da))
  {
    assert Wrap(db + da) == db + da;
  }

  /**
   * Shortening the `i`-th listed entry to `len` characters drops the rest of its text from
   * the content and leaves the list as it was.
   */
  lemma TrimmedText(t: PieceTable, order: seq<Handle>, i: nat, len: u32)
    requires DoublyLinked(t.entries, t.firstEntry, order) && AllReadable(t, order) && i < |order|
    requires len <= t.entries[order[i]].length
    ensures DoublyLinked(Resized(t.entries, order[i], len), t.firstEntry, order)
    ensures AllReadable(Relengthed(t, order[i], len), order)
    ensures Text(Relengthed(t, order[i], len), order)
      == Text(t, order[..i]) + Span(t, t.entries[order[i]])[..len] + Text(t, order[i + 1..])
  {
    SpanPrefix(t, t.entries[order[i]], len);
    ResizedText(t, order, i, len);
  }

  /** Shortening an entry keeps the start of its text. */
  lemma SpanPrefix(t: PieceTable, e: Entry, len: u32)
    requires Readable(t, e) && len <= e.length
    ensures Readable(t, e.(length := len)) && Span(t, e.(length := len)) == Span(t, e)[..len]
  {
    SpanIsSlice(t, e);
    SpanIsSlice(t, e.(length := len));
  }

  /**
   * DELETE_THEN_ADD on the content: in `a`, the table with the inserted characters attached
   * after the `i`-th listed entry, that entry shortened to `len` keeps only the start of its
   * text, and the inserted characters follow it.
   */
  lemma AttachedTrimmedText(t: PieceTable, order: seq<Handle>, i: nat, ib: u32, il: u32, len: u32, fill: Entry,
                            a: PieceTable, e: Handle)
    requires Valid(t) && DoublyLinked(t.entries, t.firstEntry, order) && AllReadable(t, order)
    requires i < |order| && 1 <= order[i] < t.entriesCount && len <= t.entries[order[i]].length
    requires CanAllocate(t) && Allocate(t, fill).1 !in order && ib + il <= |t.modifyBuf|
    requires (a, e) == Attached(t, order[i], ib, il, fill)
    ensures a.entries[order[i]].length == t.entries[order[i]].length
    ensures DoublyLinked(Resized(a.entries, order[i], len), t.firstEntry, order[..i + 1] + [e] + order[i + 1..])
    ensures AllReadable(Relengthed(a, order[i], len), order[..i + 1] + [e] + order[i + 1..])
    ensures Text(Relengthed(a, order[i], len), order[..i + 1] + [e] + order[i + 1..])
      == Text(t, order[..i]) + Span(t, t.entries[order[i]])[..len] + t.modifyBuf[ib..ib + il] + Text(t, order[i + 1..])
  {
    AttachedText(t, order, i, ib, il, fill, a, e);
    AttachedSpans(t, order, order[i], ib, il, fill, a, e);
    InsertedSlices(order, i, e);
    SpanIsSlice(a, a.entries[e]);
    DeleteThenAddTail(t, order, i, a, e, len, t.modifyBuf[ib..ib + il]);
  }

  /**
   * DELETE_THEN_ADD: the new entry is attached after `at`, which then loses the last
   * `delete_before_length + delete_after_length` characters (`AttachedTrimmedText` says what
   * that does to the content).
   */
  lemma BranchDeleteThenAdd(t: PieceTable, at: Handle, ib: u32, il: u32, db: u32, da: u32, fill: Entry,
                            a: PieceTable, e: Handle, b: EditResult)
    requires Valid(t) && 1 <= at < t.entriesCount && CanAllocate(t)
    requires il > 0 && (db > 0 || da > 0) && db + da <= t.entries[at].length
    requires (a, e) == Attached(t, at, ib, il, fill) && a.entries[at].length == t.entries[at].length
    requires b == Branch(t, at, ib, il, db, da, fill)
    ensures b.id == DeleteThenAdd && b.entry == e
    ensures b.table == Relengthed(a, at, t.entries[at].length - (db + da))
  {
    assert Wrap(db + da) == db + da;
  }

  /**
   * The content part of `AttachedTrimmedText`: `a` is the table with `e` attached after the
   * `i`-th entry and holding `ins`; that entry is then shortened to `len`.
   */
  lemma DeleteThenAddTail(t: PieceTable, order: seq<Handle>, i: nat, a: PieceTable, e: Handle, len: u32,
                          ins: seq<char>)
    requires Chain(t.entries, t.firstEntry, order) && AllReadable(t, order) && i < |order|
    requires a.modifyBuf == t.modifyBuf && a.originBuf == t.originBuf && |a.entries| >= |t.entries|
    requires DoublyLinked(a.entries, a.firstEntry, order[..i + 1] + [e] + order[i + 1..])
    requires AllReadable(a, order[..i + 1] + [e] + order[i + 1..])
    requires forall k | 0 <= k < |order| :: SameSpan(a.entries[order[k]], t.entries[order[k]])
    requires e < |a.entries| && Readable(a, a.entries[e]) && Span(a, a.entries[e]) == ins
    requires len <= t.entries[order[i]].length
    ensures DoublyLinked(Resized(a.entries, order[i], len), a.firstEntry, order[..i + 1] + [e] + order[i + 1..])
    ensures AllReadable(Relengthed(a, order[i], len), order[..i + 1] + [e] + order[i + 1..])
    ensures Text(Relengthed(a, order[i], len), order[..i + 1] + [e] + order[i + 1..])
      == Text(t, order[..i]) + Span(t, t.entries[order[i]])[..len] + ins + Text(t, order[i + 1..])
  {
    var o := order[..i + 1] + [e] + order[i + 1..];
    InsertedSlices(order, i, e);
    var at := t.entries[order[i]];
    assert SameSpan(a.entries[order[i]], at);
    TrimmedText(a, o, i, len);
    SpanFrame(t, a, at, a.entries[order[i]]);
    SlicesFrame(t, a, order, i);
    SlicesFrame(t, a, order, i + 1);
    TextCons(a, e, order[i + 1..]);
    ConcatRegroupTail(Text(t, order[..i]), Span(t, at)[..len], ins, Text(t, order[i + 1..]));
  }

  /** The pieces of a sequence with `x` inserted after position `i`. */
  lemma InsertedSlices<T>(s: seq<T>, i: nat, x: T)
    requires i < |s|
    ensures var o := s[..i + 1] + [x] + s[i + 1..];
      && |o| == |s| + 1 && o[i] == s[i] && o[i + 1] == x
      && o[..i] == s[..i] && o[i + 1..] == [x] + s[i + 1..]
  {
    var o := s[..i + 1] + [x] + s[i + 1..];
    assert o[..i] == s[..i];
    assert o[i + 1..] == [x] + s[i + 1..];
  }

  lemma ConcatRegroupTail<T>(a: seq<T>, b: seq<T>, c: seq<T>, d: seq<T>)
    ensures a + b + (c + d) == a + b + c + d
  {
  }
}
