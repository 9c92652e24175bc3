/**
 * `struct FileBuf` (filebuf.h:56-65) and the operations of filebuf.c on it, carried out
 * statement by statement on the fields. Each operation is proved to end in the state that
 * the functions of `PieceTables`, `Edits`, `Inserts` and `EditHistory` describe.
 */
module FileBuffers {
  import opened FileBufTypes
  import opened EditHistory
  import opened EntryList
  import opened PieceTables
  import opened Edits
  import opened Inserts

  /** filebuf.c:16: the first allocation of the history, the entry arena and `modify_buf`. */
  const INIT_BUF_SIZE: u32 := 8192

  /** An event whose entry is a slot of the pool. */
  predicate Recorded(t: PieceTable, ev: FileEvent) {
    ev.entry.To? && 1 <= ev.entry.handle < t.entriesCount
  }

  /**
   * `delete_entry` applied to the entries of the events `h[lo..hi]`, in order, as the loop
   * of `erase_redo_history` and the call after it do. (An event whose entry is not a slot
   * of the arena would crash the source; the history invariant rules it out, and it is
   * skipped here.)
   */
  function Erased(t: PieceTable, h: seq<FileEvent>, lo: nat, hi: nat): (r: PieceTable)
    requires InArena(t.entries, t.freeEntries) && lo <= hi <= |h|
    ensures |r.entries| == |t.entries| && InArena(r.entries, r.freeEntries)
    ensures r == t.(entries := r.entries, freeEntries := r.freeEntries)
    decreases hi - lo
  {
    if lo == hi then t
    else
      var e := h[lo].entry;
      var t1 := if e.To? && e.handle < |t.entries| then Freed(t, e.handle) else t;
      Erased(t1, h, lo + 1, hi)
  }

  /** Erasing one more event frees its entry after the others. */
  lemma {:induction false} ErasedStep(t: PieceTable, h: seq<FileEvent>, lo: nat, hi: nat)
    requires InArena(t.entries, t.freeEntries) && t.entriesCount <= |t.entries| && lo <= hi < |h|
    requires forall k | lo <= k <= hi :: Recorded(t, h[k])
    ensures Recorded(Erased(t, h, lo, hi), h[hi])
    ensures Erased(t, h, lo, hi + 1) == Freed(Erased(t, h, lo, hi), h[hi].entry.handle)
    decreases hi - lo
  {
    assert Recorded(t, h[hi]);
    if lo < hi {
      assert Recorded(t, h[lo]);
      var t1 := Freed(t, h[lo].entry.handle);
      assert forall k | lo < k <= hi :: Recorded(t1, h[k]) by {
        forall k | lo < k <= hi ensures Recorded(t1, h[k]) {
          assert Recorded(t, h[k]);
        }
      }
      ErasedStep(t1, h, lo + 1, hi);
    }
  }

  /** Erasing events whose entries are in use keeps the table invariant. */
  lemma {:induction false} ErasedValid(t: PieceTable, h: seq<FileEvent>, lo: nat, hi: nat)
    requires PieceTables.Valid(t) && lo <= hi <= |h|
    requires forall k | lo <= k < hi :: Recorded(t, h[k])
    ensures PieceTables.Valid(Erased(t, h, lo, hi))
    decreases hi - lo
  {
    if lo < hi {
      assert Recorded(t, h[lo]);
      var t1 := Freed(t, h[lo].entry.handle);
      FreedValid(t, h[lo].entry.handle);
      assert forall k | lo < k < hi :: Recorded(t1, h[k]) by {
        forall k | lo < k < hi ensures Recorded(t1, h[k]) {
          assert Recorded(t, h[k]);
        }
      }
      ErasedValid(t1, h, lo + 1, hi);
    }
  }

  /** Freeing the entries of erased events changes links only: every slot keeps its span. */
  lemma {:induction false} ErasedKeepsSpans(t: PieceTable, h: seq<FileEvent>, lo: nat, hi: nat)
    requires InArena(t.entries, t.freeEntries) && t.entriesCount <= |t.entries| && lo <= hi <= |h|
    requires forall k | lo <= k < hi :: Recorded(t, h[k])
    ensures forall k | 0 <= k < |t.entries| :: SameSpan(Erased(t, h, lo, hi).entries[k], t.entries[k])
    decreases hi - lo
  {
    if lo < hi {
      assert Recorded(t, h[lo]);
      var t1 := Freed(t, h[lo].entry.handle);
      FreedLinks(t, h[lo].entry.handle);
      assert forall k | lo < k < hi :: Recorded(t1, h[k]) by {
        forall k | lo < k < hi ensures Recorded(t1, h[k]) {
          assert Recorded(t, h[k]);
        }
      }
      ErasedKeepsSpans(t1, h, lo + 1, hi);
    }
  }

  /**
   * The list is not an invariant of the buffer. Undoing an ADD leaves the table as it was,
   * so the ADD's entry stays on the list; when a later edit erases that event,
   * `delete_entry` frees the still-listed entry and cuts the list after it.
   */
  lemma ErasingUndoneAddCutsList(t: PieceTable, h: seq<FileEvent>, lo: nat, order: seq<Handle>, i: nat)
    requires PieceTables.Valid(t) && Chain(t.entries, t.firstEntry, order) && i + 1 < |order|
    requires lo < |h| && h[lo].id == Add && h[lo].entry == To(order[i]) && CanUndo(t, h[lo])
    requires t.freeEntries.Null? || t.freeEntries.handle !in order
    ensures UndoneTable(t, h[lo]) == t
    ensures !Chain(Erased(t, h, lo, lo + 1).entries, t.firstEntry, order)
  {
    assert Erased(t, h, lo, lo + 1) == Freed(t, order[i]);
    FreeingListedEntryCutsList(t, order, i);
  }

  /**
   * The event `filebuf_insert` leaves in the slot `ev` that `next_event` handed out: the
   * three counts (filebuf.c:204-206), and the id, entry and data of the branch taken.
   */
  function Recording(ev: FileEvent, b: EditResult, il: u32, db: u32, da: u32): (r: FileEvent)
    ensures r.entry == To(b.entry) && r.id == b.id
    ensures r.insertLength == il && r.deleteBeforeLength == db && r.deleteAfterLength == da
    ensures r.data == if b.setsData then il else ev.data
  {
    ev.(insertLength := il, deleteBeforeLength := db, deleteAfterLength := da,
        id := b.id, entry := To(b.entry), data := if b.setsData then il else ev.data)
  }

  /**
   * After `next_event`, every event that can be undone or redone, other than the slot just
   * handed out, still records an entry of the pool, as long as the pool has only grown.
   */
  lemma RecordedAfterEdit(t0: PieceTable, t: PieceTable, h: seq<FileEvent>, c: Cursor, fill: FileEvent)
    requires Bounded(c) && CanAdvance(c) && |h| == c.size
    requires forall k | 0 <= k < c.count :: Recorded(t0, h[k])
    requires t0.entriesCount <= t.entriesCount
    ensures var h' := AdvancedEvents(h, c, fill);
      forall k | 0 <= k < Advanced(c).count && k != c.index :: Recorded(t, h'[k])
  {
    var h' := AdvancedEvents(h, c, fill);
    forall k | 0 <= k < Advanced(c).count && k != c.index
      ensures Recorded(t, h'[k])
    {
      assert k < c.count && h'[k] == h[k];
      assert Recorded(t0, h[k]);
    }
  }

  /**
   * filebuf.c:275: the new length, `length - (delete_before_length + delete_after_length)
   * + insert_length` evaluated in uint32 arithmetic, which is the exact result whenever that
   * lies in [0, 2^32).
   */
  function EditedLength(length: u32, il: u32, db: u32, da: u32): u32 {
    Wrap(Wrap(length - Wrap(db + da)) + il)
  }

  /**
   * The new length is `length - (delete_before_length + delete_after_length) + insert_length`
   * modulo 2^32, however the uint32 steps are grouped, and is that value exactly whenever
   * it lies in [0, 2^32).
   */
  lemma EditedLengthIsModular(length: u32, il: u32, db: u32, da: u32)
    ensures var x := length - (db + da) + il;
      && EditedLength(length, il, db, da) == x % U32_LIMIT
      && (0 <= x < U32_LIMIT ==> EditedLength(length, il, db, da) == x)
  {
    var x := length - (db + da) + il;
    var r := EditedLength(length, il, db, da);
    var n := (r - x) / U32_LIMIT;
    assert r - x in {-U32_LIMIT, 0, U32_LIMIT, 2 * U32_LIMIT};
    assert r == x + n * U32_LIMIT;
  }

  class FileBuf {
    var history: seq<FileEvent>
    var path: Option<seq<char>>
    var table: PieceTable
    var historySize: u32
    var historyCount: u32
    var historyIndex: u32
    /** The character count that filebuf.c keeps as `length` (filebuf.h declares `file_length`). */
    var length: u32
    /** What fresh memory holds wherever the source allocates without writing. */
    const junk: Junk

    function HistoryCursor(): Cursor
      reads this
    {
      Cursor(historyIndex, historyCount, historySize)
    }

    /**
     * The table is valid, the history cursor within its bounds, and every event that can be
     * undone or redone records an entry of the pool.
     */
    ghost predicate Valid()
      reads this
    {
      && PieceTables.Valid(table)
      && Bounded(HistoryCursor())
      && |history| == historySize
      && forall k | 0 <= k < historyCount :: Recorded(table, history[k])
    }

    /** An empty buffer (`filebuf_init`). */
    constructor Init(junk: Junk)
      ensures this.junk == junk
      ensures Initial()
    {
      this.junk := junk;
      new;
      Initialize();
    }

    /** A buffer holding `input`: `filebuf_init` followed by a successful `filebuf_read`. */
    constructor Load(junk: Junk, p: seq<char>, fileSize: nat, input: seq<char>)
      requires |input| <= Truncate(2 * fileSize) && |input| < 0x8000_0000
      ensures this.junk == junk && Loaded(p, fileSize, input)
    {
      this.junk := junk;
      new;
      Initialize();
      Read(p, fileSize, input);
    }

    /** The state `filebuf_init` establishes. */
    ghost predicate Initial()
      reads this
    {
      && Valid()
      && HistoryCursor() == Cursor(0, 0, INIT_BUF_SIZE) && path == None && length == 0
      && table.originBuf == [] && table.modifyBufCount == 0 && table.modifyBufSize == INIT_BUF_SIZE
      && table.entriesCount == 2 && table.entriesSize == INIT_BUF_SIZE && table.freeEntries == Null
      && table.firstEntry == 1 && table.entries[1] == Entry(Null, Null, 0, 0, BUF_ID_ORIGIN, true)
      && DoublyLinked(table.entries, table.firstEntry, [table.firstEntry])
      && AllReadable(table, [table.firstEntry]) && Content(table, [table.firstEntry]) == []
    }

    /**
     * `filebuf_init` (filebuf.c:32-60): empty history, empty stores, and one zero-length
     * ORIGIN entry in slot 1 as the whole list. The source reads `free_entries` before it
     * sets it and never sets the length; both start out empty here.
     */
    method Initialize()
      modifies this
      ensures Initial()
    {
      historyCount := 0;
      historyIndex := 0;
      historySize := INIT_BUF_SIZE;
      history := seq(INIT_BUF_SIZE, _ => junk.event);
      path := None;
      length := 0;
      table := PieceTable(
        originBuf := [],
        modifyBuf := seq(INIT_BUF_SIZE, _ => junk.byte),
        firstEntry := 0,
        entries := seq(INIT_BUF_SIZE, _ => junk.entry),
        freeEntries := Null,
        entriesCount := 1,
        entriesSize := INIT_BUF_SIZE,
        modifyBufCount := 0,
        modifyBufSize := INIT_BUF_SIZE,
        originBufSize := 0);
      Restarted(table, [], 0, junk.entry);
      var first := NextEntry();
      // filebuf.c:50-55 write every field of the slot.
      table := table.(entries := table.entries[first := Entry(Null, Null, 0, 0, BUF_ID_ORIGIN, true)]);
      table := table.(freeEntries := Null);
      table := table.(firstEntry := first);
    }

    /** The state a successful `filebuf_read` of `input` leaves. */
    ghost predicate Loaded(p: seq<char>, fileSize: nat, input: seq<char>)
      reads this
    {
      && Valid() && path == Some(p) && length == |input|
      && table.originBufSize == Truncate(2 * fileSize) && |input| <= table.originBufSize
      && table.originBuf[..|input|] == input
      && table.freeEntries == Null
      && table.entries[table.firstEntry] == Entry(Null, Null, 0, |input|, BUF_ID_ORIGIN, true)
      && DoublyLinked(table.entries, table.firstEntry, [table.firstEntry])
      && AllReadable(table, [table.firstEntry]) && Content(table, [table.firstEntry]) == input
    }

    /**
     * What `filebuf_read` (filebuf.c:382-411) does once the file is open, with `input` the
     * characters its loop reads: `origin_buf` is reallocated to twice the file size, filled
     * with `input`, and one ORIGIN entry spanning it becomes the whole list.
     */
    method Read(p: seq<char>, fileSize: nat, input: seq<char>)
      requires Valid() && CanAllocate(table)
      requires |input| <= Truncate(2 * fileSize) && |input| < 0x8000_0000
      modifies this`path, this`table, this`length
      ensures Loaded(p, fileSize, input)
      ensures table.entriesCount >= old(table.entriesCount)
    {
      path := Some(p);
      table := table.(originBufSize := Truncate(2 * fileSize));
      table := table.(originBuf := seq(table.originBufSize, _ => junk.byte));
      var count := 0;
      while count < |input|
        modifies this`table
        invariant count <= |input| && |table.originBuf| == table.originBufSize == Truncate(2 * fileSize)
        invariant table.originBuf[..count] == input[..count]
        invariant table == old(table).(originBuf := table.originBuf, originBufSize := table.originBufSize)
      {
        table := table.(originBuf := table.originBuf[count := input[count]]);
        count := count + 1;
      }
      Restarted(old(table), table.originBuf, count, junk.entry);
      assert table.originBuf[..count] == input;
      var first := NextEntry();
      // filebuf.c:399-404 write every field of the slot.
      table := table.(entries := table.entries[first := Entry(Null, Null, 0, count, BUF_ID_ORIGIN, true)]);
      length := count;
      table := table.(freeEntries := Null);
      table := table.(firstEntry := first);
    }

    /** `next_event` (filebuf.c:63-75): the slot of the new event. */
    method NextEvent() returns (k: nat)
      requires Bounded(HistoryCursor()) && CanAdvance(HistoryCursor()) && |history| == historySize
      modifies this`history, this`historySize, this`historyCount, this`historyIndex
      ensures HistoryCursor() == Advanced(old(HistoryCursor()))
      ensures history == AdvancedEvents(old(history), old(HistoryCursor()), junk.event)
      ensures k == old(historyIndex) && |history| == historySize
    {
      if historyIndex == historyCount {
        if historyCount == historySize {
          historySize := 2 * historySize;
          history := Grow(history, historySize, junk.event);
        }
        historyCount := historyCount + 1;
      }
      k := historyIndex;
      historyIndex := historyIndex + 1;
    }

    /** `next_entry` (filebuf.c:80-95). */
    method NextEntry() returns (e: Handle)
      requires |table.entries| == table.entriesSize && 0 < table.entriesSize && table.entriesCount <= table.entriesSize
      requires InArena(table.entries, table.freeEntries) && CanAllocate(table)
      modifies this`table
      ensures (table, e) == Allocate(old(table), junk.entry)
    {
      if table.freeEntries.To? {
        e := table.freeEntries.handle;
        table := table.(freeEntries := table.entries[e].next);
        return;
      }
      if table.entriesCount == table.entriesSize {
        table := table.(entriesSize := 2 * table.entriesSize);
        table := table.(entries := Grow(table.entries, table.entriesSize, junk.entry));
      }
      e := table.entriesCount;
      table := table.(entriesCount := table.entriesCount + 1);
    }

    /** `delete_entry` (filebuf.c:100-108). */
    method DeleteEntry(e: Handle)
      requires e < |table.entries| && InArena(table.entries, table.freeEntries)
      modifies this`table
      ensures table == Freed(old(table), e)
    {
      table := table.(entries := table.entries[e := table.entries[e].(next := Null)]);
      if table.freeEntries.Null? {
        table := table.(freeEntries := To(e));
      } else {
        var f := table.freeEntries.handle;
        table := table.(entries := table.entries[f := table.entries[f].(next := To(e))]);
        table := table.(entries := table.entries[e := table.entries[e].(prev := To(f))]);
      }
    }

    /** `link_entry_before` (filebuf.c:113-120). */
    method LinkBefore(ref: Handle, e: Handle)
      requires ref < |table.entries| && e < |table.entries| && InArena(table.entries, table.entries[ref].prev)
      modifies this`table
      ensures table == old(table).(entries := LinkedBefore(old(table).entries, ref, e))
    {
      var p := table.entries[ref].prev;
      if p.To? {
        table := table.(entries := table.entries[p.handle := table.entries[p.handle].(next := To(e))]);
      }
      table := table.(entries := table.entries[e := table.entries[e].(prev := table.entries[ref].prev)]);
      table := table.(entries := table.entries[ref := table.entries[ref].(prev := To(e))]);
      table := table.(entries := table.entries[e := table.entries[e].(next := To(ref))]);
    }

    /** `link_entry_after` (filebuf.c:125-132). */
    method LinkAfter(ref: Handle, e: Handle)
      requires ref < |table.entries| && e < |table.entries| && InArena(table.entries, table.entries[ref].next)
      modifies this`table
      ensures table == old(table).(entries := LinkedAfter(old(table).entries, ref, e))
    {
      var n := table.entries[ref].next;
      if n.To? {
        table := table.(entries := table.entries[n.handle := table.entries[n.handle].(prev := To(e))]);
      }
      table := table.(entries := table.entries[e := table.entries[e].(next := table.entries[ref].next)]);
      table := table.(entries := table.entries[ref := table.entries[ref].(next := To(e))]);
      table := table.(entries := table.entries[e := table.entries[e].(prev := To(ref))]);
    }

    /** `unlink_entry` (filebuf.c:135-140). */
    method Unlink(e: Handle)
      requires e < |table.entries| && table.entries[e].prev.To?
      requires InArena(table.entries, table.entries[e].prev) && InArena(table.entries, table.entries[e].next)
      modifies this`table
      ensures table == old(table).(entries := Unlinked(old(table).entries, e))
    {
      var n := table.entries[e].next;
      if n.To? {
        table := table.(entries := table.entries[n.handle := table.entries[n.handle].(prev := table.entries[e].prev)]);
      }
      var p := table.entries[e].prev.handle;
      table := table.(entries := table.entries[p := table.entries[p].(next := table.entries[e].next)]);
    }

    /**
     * `erase_redo_history` (filebuf.c:151-162): the entries of the events from
     * `history_index` to the end of the history go back to the pool, in order, and the count
     * drops to the index. `filebuf_defragment` does nothing.
     */
    method EraseRedoHistory()
      requires Valid()
      modifies this`table, this`historyCount
      ensures Valid()
      ensures HistoryCursor() == Truncated(old(HistoryCursor()))
      ensures old(historyIndex) >= old(historyCount) ==> table == old(table)
      ensures old(historyIndex) < old(historyCount) ==>
        table == Erased(old(table), history, historyIndex, old(historyCount))
    {
      if historyIndex >= historyCount {
        return;
      }
      ghost var t0 := table;
      var i: nat := historyIndex;
      while i < historyCount - 1
        modifies this`table
        invariant historyIndex <= i <= historyCount - 1
        invariant table == Erased(t0, history, historyIndex, i)
      {
        ErasedStep(t0, history, historyIndex, i);
        DeleteEntry(history[i].entry.handle);
        i := i + 1;
      }
      ErasedStep(t0, history, historyIndex, i);
      DeleteEntry(history[historyCount - 1].entry.handle);
      ErasedValid(t0, history, historyIndex, historyCount);
      historyCount := historyIndex;
    }

    /**
     * `filebuf_entry_at` (filebuf.c:168-179): walk the list from the first entry, adding up
     * lengths until the sum reaches `fileIndex` or the last entry is reached.
     */
    method EntryAt(fileIndex: u32, ghost order: seq<Handle>) returns (at: Handle, rel: u32)
      requires Chain(table.entries, table.firstEntry, order)
      ensures (at, rel) == Inserts.EntryAt(table, order, fileIndex)
    {
      ghost var lens := Lengths(table.entries, order);
      at := table.firstEntry;
      var i: u32 := 0;
      ghost var j := 0;
      while i < fileIndex
        invariant j < |order| && at == order[j]
        invariant LocateFrom(lens, j, i, fileIndex) == Locate(lens, fileIndex)
        decreases |order| - j
      {
        i := Wrap(i + table.entries[at].length);
        if table.entries[at].next.Null? {
          break;
        }
        at := table.entries[at].next.handle;
        j := j + 1;
      }
      rel := Wrap(i - fileIndex);
    }

    /**
     * filebuf.c:192-200: `inserted_text` goes to the end of `modify_buf`, which is
     * reallocated to twice the new count when the count reaches its size.
     */
    method AppendModify(text: seq<char>, il: u32) returns (ib: u32)
      requires |table.modifyBuf| == table.modifyBufSize && table.modifyBufCount < table.modifyBufSize
      requires |text| >= il && CanAppendModify(table, il)
      modifies this`table
      ensures ib == old(table.modifyBufCount)
      ensures table == ModifyAppended(old(table), text, il, junk.byte)
    {
      ib := table.modifyBufCount;
      table := table.(modifyBufCount := table.modifyBufCount + il);
      if table.modifyBufCount >= table.modifyBufSize {
        table := table.(modifyBufSize := table.modifyBufCount * 2);
        table := table.(modifyBuf := Grow(table.modifyBuf, table.modifyBufSize, junk.byte));
      }
      ghost var grown := table;
      var i: u32 := 0;
      while i < il
        modifies this`table
        invariant i <= il && |table.modifyBuf| == |grown.modifyBuf|
        invariant table == grown.(modifyBuf := table.modifyBuf)
        invariant forall k | 0 <= k < |table.modifyBuf| ::
          table.modifyBuf[k] == if ib <= k < ib + i then text[k - ib] else grown.modifyBuf[k]
      {
        table := table.(modifyBuf := table.modifyBuf[ib + i := text[i]]);
        i := i + 1;
      }
      assert table.modifyBuf == Written(grown.modifyBuf, ib, text[..il]);
    }

    /**
     * filebuf.c:218-226: a new right entry takes the MODIFY span from `relative_index` and
     * the part of `at`'s length past `relative_index - at->start`, and is linked after
     * `at`, which keeps the first part.
     */
    method SplitEntry(at: Handle, rel: u32)
      requires PieceTables.Valid(table) && 1 <= at < table.entriesCount && CanAllocate(table)
      modifies this`table
      ensures table == Split(old(table), at, rel, junk.entry).0
    {
      ghost var t0 := table;
      ghost var len0 := SplitRightLength(t0, at, rel, junk.entry);
      ghost var a := Attached(t0, at, rel, len0, junk.entry);
      var right := NextEntry();
      table := table.(entries := table.entries[right := table.entries[right].(start := rel)]);
      var len := Wrap(table.entries[at].length - Wrap(rel - table.entries[at].start));
      table := table.(entries := table.entries[right := table.entries[right].(length := len, bufId := BUF_ID_MODIFY, savedToFile := false)]);
      assert len == len0;
      assert table.entries == Spanned(Allocate(t0, junk.entry).0.entries, right, rel, len);
      assert table == Staged(t0, rel, len, junk.entry);
      StagedLinkValid(t0, at, rel, len, junk.entry);
      LinkAfter(at, right);
      assert table == a.0;
      table := table.(entries := table.entries[at := table.entries[at].(length := Wrap(rel - table.entries[at].start))]);
    }

    /**
     * filebuf.c:238-244 and 266-272: a new entry from `next_entry` takes `length`
     * characters of the MODIFY store from `start` and is linked after `at`.
     */
    method AttachEntry(at: Handle, start: u32, length: u32) returns (e: Handle)
      requires PieceTables.Valid(table) && 1 <= at < table.entriesCount && CanAllocate(table)
      modifies this`table
      ensures (table, e) == Attached(old(table), at, start, length, junk.entry)
    {
      ghost var t0 := table;
      e := NextEntry();
      table := table.(entries := table.entries[e := table.entries[e].(start := start)]);
      table := table.(entries := table.entries[e := table.entries[e].(length := length, bufId := BUF_ID_MODIFY, savedToFile := false)]);
      assert table == Staged(t0, start, length, junk.entry);
      StagedLinkValid(t0, at, start, length, junk.entry);
      LinkAfter(at, e);
    }

    /**
     * filebuf.c:235-273: the branch on the counts that changes the table around `at`, for
     * text stored at `ib` of the MODIFY store, and fills in the new event `ev`.
     * `delete_length`, which the source does not declare, is taken to be
     * `delete_before_length + delete_after_length`.
     */
    method InsertBranch(ev: FileEvent, at: Handle, ib: u32, il: u32, db: u32, da: u32) returns (event: FileEvent)
      requires PieceTables.Valid(table) && 1 <= at < table.entriesCount
      requires Allocates(il, db, da, table.entries[at].bufId) ==> CanAllocate(table)
      modifies this`table
      ensures var b := Branch(old(table), at, ib, il, db, da, junk.entry);
        && table == b.table
        && event == ev.(id := b.id, entry := To(b.entry), data := if b.setsData then il else ev.data)
    {
      ghost var b := Branch(table, at, ib, il, db, da, junk.entry);
      event := ev;
      if db > 0 || da > 0 {
        if il > 0 {
          event := event.(id := DeleteThenAdd);
          var entry := AttachEntry(at, ib, il);
          event := event.(entry := To(entry));
        } else {
          event := event.(id := Delete);
          event := event.(entry := To(at));
        }
        table := table.(entries := table.entries[at := table.entries[at].(length := Wrap(table.entries[at].length - Wrap(db + da)))]);
        assert table == b.table;
      } else if table.entries[at].bufId == BUF_ID_MODIFY {
        event := event.(id := Append);
        event := event.(entry := To(at));
        event := event.(data := il);
        table := table.(entries := table.entries[at := table.entries[at].(length := Wrap(table.entries[at].length + il))]);
      } else {
        event := event.(id := Add);
        event := event.(data := il);
        var entry := AttachEntry(at, ib, il);
        event := event.(entry := To(entry));
      }
    }

    /**
     * filebuf.c:210-273: the entry the index falls on is found; the text goes after its
     * predecessor when the relative index equals the entry's start, and after the left half
     * of a split otherwise; then the branch on the counts changes the table and fills in
     * `ev`.
     */
    method Place(ev: FileEvent, insertIndex: u32, ib: u32, il: u32, db: u32, da: u32, ghost order: seq<Handle>)
      returns (event: FileEvent, ghost b: EditResult)
      requires CanPlace(table, insertIndex, il, db, da, order, junk.entry)
      modifies this`table
      ensures b == Placing(old(table), insertIndex, ib, il, db, da, order, junk.entry)
      ensures table == b.table
      ensures event == ev.(id := b.id, entry := To(b.entry), data := if b.setsData then il else ev.data)
    {
      var at, rel := EntryAt(insertIndex, order);
      ghost var p := Placed(table, at, rel, junk.entry);
      if rel == table.entries[at].start {
        at := table.entries[at].prev.handle;
      } else {
        SplitEntry(at, rel);
      }
      assert (table, at) == p;
      b := Branch(table, at, ib, il, db, da, junk.entry);
      event := InsertBranch(ev, at, ib, il, db, da);
    }

    /**
     * filebuf.c:203-207, 275-276 once the table has been changed: the new event is stored
     * in its slot `k`, the length is updated and the redo tail is erased.
     */
    method Commit(k: nat, event: FileEvent, il: u32, db: u32, da: u32)
      requires PieceTables.Valid(table) && Bounded(HistoryCursor()) && |history| == historySize
      requires k + 1 == historyIndex && Recorded(table, event)
      requires forall j | 0 <= j < historyCount && j != k :: Recorded(table, history[j])
      modifies this`table, this`history, this`historyCount, this`length
      ensures Valid()
      ensures HistoryCursor() == Truncated(old(HistoryCursor()))
      ensures history == old(history)[k := event]
      ensures length == EditedLength(old(length), il, db, da)
      ensures table == Erased(old(table), history, historyIndex, old(historyCount))
    {
      history := history[k := event];
      length := EditedLength(length, il, db, da);
      EraseRedoHistory();
    }

    /**
     * filebuf.c:202-277 once the text is stored at `ib` and slot `k` of the history handed
     * out: the edit is placed, the event filled in and stored in slot `k`, the length is
     * updated and the redo tail is erased. `t0` is the table before the text was stored.
     */
    method Finish(k: nat, insertIndex: u32, ib: u32, il: u32, db: u32, da: u32, ghost text: seq<char>,
                  ghost order: seq<Handle>, ghost t0: PieceTable, ghost c: Cursor, ghost h0: seq<FileEvent>)
      requires CanEdit(t0, text, insertIndex, il, db, da, order, junk)
      requires table == ModifyAppended(t0, text, il, junk.byte) && ib == t0.modifyBufCount
      requires Bounded(c) && CanAdvance(c) && |h0| == c.size
      requires HistoryCursor() == Advanced(c) && k == c.index && history == AdvancedEvents(h0, c, junk.event)
      requires Bounded(HistoryCursor()) && |history| == historySize
      requires forall j | 0 <= j < historyCount && j != k :: Recorded(table, history[j])
      modifies this`table, this`history, this`historyCount, this`length
      ensures Valid()
      ensures HistoryCursor() == Truncated(Advanced(c)) && historyIndex == historyCount == c.index + 1
      ensures var h := AdvancedEvents(h0, c, junk.event);
        var r := Edit(t0, text, insertIndex, il, db, da, order, junk);
        && history == h[c.index := Recording(h[c.index], r, il, db, da)]
        && table == Erased(r.table, history, c.index + 1, Advanced(c).count)
      ensures length == EditedLength(old(length), il, db, da)
    {
      assert Edit(t0, text, insertIndex, il, db, da, order, junk) == Placing(table, insertIndex, ib, il, db, da, order, junk.entry);
      var event, b := Place(history[k].(insertLength := il, deleteBeforeLength := db, deleteAfterLength := da),
                            insertIndex, ib, il, db, da, order);
      Commit(k, event, il, db, da);
    }

    /**
     * `filebuf_insert` (filebuf.c:189-277): the text is appended to `modify_buf`, a new
     * event is taken from the history, the entry the index falls on is found (and split
     * when the index is not at its start), the branch on the counts changes the table and
     * fills in the event, the length is updated in uint32 arithmetic and the redo tail is
     * erased. `order` is the list of the buffer before the call.
     */
    method Insert(text: seq<char>, insertIndex: u32, il: u32, db: u32, da: u32, ghost order: seq<Handle>)
      requires Valid() && CanAdvance(HistoryCursor())
      requires CanEdit(table, text, insertIndex, il, db, da, order, junk)
      modifies this`table, this`history, this`historySize, this`historyCount, this`historyIndex, this`length
      ensures Valid()
      ensures var c := old(HistoryCursor());
        && HistoryCursor() == Truncated(Advanced(c))
        && historyIndex == historyCount == c.index + 1
      ensures var c := old(HistoryCursor());
        var h := AdvancedEvents(old(history), c, junk.event);
        var r := Edit(old(table), text, insertIndex, il, db, da, order, junk);
        && history == h[c.index := Recording(h[c.index], r, il, db, da)]
        && table == Erased(r.table, history, c.index + 1, Advanced(c).count)
      ensures length == EditedLength(old(length), il, db, da)
    {
      ghost var t0, c := table, HistoryCursor();
      var ib := AppendModify(text, il);
      var k := NextEvent();
      RecordedAfterEdit(t0, table, old(history), c, junk.event);
      Finish(k, insertIndex, ib, il, db, da, text, order, t0, c, old(history));
    }

    /**
     * `filebuf_undo` (filebuf.c:280-305): nothing at the start of the history; otherwise the
     * cursor moves back by one and the table change of the event it passes is reversed as
     * far as the source reverses it. The length is not updated (a TODO in the source).
     */
    method Undo()
      requires Valid()
      requires historyIndex > 0 ==> CanUndo(table, history[historyIndex - 1])
      modifies this`table, this`historyIndex
      ensures Valid() && length == old(length) && history == old(history)
      ensures HistoryCursor() == EditHistory.Undone(old(HistoryCursor()))
      ensures old(historyIndex) == 0 ==> table == old(table)
      ensures old(historyIndex) > 0 ==> table == Edits.UndoneTable(old(table), history[historyIndex])
    {
      if historyIndex == 0 {
        return;
      }
      historyIndex := historyIndex - 1;
      var ev := history[historyIndex];
      ghost var r := Edits.UndoneTable(table, ev);
      var e := ev.entry.handle;
      match ev.id {
        case DeleteThenAdd =>
          assert SlotOk(table, table.entries[e]);
          Unlink(e);
          var p := table.entries[e].prev.handle;
          table := table.(entries := table.entries[p := table.entries[p].(length := Wrap(table.entries[p].length + ev.data))]);
        case Delete =>
          assert SlotOk(table, table.entries[e]);
          var p := table.entries[e].prev.handle;
          table := table.(entries := table.entries[p := table.entries[p].(length := Wrap(table.entries[p].length + ev.data))]);
        case Add =>
        case Append =>
          table := table.(entries := table.entries[e := table.entries[e].(length := Wrap(table.entries[e].length - ev.data))]);
      }
      assert table == r;
    }

    /**
     * `filebuf_redo` (filebuf.c:308-313): nothing when there is nothing to redo; otherwise
     * only the cursor moves forward (the table is not touched, a TODO in the source).
     */
    method Redo()
      requires Valid()
      modifies this`historyIndex
      ensures Valid()
      ensures HistoryCursor() == Redone(old(HistoryCursor()))
    {
      if historyIndex >= historyCount {
        return;
      }
      historyIndex := historyIndex + 1;
    }
  }
}
