/**
 * The undo/redo cursor of `struct FileBuf` (filebuf.h:60-62): `history_index` is where the
 * next event is written, `history_count` how many events are kept (the ones from
 * `history_index` on can be redone) and `history_size` how many slots are allocated.
 */
module EditHistory {
  import opened FileBufTypes

  datatype Cursor = Cursor(index: u32, count: u32, size: u32)

  /** `history_index <= history_count <= history_size`, with at least one slot. */
  predicate Bounded(c: Cursor) {
    c.index <= c.count <= c.size && 0 < c.size
  }

  /** Doubling the history when it is full does not overflow `history_size`. */
  predicate CanAdvance(c: Cursor) {
    c.index == c.count == c.size ==> 2 * c.size < U32_LIMIT
  }

  /**
   * The cursor update of `next_event` (filebuf.c:63-75): a new event always takes slot
   * `history_index`; the count grows only when there was nothing to redo, and the size
   * doubles only when every slot was taken.
   */
  function Advanced(c: Cursor): (r: Cursor)
    requires Bounded(c) && CanAdvance(c)
    ensures Bounded(r)
    ensures r.index == c.index + 1
    ensures c.index < c.count ==> r.count == c.count && r.size == c.size
    ensures c.index == c.count ==> r.count == c.count + 1
    ensures r.size == (if c.index == c.count == c.size then 2 * c.size else c.size)
  {
    var grown := if c.index == c.count && c.count == c.size then c.(size := 2 * c.size) else c;
    var counted := if c.index == c.count then grown.(count := grown.count + 1) else grown;
    counted.(index := counted.index + 1)
  }

  /** The cursor update of `filebuf_undo` (filebuf.c:281-282). */
  function Undone(c: Cursor): (r: Cursor)
    requires Bounded(c)
    ensures Bounded(r) && r.count == c.count && r.size == c.size
    ensures c.index == 0 ==> r == c
    ensures c.index > 0 ==> r.index == c.index - 1
  {
    if c.index == 0 then c else c.(index := c.index - 1)
  }

  /** The cursor update of `filebuf_redo` (filebuf.c:309-310). */
  function Redone(c: Cursor): (r: Cursor)
    requires Bounded(c)
    ensures Bounded(r) && r.count == c.count && r.size == c.size
    ensures c.index >= c.count ==> r == c
    ensures c.index < c.count ==> r.index == c.index + 1
  {
    if c.index >= c.count then c else c.(index := c.index + 1)
  }

  /** The cursor update of `erase_redo_history` (filebuf.c:152, 158). */
  function Truncated(c: Cursor): (r: Cursor)
    requires Bounded(c)
    ensures Bounded(r) && r.index == c.index && r.size == c.size
    ensures r.count == r.index
    ensures c.index >= c.count ==> r == c
  {
    if c.index >= c.count then c else c.(count := c.index)
  }

  /** Redo undoes an undo. */
  lemma RedoAfterUndo(c: Cursor)
    requires Bounded(c) && c.index > 0
    ensures Redone(Undone(c)) == c
  {
  }

  /** Undo undoes a redo. */
  lemma UndoAfterRedo(c: Cursor)
    requires Bounded(c) && c.index < c.count
    ensures Undone(Redone(c)) == c
  {
  }

  /**
   * After an edit (a new event followed by erasing the redo tail) nothing can be redone, one
   * more event can be undone, and the edit is undone by one `filebuf_undo`.
   */
  lemma EditLeavesNothingToRedo(c: Cursor)
    requires Bounded(c) && CanAdvance(c)
    ensures var r := Truncated(Advanced(c));
      && r.index == r.count == c.index + 1
      && Redone(r) == r
      && Undone(r).index == c.index
  {
  }

  /**
   * `next_event`'s change to the history array: slot `index` is the one handed out, the
   * array grows only by new slots holding `fill`, and nothing already stored is touched.
   */
  function AdvancedEvents(h: seq<FileEvent>, c: Cursor, fill: FileEvent): (r: seq<FileEvent>)
    requires Bounded(c) && CanAdvance(c) && |h| == c.size
    ensures |r| == Advanced(c).size && c.index < |r|
    ensures r[..|h|] == h
    ensures forall k | |h| <= k < |r| :: r[k] == fill
  {
    if c.index == c.count && c.count == c.size then Grow(h, 2 * c.size, fill) else h
  }
}
