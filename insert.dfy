/**
 * The whole piece-table change of `filebuf_insert` (filebuf.c:189-273): the inserted text
 * is appended to the MODIFY store, the entry the insertion index falls on is found, the
 * text goes after that entry's predecessor or, when the index is not at the entry's start,
 * after the left half of a split; then the branch of `Branch` is taken.
 */
module Inserts {
  import opened FileBufTypes
  import opened EntryList
  import opened PieceTables
  import opened Edits

  /**
   * What `filebuf_entry_at` (filebuf.c:168-179) returns for `f` on the list `order`: the
   * entry it stops at and the value it stores in `*relative_index`.
   */
  function EntryAt(t: PieceTable, order: seq<Handle>, f: u32): (r: (Handle, u32))
    requires Chain(t.entries, t.firstEntry, order)
    ensures r.0 in order && r.0 < |t.entries|
    ensures var (j, rel) := Locate(Lengths(t.entries, order), f); r == (order[j], rel)
  {
    var loc := Locate(Lengths(t.entries, order), f);
    (order[loc.0], loc.1)
  }

  /**
   * filebuf.c:212-232: the table and the entry the text goes after. When the relative index
   * equals the found entry's start that is the entry's predecessor; otherwise the entry is
   * split and the text goes after its left half.
   */
  function Placed(t: PieceTable, at: Handle, rel: u32, fill: Entry): (r: (PieceTable, Handle))
    requires Valid(t) && 1 <= at < t.entriesCount
    requires rel == t.entries[at].start ==> t.entries[at].prev.To?
    requires rel != t.entries[at].start ==> CanAllocate(t)
    ensures Valid(r.0) && 1 <= r.1 < r.0.entriesCount && t.entriesCount <= r.0.entriesCount
    ensures r.0 == t.(entries := r.0.entries, freeEntries := r.0.freeEntries,
      entriesCount := r.0.entriesCount, entriesSize := r.0.entriesSize)
    ensures rel == t.entries[at].start ==> r == (t, t.entries[at].prev.handle)
    ensures rel != t.entries[at].start ==> r == (Split(t, at, rel, fill).0, at)
  {
    if rel == t.entries[at].start then
      assert SlotOk(t, t.entries[at]);
      (t, t.entries[at].prev.handle)
    else
      (Split(t, at, rel, fill).0, at)
  }

  /**
   * What filebuf.c:210-273 demands of the table it runs on: the list `order` is the
   * buffer's list, the entry the text goes after exists (when the index falls on an
   * entry's start, that entry has a predecessor, which fails for the first entry), and
   * `next_entry` can double the arena whenever it must.
   */
  ghost predicate CanPlace(t: PieceTable, insertIndex: u32, il: u32, db: u32, da: u32, order: seq<Handle>, fill: Entry)
  {
    && Valid(t) && Chain(t.entries, t.firstEntry, order)
    && (forall k | 0 <= k < |order| :: 1 <= order[k] < t.entriesCount)
    && var (at, rel) := EntryAt(t, order, insertIndex);
    && (rel == t.entries[at].start ==> t.entries[at].prev.To?)
    && (rel != t.entries[at].start ==> CanAllocate(t))
    && var p := Placed(t, at, rel, fill);
       Allocates(il, db, da, p.0.entries[p.1].bufId) ==> CanAllocate(p.0)
  }

  /**
   * filebuf.c:210-273 as a function of the table it runs on, for text stored at `ib` of
   * the MODIFY store: the branch taken at the entry that `filebuf_entry_at` finds, or at
   * the left half of its split.
   */
  function Placing(t: PieceTable, insertIndex: u32, ib: u32, il: u32, db: u32, da: u32, order: seq<Handle>,
                   fill: Entry): (r: EditResult)
    requires CanPlace(t, insertIndex, il, db, da, order, fill)
    ensures Valid(r.table) && 1 <= r.entry < r.table.entriesCount && t.entriesCount <= r.table.entriesCount
  {
    var (at, rel) := EntryAt(t, order, insertIndex);
    var p := Placed(t, at, rel, fill);
    Branch(p.0, p.1, ib, il, db, da, fill)
  }

  /**
   * The demands `filebuf_insert` makes without checking them: the text holds `il`
   * characters, no counter overflows, and what the steps after the append demand holds of
   * the table the append leaves.
   */
  ghost predicate CanEdit(t: PieceTable, text: seq<char>, insertIndex: u32, il: u32, db: u32, da: u32,
                          order: seq<Handle>, fill: Junk)
  {
    && Valid(t) && |text| >= il && CanAppendModify(t, il)
    && CanPlace(ModifyAppended(t, text, il, fill.byte), insertIndex, il, db, da, order, fill.entry)
  }

  /**
   * filebuf.c:192-273 as a function of the table before the call. The result says which
   * entry the new event records, with which id, and whether `data` is set.
   */
  function Edit(t: PieceTable, text: seq<char>, insertIndex: u32, il: u32, db: u32, da: u32,
                order: seq<Handle>, fill: Junk): (r: EditResult)
    requires CanEdit(t, text, insertIndex, il, db, da, order, fill)
    ensures Valid(r.table) && 1 <= r.entry < r.table.entriesCount && t.entriesCount <= r.table.entriesCount
  {
    Placing(ModifyAppended(t, text, il, fill.byte), insertIndex, t.modifyBufCount, il, db, da, order, fill.entry)
  }

  /**
   * What an edit does to the stores and which event kind it records: the ORIGIN store and
   * the old MODIFY text are kept, the inserted text follows them, and the kind follows
   * filebuf.c:234-273.
   */
  lemma EditEffects(t: PieceTable, text: seq<char>, insertIndex: u32, il: u32, db: u32, da: u32,
                    order: seq<Handle>, fill: Junk)
    requires CanEdit(t, text, insertIndex, il, db, da, order, fill)
    ensures var r := Edit(t, text, insertIndex, il, db, da, order, fill);
      && r.table.originBuf == t.originBuf && r.table.firstEntry == t.firstEntry
      && r.table.modifyBufCount == t.modifyBufCount + il
      && r.table.modifyBuf[..t.modifyBufCount] == t.modifyBuf[..t.modifyBufCount]
      && r.table.modifyBuf[t.modifyBufCount..r.table.modifyBufCount] == text[..il]
      && ((db > 0 || da > 0) && il > 0 <==> r.id == DeleteThenAdd)
      && ((db > 0 || da > 0) && il == 0 <==> r.id == Delete)
      && (r.setsData <==> r.id == Append || r.id == Add)
  {
  }
}
