# Piece-table buffer and string builder, modelled in Dafny

This project models the text-storage engine of a small terminal text editor and proves properties of the model.

The buffer (`struct FileBuf`, in `src/filebuf.c` with the types of `src/filebuf.h`) holds a file as a piece table with these parts:
- an ORIGIN store, holding the characters read from disk;
- an append-only MODIFY store, holding every character ever inserted;
- an arena of entries. Each entry is a span of one store. The entries are linked into a doubly linked list from `first_entry`, and slots freed by history erasure go to a free list;
- a linear history of edit events with an undo/redo cursor.

The model also covers the bounded string builder of `src/string_builder.c`/`.h`.

Modules, one per part of the source:

| module | file | models |
|---|---|---|
| `FileBufTypes` | `filebuf_types.dfy` | the declarations of `filebuf.h`; `uint32_t` arithmetic (`Wrap`, `Truncate`); `realloc` growth (`Grow`) |
| `EditHistory` | `history.dfy` | the undo/redo cursor and the history array of `next_event`, `filebuf_undo`, `filebuf_redo`, `erase_redo_history` |
| `EntryList` | `entry_list.dfy` | the doubly linked list: the three splice primitives and the walk of `filebuf_entry_at` |
| `PieceTables` | `piece_table.dfy` | the entry pool (`next_entry`, `delete_entry`); the table invariant; `filebuf_get_buffer` and `filebuf_get_text`; the content of the buffer |
| `Edits` | `edits.dfy` | what `filebuf_insert` and `filebuf_undo` do to the table, as functions of the table before the call, with lemmas about the content each branch leaves |
| `Inserts` | `insert.dfy` | the whole table change of `filebuf_insert`, composed from the above |
| `FileBuffers` | `filebuf.dfy` | the class `FileBuf`. Its methods carry out the C code statement by statement on the fields, and each is proved to end in the state the functions above describe |
| `StringBuilders` | `string_builder.dfy` | `struct StringBuilder` as a class over a caller-provided `array<char>` |

Representation choices:
- Pointers into the entry arena are integer handles (`Link = Null | To(handle)`).
- Arrays the source reallocates (`history`, `entries`, `modify_buf`, `origin_buf`) are sequences whose length is the allocated size.
- Memory that is allocated but never written holds a value fixed per buffer (`FileBuf.junk`). Nothing is proved about what that value is.
- The list order is a ghost sequence of handles (`order`) tied to the links by `Chain`/`DoublyLinked`. `ChainUnique` shows the links determine it.
- The content of the buffer is `Content(t, order)`: the concatenation of the spans of the listed entries, in list order.
- Every offset, length and counter is `index_t`, that is `uint32_t`. Each `+` and `-` on them is wrapped modulo 2^32 with `Wrap`.
- Paths of the source that crash are excluded by `requires`, mostly through `CanEdit`, `CanPlace`, `CanUndo` and `CanAllocate`.

Behaviour of the source that the model reproduces as written:
- **Inserting at an entry's start.** When `filebuf_entry_at` lands on the start of an entry, `filebuf_insert` steps to `at->prev` (filebuf.c:215). The comment at line 214 says a null result is handled, but lines 244, 249, 258 and 272 dereference it. The model requires a predecessor (`CanPlace`). This rules out inserting at offset 0 and inserting into an empty buffer.
- **What `filebuf_entry_at` returns.** It stops at the first entry at whose start at least `file_index` characters lie. It reports `i - file_index` (filebuf.c:177), the distance from `file_index` forward to that entry's start, not an offset inside an entry (`EntryList.LocateFindsBoundary`). `filebuf_insert` compares that value with `at->start` (line 212).
- **The split.** The split always makes the right entry a MODIFY entry starting at `relative_index` (lines 219-221), whatever store `at` lies in. Its length is computed after its start has been set, so when `next_entry` hands back `at` itself the subtraction reads the new start (`Edits.SplitRightLength`). The lengths of the two halves add up (`Edits.SplitConservesLength`). The content is not claimed to be preserved, since the right half's span is not the tail of `at`'s span.
- **`delete_length`.** It is used at line 249 but never declared. It is taken to be `delete_before_length + delete_after_length`, in `uint32_t`.
- **Undeclared `path`.** The undeclared `path` at line 356 lies in `filebuf_write`, which is not part of this model.
- **Freeing a slot.** `delete_entry` with a non-empty free list attaches the entry after the head instead of pushing it (lines 104-106). Slots freed earlier, other than the head, drop off the free list (`PieceTables.FreedLinks`).
- **`filebuf_init`.** It reads `free_entries` before setting it (line 49 vs 57) and never sets `length`. The model starts with an empty free list and length 0.
- **Fields missing from the header.** `filebuf.c` uses fields `filebuf.h` does not declare. The records hold the union of what is used:
  - `length` for the header's `file_length`;
  - `saved_to_file`;
  - `insert_length`, `delete_before_length` and `delete_after_length` of an event.
- **`filebuf_undo`.** It never updates `length` (a TODO at line 303). `Undo` keeps it.
- **The delete branches.** They never set `event->data` (lines 236-248), and undo reads it. The model keeps whatever the slot held.
- **`filebuf_read`.** It sizes `origin_buf` as `st->st_size * 2` stored into a `uint32_t` (line 389), modelled with `Truncate`.

## Model

| member | source | states |
|---|---|---|
| FileBufTypes.Grow | src/filebuf.c:194-197 | reallocating to `size` keeps every old element in place and fills only the new slots |
| FileBufTypes.WrapIsMod | src/filebuf.h:15 | the `uint32_t` result of one `+`/`-` is the mathematical result modulo 2^32, and equals it when in range |
| EditHistory.Advanced | src/filebuf.c:63-75 | `next_event` moves the index up by exactly one; the count grows only when index == count; the size doubles only when count == size; `index <= count <= size` is kept |
| EditHistory.AdvancedEvents | src/filebuf.c:66-73 | the slot handed out is `history_index`, within the (possibly doubled) array; stored events are untouched; new slots hold what `realloc` left |
| EditHistory.Undone | src/filebuf.c:280-282 | undo is a no-op at index 0 and otherwise moves the index back by one, keeping the bounds |
| EditHistory.Redone | src/filebuf.c:308-310 | redo is a no-op when index >= count and otherwise moves the index forward by one, keeping the bounds |
| EditHistory.Truncated | src/filebuf.c:151-158 | erasing the redo tail sets count to index, and is a no-op when index >= count |
| EditHistory.RedoAfterUndo | src/filebuf.c:280-313 | redo after undo gives back the cursor |
| EditHistory.UndoAfterRedo | src/filebuf.c:280-313 | undo after redo gives back the cursor |
| EditHistory.EditLeavesNothingToRedo | src/filebuf.c:203-276 | after an edit index == count == old index + 1, redo is a no-op and one undo steps back over the edit |
| EntryList.ChainUnique | src/filebuf.h:38-39 | the `next` links from `first_entry` determine the list order: two orders that both follow them are equal |
| EntryList.LinkedAfter | src/filebuf.c:125-132 | `link_entry_after` keeps every span; `e` points back to `ref` and on to `ref`'s old next; `ref` and its old next point to `e`; no other entry changes |
| EntryList.LinkedBefore | src/filebuf.c:113-120 | `link_entry_before` keeps every span; `e` points on to `ref` and back to `ref`'s old prev; both point to `e`; no other entry changes |
| EntryList.Unlinked | src/filebuf.c:135-140 | `unlink_entry` (prev required non-null) keeps every span and joins `e`'s neighbours to each other; no other entry changes |
| EntryList.LinkAfterKeepsList | src/filebuf.c:125-132 | linking an unlisted entry after the i-th entry of a doubly linked list gives a doubly linked list with it in place i+1 |
| EntryList.LinkBeforeKeepsList | src/filebuf.c:113-120 | linking an unlisted entry before the i-th (i > 0) entry gives a doubly linked list with it in place i |
| EntryList.UnlinkKeepsList | src/filebuf.c:135-140 | unlinking the i-th (i > 0) entry of a doubly linked list removes exactly it from the order |
| EntryList.LocateFrom | src/filebuf.c:169-177 | the walk of `filebuf_entry_at` continued from the j-th entry always stops at an entry of the list at or after the j-th (what it returns is `LocateFindsBoundary`) |
| EntryList.Locate | src/filebuf.c:168-179 | the walk from the first entry stops at an entry of the list |
| EntryList.LocateFindsBoundary | src/filebuf.c:168-179 | `filebuf_entry_at` stops at the first entry whose start lies at or after `file_index` and reports the distance to that start; past the end it stops at the last entry with the wrapped difference |
| PieceTables.Allocate | src/filebuf.c:80-95 | `next_entry` pops the free head when there is one; otherwise it hands out slot `entries_count` and increments it, doubling the arena first when full; `entries_count <= entries_size` is kept, and on a valid table the slot is in range and all other slots stay valid |
| PieceTables.FreshSlotUnlisted | src/filebuf.c:90-94 | a slot handed out from the end of the arena is not on the list |
| PieceTables.Restarted | src/filebuf.c:45-57 | the table `filebuf_init`/`filebuf_read` leave is valid, its one ORIGIN entry is the whole doubly linked list, and the content is the characters read |
| PieceTables.Freed | src/filebuf.c:100-108 | `delete_entry` changes no field of the table but the entry arena and the free-list head, keeps the arena's size, and keeps the free list inside the arena (which links change is `FreedLinks`) |
| PieceTables.FreedValid | src/filebuf.c:100-108 | freeing a slot in use keeps the table invariant |
| PieceTables.FreedLinks | src/filebuf.c:100-108 | with an empty free list the entry becomes its head; otherwise the head keeps its place, points on to the entry and the entry back to it; no span and no other entry changes |
| PieceTables.FreeingListedEntryCutsList | src/filebuf.c:100-108 | freeing an entry that is listed and not last cuts the list right after it: the links from the first entry now end at that entry |
| PieceTables.LinkAfterRestoresValid | src/filebuf.c:125-132 | linking a freshly filled slot after a slot in use leaves a valid table |
| PieceTables.UnlinkKeepsValid | src/filebuf.c:135-140 | unlinking a slot in use keeps the table invariant |
| PieceTables.GetBuffer | src/filebuf.c:316-324 | a store is found exactly when `buf_id` is ORIGIN or MODIFY (the right one for each); any other id ends the program with that id |
| PieceTables.InUseSlotsHaveBuffer | src/filebuf.h:17-18 | in a valid table no slot in use makes `filebuf_get_buffer` exit |
| PieceTables.GetText | src/filebuf.c:329-332 | the text is found exactly when the buffer is, and is the store's characters from the entry's start on |
| PieceTables.Span | src/filebuf.c:329-332 | the text an entry stands for has exactly `length` characters |
| PieceTables.SpanIsSlice | src/filebuf.c:329-332 | an entry's text is the slice `[start, start + length)` of the store its `buf_id` names |
| PieceTables.TextAppend | src/filebuf.h:38-39 | the text of two lists one after the other is the concatenation of their texts |
| PieceTables.Content | src/filebuf.h:38-39 | the content of the buffer, the texts of the listed entries in list order, has as many characters as the listed lengths add up to |
| PieceTables.TextLength | src/filebuf.h:38-39 | the content of a list is as long as the sum of its entries' lengths |
| PieceTables.LinkAfterSplicesText | src/filebuf.c:125-132 | linking an unlisted entry after the i-th entry splices its span into the content after the first i+1 spans |
| Edits.ModifyAppended | src/filebuf.c:192-200 | the MODIFY count grows by `insert_length`; the store doubles to twice the new count exactly when the count reaches the size; `count < size` and the table invariant are kept |
| Edits.AppendedStore | src/filebuf.c:192-200 | the MODIFY characters before the old count are unchanged and `inserted_text[0..insert_length)` follows them |
| Edits.Attached | src/filebuf.c:238-244 | the fresh entry takes the given MODIFY span and is linked after `at`, and the table stays valid |
| Edits.AttachedLinks | src/filebuf.c:238-244 | unless the slot handed out aliases `at` or its neighbour, the new entry sits between `at` and `at`'s old next with the given span |
| Edits.Split | src/filebuf.c:218-226 | the split allocates the right entry, links it after `at`, cuts `at` to `relative_index - at->start`, and keeps the table valid |
| Edits.SplitLinks | src/filebuf.c:218-226 | the right entry is a MODIFY entry from `relative_index` with the rest of `at`'s length, linked directly after `at`; `at` keeps its start |
| Edits.SplitRightLength | src/filebuf.c:219-220 | the right length is `at->length - (relative_index - at->start)`, or `at->length` when the slot handed out is `at` itself |
| Edits.SplitConservesLength | src/filebuf.c:218-226 | the two halves add up to the old length modulo 2^32, and exactly when `relative_index` lies within `at`'s span |
| Edits.SplitKeepsList | src/filebuf.c:218-226 | the right entry is placed directly after `at` in the list order |
| Edits.Kind | src/filebuf.c:235-273 | DELETE_THEN_ADD iff something is deleted and inserted; DELETE iff deleted only; APPEND iff nothing deleted and `at` is MODIFY; ADD otherwise |
| Edits.Branch | src/filebuf.c:235-273 | the branch records the event kind of `Kind`; `at` for DELETE/APPEND and a fresh entry for the others; `data` set exactly for APPEND/ADD; the table stays valid and only the arena changes |
| Edits.BranchAdd | src/filebuf.c:263-273 | ADD attaches a new entry for the inserted text after `at` |
| Edits.BranchAppend | src/filebuf.c:258-262 | APPEND lengthens `at` by `insert_length`, without overflow when the text follows `at`'s span |
| Edits.BranchDelete | src/filebuf.c:245-249 | DELETE records `at` and shortens it by `delete_before_length + delete_after_length` |
| Edits.BranchDeleteThenAdd | src/filebuf.c:236-249 | DELETE_THEN_ADD attaches the new entry and then shortens `at` by the deleted count |
| Edits.AttachedText | src/filebuf.c:238-244 | attaching puts exactly the stored MODIFY characters into the content, right after the i-th entry's text |
| Edits.AppendText | src/filebuf.c:258-262 | APPEND on an entry ending where the text was stored puts the inserted characters right after its text in the content |
| Edits.TrimmedText | src/filebuf.c:245-249 | DELETE drops the end of `at`'s text from the content and keeps everything else |
| Edits.AttachedTrimmedText | src/filebuf.c:236-249 | DELETE_THEN_ADD leaves the start of `at`'s text followed by the inserted characters in the content |
| Edits.UndoneTable | src/filebuf.c:284-301 | undo unlinks a DELETE_THEN_ADD entry and lengthens its predecessor by `data`, lengthens a DELETE entry's predecessor by `data`, does nothing for ADD and shortens an APPEND entry by `data`; the table stays valid |
| Edits.UndoAppendRestores | src/filebuf.c:298-299 | undoing an APPEND gives back the exact table it was applied to |
| Inserts.EntryAt | src/filebuf.c:168-179 | the entry found is on the list, and is the one `LocateFindsBoundary` describes |
| Inserts.Placed | src/filebuf.c:212-232 | when `relative_index == at->start` the text goes after `at->prev` and the table is unchanged; otherwise after the left half of a split; the table stays valid |
| Inserts.Placing | src/filebuf.c:210-273 | placing and branching keep the table valid and never shrink `entries_count` |
| Inserts.EditEffects | src/filebuf.c:192-273 | an insert keeps the ORIGIN store and the first entry, keeps the old MODIFY text and appends the inserted text, and records the event kind the counts call for |
| FileBuffers.Erased | src/filebuf.c:151-158 | freeing the entries of the erased events changes no field of the table but the entry arena and the free-list head, keeps the arena's size and the free list inside it (that no span changes is `ErasedKeepsSpans`) |
| FileBuffers.ErasedValid | src/filebuf.c:151-158 | erasing events whose entries are in use keeps the table invariant |
| FileBuffers.ErasingUndoneAddCutsList | src/filebuf.c:151-158 | undoing an ADD leaves the table unchanged, so its entry stays listed; erasing that event frees the listed entry, after which the old list order is no longer a chain |
| FileBuffers.ErasedKeepsSpans | src/filebuf.c:151-158 | erasing changes no entry's span |
| FileBuffers.Recording | src/filebuf.c:203-207 | the new event holds the three counts, the branch's kind and entry, and `data` exactly when the branch sets it |
| FileBuffers.RecordedAfterEdit | src/filebuf.c:63-75 | after `next_event` every other event that can be undone or redone still records an entry of the pool |
| FileBuffers.EditedLengthIsModular | src/filebuf.c:275 | the new length is `length - (delete_before + delete_after) + insert_length` modulo 2^32, and exactly that when it is in range |
| FileBuffers.FileBuf.Init | src/filebuf.c:32-60 | a new buffer has empty history, empty MODIFY store, and a single zero-length ORIGIN entry with null links as the whole list, whose content is empty |
| FileBuffers.FileBuf.Initialize | src/filebuf.c:32-60 | as `Init`, on an existing object |
| FileBuffers.FileBuf.Load | src/filebuf.c:398-408 | after init and a successful read the only entry spans the characters read, the content equals them and the length is their number |
| FileBuffers.FileBuf.Read | src/filebuf.c:389-408 | the ORIGIN store is reallocated to `st_size * 2` in `uint32_t`, filled with the input, and one ORIGIN entry spanning it becomes the whole list |
| FileBuffers.FileBuf.NextEvent | src/filebuf.c:63-75 | the cursor and history array change as `Advanced`/`AdvancedEvents` say, and the slot returned is the old index |
| FileBuffers.FileBuf.NextEntry | src/filebuf.c:80-95 | the table and the slot are those of `Allocate` |
| FileBuffers.FileBuf.DeleteEntry | src/filebuf.c:100-108 | the table becomes `Freed` |
| FileBuffers.FileBuf.LinkBefore | src/filebuf.c:113-120 | the arena becomes `LinkedBefore` |
| FileBuffers.FileBuf.LinkAfter | src/filebuf.c:125-132 | the arena becomes `LinkedAfter` |
| FileBuffers.FileBuf.Unlink | src/filebuf.c:135-140 | the arena becomes `Unlinked` |
| FileBuffers.FileBuf.EraseRedoHistory | src/filebuf.c:151-162 | a no-op when index >= count; otherwise the erased events' entries are freed in order and count drops to index; the buffer stays valid |
| FileBuffers.FileBuf.EntryAt | src/filebuf.c:168-179 | the loop returns what `Inserts.EntryAt` describes |
| FileBuffers.FileBuf.AppendModify | src/filebuf.c:192-200 | the copy loop leaves the table of `ModifyAppended` and returns the old count as the text's offset |
| FileBuffers.FileBuf.SplitEntry | src/filebuf.c:218-226 | the table becomes that of `Split` |
| FileBuffers.FileBuf.AttachEntry | src/filebuf.c:238-244 | the table and new entry are those of `Attached` |
| FileBuffers.FileBuf.InsertBranch | src/filebuf.c:235-273 | the table is that of `Branch`, and the event gets its kind, entry and `data` |
| FileBuffers.FileBuf.Place | src/filebuf.c:210-273 | the table and event are those of `Placing` |
| FileBuffers.FileBuf.Commit | src/filebuf.c:275-276 | the event is stored in its slot, the length updated, the redo tail erased, and the buffer is valid |
| FileBuffers.FileBuf.Finish | src/filebuf.c:202-277 | once the text is stored and the event slot handed out, the table, history, cursor and length end exactly as `Insert` states, and the buffer is valid |
| FileBuffers.FileBuf.Insert | src/filebuf.c:189-277 | the buffer stays valid; the new event is `history[index - 1]` and is the `Recording` of `Edit`; index == count; the table is `Edit`'s with the redo tail erased; the length is `EditedLength` |
| FileBuffers.FileBuf.Undo | src/filebuf.c:280-305 | a no-op at index 0; otherwise the index moves back by one and the table becomes `Edits.UndoneTable` of the event passed; history and length are unchanged; the buffer stays valid |
| FileBuffers.FileBuf.Redo | src/filebuf.c:308-313 | a no-op when index >= count; otherwise only the index moves forward by one; the buffer stays valid |
| StringBuilders.CopyLength | src/string_builder.c:26-30 | the copy stops at the first NUL or after `remaining - 1` characters, whichever comes first, and copies no NUL |
| StringBuilders.CString | src/string_builder.h:21 | the characters a NUL-terminated string spells: a prefix without NUL, followed by NUL |
| StringBuilders.CopiesCString | src/string_builder.c:26-30 | what is copied is the C string cut to the limit |
| StringBuilders.Terminated | src/string_builder.c:28-31 | the copied characters land at the cursor followed by a NUL, and nothing before the cursor or after the NUL changes |
| StringBuilders.Decimal | src/string_builder.c:42 | the `%u` spelling is a non-empty digit string without leading zero |
| StringBuilders.DecimalValue | src/string_builder.c:42 | reading the spelling back gives the number |
| StringBuilders.ValueDecimal | src/string_builder.c:42 | every digit string without leading zero is the spelling of its value |
| StringBuilders.Uint32Fits | src/string_builder.c:40-41 | a `uint32_t` spells in at most 10 digits, so the 11-character buffer never truncates |
| StringBuilders.StringBuilder.constructor | src/string_builder.h:13-18 | the caller sets `buf` and `size`; the cursor fields start with whatever the caller's memory held |
| StringBuilders.StringBuilder.Reset | src/string_builder.c:10-13 | `ptr = buf`, `remaining = size`, and the builder is valid: `(ptr - buf) + remaining == size <= buf.Length` |
| StringBuilders.StringBuilder.AppendString | src/string_builder.c:23-34 | nothing changes when `remaining == 0`; otherwise the C string, cut to `remaining - 1` characters, is written at the cursor followed by NUL, the cursor advances and `remaining` shrinks by the count copied, `remaining >= 1`, and the validity invariant is kept |
| StringBuilders.StringBuilder.AppendUint32 | src/string_builder.c:37-44 | nothing changes when `remaining == 0`; otherwise the decimal spelling, cut to `remaining - 1` characters, is appended as by `AppendString` |

## Left out

- `filebuf_write` and `fseeku` (src/filebuf.c:337-376): file output. It includes the double advance of the file position for unsaved entries (`fputc`, then `fseeku` over the same length).
- `filebuf_read`'s `fopen`/`fstat` and its `getchar` loop (src/filebuf.c:382-396): file and standard input. `Read` and the `Load` constructor take the file size and the characters read as parameters, and the failure paths (`fopen` failing) are not modelled.
- `FileBuffers.FileBuf.Read` requires at most `2 * st_size` characters (truncated to `uint32_t`). The source writes past `origin_buf` when standard input gives more. The source also stores `getchar`'s result in a `char` and compares it with `EOF`, so where `char` is signed reading stops at a 0xFF byte, and where it is unsigned it never stops. Neither case is modelled: `input` is the characters read up to the end.
- `filebuf_defragment` (src/filebuf.c:145-148): its body is empty, so erasing the redo history does nothing more.
- Undo round-trips for ADD, DELETE and DELETE_THEN_ADD are not proved. Undo of ADD is a TODO, and the delete branches never set the `data` that undo reads. Only APPEND's round trip holds (`Edits.UndoAppendRestores`).
- `FileBuffers.FileBuf.Redo` moves the cursor only, as the source does; the content of a redone edit is not restored.
- `filebuf_index_of`, `filebuf_last_index_of` and `filebuf_char_at` are called by the editor loop but defined in no source file; they are not part of this model.
- `PieceTables.Allocate` keeps every handle meaningful when the entry arena is doubled. The source's `realloc` (src/filebuf.c:89) may move the array, and then every stored pointer into it dangles: the `prev`/`next` links, `first_entry`, `free_entries`, each `history[].entry`, and `filebuf_insert`'s local `at` across the `next_entry` calls at src/filebuf.c:218, 238 and 266. The model therefore describes the program as if the arena never moved. It does not capture the use of dangling pointers after a growth.
- `malloc`/`realloc` failure: every allocation succeeds. The counters that double (`entries_size`, `history_size`, `modify_buf_size`) and `modify_buf_count` are required to stay below 2^32 (`CanAllocate`, `CanAdvance`, `CanAppendModify`).
- `snprintf`'s `%u` conversion is the pure function `Decimal`.
- The editor loop (`src/main.c`), drawing, the terminal and window layout: user interface, not part of this model.
- `file_index` and the declared `file_length` of `struct FileBuf` are not used by the modelled code. The length kept is the `length` field `filebuf.c` writes.
- `FileBuffers.FileBuf.Insert` requires a list order `order` that the `next` links follow from `first_entry` to a null `next` (`Chain`, inside `CanEdit`/`CanPlace`). The buffer invariant `Valid` does not keep such a list, and no contract gives one back after an edit, because the source itself breaks the list. Undo of ADD does nothing (src/filebuf.c:295-296), so the ADD's entry stays listed, and the entries of APPEND and DELETE events are listed as well. `erase_redo_history` (src/filebuf.c:154-157) then frees such an entry: `delete_entry` sets its `next` to null, which cuts the list (`FileBuffers.ErasingUndoneAddCutsList`, `PieceTables.FreeingListedEntryCutsList`). `next_entry` later hands the same slot out again, and `link_entry_after` can then make a `next` chain cyclic. `filebuf_entry_at` (src/filebuf.c:168-179) walks such a list; when a zero-length entry lies on a cycle, the walk never ends. The model cannot run an insert on a cut or cyclic list and says nothing about what the source does there.
- `FileBuffers.FileBuf.Valid` does not include "the listed lengths add up to `length`". `filebuf_undo` and `filebuf_redo` never update `length` (src/filebuf.c:303, 311), so the source does not keep that relation.
- `FileBuffers.FileBuf.Insert` requires a predecessor whenever the insertion index falls on an entry's start, where the source dereferences a null pointer. It does not model that crash, nor any content claim for an insert in the middle of an entry, since the split does not keep `at`'s text.
- `FileBuffers.FileBuf.Undo` does not model the null dereference of undoing a DELETE or DELETE_THEN_ADD event whose entry has no predecessor; `CanUndo` requires one.
- `EntryList.LocateFindsBoundary` assumes the list holds fewer than 2^32 characters; past that, the uint32 sum of lengths wraps and only `LocateFrom` describes the result.
- `Edits.SplitConservesLength` holds only when the slot `next_entry` hands out is neither `at` nor its neighbour (`NoAlias`): a reused slot can alias the entry being split.
- Wrap-around of the `uint32_t` arithmetic is modelled for one operation at a time (`Wrap` takes the result of one `+` or `-` on two `uint32_t` operands).
