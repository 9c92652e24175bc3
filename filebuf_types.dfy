/**
 * The declarations of filebuf.h: the 32-bit index type, the buffer ids, the event kinds and
 * the three records of a piece table (an entry, the table itself, an undo/redo event).
 *
 * Pointers into the entry arena become integer handles (indices into `entries`); the
 * arrays that the implementation reallocates become sequences whose length is the number
 * of slots allocated.
 */
module FileBufTypes {

  /** Every offset, length and counter is an `index_t`, that is a `uint32_t`. */
  const U32_LIMIT: int := 0x1_0000_0000
  type u32 = x: int | 0 <= x < U32_LIMIT

  /** `int8_t`, the type of `buf_id`. */
  type i8 = x: int | -128 <= x < 128

  /**
   * The value C's unsigned 32-bit arithmetic gives for `x`, the mathematical result of one
   * `+` or `-` on two `uint32_t` operands, which lies in [-2^32, 2^33).
   */
  function Wrap(x: int): (r: u32)
    requires -U32_LIMIT <= x < 2 * U32_LIMIT
  {
    if x < 0 then x + U32_LIMIT else if x < U32_LIMIT then x else x - U32_LIMIT
  }

  /** The conversion of a wider unsigned value to `uint32_t`, which keeps its low 32 bits. */
  function Truncate(x: nat): u32 {
    x % U32_LIMIT
  }

  /** Wrapping is reduction modulo 2^32, and leaves a value in range unchanged. */
  lemma WrapIsMod(x: int)
    requires -U32_LIMIT <= x < 2 * U32_LIMIT
    ensures Wrap(x) == x % U32_LIMIT
    ensures 0 <= x < U32_LIMIT ==> Wrap(x) == x
  {
  }

  /** Which backing store an entry's span lies in. */
  const BUF_ID_ORIGIN: i8 := 0
  const BUF_ID_MODIFY: i8 := 1

  /** `enum file_event_ids`. */
  datatype EventId = Delete | DeleteThenAdd | Add | Append

  /** A pointer to a `struct PieceTableEntry`: null, or a slot of the entry arena. */
  type Handle = nat
  datatype Link = Null | To(handle: Handle)

  datatype Option<T> = None | Some(value: T)

  /** `struct PieceTableEntry`, with the `saved_to_file` flag that filebuf.c writes. */
  datatype Entry = Entry(
    prev: Link,        // closer to the start of the file
    next: Link,        // closer to the end of the file
    start: u32,        // offset of the span in the store named by bufId
    length: u32,       // number of characters in the span
    bufId: i8,
    savedToFile: bool)

  /**
   * `struct FileEvent`. filebuf.c writes three counts that filebuf.h does not declare,
   * besides `data`; the record holds all of them.
   */
  datatype FileEvent = FileEvent(
    entry: Link,
    id: EventId,
    data: u32,
    insertLength: u32,
    deleteBeforeLength: u32,
    deleteAfterLength: u32)

  /** `struct PieceTable`: two stores, the entry arena with its free list, and the counters. */
  datatype PieceTable = PieceTable(
    originBuf: seq<char>,
    modifyBuf: seq<char>,
    firstEntry: Handle,
    entries: seq<Entry>,
    freeEntries: Link,
    entriesCount: u32,
    entriesSize: u32,
    modifyBufCount: u32,
    modifyBufSize: u32,
    originBufSize: u32)

  /** What freshly allocated, never written memory holds, one value per element type. */
  datatype Junk = Junk(entry: Entry, event: FileEvent, byte: char)

  /** `realloc` to `size` elements: the old elements are kept, the new ones hold `fill`. */
  function Grow<T>(s: seq<T>, size: nat, fill: T): (r: seq<T>)
    requires |s| <= size
    ensures |r| == size && r[..|s|] == s
    ensures forall k | |s| <= k < size :: r[k] == fill
    decreases size - |s|
  {
    if |s| == size then s else Grow(s + [fill], size, fill)
  }
}
