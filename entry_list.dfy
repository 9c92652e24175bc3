/**
 * The doubly linked list of piece-table entries (filebuf.c:113-140, 164-179).
 *
 * The arena `es` holds every entry slot; the list is whatever `next` links reach from
 * `first_entry`. Because the arena is "not guaranteed to be in any order", list order is
 * given by a witness sequence of handles, `order`, which `Chain` ties to the links and
 * `ChainUnique` shows to be determined by them.
 */
module EntryList {
  import opened FileBufTypes

  /** The handle a link points to is a slot of the arena (or the link is null). */
  predicate InArena(es: seq<Entry>, l: Link) {
    l.Null? || l.handle < |es|
  }

  /** Two entries describe the same span of the same store. */
  predicate SameSpan(a: Entry, b: Entry) {
    a.start == b.start && a.length == b.length && a.bufId == b.bufId && a.savedToFile == b.savedToFile
  }

  /**
   * `order` lists, from `first` onwards, the distinct arena slots that the `next` links
   * visit, ending at an entry whose `next` is null: the list is finite and acyclic.
   */
  ghost predicate Chain(es: seq<Entry>, first: Handle, order: seq<Handle>) {
    && |order| > 0
    && order[0] == first
    && (forall k | 0 <= k < |order| :: order[k] < |es|)
    && (forall k, l | 0 <= k < l < |order| :: order[k] != order[l])
    && (forall k | 0 <= k < |order| - 1 :: es[order[k]].next == To(order[k + 1]))
    && es[order[|order| - 1]].next == Null
  }

  /** A chain whose `prev` links mirror its `next` links, with a null `prev` at the head. */
  ghost predicate DoublyLinked(es: seq<Entry>, first: Handle, order: seq<Handle>) {
    && Chain(es, first, order)
    && es[first].prev == Null
    && (forall k | 0 < k < |order| :: es[order[k]].prev == To(order[k - 1]))
  }

  /** The list order is determined by the links: two witnesses of one chain are equal. */
  lemma {:induction false} ChainUnique(es: seq<Entry>, first: Handle, o1: seq<Handle>, o2: seq<Handle>)
    requires Chain(es, first, o1) && Chain(es, first, o2)
    ensures o1 == o2
  {
    var n := if |o1| < |o2| then |o1| else |o2|;
    var k := 0;
    while k < n
      invariant k <= n
      invariant forall m | 0 <= m < k :: o1[m] == o2[m]
      invariant k < n ==> o1[k] == o2[k]
    {
      if k + 1 < n {
        assert es[o1[k]].next == To(o1[k + 1]) && es[o2[k]].next == To(o2[k + 1]);
      }
      k := k + 1;
    }
    ChainStep(es, first, o1, n - 1);
    ChainStep(es, first, o2, n - 1);
  }

  /** Where the `next` link of the `k`-th listed entry leads. */
  lemma ChainStep(es: seq<Entry>, first: Handle, order: seq<Handle>, k: nat)
    requires Chain(es, first, order) && k < |order|
    ensures es[order[k]].next == if k + 1 < |order| then To(order[k + 1]) else Null
  {
  }

  /** A sequence is what comes before position `i`, the element there, and what follows. */
  lemma SplitAt<T>(s: seq<T>, i: nat)
    requires i < |s|
    ensures s[..i] + [s[i]] + s[i + 1..] == s
  {
    assert s[..i] + [s[i]] == s[..i + 1];
  }

  /** A listed entry occurs neither before nor after its own position. */
  lemma ChainAround(es: seq<Entry>, first: Handle, order: seq<Handle>, i: nat)
    requires Chain(es, first, order) && i < |order|
    ensures order[i] !in order[..i] && order[i] !in order[i + 1..]
  {
  }

  /**
   * `link_entry_after(ref, e)` (filebuf.c:125-132): the four pointer writes, in the
   * source's order, each reading the arena as the previous one left it.
   */
  function LinkedAfter(es: seq<Entry>, ref: Handle, e: Handle): (r: seq<Entry>)
    requires ref < |es| && e < |es| && InArena(es, es[ref].next)
    ensures |r| == |es|
    ensures forall k | 0 <= k < |es| :: SameSpan(r[k], es[k])
    ensures r[e].prev == To(ref) && (ref != e ==> r[e].next == es[ref].next)
    ensures forall k | 0 <= k < |es| && k != e ::
      (r[k].next == es[k].next || r[k].next == To(e)) && (r[k].prev == es[k].prev || r[k].prev == To(e))
    ensures forall k | 0 <= k < |es| && k != ref && k != e && es[ref].next != To(k) :: r[k] == es[k]
    ensures e != ref && es[ref].next != To(e) && es[ref].next != To(ref) ==>
      && r[ref] == es[ref].(next := To(e))
      && r[e] == es[e].(prev := To(ref), next := es[ref].next)
      && (es[ref].next.To? ==> r[es[ref].next.handle] == es[es[ref].next.handle].(prev := To(e)))
  {
    var n := es[ref].next;
    var es1 := if n.To? then es[n.handle := es[n.handle].(prev := To(e))] else es;
    var es2 := es1[e := es1[e].(next := es1[ref].next)];
    var es3 := es2[ref := es2[ref].(next := To(e))];
    es3[e := es3[e].(prev := To(ref))]
  }

  /** `link_entry_before(ref, e)` (filebuf.c:113-120), written out the same way. */
  function LinkedBefore(es: seq<Entry>, ref: Handle, e: Handle): (r: seq<Entry>)
    requires ref < |es| && e < |es| && InArena(es, es[ref].prev)
    ensures |r| == |es|
    ensures forall k | 0 <= k < |es| :: SameSpan(r[k], es[k])
    ensures r[e].next == To(ref) && (ref != e ==> r[e].prev == es[ref].prev)
    ensures forall k | 0 <= k < |es| && k != e ::
      (r[k].next == es[k].next || r[k].next == To(e)) && (r[k].prev == es[k].prev || r[k].prev == To(e))
    ensures forall k | 0 <= k < |es| && k != ref && k != e && es[ref].prev != To(k) :: r[k] == es[k]
    ensures e != ref && es[ref].prev != To(e) && es[ref].prev != To(ref) ==>
      && r[ref] == es[ref].(prev := To(e))
      && r[e] == es[e].(prev := es[ref].prev, next := To(ref))
      && (es[ref].prev.To? ==> r[es[ref].prev.handle] == es[es[ref].prev.handle].(next := To(e)))
  {
    var p := es[ref].prev;
    var es1 := if p.To? then es[p.handle := es[p.handle].(next := To(e))] else es;
    var es2 := es1[e := es1[e].(prev := es1[ref].prev)];
    var es3 := es2[ref := es2[ref].(prev := To(e))];
    es3[e := es3[e].(next := To(ref))]
  }

  /**
   * `unlink_entry(e)` (filebuf.c:135-140). The source dereferences `e->prev` without a
   * check, so a non-null `prev` is required; `e`'s own links are left as they were.
   */
  function Unlinked(es: seq<Entry>, e: Handle): (r: seq<Entry>)
    requires e < |es| && es[e].prev.To? && InArena(es, es[e].prev) && InArena(es, es[e].next)
    ensures |r| == |es|
    ensures forall k | 0 <= k < |es| :: SameSpan(r[k], es[k])
    ensures r[e].prev == es[e].prev
    ensures forall k | 0 <= k < |es| ::
      (r[k].next == es[k].next || r[k].next == es[e].next) && (r[k].prev == es[k].prev || r[k].prev == es[e].prev)
    ensures forall k | 0 <= k < |es| && To(k) != es[e].prev && To(k) != es[e].next :: r[k] == es[k]
    ensures es[e].prev != To(e) && es[e].next != To(e) && es[e].prev != es[e].next ==>
      && r[es[e].prev.handle] == es[es[e].prev.handle].(next := es[e].next)
      && (es[e].next.To? ==> r[es[e].next.handle] == es[es[e].next.handle].(prev := es[e].prev))
  {
    var n := es[e].next;
    var es1 := if n.To? then es[n.handle := es[n.handle].(prev := es[e].prev)] else es;
    var p := es1[e].prev.handle;
    es1[p := es1[p].(next := es1[e].next)]
  }

  /**
   * A chain with `e` spliced in after its `i`-th entry, from the links alone: the `i`-th
   * entry now leads to `e`, `e` leads where the `i`-th entry led, every other listed entry
   * keeps its `next`.
   */
  lemma InsertedChain(es: seq<Entry>, r: seq<Entry>, first: Handle, order: seq<Handle>, i: nat, e: Handle)
    requires Chain(es, first, order) && |es| <= |r|
    requires i < |order| && e < |r| && e !in order
    requires forall k | 0 <= k < |order| && k != i :: r[order[k]].next == es[order[k]].next
    requires r[order[i]].next == To(e) && r[e].next == es[order[i]].next
    ensures Chain(r, first, order[..i + 1] + [e] + order[i + 1..])
  {
    var o := order[..i + 1] + [e] + order[i + 1..];
    assert |o| == |order| + 1;
    assert forall k | 0 <= k <= i :: o[k] == order[k];
    assert o[i + 1] == e;
    assert forall k | i + 1 < k < |o| :: o[k] == order[k - 1];
    ChainStep(es, first, order, i);
    forall k | 0 <= k < |o| - 1
      ensures r[o[k]].next == To(o[k + 1])
    {
      if k > i + 1 {
        assert r[order[k - 1]].next == es[order[k - 1]].next;
      }
    }
    ChainStep(es, first, order, |order| - 1);
  }

  /** The `prev` links of the same splice: `e` points back to the `i`-th entry, its successor to `e`. */
  lemma InsertedPrevs(es: seq<Entry>, r: seq<Entry>, first: Handle, order: seq<Handle>, i: nat, e: Handle)
    requires DoublyLinked(es, first, order) && |es| <= |r|
    requires i < |order| && e < |r|
    requires forall k | 0 <= k < |order| && k != i + 1 :: r[order[k]].prev == es[order[k]].prev
    requires r[e].prev == To(order[i]) && (i + 1 < |order| ==> r[order[i + 1]].prev == To(e))
    ensures r[first].prev == Null
    ensures var o := order[..i + 1] + [e] + order[i + 1..];
      forall k | 0 < k < |o| :: r[o[k]].prev == To(o[k - 1])
  {
    var o := order[..i + 1] + [e] + order[i + 1..];
    assert |o| == |order| + 1;
    assert forall k | 0 <= k <= i :: o[k] == order[k];
    assert o[i + 1] == e;
    assert forall k | i + 1 < k < |o| :: o[k] == order[k - 1];
    assert r[order[0]].prev == es[order[0]].prev;
    forall k | 0 < k < |o|
      ensures r[o[k]].prev == To(o[k - 1])
    {
      if k > i + 2 {
        assert r[order[k - 1]].prev == es[order[k - 1]].prev;
      }
    }
  }

  /** A doubly linked list with `e` spliced in after its `i`-th entry, from the links alone. */
  lemma InsertedList(es: seq<Entry>, r: seq<Entry>, first: Handle, order: seq<Handle>, i: nat, e: Handle)
    requires DoublyLinked(es, first, order) && |es| <= |r|
    requires i < |order| && e < |r| && e !in order
    requires forall k | 0 <= k < |order| && k != i :: r[order[k]].next == es[order[k]].next
    requires forall k | 0 <= k < |order| && k != i + 1 :: r[order[k]].prev == es[order[k]].prev
    requires r[order[i]].next == To(e) && r[e].next == es[order[i]].next
    requires r[e].prev == To(order[i]) && (i + 1 < |order| ==> r[order[i + 1]].prev == To(e))
    ensures DoublyLinked(r, first, order[..i + 1] + [e] + order[i + 1..])
  {
    InsertedChain(es, r, first, order, i, e);
    InsertedPrevs(es, r, first, order, i, e);
  }

  /** Linking an entry that is not in the list after its `i`-th entry puts it `i+1`-th. */
  lemma LinkAfterKeepsList(es: seq<Entry>, first: Handle, order: seq<Handle>, i: nat, e: Handle)
    requires DoublyLinked(es, first, order)
    requires i < |order| && e < |es| && e !in order
    ensures InArena(es, es[order[i]].next)
    ensures DoublyLinked(LinkedAfter(es, order[i], e), first, order[..i + 1] + [e] + order[i + 1..])
  {
    ChainStep(es, first, order, i);
    var ref := order[i];
    var r := LinkedAfter(es, ref, e);
    var last := i + 1 == |order|;
    assert r[ref] == es[ref].(next := To(e));
    assert r[e] == es[e].(prev := To(ref), next := es[ref].next);
    assert !last ==> r[order[i + 1]] == es[order[i + 1]].(prev := To(e));
    forall k | 0 <= k < |order| && k != i && k != i + 1
      ensures r[order[k]] == es[order[k]]
    {
      assert order[k] != ref && order[k] != e;
      assert last || order[k] != order[i + 1];
    }
    InsertedList(es, r, first, order, i, e);
  }

  /** Linking an entry that is not in the list before its `i`-th entry (`i > 0`) puts it `i`-th. */
  lemma LinkBeforeKeepsList(es: seq<Entry>, first: Handle, order: seq<Handle>, i: nat, e: Handle)
    requires DoublyLinked(es, first, order)
    requires 0 < i < |order| && e < |es| && e !in order
    ensures InArena(es, es[order[i]].prev)
    ensures DoublyLinked(LinkedBefore(es, order[i], e), first, order[..i] + [e] + order[i..])
  {
    var ref, p := order[i], order[i - 1];
    assert es[ref].prev == To(p);
    ChainStep(es, first, order, i - 1);
    var r := LinkedBefore(es, ref, e);
    // the three slots the splice rewrites; every other listed slot is untouched
    assert r[p] == es[p].(next := To(e));
    assert r[ref] == es[ref].(prev := To(e));
    assert r[e] == es[e].(prev := To(p), next := To(ref));
    forall k | 0 <= k < |order| && k != i && k != i - 1
      ensures r[order[k]] == es[order[k]]
    {
      assert order[k] != ref && order[k] != e && order[k] != p;
    }
    InsertedList(es, r, first, order, i - 1, e);
    assert order[..i - 1 + 1] + [e] + order[i - 1 + 1..] == order[..i] + [e] + order[i..];
  }

  /**
   * A chain with its `i`-th entry (`i > 0`) cut out, from the links alone: the entry
   * before it leads where it led, every other listed entry keeps its links.
   */
  lemma RemovedList(es: seq<Entry>, r: seq<Entry>, first: Handle, order: seq<Handle>, i: nat)
    requires DoublyLinked(es, first, order) && |es| <= |r|
    requires 0 < i < |order|
    requires forall k | 0 <= k < |order| && k != i - 1 :: r[order[k]].next == es[order[k]].next
    requires forall k | 0 <= k < |order| && k != i + 1 :: r[order[k]].prev == es[order[k]].prev
    requires r[order[i - 1]].next == es[order[i]].next
    requires i + 1 < |order| ==> r[order[i + 1]].prev == To(order[i - 1])
    ensures DoublyLinked(r, first, order[..i] + order[i + 1..])
  {
    var o := order[..i] + order[i + 1..];
    assert |o| == |order| - 1;
    assert forall k | 0 <= k < i :: o[k] == order[k];
    assert forall k | i <= k < |o| :: o[k] == order[k + 1];
    ChainStep(es, first, order, i);
    forall k | 0 <= k < |o| - 1
      ensures r[o[k]].next == To(o[k + 1])
    {
      if k >= i {
        assert r[order[k + 1]].next == es[order[k + 1]].next;
      }
    }
    forall k | 0 < k < |o|
      ensures r[o[k]].prev == To(o[k - 1])
    {
      if k > i {
        assert r[order[k + 1]].prev == es[order[k + 1]].prev;
      }
    }
    assert r[order[0]].prev == es[order[0]].prev;
    ChainStep(es, first, order, |order| - 1);
    if i + 1 < |order| {
      assert r[order[|order| - 1]].next == es[order[|order| - 1]].next;
    }
  }

  /** Unlinking the `i`-th entry (`i > 0`) of a list removes exactly it from the order. */
  lemma UnlinkKeepsList(es: seq<Entry>, first: Handle, order: seq<Handle>, i: nat)
    requires DoublyLinked(es, first, order)
    requires 0 < i < |order|
    ensures es[order[i]].prev.To? && InArena(es, es[order[i]].prev) && InArena(es, es[order[i]].next)
    ensures DoublyLinked(Unlinked(es, order[i]), first, order[..i] + order[i + 1..])
  {
    var e, p := order[i], order[i - 1];
    assert es[e].prev == To(p);
    ChainStep(es, first, order, i);
    var last := i + 1 == |order|;
    var r := Unlinked(es, e);
    // the two slots the unlink rewrites; every other listed slot is untouched
    assert r[p] == es[p].(next := es[e].next);
    assert !last ==> r[order[i + 1]] == es[order[i + 1]].(prev := To(p));
    forall k | 0 <= k < |order| && k != i - 1 && k != i + 1
      ensures r[order[k]].next == es[order[k]].next && r[order[k]].prev == es[order[k]].prev
    {
      if k != i {
        assert order[k] != p;
        assert last || order[k] != order[i + 1];
      }
    }
    RemovedList(es, r, first, order, i);
  }

  /** Whether a list is doubly linked depends only on the links of its own entries. */
  lemma ListFrame(es: seq<Entry>, es': seq<Entry>, first: Handle, order: seq<Handle>)
    requires DoublyLinked(es, first, order) && |es'| >= |es|
    requires forall k | 0 <= k < |order| :: es'[order[k]].prev == es[order[k]].prev && es'[order[k]].next == es[order[k]].next
    ensures DoublyLinked(es', first, order)
  {
    assert es'[order[|order| - 1]].next == Null;
  }

  /** The lengths of the listed entries, in list order. */
  function Lengths(es: seq<Entry>, order: seq<Handle>): (lens: seq<u32>)
    requires forall k | 0 <= k < |order| :: order[k] < |es|
    ensures |lens| == |order|
    ensures forall k | 0 <= k < |order| :: lens[k] == es[order[k]].length
  {
    seq(|order|, k requires 0 <= k < |order| => es[order[k]].length)
  }

  /** The number of characters held by the first `j` listed entries (no wrap-around). */
  function Sum(lens: seq<u32>, j: nat): nat
    requires j <= |lens|
  {
    if j == 0 then 0 else Sum(lens, j - 1) + lens[j - 1]
  }

  lemma {:induction false} SumMonotone(lens: seq<u32>, j: nat, k: nat)
    requires j <= k <= |lens|
    ensures Sum(lens, j) <= Sum(lens, k)
  {
    if j < k { SumMonotone(lens, j, k - 1); }
  }

  /**
   * The loop of `filebuf_entry_at` (filebuf.c:169-177) continued from the `j`-th entry with
   * the accumulated index `i`: it returns the position in the list of the entry it stops at
   * and the value it stores in `*relative_index`, both in the source's uint32 arithmetic.
   */
  function LocateFrom(lens: seq<u32>, j: nat, i: u32, f: u32): (r: (nat, u32))
    requires j < |lens|
    ensures j <= r.0 < |lens|
    decreases |lens| - j
  {
    if i < f then
      var i' := Wrap(i + lens[j]);
      if j == |lens| - 1 then (j, Wrap(i' - f)) else LocateFrom(lens, j + 1, i', f)
    else
      (j, Wrap(i - f))
  }

  function Locate(lens: seq<u32>, f: u32): (r: (nat, u32))
    requires |lens| > 0
    ensures r.0 < |lens|
  {
    LocateFrom(lens, 0, 0, f)
  }

  /**
   * What `filebuf_entry_at` returns, when the list holds fewer than 2^32 characters. It
   * stops at the FIRST entry `j` at whose start at least `f` characters lie, and reports
   * `Sum(j) - f`: that is the distance from offset `f` forward to the START of entry `j`
   * (the remainder of the entry before it), not the offset of `f` inside an entry. When
   * no entry starts at or after `f`, it stops at the last entry and reports the wrapped
   * difference between the total length and `f`.
   */
  lemma LocateFindsBoundary(lens: seq<u32>, f: u32)
    requires |lens| > 0 && Sum(lens, |lens|) < U32_LIMIT
    ensures var (j, rel) := Locate(lens, f);
      && (Sum(lens, j) >= f ==> rel == Sum(lens, j) - f && (j == 0 || Sum(lens, j - 1) < f))
      && (Sum(lens, j) < f ==> j == |lens| - 1 && rel == Wrap(Sum(lens, |lens|) - f))
  {
    LocateFromFindsBoundary(lens, 0, f);
  }

  /** The outcome `LocateFindsBoundary` describes, for a result `(j, rel)`. */
  predicate Boundary(lens: seq<u32>, f: u32, j: nat, rel: u32)
    requires j < |lens| && Sum(lens, |lens|) < U32_LIMIT
  {
    && (Sum(lens, j) >= f ==> rel == Sum(lens, j) - f && (j == 0 || Sum(lens, j - 1) < f))
    && (Sum(lens, j) < f ==> j == |lens| - 1 && rel == Wrap(Sum(lens, |lens|) - f))
  }

  lemma {:induction false} LocateFromFindsBoundary(lens: seq<u32>, j: nat, f: u32)
    requires j < |lens| && Sum(lens, |lens|) < U32_LIMIT
    requires j > 0 ==> Sum(lens, j - 1) < f
    ensures Sum(lens, j) < U32_LIMIT
    ensures Boundary(lens, f, LocateFrom(lens, j, Sum(lens, j), f).0, LocateFrom(lens, j, Sum(lens, j), f).1)
    decreases |lens| - j
  {
    SumMonotone(lens, j + 1, |lens|);
    var i := Sum(lens, j);
    var r := LocateFrom(lens, j, i, f);
    if i < f {
      assert Wrap(i + lens[j]) == Sum(lens, j + 1);
      if j < |lens| - 1 {
        assert r == LocateFrom(lens, j + 1, Sum(lens, j + 1), f);
        LocateFromFindsBoundary(lens, j + 1, f);
      } else {
        assert r == (j, Wrap(Sum(lens, |lens|) - f));
      }
    } else {
      assert r == (j, i - f);
    }
  }
}
