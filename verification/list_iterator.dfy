/**
 The list iterators of `listiterator.cpp`: a reference to the list and the
 index of the current slot. Every call first runs `validateList` on the
 list; when it reports anything the call does nothing and returns its
 failure value (1 for `next`/`prev`, false for the predicates, `nullindex`
 for `index`, null for `value`). No error out-parameter is written.

 The mutable and the const iterator differ only in whether the element
 pointer `value` returns may be written through; the model records which
 kind an iterator is and otherwise treats them alike.
 */
module ListIterator {
  import opened ListLayout
  import opened ListValidate
  import opened ListInvariant

  datatype Access = Mutable | Const

  datatype Iter = Iter(list: List, current: int, access: Access)

  /** What the iterator calls dereference without checking: the list's links
      stay in range, and the current slot is in range whenever validation
      passes (when it fails the current slot is never read). */
  predicate Usable(it: Iter)
  {
    LinksInRange(it.list) && (Validate(it.list) == 0 ==> 0 <= it.current < it.list.capacity)
  }

  /** `getMutableListIterator`: positioned at the head, unvalidated. */
  function MakeMutable(l: List): (it: Iter)
    requires HasSentinel(l)
    ensures it.list == l && it.access == Mutable && it.current == Head(l)
    ensures LinksInRange(l) ==> Usable(it) && 0 <= it.current < l.capacity
  {
    Iter(l, Head(l), Mutable)
  }

  /** `getConstListIterator`: positioned at the head, unvalidated. */
  function MakeConst(l: List): (it: Iter)
    requires HasSentinel(l)
    ensures it.list == l && it.access == Const && it.current == Head(l)
    ensures LinksInRange(l) ==> Usable(it) && 0 <= it.current < l.capacity
  {
    Iter(l, Head(l), Const)
  }

  /** `next`: follow the current slot's `next` link; code 0, or 1 and no
      move when the list fails validation. */
  function Next(it: Iter): (r: (Iter, int))
    requires Usable(it)
    ensures Usable(r.0) && r.0.list == it.list && r.0.access == it.access
    ensures Validate(it.list) != 0 ==> r == (it, 1)
    ensures Validate(it.list) == 0 ==> r.1 == 0
  {
    if Validate(it.list) != 0 then (it, 1)
    else (it.(current := it.list.data[it.current].next), 0)
  }

  /** `prev`: follow the current slot's `prev` link. From a free slot this
      lands on the poison marker, after which the iterator is not usable. */
  function Prev(it: Iter): (r: (Iter, int))
    requires Usable(it)
    ensures r.0.list == it.list && r.0.access == it.access
    ensures Validate(it.list) != 0 ==> r == (it, 1)
    ensures Validate(it.list) == 0 ==> r.1 == 0
  {
    if Validate(it.list) != 0 then (it, 1)
    else (it.(current := it.list.data[it.current].prev), 0)
  }

  /** `hasNext`: the slot after the current one is not the head. */
  function HasNext(it: Iter): (b: bool)
    requires Usable(it)
    ensures Validate(it.list) != 0 ==> !b
  {
    Validate(it.list) == 0 && it.list.data[it.current].next != Head(it.list)
  }

  /** `hasPrev`: the current slot is not the head. */
  function HasPrev(it: Iter): (b: bool)
    requires Usable(it)
    ensures Validate(it.list) != 0 ==> !b
  {
    Validate(it.list) == 0 && it.current != Head(it.list)
  }

  /** `index`: the current slot, or `nullindex` for a failing list. */
  function Index(it: Iter): (i: int)
    requires Usable(it)
    ensures Validate(it.list) != 0 ==> i == NULL_INDEX
    ensures 0 <= i < it.list.capacity
  {
    if Validate(it.list) != 0 then NULL_INDEX else it.current
  }

  /** `value`: (a pointer to) the current slot's element, or null for a
      failing list. */
  function Value(it: Iter): (v: Option<int>)
    requires Usable(it)
    ensures Validate(it.list) != 0 <==> v == None
    ensures v.Some? ==> 0 <= it.current < |it.list.data| && v.value == it.list.data[it.current].elem
  {
    if Validate(it.list) != 0 then None else Some(it.list.data[it.current].elem)
  }

  /** The iterator after `k` calls of `next`. */
  function AdvanceN(it: Iter, k: nat): (r: Iter)
    requires Usable(it)
    ensures Usable(r) && r.list == it.list && r.access == it.access
  {
    if k == 0 then it else Next(AdvanceN(it, k - 1)).0
  }

  /** The elements `value` yields at the first `n` positions reached by
      `next` from `it`, on a list that passes validation. */
  function Collect(it: Iter, n: nat): (s: seq<int>)
    requires Usable(it) && Validate(it.list) == 0
    ensures |s| == n
    ensures forall k :: 0 <= k < n ==> s[k] == Value(AdvanceN(it, k)).value
  {
    seq(n, k requires 0 <= k < n => Value(AdvanceN(it, k)).value)
  }

  // ------------------------------------------------------------ properties

  /** On a well-formed list, `next` and `prev` step forward and backward
      around the cycle sentinel, head, ..., tail, sentinel. */
  lemma StepOnCycle(l: List, order: seq<int>, fc: seq<int>, it: Iter, k: int)
    requires Valid(l, order, fc) && it.list == l && 0 <= k <= |order| && it.current == Cycle(order)[k]
    ensures Usable(it)
    ensures Next(it) == (it.(current := NextIn(Cycle(order), k)), 0)
    ensures Prev(it) == (it.(current := PrevIn(Cycle(order), k)), 0)
  {
    var c := Cycle(order);
    ValidPassesValidate(l, order, fc);
    assert l.data[c[k]].next == NextIn(c, k) && l.data[c[k]].prev == PrevIn(c, k);
  }

  /** On a well-formed list, `prev` undoes `next` and `next` undoes `prev`
      from the sentinel and from every live slot. */
  lemma NextPrevInverse(l: List, order: seq<int>, fc: seq<int>, it: Iter)
    requires Valid(l, order, fc) && it.list == l && (it.current == NULL_INDEX || it.current in order)
    ensures Usable(it) && Usable(Next(it).0)
    ensures Prev(Next(it).0).0 == it
    ensures Usable(Prev(it).0) && Next(Prev(it).0).0 == it
  {
    ValidPassesValidate(l, order, fc);
    LinkConsistency(l, order, fc, it.current);
  }

  /** On a well-formed list, `hasNext` holds exactly on the live slots: a
      traversal from the head ends on the sentinel, where it is false. */
  lemma HasNextIffLive(l: List, order: seq<int>, fc: seq<int>, it: Iter)
    requires Valid(l, order, fc) && it.list == l && (it.current == NULL_INDEX || it.current in order)
    ensures Usable(it)
    ensures HasNext(it) <==> it.current in order
  {
    var c := Cycle(order);
    ValidPassesValidate(l, order, fc);
    ValidCounts(l, order, fc);
    var k := if it.current == NULL_INDEX then 0 else IndexOf(order, it.current) + 1;
    assert c[k] == it.current;
    assert l.data[c[k]].next == NextIn(c, k);
    assert Head(l) == NextIn(c, 0);
    if |order| > 0 {
      assert c[1] == Head(l);
      var kn := if k + 1 < |c| then k + 1 else 0;
      assert NextIn(c, k) == c[kn];
      if kn != 1 {
        assert c[kn] != c[1];
      }
    }
  }

  /** On a well-formed list, `hasPrev` fails exactly at the first element
      (and everywhere when the list is empty). */
  lemma HasPrevIffNotFirst(l: List, order: seq<int>, fc: seq<int>, it: Iter)
    requires Valid(l, order, fc) && it.list == l && (it.current == NULL_INDEX || it.current in order)
    ensures Usable(it)
    ensures HasPrev(it) <==> |order| > 0 && it.current != order[0]
  {
    ValidPassesValidate(l, order, fc);
    ValidCounts(l, order, fc);
  }

  /** On a well-formed list, `index` and `value` report the current live
      slot and its element of the list contents. */
  lemma IndexValueLive(l: List, order: seq<int>, fc: seq<int>, it: Iter, k: int)
    requires Valid(l, order, fc) && it.list == l && 0 <= k < |order| && it.current == order[k]
    ensures Usable(it)
    ensures Index(it) == order[k]
    ensures Value(it) == Some(Contents(l, order)[k])
  {
    ValidPassesValidate(l, order, fc);
    ValidCounts(l, order, fc);
  }

  /** The slot reached by following `next` links `j` times from slot `i`. */
  ghost function Walk(l: List, i: int, j: nat): (r: int)
    requires LinksInRange(l) && 0 <= i < l.capacity
    ensures 0 <= r < l.capacity
  {
    if j == 0 then i else l.data[Walk(l, i, j - 1)].next
  }

  /** On a list that passes validation, `j` calls of `next` follow `j` links. */
  lemma {:induction false} AdvanceIsWalk(it: Iter, j: nat)
    requires Usable(it) && Validate(it.list) == 0
    ensures 0 <= it.current < it.list.capacity
    ensures AdvanceN(it, j).current == Walk(it.list, it.current, j)
  {
    if j > 0 {
      AdvanceIsWalk(it, j - 1);
    }
  }

  /** Following `j` links from position `k` of a linked cycle reaches
      position `k + j`, as long as that does not wrap round. */
  lemma {:induction false} WalkOnCycle(l: List, c: seq<int>, k: int, j: nat)
    requires LinksInRange(l) && Linked(l.data, c) && 0 <= k && k + j < |c|
    ensures 0 <= c[k] < l.capacity
    ensures Walk(l, c[k], j) == c[k + j]
  {
    if j > 0 {
      WalkOnCycle(l, c, k, j - 1);
      assert l.data[c[k + j - 1]].next == NextIn(c, k + j - 1);
    }
  }

  /** On a well-formed list, `j` steps of `next` from cycle position `k`
      reach cycle position `k + j`, as long as that does not pass the tail. */
  lemma AdvanceOnCycle(l: List, order: seq<int>, fc: seq<int>, it: Iter, k: int, j: nat)
    requires Valid(l, order, fc) && it.list == l && 0 <= k && k + j <= |order| && it.current == Cycle(order)[k]
    ensures Usable(it)
    ensures AdvanceN(it, j).current == Cycle(order)[k + j]
  {
    ValidPassesValidate(l, order, fc);
    WalkOnCycle(l, Cycle(order), k, j);
    AdvanceIsWalk(it, j);
  }

  /** Traversal of a well-formed list: starting from a new iterator, the
      `k`-th call of `next` reaches the `k`-th live slot, the sentinel after
      `size` calls, and the head again one call later. */
  lemma Traversal(l: List, order: seq<int>, fc: seq<int>, k: nat)
    requires Valid(l, order, fc) && k <= |order|
    ensures AdvanceN(MakeConst(l), k).current == (if k < |order| then order[k] else NULL_INDEX)
    ensures AdvanceN(MakeConst(l), |order| + 1).current == Head(l)
  {
    ValidPassesValidate(l, order, fc);
    TraversalWalk(l, order, fc, k);
    AdvanceIsWalk(MakeConst(l), k);
    AdvanceIsWalk(MakeConst(l), |order| + 1);
  }

  /** The link-level content of `Traversal`. */
  lemma TraversalWalk(l: List, order: seq<int>, fc: seq<int>, k: nat)
    requires Valid(l, order, fc) && k <= |order|
    ensures 0 <= Head(l) < l.capacity
    ensures Walk(l, Head(l), k) == (if k < |order| then order[k] else NULL_INDEX)
    ensures Walk(l, Head(l), |order| + 1) == Head(l)
  {
    ValidLinked(l, order, fc);
    CycleWalk(l, Cycle(order), k);
  }

  /** What the traversal needs of a well-formed list. */
  lemma ValidLinked(l: List, order: seq<int>, fc: seq<int>)
    requires Valid(l, order, fc)
    ensures InBounds(l) && Linked(l.data, Cycle(order))
  {
  }

  /** Following links from the successor of the first slot of a linked
      cycle visits the cycle in order and comes back round. */
  lemma CycleWalk(l: List, c: seq<int>, k: nat)
    requires LinksInRange(l) && Linked(l.data, c) && 1 <= |c| && c[0] == NULL_INDEX && k < |c|
    ensures 0 <= Head(l) < l.capacity
    ensures Walk(l, Head(l), k) == (if k < |c| - 1 then c[k + 1] else NULL_INDEX)
    ensures Walk(l, Head(l), |c|) == Head(l)
  {
    assert Head(l) == l.data[c[0]].next == NextIn(c, 0);
    if |c| == 1 {
      assert Walk(l, Head(l), 1) == l.data[c[0]].next;
    } else {
      if k < |c| - 1 {
        WalkOnCycle(l, c, 1, k);
      }
      WalkAround(l, c);
    }
  }

  /** Following links once round a linked cycle of two or more slots from
      position 1 passes position 0 and comes back. */
  lemma WalkAround(l: List, c: seq<int>)
    requires LinksInRange(l) && Linked(l.data, c) && |c| >= 2
    ensures 0 <= c[1] < l.capacity
    ensures Walk(l, c[1], |c| - 1) == c[0]
    ensures Walk(l, c[1], |c|) == c[1]
  {
    var n := |c| - 1;
    WalkOnCycle(l, c, 1, n - 1);
    assert l.data[c[n]].next == NextIn(c, n);
    assert l.data[c[0]].next == NextIn(c, 0);
  }

  /** Iterating a well-formed list from its head yields its contents. */
  lemma CollectIsContents(l: List, order: seq<int>, fc: seq<int>, access: Access)
    requires Valid(l, order, fc)
    ensures Validate(l) == 0
    ensures Collect(Iter(l, Head(l), access), |order|) == Contents(l, order)
  {
    ValidPassesValidate(l, order, fc);
    ValidCounts(l, order, fc);
    var it := Iter(l, Head(l), access);
    forall k | 0 <= k < |order| ensures Collect(it, |order|)[k] == Contents(l, order)[k] {
      TraversalWalk(l, order, fc, k);
      AdvanceIsWalk(it, k);
    }
  }
}
