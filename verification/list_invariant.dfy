/**
 The well-formedness invariant of the list, stated against two abstract
 witnesses: `order`, the live slot indices from head to tail, and `fc`, the
 free slot indices from `free` to the end of the chain.

 The live sequence is circular through the sentinel: `Cycle(order)` is
 `[0] + order`, every slot of it points forward to the next one and back to
 the previous one, wrapping round at both ends. So the sentinel's `next` is
 the head and its `prev` the tail.
 */
module ListInvariant {
  import opened ListLayout
  import opened ListValidate

  ghost predicate Distinct(s: seq<int>)
  {
    forall i, j :: 0 <= i < j < |s| ==> s[i] != s[j]
  }

  /** The circular live sequence, sentinel first. */
  function Cycle(order: seq<int>): (c: seq<int>)
    ensures |c| == |order| + 1 && c[0] == NULL_INDEX
    ensures forall k :: 0 <= k < |order| ==> c[k + 1] == order[k]
  {
    [NULL_INDEX] + order
  }

  /** Forward neighbour in a circular sequence. */
  function NextIn(c: seq<int>, k: int): int
    requires 0 <= k < |c|
  {
    if k + 1 < |c| then c[k + 1] else c[0]
  }

  /** Backward neighbour in a circular sequence. */
  function PrevIn(c: seq<int>, k: int): int
    requires 0 <= k < |c|
  {
    if k == 0 then c[|c| - 1] else c[k - 1]
  }

  /** Successor on the free chain; the last free slot points to `nullindex`. */
  function ChainNext(fc: seq<int>, k: int): int
    requires 0 <= k < |fc|
  {
    if k + 1 < |fc| then fc[k + 1] else NULL_INDEX
  }

  /** First slot of a chain, `nullindex` when it is empty. */
  function First(fc: seq<int>): int
  {
    if |fc| == 0 then NULL_INDEX else fc[0]
  }

  /** Every slot `0 .. cap-1` is on exactly one of the two sequences. */
  ghost predicate Partition(c: seq<int>, fc: seq<int>, cap: nat)
  {
    && |c| + |fc| == cap
    && Distinct(c)
    && Distinct(fc)
    && (forall i, j :: 0 <= i < |c| && 0 <= j < |fc| ==> c[i] != fc[j])
    && (forall k :: 0 <= k < |c| ==> 0 <= c[k] < cap)
    && (forall k :: 0 <= k < |fc| ==> 0 <= fc[k] < cap)
    && (forall x :: 0 <= x < cap ==> x in c || x in fc)
  }

  /** The circular sequence `c` is doubly linked through `data`. */
  ghost predicate Linked(data: seq<Node>, c: seq<int>)
  {
    && (forall k :: 0 <= k < |c| ==> 0 <= c[k] < |data|)
    && (forall k {:trigger data[c[k]]} :: 0 <= k < |c| ==>
          && 0 <= c[k] < |data|
          && data[c[k]].next == NextIn(c, k)
          && data[c[k]].prev == PrevIn(c, k))
  }

  /** `free` starts the chain `fc`, linked through `next`, ending at `nullindex`. */
  ghost predicate Chained(data: seq<Node>, free: int, fc: seq<int>)
  {
    && free == First(fc)
    && (forall k :: 0 <= k < |fc| ==> 0 <= fc[k] < |data|)
    && (forall k {:trigger data[fc[k]]} :: 0 <= k < |fc| ==> 0 <= fc[k] < |data| && data[fc[k]].next == ChainNext(fc, k))
  }

  /** `prev` holds the poison marker exactly on the free slots. */
  ghost predicate PoisonMarks(data: seq<Node>, fc: seq<int>)
  {
    forall x :: 0 <= x < |data| ==> (data[x].prev == POISON_PREV <==> x in fc)
  }

  /** The slot array realises the two witnesses. */
  ghost predicate Structured(l: List, order: seq<int>, fc: seq<int>)
  {
    && |l.data| == l.capacity
    && l.size == |order|
    && Partition(Cycle(order), fc, l.capacity)
    && Linked(l.data, Cycle(order))
    && Chained(l.data, l.free, fc)
    && PoisonMarks(l.data, fc)
  }

  /** The full invariant: the structure above, and (implied by it, see
      `StructuredInBounds`) every link names a slot. */
  ghost predicate Valid(l: List, order: seq<int>, fc: seq<int>)
  {
    Structured(l, order, fc) && InBounds(l)
  }

  /** The elements of the live slots, in list order. (An index outside the
      array, which a well-formed list never holds, contributes the poison
      element, so that the function needs no precondition.) */
  ghost function Contents(l: List, order: seq<int>): (s: seq<int>)
    ensures |s| == |order|
    ensures forall k :: 0 <= k < |order| && 0 <= order[k] < |l.data| ==> s[k] == l.data[order[k]].elem
  {
    seq(|order|, k requires 0 <= k < |order| =>
      if 0 <= order[k] < |l.data| then l.data[order[k]].elem else POISON_ELEM)
  }

  /** Contents depend only on the elements stored in the live slots. */
  lemma ContentsFrame(l: List, l': List, order: seq<int>)
    requires forall k :: 0 <= k < |order| ==> 0 <= order[k] < |l.data| && 0 <= order[k] < |l'.data|
    requires forall k :: 0 <= k < |order| ==> l'.data[order[k]].elem == l.data[order[k]].elem
    ensures Contents(l', order) == Contents(l, order)
  {
  }

  /** Position of a member of a sequence. */
  ghost function IndexOf(s: seq<int>, x: int): (k: nat)
    requires x in s
    ensures k < |s| && s[k] == x
  {
    var k :| 0 <= k < |s| && s[k] == x; k
  }

  /** In a sequence without repeats a value sits at one position only. */
  lemma DistinctIndex(s: seq<int>, i: int, j: int)
    requires Distinct(s) && 0 <= i < |s| && 0 <= j < |s| && s[i] == s[j]
    ensures i == j
  {
  }

  /** The counts promised by the invariant: `size` live slots, the sentinel,
      and `capacity - 1 - size` free ones; live and free slots are never the
      sentinel. */
  lemma ValidCounts(l: List, order: seq<int>, fc: seq<int>)
    requires Valid(l, order, fc)
    ensures l.size < l.capacity && |fc| == l.capacity - 1 - l.size
    ensures forall k :: 0 <= k < |order| ==> 1 <= order[k] < l.capacity
    ensures forall k :: 0 <= k < |fc| ==> 1 <= fc[k] < l.capacity
    ensures NULL_INDEX !in fc
    ensures Head(l) == First(order) && Tail(l) == (if |order| == 0 then NULL_INDEX else order[|order| - 1])
  {
    PartitionBounds(order, fc, l.capacity);
    SentinelEnds(l.data, order);
  }

  /** The partition keeps the sentinel off both sequences proper. */
  lemma PartitionBounds(order: seq<int>, fc: seq<int>, cap: nat)
    requires Partition(Cycle(order), fc, cap)
    ensures |order| < cap && |fc| == cap - 1 - |order|
    ensures forall k :: 0 <= k < |order| ==> 1 <= order[k] < cap
    ensures forall k :: 0 <= k < |fc| ==> 1 <= fc[k] < cap
    ensures NULL_INDEX !in fc
  {
    var c := Cycle(order);
    assert c[0] == NULL_INDEX;
    forall k | 0 <= k < |order| ensures 1 <= order[k] {
      assert c[k + 1] == order[k];
    }
    assert forall j :: 0 <= j < |fc| ==> fc[j] != c[0];
  }

  /** The sentinel's links name the first and the last live slot. */
  lemma SentinelEnds(data: seq<Node>, order: seq<int>)
    requires Linked(data, Cycle(order))
    ensures 0 < |data| && data[NULL_INDEX].next == First(order)
    ensures data[NULL_INDEX].prev == (if |order| == 0 then NULL_INDEX else order[|order| - 1])
  {
    var c := Cycle(order);
    assert data[c[0]].next == NextIn(c, 0);
    assert data[c[0]].prev == PrevIn(c, 0);
  }

  /** A structured list only ever dereferences indices inside the array. */
  lemma StructuredInBounds(l: List, order: seq<int>, fc: seq<int>)
    requires Structured(l, order, fc)
    ensures InBounds(l)
  {
    var c := Cycle(order);
    assert forall j :: 0 <= j < |fc| ==> fc[j] != c[0];
    forall i | 0 <= i < |l.data|
      ensures 0 <= l.data[i].next < |l.data|
      ensures l.data[i].prev == POISON_PREV || 0 <= l.data[i].prev < |l.data|
    {
      if i in c {
        var k := IndexOf(c, i);
        assert l.data[c[k]].next == NextIn(c, k);
      } else {
        var k := IndexOf(fc, i);
        assert l.data[fc[k]].next == ChainNext(fc, k);
      }
    }
  }

  /** `validateList` finds nothing wrong with a well-formed list. (The converse
      does not hold: it checks only three cardinality conditions.) */
  lemma ValidPassesValidate(l: List, order: seq<int>, fc: seq<int>)
    requires Valid(l, order, fc)
    ensures HasSentinel(l) && Validate(l) == 0
  {
    ValidCounts(l, order, fc);
    if |order| > 0 {
      assert Head(l) == order[0] != NULL_INDEX;
    }
  }

  /** Link consistency: from every live slot and from the sentinel, one step
      forward and one step back (in either order) returns to the same slot. */
  lemma LinkConsistency(l: List, order: seq<int>, fc: seq<int>, i: int)
    requires Valid(l, order, fc)
    requires i == NULL_INDEX || i in order
    ensures 0 <= l.data[i].next < |l.data| && l.data[l.data[i].next].prev == i
    ensures 0 <= l.data[i].prev < |l.data| && l.data[l.data[i].prev].next == i
  {
    var c := Cycle(order);
    var k := if i == NULL_INDEX then 0 else IndexOf(order, i) + 1;
    assert c[k] == i;
    var kn := if k + 1 < |c| then k + 1 else 0;
    assert c[kn] == NextIn(c, k) && PrevIn(c, kn) == c[k];
    var kp := if k == 0 then |c| - 1 else k - 1;
    assert c[kp] == PrevIn(c, k) && NextIn(c, kp) == c[k];
  }

  /** Live and sentinel slots are never poisoned; free slots always are. */
  lemma PoisonExactlyOnFree(l: List, order: seq<int>, fc: seq<int>, i: int)
    requires Valid(l, order, fc)
    requires 0 <= i < l.capacity
    ensures l.data[i].prev == POISON_PREV <==> i !in order && i != NULL_INDEX
  {
    var c := Cycle(order);
    ValidCounts(l, order, fc);
    if i in order {
      var k := IndexOf(order, i);
      assert c[k + 1] == i;
      assert forall j :: 0 <= j < |fc| ==> fc[j] != c[k + 1];
    } else if i != NULL_INDEX {
      assert i !in c;
    }
  }

  /** Restates a well-formedness fact for an equal list (keeps the solver
      from unfolding the predicate against the longer term). */
  lemma ValidTransfer(a: List, b: List, order: seq<int>, fc: seq<int>)
    requires Valid(a, order, fc) && a == b
    ensures Valid(b, order, fc)
  {
  }
}
