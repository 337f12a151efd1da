/**
 The operations at the two ends of the list, `list_pushBackElement`,
 `list_pushFrontElement`, `list_popBackElement` and `list_popFrontElement`,
 each a validation followed by an insertion or removal at the tail or the
 head. On a well-formed list they act on the contents as a deque.
 */
module ListEnds {
  import opened ListLayout
  import opened ListValidate
  import opened ListInvariant
  import opened ListAlloc
  import opened ListSplice
  import opened ListOps

  /** `list_pushBackElement`: insert after the tail. The tail is used as an
      anchor without a range check, so a passing list must not have a
      poisoned sentinel `prev`. */
  function PushBack(l: List, e: int): (r: Outcome<int>)
    requires InBounds(l) && (Validate(l) == 0 ==> 0 <= Tail(l))
    ensures InBounds(r.list)
    ensures Validate(l) != 0 ==> r == Outcome(l, NULL_INDEX, Structural(Validate(l)))
    ensures r.err == NoError ==> 0 < r.ret < r.list.capacity && r.list.data[r.ret].elem == e && r.list.size == l.size + 1
    ensures r.err != NoError ==> r.ret == NULL_INDEX
  {
    var mask := Validate(l);
    if mask != 0 then Outcome(l, NULL_INDEX, Structural(mask))
    else Insert(l, Tail(l), e)
  }

  /** `list_pushFrontElement`: insert after the sentinel, then write the
      returned index into the head (even when the insertion failed and
      returned `nullindex`), then validate again. */
  function PushFront(l: List, e: int): (r: Outcome<int>)
    requires InBounds(l)
    ensures InBounds(r.list)
    ensures Validate(l) != 0 ==> r == Outcome(l, NULL_INDEX, Structural(Validate(l)))
    ensures r.err == NoError ==>
      && 0 < r.ret < r.list.capacity && r.list.data[r.ret].elem == e && r.list.size == l.size + 1
      && Head(r.list) == r.ret
    ensures r.err != NoError ==> r.ret == NULL_INDEX
  {
    var mask := Validate(l);
    if mask != 0 then Outcome(l, NULL_INDEX, Structural(mask))
    else
      var ins := Insert(l, NULL_INDEX, e);
      var l2 := SetHead(ins.list, ins.ret);
      var mask2 := Validate(l2);
      if mask2 != 0 then Outcome(l2, NULL_INDEX, Structural(mask2))
      else Outcome(l2, ins.ret, ins.err)
  }

  /** `list_popBackElement`: remove the tail. */
  function PopBack(l: List, hasOut: bool): (r: Outcome<Option<int>>)
    requires LinksInRange(l)
    ensures InBounds(l) ==> InBounds(r.list)
    ensures Validate(l) != 0 ==> r == Outcome(l, None, Structural(Validate(l)))
    ensures Validate(l) == 0 && (l.size == 0 || !hasOut) ==> r == Outcome(l, None, Local)
    ensures r.err == NoError ==>
      0 <= Tail(l) < l.capacity && r.ret == Some(l.data[Tail(l)].elem) && r.list.size + 1 == l.size
  {
    var mask := Validate(l);
    if mask != 0 then Outcome(l, None, Structural(mask))
    else Remove(l, Tail(l), hasOut)
  }

  /** `list_popFrontElement`: remove the head. */
  function PopFront(l: List, hasOut: bool): (r: Outcome<Option<int>>)
    requires LinksInRange(l)
    ensures InBounds(l) ==> InBounds(r.list)
    ensures Validate(l) != 0 ==> r == Outcome(l, None, Structural(Validate(l)))
    ensures Validate(l) == 0 && (l.size == 0 || !hasOut) ==> r == Outcome(l, None, Local)
    ensures r.err == NoError ==> r.ret == Some(l.data[Head(l)].elem) && r.list.size + 1 == l.size
  {
    var mask := Validate(l);
    if mask != 0 then Outcome(l, None, Structural(mask))
    else Remove(l, Head(l), hasOut)
  }

  // -------------------------------------------------------------- positions

  /** The live sequence of a well-formed list has no repeats. */
  lemma OrderDistinct(l: List, order: seq<int>, fc: seq<int>)
    requires Valid(l, order, fc)
    ensures Distinct(order)
  {
    var c := Cycle(order);
    forall i, j | 0 <= i < j < |order| ensures order[i] != order[j] {
      assert c[i + 1] == order[i] && c[j + 1] == order[j];
    }
  }

  /** The tail of a well-formed list is the last slot of the cycle. */
  lemma TailPos(l: List, order: seq<int>, fc: seq<int>)
    requires Valid(l, order, fc)
    ensures 0 <= Tail(l) < l.capacity && l.data[Tail(l)].prev != POISON_PREV
    ensures Tail(l) == NULL_INDEX || Tail(l) in order
    ensures CyclePos(order, Tail(l)) == |order|
  {
    ValidCounts(l, order, fc);
    OrderDistinct(l, order, fc);
    if |order| > 0 {
      var t := order[|order| - 1];
      PoisonExactlyOnFree(l, order, fc, t);
      DistinctIndex(order, IndexOf(order, t), |order| - 1);
    }
  }

  /** The head of a well-formed list is the first live slot. */
  lemma HeadPos(l: List, order: seq<int>, fc: seq<int>)
    requires Valid(l, order, fc) && |order| > 0
    ensures Head(l) == order[0] && IndexOf(order, Head(l)) == 0
  {
    ValidCounts(l, order, fc);
    OrderDistinct(l, order, fc);
    DistinctIndex(order, IndexOf(order, order[0]), 0);
  }

  /** Inserting at either end of the live sequence. */
  lemma InsertedAtEnds(order: seq<int>, f: int)
    ensures Spliced(order, |order|, f) == order + [f]
    ensures Spliced(order, 0, f) == [f] + order
  {
  }

  /** Splicing a value in at either end. */
  lemma SplicedAtEnds(s: seq<int>, e: int)
    ensures Spliced(s, |s|, e) == s + [e]
    ensures Spliced(s, 0, e) == [e] + s
  {
  }

  /** Removing either end of the live sequence. */
  lemma RemovedAtEnds(order: seq<int>)
    requires |order| > 0
    ensures Without(order, |order| - 1) == order[..|order| - 1]
    ensures Without(order, 0) == order[1..]
  {
  }

  /** Dropping either end of a value sequence. */
  lemma WithoutAtEnds(s: seq<int>)
    requires |s| > 0
    ensures Without(s, |s| - 1) == s[..|s| - 1]
    ensures Without(s, 0) == s[1..]
  {
  }

  // ------------------------------------------------------------------ pushes

  /** Pushing to the back of a well-formed list appends the element: the
      filled slot becomes the new tail. */
  lemma PushBackValid(l: List, order: seq<int>, fc: seq<int>, e: int)
    requires Valid(l, order, fc)
    ensures 0 <= Tail(l)
    ensures PushBack(l, e).err == NoError && PushBack(l, e).ret == NewSlot(l, fc)
    ensures Valid(PushBack(l, e).list, order + [NewSlot(l, fc)], RestFree(l, fc))
    ensures Contents(PushBack(l, e).list, order + [NewSlot(l, fc)]) == Contents(l, order) + [e]
  {
    ValidPassesValidate(l, order, fc);
    TailPos(l, order, fc);
    InsertAnyValid(l, order, fc, Tail(l), e);
    InsertAnyContents(l, order, fc, Tail(l), e);
    InsertedAtEnds(order, NewSlot(l, fc));
    SplicedAtEnds(Contents(l, order), e);
  }

  /** Pushing to the front of a well-formed list prepends the element: the
      filled slot becomes the new head, and the head write after the
      insertion changes nothing. */
  lemma PushFrontValid(l: List, order: seq<int>, fc: seq<int>, e: int)
    requires Valid(l, order, fc)
    ensures PushFront(l, e).err == NoError && PushFront(l, e).ret == NewSlot(l, fc)
    ensures PushFront(l, e).list == Insert(l, NULL_INDEX, e).list
    ensures Valid(PushFront(l, e).list, [NewSlot(l, fc)] + order, RestFree(l, fc))
    ensures Contents(PushFront(l, e).list, [NewSlot(l, fc)] + order) == [e] + Contents(l, order)
  {
    ValidPassesValidate(l, order, fc);
    ValidCounts(l, order, fc);
    InsertAnyValid(l, order, fc, NULL_INDEX, e);
    InsertAnyContents(l, order, fc, NULL_INDEX, e);
    InsertedAtEnds(order, NewSlot(l, fc));
    SplicedAtEnds(Contents(l, order), e);
    var ins := Insert(l, NULL_INDEX, e);
    ValidCounts(ins.list, [NewSlot(l, fc)] + order, RestFree(l, fc));
    SetHeadOfHead(ins.list);
    ValidPassesValidate(ins.list, [NewSlot(l, fc)] + order, RestFree(l, fc));
  }

  // -------------------------------------------------------------------- pops

  /** Popping the back of a non-empty well-formed list returns the last
      element and drops it; the tail slot heads the free chain. */
  lemma PopBackValid(l: List, order: seq<int>, fc: seq<int>)
    requires Valid(l, order, fc) && |order| > 0
    ensures PopBack(l, true).err == NoError
    ensures PopBack(l, true).ret == Some(Contents(l, order)[|order| - 1])
    ensures Valid(PopBack(l, true).list, order[..|order| - 1], [order[|order| - 1]] + fc)
    ensures Contents(PopBack(l, true).list, order[..|order| - 1]) == Contents(l, order)[..|order| - 1]
  {
    ValidPassesValidate(l, order, fc);
    ValidCounts(l, order, fc);
    RemoveValid(l, order, fc, |order| - 1);
    RemovedAtEnds(order);
    WithoutAtEnds(Contents(l, order));
  }

  /** Popping the front of a non-empty well-formed list returns the first
      element and drops it; the head slot heads the free chain. */
  lemma PopFrontValid(l: List, order: seq<int>, fc: seq<int>)
    requires Valid(l, order, fc) && |order| > 0
    ensures PopFront(l, true).err == NoError
    ensures PopFront(l, true).ret == Some(Contents(l, order)[0])
    ensures Valid(PopFront(l, true).list, order[1..], [order[0]] + fc)
    ensures Contents(PopFront(l, true).list, order[1..]) == Contents(l, order)[1..]
  {
    ValidPassesValidate(l, order, fc);
    HeadPos(l, order, fc);
    RemoveValid(l, order, fc, 0);
    RemovedAtEnds(order);
    WithoutAtEnds(Contents(l, order));
  }

  /** Popping either end of an empty well-formed list is refused with -1
      and changes nothing. */
  lemma PopEmpty(l: List, order: seq<int>, fc: seq<int>, hasOut: bool)
    requires Valid(l, order, fc) && |order| == 0
    ensures PopBack(l, hasOut) == Outcome(l, None, Local)
    ensures PopFront(l, hasOut) == Outcome(l, None, Local)
  {
    ValidPassesValidate(l, order, fc);
  }

  // ------------------------------------------------------------- round trips

  /** Pushing to the back and popping the back gives the element back and
      restores the contents; the slot used returns to the free chain. */
  lemma PushPopBack(l: List, order: seq<int>, fc: seq<int>, e: int)
    requires Valid(l, order, fc)
    ensures 0 <= Tail(l)
    ensures PopBack(PushBack(l, e).list, true).ret == Some(e)
    ensures PopBack(PushBack(l, e).list, true).err == NoError
    ensures Valid(PopBack(PushBack(l, e).list, true).list, order, [NewSlot(l, fc)] + RestFree(l, fc))
    ensures Contents(PopBack(PushBack(l, e).list, true).list, order) == Contents(l, order)
  {
    PushBackValid(l, order, fc, e);
    var order1 := order + [NewSlot(l, fc)];
    var l1 := PushBack(l, e).list;
    PopBackValid(l1, order1, RestFree(l, fc));
    assert order1[..|order1| - 1] == order;
    assert (Contents(l, order) + [e])[..|order1| - 1] == Contents(l, order);
  }

  /** Pushing to the front and popping the front gives the element back and
      restores the contents. */
  lemma PushPopFront(l: List, order: seq<int>, fc: seq<int>, e: int)
    requires Valid(l, order, fc)
    ensures PopFront(PushFront(l, e).list, true).ret == Some(e)
    ensures PopFront(PushFront(l, e).list, true).err == NoError
    ensures Valid(PopFront(PushFront(l, e).list, true).list, order, [NewSlot(l, fc)] + RestFree(l, fc))
    ensures Contents(PopFront(PushFront(l, e).list, true).list, order) == Contents(l, order)
  {
    PushFrontValid(l, order, fc, e);
    var order1 := [NewSlot(l, fc)] + order;
    var l1 := PushFront(l, e).list;
    PopFrontValid(l1, order1, RestFree(l, fc));
    assert order1[1..] == order;
    assert ([e] + Contents(l, order))[1..] == Contents(l, order);
  }
}
