/**
 `list_restoreLinearity`: rebuild the slot array so that the `k`-th element
 of the list sits in slot `k`, with the free slots after the live ones in
 ascending order, optionally changing the capacity (`newCapacity == 0`
 keeps it). The elements are read through a mutable iterator starting at
 the head; the new array comes from an allocation whose unwritten slots
 hold whatever was there before.

 `RestoreAsWritten` follows the source statement by statement;
 `RestoreLinearity` is the layout the function is evidently meant to
 produce, written as loops and proved to rebuild a well-formed list with
 unchanged contents. The two agree whenever the list holds at least two
 elements and at least one slot stays free (`RestoreAsWrittenAgrees`); an
 empty, a one-element and a full list are rebuilt wrongly as written.
 */
module ListRestore {
  import opened ListLayout
  import opened ListValidate
  import opened ListInvariant
  import opened ListAlloc
  import opened ListIterator

  /** The capacity the rebuilt array gets: `newCapacity`, or the old one
      when it is 0. */
  function Nc(l: List, newCapacity: nat): nat
  {
    if newCapacity == 0 then l.capacity else newCapacity
  }

  /** The linear layout of the values `cs` in an array of `nc` slots: the
      sentinel, then `cs` in slots `1 .. |cs|`, then the free slots chained
      in ascending order. */
  function Linear(cs: seq<int>, nc: nat): (d: seq<Node>)
    requires |cs| < nc
    ensures |d| == nc
  {
    seq(nc, k requires 0 <= k < nc =>
      if k == 0 then Node(POISON_ELEM, if |cs| > 0 then 1 else NULL_INDEX, |cs|)
      else if k <= |cs| then Node(cs[k - 1], if k < |cs| then k + 1 else NULL_INDEX, k - 1)
      else Node(POISON_ELEM, if k < nc - 1 then k + 1 else NULL_INDEX, POISON_PREV))
  }

  /** The first free slot of the linear layout, `nullindex` when it is full. */
  function LinearFree(n: nat, nc: nat): int
  {
    if n + 1 < nc then n + 1 else NULL_INDEX
  }

  // --------------------------------------------------- the intended rebuild

  /** The rebuild as evidently intended: copy the `size` elements met by the
      iterator into slots `1 .. size` and chain every remaining slot onto
      the free list. The source demands room for every element. */
  method RestoreLinearity(l: List, newCapacity: nat, ghost order: seq<int>, ghost fc: seq<int>)
    returns (r: Outcome<()>)
    requires LinksInRange(l)
    requires Validate(l) == 0 ==> l.size < Nc(l, newCapacity)
    ensures Validate(l) != 0 ==> r == Outcome(l, (), Structural(Validate(l)))
    ensures Validate(l) == 0 ==>
      && r.err == NoError
      && r.list == List(Linear(Collect(MakeMutable(l), l.size), Nc(l, newCapacity)),
                        Nc(l, newCapacity), l.size, LinearFree(l.size, Nc(l, newCapacity)))
    ensures Valid(l, order, fc) ==>
      && Valid(r.list, Range(1, l.size + 1), Range(l.size + 1, Nc(l, newCapacity)))
      && Contents(r.list, Range(1, l.size + 1)) == Contents(l, order)
  {
    var mask := Validate(l);
    if mask != 0 {
      return Outcome(l, (), Structural(mask));
    }
    var nc := Nc(l, newCapacity);
    var n := l.size;
    var start := MakeMutable(l);
    ghost var cs := Collect(start, n);
    var live := CopyLive(start, n, nc);
    var temp := ChainFree(live, n + 1);
    RebuiltIsLinear(start, n, nc, temp);
    var out := List(temp, nc, n, LinearFree(n, nc));
    LinearPassesValidate(cs, nc);
    r := Checked(out, (), ());
    if Valid(l, order, fc) {
      RestoredContents(l, order, fc);
      LinearValid(cs, nc);
      ValidTransfer(List(Linear(cs, nc), nc, n, LinearFree(n, nc)), r.list, Range(1, n + 1), Range(n + 1, nc));
    }
  }

  /** The element in the slot reached by following `k` links from slot `c`. */
  ghost function WalkElem(l: List, c: int, k: nat): int
    requires LinksInRange(l) && 0 <= c < l.capacity
  {
    l.data[Walk(l, c, k)].elem
  }

  /** What the iterator collects is the elements along the `next` links. */
  lemma CollectWalk(start: Iter, n: nat)
    requires Usable(start) && Validate(start.list) == 0
    ensures 0 <= start.current < start.list.capacity
    ensures forall k :: 0 <= k < n ==> Collect(start, n)[k] == WalkElem(start.list, start.current, k)
  {
    forall k | 0 <= k < n ensures Collect(start, n)[k] == WalkElem(start.list, start.current, k) {
      AdvanceIsWalk(start, k);
    }
  }

  /** The first loop of the rebuild: the sentinel goes to slot 0 and the
      `n` elements met by the iterator from `start` go to slots `1 .. n`,
      each linked to its neighbours. */
  method CopyLive(start: Iter, n: nat, nc: nat) returns (temp: seq<Node>)
    requires Usable(start) && Validate(start.list) == 0 && n < nc
    ensures 0 <= start.current < start.list.capacity
    ensures |temp| == nc
    ensures temp[0] == Node(POISON_ELEM, if n > 0 then 1 else NULL_INDEX, n)
    ensures forall k :: 1 <= k <= n ==>
      temp[k] == Node(WalkElem(start.list, start.current, k - 1), if k < n then k + 1 else NULL_INDEX, k - 1)
  {
    ghost var l := start.list;
    temp := seq(nc, _ => Node(POISON_ELEM, NULL_INDEX, POISON_PREV));
    temp := temp[0 := Node(POISON_ELEM, if n > 0 then 1 else NULL_INDEX, n)];
    var it := start;
    var i := 1;
    while i <= n
      invariant 1 <= i <= n + 1 && |temp| == nc
      invariant Usable(it) && it.list == l && it.current == Walk(l, start.current, i - 1)
      invariant temp[0] == Node(POISON_ELEM, if n > 0 then 1 else NULL_INDEX, n)
      invariant forall k :: 1 <= k < i ==>
        temp[k] == Node(WalkElem(l, start.current, k - 1), if k < n then k + 1 else NULL_INDEX, k - 1)
    {
      temp := temp[i := Node(Value(it).value, if i < n then i + 1 else NULL_INDEX, i - 1)];
      it := Next(it).0;
      i := i + 1;
    }
  }

  /** The second loop of the rebuild: every slot from `from` on is chained
      forward as a free slot, the last one ending the chain. */
  method ChainFree(temp: seq<Node>, from: nat) returns (d: seq<Node>)
    requires 1 <= from <= |temp|
    ensures |d| == |temp| && forall k :: 0 <= k < from ==> d[k] == temp[k]
    ensures forall k :: from <= k < |d| ==> d[k] == Node(POISON_ELEM, if k < |d| - 1 then k + 1 else NULL_INDEX, POISON_PREV)
  {
    d := temp;
    var i := from;
    while i < |d|
      invariant from <= i <= |d| && |d| == |temp| && forall k :: 0 <= k < from ==> d[k] == temp[k]
      invariant forall k :: from <= k < i ==> d[k] == Node(POISON_ELEM, if k < |d| - 1 then k + 1 else NULL_INDEX, POISON_PREV)
    {
      d := d[i := Node(POISON_ELEM, if i < |d| - 1 then i + 1 else NULL_INDEX, POISON_PREV)];
      i := i + 1;
    }
  }

  /** On a well-formed list the iterator collects exactly the contents. */
  lemma RestoredContents(l: List, order: seq<int>, fc: seq<int>)
    requires Valid(l, order, fc)
    ensures Validate(l) == 0
    ensures Collect(MakeMutable(l), l.size) == Contents(l, order)
  {
    CollectIsContents(l, order, fc, Mutable);
    assert MakeMutable(l) == Iter(l, Head(l), Mutable);
  }

  // ----------------------------------------- the linear layout is well formed

  /** What the two loops of the rebuild leave behind is the linear layout of
      the elements the iterator meets. */
  lemma RebuiltIsLinear(start: Iter, n: nat, nc: nat, d: seq<Node>)
    requires Usable(start) && Validate(start.list) == 0 && n < nc && |d| == nc
    requires 0 <= start.current < start.list.capacity
    requires d[0] == Node(POISON_ELEM, if n > 0 then 1 else NULL_INDEX, n)
    requires forall k :: 1 <= k <= n ==>
      d[k] == Node(WalkElem(start.list, start.current, k - 1), if k < n then k + 1 else NULL_INDEX, k - 1)
    requires forall k :: n < k < nc ==> d[k] == Node(POISON_ELEM, if k < nc - 1 then k + 1 else NULL_INDEX, POISON_PREV)
    ensures d == Linear(Collect(start, n), nc)
  {
    var cs := Collect(start, n);
    CollectWalk(start, n);
    forall k | 1 <= k <= n
      ensures d[k] == Node(cs[k - 1], if k < n then k + 1 else NULL_INDEX, k - 1)
    {
      assert cs[k - 1] == WalkElem(start.list, start.current, k - 1);
    }
    LinearSlots(cs, nc, d);
  }

  /** An array laid out slot by slot as described is the linear layout. */
  lemma LinearSlots(cs: seq<int>, nc: nat, d: seq<Node>)
    requires |cs| < nc && |d| == nc
    requires d[0] == Node(POISON_ELEM, if |cs| > 0 then 1 else NULL_INDEX, |cs|)
    requires forall k :: 1 <= k <= |cs| ==> d[k] == Node(cs[k - 1], if k < |cs| then k + 1 else NULL_INDEX, k - 1)
    requires forall k :: |cs| < k < nc ==> d[k] == Node(POISON_ELEM, if k < nc - 1 then k + 1 else NULL_INDEX, POISON_PREV)
    ensures d == Linear(cs, nc)
  {
  }

  lemma CycleOfRange(n: nat)
    ensures Cycle(Range(1, n + 1)) == Range(0, n + 1)
  {
    assert Cycle(Range(1, n + 1)) == Range(0, n + 1);
  }

  /** The live and free ranges of the linear layout partition its slots. */
  lemma LinearPartition(n: nat, nc: nat)
    requires n < nc
    ensures Partition(Range(0, n + 1), Range(n + 1, nc), nc)
  {
    var c := Range(0, n + 1);
    var fc := Range(n + 1, nc);
    forall x | 0 <= x < nc ensures x in c || x in fc {
      if x <= n {
        assert c[x] == x;
      } else {
        assert fc[x - n - 1] == x;
      }
    }
  }

  /** The live range of the linear layout is a doubly linked cycle. */
  lemma LinearLinked(cs: seq<int>, nc: nat)
    requires |cs| < nc
    ensures Linked(Linear(cs, nc), Range(0, |cs| + 1))
  {
    var c := Range(0, |cs| + 1);
    var d := Linear(cs, nc);
    forall k | 0 <= k < |c|
      ensures 0 <= c[k] < |d| && d[c[k]].next == NextIn(c, k) && d[c[k]].prev == PrevIn(c, k)
    {
      assert c[k] == k;
    }
  }

  /** The free range of the linear layout is the chain from `LinearFree`. */
  lemma LinearChained(cs: seq<int>, nc: nat)
    requires |cs| < nc
    ensures Chained(Linear(cs, nc), LinearFree(|cs|, nc), Range(|cs| + 1, nc))
  {
    var fc := Range(|cs| + 1, nc);
    var d := Linear(cs, nc);
    forall k | 0 <= k < |fc| ensures 0 <= fc[k] < |d| && d[fc[k]].next == ChainNext(fc, k) {
      assert fc[k] == |cs| + 1 + k;
    }
  }

  /** Exactly the free range of the linear layout is poisoned. */
  lemma LinearPoison(cs: seq<int>, nc: nat)
    requires |cs| < nc
    ensures PoisonMarks(Linear(cs, nc), Range(|cs| + 1, nc))
  {
    var fc := Range(|cs| + 1, nc);
    var d := Linear(cs, nc);
    forall x | 0 <= x < |d| ensures d[x].prev == POISON_PREV <==> x in fc {
      if x > |cs| {
        assert fc[x - |cs| - 1] == x;
      }
    }
  }

  /** The four parts of the structure assemble into it. */
  lemma Assemble(l: List, order: seq<int>, c: seq<int>, fc: seq<int>)
    requires c == Cycle(order) && |l.data| == l.capacity && l.size == |order|
    requires Partition(c, fc, l.capacity) && Linked(l.data, c)
    requires Chained(l.data, l.free, fc) && PoisonMarks(l.data, fc)
    ensures Valid(l, order, fc)
  {
    StructuredInBounds(l, order, fc);
  }

  /** The linear layout of any values is a well-formed list holding them, with
      live slots `1 .. |cs|` and free slots `|cs|+1 .. nc-1`. */
  lemma LinearValid(cs: seq<int>, nc: nat)
    requires |cs| < nc
    ensures Valid(List(Linear(cs, nc), nc, |cs|, LinearFree(|cs|, nc)), Range(1, |cs| + 1), Range(|cs| + 1, nc))
    ensures Contents(List(Linear(cs, nc), nc, |cs|, LinearFree(|cs|, nc)), Range(1, |cs| + 1)) == cs
  {
    var l := List(Linear(cs, nc), nc, |cs|, LinearFree(|cs|, nc));
    CycleOfRange(|cs|);
    LinearPartition(|cs|, nc);
    LinearLinked(cs, nc);
    LinearChained(cs, nc);
    LinearPoison(cs, nc);
    Assemble(l, Range(1, |cs| + 1), Range(0, |cs| + 1), Range(|cs| + 1, nc));
    LinearContents(cs, nc);
  }

  /** The live slots of the linear layout hold `cs` in order. */
  lemma LinearContents(cs: seq<int>, nc: nat)
    requires |cs| < nc
    ensures Contents(List(Linear(cs, nc), nc, |cs|, LinearFree(|cs|, nc)), Range(1, |cs| + 1)) == cs
  {
    var l := List(Linear(cs, nc), nc, |cs|, LinearFree(|cs|, nc));
    var o := Range(1, |cs| + 1);
    forall k | 0 <= k < |cs| ensures Contents(l, o)[k] == cs[k] {
      assert o[k] == k + 1;
    }
  }

  /** The exit check passes on the linear layout. */
  lemma LinearPassesValidate(cs: seq<int>, nc: nat)
    requires |cs| < nc
    ensures Validate(List(Linear(cs, nc), nc, |cs|, LinearFree(|cs|, nc))) == 0
  {
    LinearValid(cs, nc);
    ValidPassesValidate(List(Linear(cs, nc), nc, |cs|, LinearFree(|cs|, nc)), Range(1, |cs| + 1), Range(|cs| + 1, nc));
  }

  /** After a rebuild, traversal from the head visits slots `1, 2, ..., size`
      in order and then the sentinel. */
  lemma RestoredTraversal(cs: seq<int>, nc: nat, k: nat)
    requires |cs| < nc && k <= |cs|
    ensures InBounds(List(Linear(cs, nc), nc, |cs|, LinearFree(|cs|, nc)))
    ensures AdvanceN(MakeConst(List(Linear(cs, nc), nc, |cs|, LinearFree(|cs|, nc))), k).current
         == (if k < |cs| then k + 1 else NULL_INDEX)
  {
    LinearValid(cs, nc);
    Traversal(List(Linear(cs, nc), nc, |cs|, LinearFree(|cs|, nc)), Range(1, |cs| + 1), Range(|cs| + 1, nc), k);
  }

  // -------------------------------------------------- the rebuild as written

  /** The copying loop of the source: slots `i .. sz-1` receive the values
      met by successive `next` calls, linked to their neighbours. */
  function CopyRun(it: Iter, temp: seq<Node>, i: int, sz: int): (r: (seq<Node>, Iter))
    requires Usable(it) && Validate(it.list) == 0 && 0 <= i && sz <= |temp|
    ensures |r.0| == |temp| && Usable(r.1) && r.1.list == it.list
    decreases sz - i
  {
    if i < sz then CopyRun(Next(it).0, temp[i := Node(Value(it).value, i + 1, i - 1)], i + 1, sz)
    else (temp, it)
  }

  /** The free-chain loop of the source: slots `i .. nc-2` point forward. */
  function FillRun(temp: seq<Node>, i: int, nc: int): (r: seq<Node>)
    requires 0 <= i && nc <= |temp|
    ensures |r| == |temp|
    decreases nc - i
  {
    if i < nc - 1 then FillRun(temp[i := Node(POISON_ELEM, i + 1, POISON_PREV)], i + 1, nc)
    else temp
  }

  /** `list_restoreLinearity` as written. `garbage` is the content of the
      fresh allocation. The source writes slot 1 before checking the size,
      so the new capacity must be at least 2. */
  function RestoreAsWritten(l: List, newCapacity: nat, garbage: seq<Node>): (r: Outcome<()>)
    requires LinksInRange(l)
    requires Validate(l) == 0 ==> 2 <= Nc(l, newCapacity) && |garbage| == Nc(l, newCapacity)
    ensures Validate(l) != 0 ==> r == Outcome(l, (), Structural(Validate(l)))
    ensures Validate(l) == 0 ==>
      && r.list.capacity == Nc(l, newCapacity) && |r.list.data| == Nc(l, newCapacity)
      && r.list.size == l.size
      && r.list.data[Nc(l, newCapacity) - 1] == Node(POISON_ELEM, NULL_INDEX, POISON_PREV)
  {
    var mask := Validate(l);
    if mask != 0 then Outcome(l, (), Structural(mask))
    else
      var nc := Nc(l, newCapacity);
      var t0 := garbage[0 := Node(POISON_ELEM, 1, l.size)];
      var sz := if l.size < nc then l.size else nc - 1;
      var it0 := MakeMutable(l);
      var t1 := t0[1 := Node(Value(it0).value, if l.size == 1 then 1 else 2, 0)];
      var it1 := Next(it0).0;
      var run := CopyRun(it1, t1, 2, sz);
      var i := if sz > 2 then sz else 2;
      var t3 := run.0[sz := Node(Value(run.1).value, if sz == l.size then NULL_INDEX else sz + 1, i - 1)];
      var t4 := FillRun(t3, i + 1, nc);
      var t5 := t4[nc - 1 := Node(POISON_ELEM, NULL_INDEX, POISON_PREV)];
      Checked(List(t5, nc, l.size, i + 1), (), ())
  }

  /** Where `CopyRun` leaves the iterator: `sz - i` links further on. */
  lemma {:induction false} CopyRunIter(it: Iter, temp: seq<Node>, i: int, sz: int, s: int)
    requires Usable(it) && Validate(it.list) == 0 && 1 <= i && sz <= |temp|
    requires 0 <= s < it.list.capacity && it.current == Walk(it.list, s, i - 1)
    ensures CopyRun(it, temp, i, sz).1.list == it.list
    ensures CopyRun(it, temp, i, sz).1.current == Walk(it.list, s, (if sz > i then sz else i) - 1)
    decreases sz - i
  {
    if i < sz {
      var t := temp[i := Node(Value(it).value, i + 1, i - 1)];
      var it' := Next(it).0;
      assert it'.current == Walk(it.list, s, i);
      assert CopyRun(it, temp, i, sz) == CopyRun(it', t, i + 1, sz);
      CopyRunIter(it', t, i + 1, sz, s);
    }
  }

  /** `CopyRun` leaves the slots outside `i .. sz-1` alone. */
  lemma {:induction false} CopyRunFrame(it: Iter, temp: seq<Node>, i: int, sz: int, k: int)
    requires Usable(it) && Validate(it.list) == 0 && 0 <= i && sz <= |temp|
    requires 0 <= k < |temp| && !(i <= k < sz)
    ensures CopyRun(it, temp, i, sz).0[k] == temp[k]
    decreases sz - i
  {
    if i < sz {
      CopyRunFrame(Next(it).0, temp[i := Node(Value(it).value, i + 1, i - 1)], i + 1, sz, k);
    }
  }

  /** `CopyRun` writes slot `k` of `i .. sz-1` with the element `k - 1`
      links on from slot `s`. */
  lemma {:induction false} CopyRunSlot(it: Iter, temp: seq<Node>, i: int, sz: int, s: int, k: int)
    requires Usable(it) && Validate(it.list) == 0 && 1 <= i && sz <= |temp|
    requires 0 <= s < it.list.capacity && it.current == Walk(it.list, s, i - 1) && i <= k < sz
    ensures CopyRun(it, temp, i, sz).0[k] == Node(WalkElem(it.list, s, k - 1), k + 1, k - 1)
    decreases sz - i
  {
    var t := temp[i := Node(Value(it).value, i + 1, i - 1)];
    var it' := Next(it).0;
    assert it'.current == Walk(it.list, s, i);
    assert CopyRun(it, temp, i, sz) == CopyRun(it', t, i + 1, sz);
    if k == i {
      CopyRunFrame(it', t, i + 1, sz, k);
    } else {
      CopyRunSlot(it', t, i + 1, sz, s, k);
    }
  }

  /** What `FillRun` writes. */
  lemma {:induction false} FillRunSlots(temp: seq<Node>, i: int, nc: int)
    requires 0 <= i && nc <= |temp|
    ensures forall k :: 0 <= k < |temp| && !(i <= k < nc - 1) ==> FillRun(temp, i, nc)[k] == temp[k]
    ensures forall k :: i <= k < nc - 1 ==> FillRun(temp, i, nc)[k] == Node(POISON_ELEM, k + 1, POISON_PREV)
    decreases nc - i
  {
    if i < nc - 1 {
      FillRunSlots(temp[i := Node(POISON_ELEM, i + 1, POISON_PREV)], i + 1, nc);
    }
  }

  /** With at least two elements and at least one slot left free, the source
      produces exactly the linear layout, whatever the allocation held. */
  lemma RestoreAsWrittenAgrees(l: List, newCapacity: nat, garbage: seq<Node>)
    requires LinksInRange(l) && Validate(l) == 0
    requires 2 <= l.size && l.size + 2 <= Nc(l, newCapacity) && |garbage| == Nc(l, newCapacity)
    ensures RestoreAsWritten(l, newCapacity, garbage)
         == Outcome(List(Linear(Collect(MakeMutable(l), l.size), Nc(l, newCapacity)),
                         Nc(l, newCapacity), l.size, l.size + 1), (), NoError)
  {
    var nc := Nc(l, newCapacity);
    var n := l.size;
    var start := MakeMutable(l);
    var t1 := garbage[0 := Node(POISON_ELEM, 1, n)][1 := Node(Value(start).value, 2, 0)];
    var run := CopyRun(Next(start).0, t1, 2, n);
    var t3 := run.0[n := Node(Value(run.1).value, NULL_INDEX, n - 1)];
    var t5 := FillRun(t3, n + 1, nc)[nc - 1 := Node(POISON_ELEM, NULL_INDEX, POISON_PREV)];
    AsWrittenLinear(start, garbage, n, nc);
    assert t5 == Linear(Collect(start, n), nc);
    LinearPassesValidate(Collect(start, n), nc);
  }

  /** The slot-by-slot comparison behind `RestoreAsWrittenAgrees`. */
  lemma AsWrittenLinear(start: Iter, garbage: seq<Node>, n: nat, nc: nat)
    requires Usable(start) && Validate(start.list) == 0
    requires 2 <= n && n + 2 <= nc && |garbage| == nc
    ensures var t1 := garbage[0 := Node(POISON_ELEM, 1, n)][1 := Node(Value(start).value, 2, 0)];
      var run := CopyRun(Next(start).0, t1, 2, n);
      var t3 := run.0[n := Node(Value(run.1).value, NULL_INDEX, n - 1)];
      FillRun(t3, n + 1, nc)[nc - 1 := Node(POISON_ELEM, NULL_INDEX, POISON_PREV)] == Linear(Collect(start, n), nc)
  {
    var t1 := garbage[0 := Node(POISON_ELEM, 1, n)][1 := Node(Value(start).value, 2, 0)];
    var run := CopyRun(Next(start).0, t1, 2, n);
    var t3 := run.0[n := Node(Value(run.1).value, NULL_INDEX, n - 1)];
    AsWrittenCopied(start, garbage, n, nc);
    FillRunSlots(t3, n + 1, nc);
    var t5 := FillRun(t3, n + 1, nc)[nc - 1 := Node(POISON_ELEM, NULL_INDEX, POISON_PREV)];
    RebuiltIsLinear(start, n, nc, t5);
  }

  /** Slots `0 .. n` after the copying part of the source. */
  lemma AsWrittenCopied(start: Iter, garbage: seq<Node>, n: nat, nc: nat)
    requires Usable(start) && Validate(start.list) == 0
    requires 2 <= n && n + 2 <= nc && |garbage| == nc
    ensures 0 <= start.current < start.list.capacity
    ensures var t1 := garbage[0 := Node(POISON_ELEM, 1, n)][1 := Node(Value(start).value, 2, 0)];
      var run := CopyRun(Next(start).0, t1, 2, n);
      var t3 := run.0[n := Node(Value(run.1).value, NULL_INDEX, n - 1)];
      && |t3| == nc
      && t3[0] == Node(POISON_ELEM, 1, n)
      && forall k :: 1 <= k <= n ==>
           t3[k] == Node(WalkElem(start.list, start.current, k - 1), if k < n then k + 1 else NULL_INDEX, k - 1)
  {
    var l := start.list;
    var s := start.current;
    var t1 := garbage[0 := Node(POISON_ELEM, 1, n)][1 := Node(Value(start).value, 2, 0)];
    var it1 := Next(start).0;
    assert it1.current == Walk(l, s, 1);
    var run := CopyRun(it1, t1, 2, n);
    CopyRunIter(it1, t1, 2, n, s);
    var t3 := run.0[n := Node(Value(run.1).value, NULL_INDEX, n - 1)];
    CopyRunFrame(it1, t1, 2, n, 0);
    CopyRunFrame(it1, t1, 2, n, 1);
    forall k | 2 <= k < n
      ensures t3[k] == Node(WalkElem(l, s, k - 1), k + 1, k - 1)
    {
      CopyRunSlot(it1, t1, 2, n, s, k);
    }
  }

  // ------------------------------------------------------ where they differ

  /** A well-formed list holding the single element 7. */
  function OneElement(): List
  {
    List([Node(POISON_ELEM, 1, 1), Node(7, NULL_INDEX, NULL_INDEX), Node(POISON_ELEM, NULL_INDEX, POISON_PREV)], 3, 1, 2)
  }

  /** As written, rebuilding a one-element list loses the element: the
      iterator has already moved on to the sentinel when slot 1 is written
      for the second time, so slot 1 gets the sentinel's element and a
      `prev` of 1, and `free` skips to 3, outside the array. The exit check
      passes, so no error is reported. */
  lemma RestoreAsWrittenLosesSingle()
    ensures Validate(OneElement()) == 0
    ensures var r := RestoreAsWritten(OneElement(), 0, seq(3, _ => Node(0, 0, 0)));
      && r.err == NoError
      && r.list.data[1] == Node(POISON_ELEM, NULL_INDEX, 1)
      && r.list.free == 3 == r.list.capacity
  {
    var l := OneElement();
    assert Validate(l) == 0;
    var it0 := MakeMutable(l);
    assert it0.current == 1 && Value(it0).value == 7;
    var it1 := Next(it0).0;
    assert it1.current == NULL_INDEX && Value(it1).value == POISON_ELEM;
    var t1 := seq(3, _ => Node(0, 0, 0))[0 := Node(POISON_ELEM, 1, 1)][1 := Node(7, 1, 0)];
    assert CopyRun(it1, t1, 2, 1) == (t1, it1);
    var t3 := t1[1 := Node(POISON_ELEM, NULL_INDEX, 1)];
    assert FillRun(t3, 3, 3) == t3;
    var t5 := t3[2 := Node(POISON_ELEM, NULL_INDEX, POISON_PREV)];
    assert Validate(List(t5, 3, 1, 3)) == 0;
  }

  /** `OneElement` is well formed. */
  lemma OneElementValid(l: List)
    requires l == OneElement()
    ensures Valid(l, [1], [2])
  {
    var c := Cycle([1]);
    assert c == [0, 1];
    OneElementPartition(c);
    OneElementLinked(l.data, c);
    assert Chained(l.data, l.free, [2]);
    assert PoisonMarks(l.data, [2]) by {
      forall x | 0 <= x < |l.data| ensures l.data[x].prev == POISON_PREV <==> x in [2] {
        assert x == 0 || x == 1 || x == 2;
      }
    }
    Assemble(l, [1], c, [2]);
  }

  /** Slots 0 and 1 of `OneElement` are on its cycle, slot 2 is free. */
  lemma OneElementPartition(c: seq<int>)
    requires c == [0, 1]
    ensures Partition(c, [2], 3)
  {
    forall x | 0 <= x < 3 ensures x in c || x in [2] {
      assert x == 0 || x == 1 || x == 2;
    }
  }

  /** The cycle of `OneElement` is doubly linked. */
  lemma OneElementLinked(d: seq<Node>, c: seq<int>)
    requires d == OneElement().data && c == [0, 1]
    ensures Linked(d, c)
  {
    assert NextIn(c, 0) == 1 && NextIn(c, 1) == 0;
    assert PrevIn(c, 0) == 1 && PrevIn(c, 1) == 0;
  }

  /** `OneElement` holds 7. */
  lemma OneElementContents()
    ensures Contents(OneElement(), [1]) == [7]
  {
    assert Contents(OneElement(), [1])[0] == 7;
  }

  /** `FullTwo` holds 10 then 20. */
  lemma FullTwoContents()
    ensures Contents(FullTwo(), [1, 2]) == [10, 20]
  {
    assert Contents(FullTwo(), [1, 2])[0] == 10 && Contents(FullTwo(), [1, 2])[1] == 20;
  }

  /** As written, rebuilding the full list `FullTwo` in place loses its last
      element 20: the terminator write to slot `nc - 1` overwrites it, and
      `free` is set to `nc`, outside the array. The exit check passes, so no
      error is reported. */
  lemma RestoreAsWrittenLosesLast()
    ensures Validate(FullTwo()) == 0
    ensures var r := RestoreAsWritten(FullTwo(), 0, seq(3, _ => Node(0, 0, 0)));
      && r.err == NoError
      && r.list.data[1] == Node(10, 2, NULL_INDEX)
      && r.list.data[2] == Node(POISON_ELEM, NULL_INDEX, POISON_PREV)
      && r.list.free == 3 == r.list.capacity
  {
    var l := FullTwo();
    assert Validate(l) == 0;
    var it0 := MakeMutable(l);
    assert it0.current == 1 && Value(it0).value == 10;
    var it1 := Next(it0).0;
    assert it1.current == 2;
    var t1 := seq(3, _ => Node(0, 0, 0))[0 := Node(POISON_ELEM, 1, 2)][1 := Node(10, 2, 0)];
    assert CopyRun(it1, t1, 2, 2) == (t1, it1);
    assert Value(it1).value == 20;
    var t3 := t1[2 := Node(20, NULL_INDEX, 1)];
    assert FillRun(t3, 3, 3) == t3;
    var t5 := t3[2 := Node(POISON_ELEM, NULL_INDEX, POISON_PREV)];
    assert Validate(List(t5, 3, 2, 3)) == 0;
  }

  /** A freshly initialised empty list with room for four elements. */
  function EmptyFour(): List
  {
    List([Node(POISON_ELEM, 0, 0), Node(POISON_ELEM, 2, POISON_PREV), Node(POISON_ELEM, 3, POISON_PREV),
          Node(POISON_ELEM, 4, POISON_PREV), Node(POISON_ELEM, NULL_INDEX, POISON_PREV)], 5, 0, 1)
  }

  /** As written, rebuilding an empty list breaks it: `temp[size]` is the
      sentinel's slot, so the sentinel is rewritten with slot 1 as its tail
      while the size stays 0; `free` skips to 3, so slot 2 keeps whatever
      the allocation held and is lost from the free chain. The exit check
      passes, so no error is reported. */
  lemma RestoreAsWrittenLosesEmpty()
    ensures EmptyFour() == Init(4).list && Validate(EmptyFour()) == 0
    ensures var r := RestoreAsWritten(EmptyFour(), 0, seq(5, _ => Node(99, 77, 55)));
      && r.err == NoError && r.list.size == 0
      && r.list.data[NULL_INDEX] == Node(POISON_ELEM, NULL_INDEX, 1)
      && r.list.data[2] == Node(99, 77, 55)
      && r.list.free == 3
  {
    var l := EmptyFour();
    assert l.data == Init(4).list.data by {
      forall k | 0 <= k < 5 ensures l.data[k] == Init(4).list.data[k] { }
    }
    assert Validate(l) == 0;
    var it0 := MakeMutable(l);
    assert it0.current == NULL_INDEX;
    var it1 := Next(it0).0;
    assert it1.current == NULL_INDEX;
    var g := seq(5, _ => Node(99, 77, 55));
    var t1 := g[0 := Node(POISON_ELEM, 1, 0)][1 := Node(POISON_ELEM, 2, 0)];
    assert CopyRun(it1, t1, 2, 0) == (t1, it1);
    var t3 := t1[0 := Node(POISON_ELEM, NULL_INDEX, 1)];
    FillRunSlots(t3, 3, 5);
    var t5 := FillRun(t3, 3, 5)[4 := Node(POISON_ELEM, NULL_INDEX, POISON_PREV)];
    assert t5[2] == Node(99, 77, 55);
    assert Validate(List(t5, 5, 0, 3)) == 0;
  }

  /** The intended rebuild keeps all three lists intact. */
  lemma RestoreIntendedKeeps()
    ensures Linear([7], 3) == OneElement().data && LinearFree(1, 3) == OneElement().free
    ensures Linear([10, 20], 3) == FullTwo().data && LinearFree(2, 3) == FullTwo().free
    ensures Linear([], 5) == EmptyFour().data && LinearFree(0, 5) == EmptyFour().free
  {
    assert Linear([], 5) == EmptyFour().data by {
      forall k | 0 <= k < 5 ensures Linear([], 5)[k] == EmptyFour().data[k] { }
    }
    assert Linear([7], 3) == OneElement().data by {
      forall k | 0 <= k < 3 ensures Linear([7], 3)[k] == OneElement().data[k] { }
    }
    assert Linear([10, 20], 3) == FullTwo().data by {
      forall k | 0 <= k < 3 ensures Linear([10, 20], 3)[k] == FullTwo().data[k] { }
    }
  }
}
