/**
 Construction, teardown and growth of the slot array: `do_initList` with its
 helper `createDataArray`, `destroyList`, and the growing path of
 `list_resize`.
 */
module ListAlloc {
  import opened ListLayout
  import opened ListValidate
  import opened ListInvariant

  /** The integers `lo, lo+1, .., hi-1`. */
  function Range(lo: int, hi: int): (s: seq<int>)
    requires lo <= hi
    ensures |s| == hi - lo
    ensures forall k :: 0 <= k < |s| ==> s[k] == lo + k
  {
    seq(hi - lo, k => lo + k)
  }

  /** A non-empty range starts at `lo` and continues with the range after it. */
  lemma RangeTail(lo: int, hi: int)
    requires lo < hi
    ensures Range(lo, hi)[0] == lo && Range(lo, hi)[1..] == Range(lo + 1, hi)
  {
    assert Range(lo, hi)[1..] == Range(lo + 1, hi);
  }

  /** Slots `1 .. cap-1` of a fresh array as `createDataArray` writes them:
      poisoned, each pointing to the next and the last to `nullindex`. */
  function FreshSlot(i: int, cap: int): Node
  {
    Node(POISON_ELEM, if i == cap - 1 then NULL_INDEX else i + 1, POISON_PREV)
  }

  /** Adds the exit `CHECK_VALID` of an operation to its mutated state. */
  function Checked<T>(l: List, ret: T, failRet: T): (r: Outcome<T>)
    requires HasSentinel(l)
    ensures r.list == l
    ensures Validate(l) == 0 ==> r.ret == ret && r.err == NoError
    ensures Validate(l) != 0 ==> r.ret == failRet && r.err == Structural(Validate(l))
  {
    var mask := Validate(l);
    if mask != 0 then Outcome(l, failRet, Structural(mask)) else Outcome(l, ret, NoError)
  }

  /** `do_initList` exactly as written: for capacity 0 the loop is empty, and
      the final write of slot `capacity` (here slot 0) turns the sentinel into
      a poisoned free slot, and `free` is set to 1, past the end of the array. */
  function InitAsWritten(capacity: nat): (r: Outcome<()>)
    ensures r.list.capacity == capacity + 1 && |r.list.data| == capacity + 1
    ensures r.list.size == 0 && r.list.free == 1
  {
    var cap := capacity + 1;
    var data := seq(cap, i => if i == 0 then Node(POISON_ELEM, 0, 0) else FreshSlot(i, cap));
    var data' := data[cap - 1 := Node(POISON_ELEM, NULL_INDEX, POISON_PREV)];
    Checked(List(data', cap, 0, 1), (), ())
  }

  /** `do_initList` with the capacity-0 case handled as evidently intended:
      an array holding only the sentinel and an empty free chain. For every
      other capacity this is the code as written. Capacity `c` gives an array
      of `c + 1` slots: the sentinel `{poison, 0, 0}` and a free chain
      `1 -> 2 -> .. -> c -> nullindex` of poisoned slots. */
  function Init(capacity: nat): (r: Outcome<()>)
    ensures r.err == NoError
    ensures r.list.capacity == capacity + 1 && |r.list.data| == capacity + 1
    ensures r.list.size == 0
    ensures r.list.free == (if capacity == 0 then NULL_INDEX else 1)
    ensures r.list.data[0] == Node(POISON_ELEM, 0, 0)
    ensures forall i :: 1 <= i <= capacity ==>
      r.list.data[i] == Node(POISON_ELEM, if i == capacity then NULL_INDEX else i + 1, POISON_PREV)
  {
    var cap := capacity + 1;
    var data := seq(cap, i => if i == 0 then Node(POISON_ELEM, 0, 0) else FreshSlot(i, cap));
    Checked(List(data, cap, 0, if capacity == 0 then NULL_INDEX else 1), (), ())
  }

  /** For every capacity but 0, `Init` is the initialiser as written. */
  lemma InitAgreesFromOne(capacity: nat)
    requires capacity >= 1
    ensures InitAsWritten(capacity) == Init(capacity)
  {
    var cap := capacity + 1;
    var a := InitAsWritten(capacity).list.data;
    var b := Init(capacity).list.data;
    assert a == b by {
      forall i | 0 <= i < cap ensures a[i] == b[i] {}
    }
  }

  /** Capacity 0 as written: the only slot, the sentinel, is marked free and
      `free` points outside the array, yet `validateList` reports nothing. */
  lemma InitZeroAsWrittenBreaksSentinel()
    ensures var l := InitAsWritten(0).list;
      && l.data[0].prev == POISON_PREV
      && l.free == |l.data|
      && !InBounds(l)
      && Validate(l) == 0
      && InitAsWritten(0).err == NoError
  {
  }

  /** A fresh list is well formed: nothing live, every slot but the sentinel
      on the free chain in index order. */
  lemma InitValid(capacity: nat)
    ensures Valid(Init(capacity).list, [], Range(1, capacity + 1))
  {
    FreshValid(Init(capacity).list, capacity);
  }

  /** The slot-level facts `Init` ensures make a well-formed empty list. */
  lemma FreshValid(l: List, capacity: nat)
    requires |l.data| == l.capacity == capacity + 1 && l.size == 0
    requires l.free == (if capacity == 0 then NULL_INDEX else 1)
    requires l.data[0] == Node(POISON_ELEM, 0, 0)
    requires forall i :: 1 <= i <= capacity ==>
      l.data[i] == Node(POISON_ELEM, if i == capacity then NULL_INDEX else i + 1, POISON_PREV)
    ensures Valid(l, [], Range(1, capacity + 1))
  {
    var c := Cycle([]);
    var fc := Range(1, capacity + 1);
    assert c == [0];
    FreshPartition(c, fc, capacity);
    assert Linked(l.data, c) by {
      assert NextIn(c, 0) == 0 && PrevIn(c, 0) == 0;
    }
    assert Chained(l.data, l.free, fc) by {
      forall k | 0 <= k < |fc| ensures l.data[fc[k]].next == ChainNext(fc, k) {
        assert fc[k] == k + 1;
      }
    }
    assert PoisonMarks(l.data, fc) by {
      forall x | 0 <= x < |l.data| ensures l.data[x].prev == POISON_PREV <==> x in fc {
        if x > 0 {
          assert fc[x - 1] == x;
        }
      }
    }
    assert Structured(l, [], fc);
    StructuredInBounds(l, [], fc);
  }

  /** The sentinel alone on the cycle, every other slot on the free chain. */
  lemma FreshPartition(c: seq<int>, fc: seq<int>, capacity: nat)
    requires c == [0] && fc == Range(1, capacity + 1)
    ensures Partition(c, fc, capacity + 1)
  {
    forall x | 0 <= x < capacity + 1 ensures x in c || x in fc {
      if x > 0 {
        assert fc[x - 1] == x;
      }
    }
  }

  /** `destroyList`: unless validation fails, the array is released and every
      counter is zeroed. */
  function Destroy(l: List): (r: Outcome<()>)
    requires HasSentinel(l)
    ensures Validate(l) != 0 ==> r == Outcome(l, (), Structural(Validate(l)))
    ensures Validate(l) == 0 ==>
      r.err == NoError && r.list.data == [] && r.list.capacity == 0 && r.list.size == 0 && r.list.free == NULL_INDEX
  {
    var mask := Validate(l);
    if mask != 0 then Outcome(l, (), Structural(mask))
    else Outcome(List([], 0, 0, NULL_INDEX), (), NoError)
  }

  /** Slot `cap + j` of the extension `list_resize` appends when growing to
      `newCap`: poisoned, chained to the next new slot, and the last one to
      `tailLink`. */
  function GrownSlot(cap: int, newCap: int, j: int, tailLink: int): Node
  {
    Node(POISON_ELEM, if cap + j == newCap - 1 then tailLink else cap + j + 1, POISON_PREV)
  }

  /** The array after growing: old slots kept, new ones appended. */
  function GrownData(l: List, newCap: nat): (d: seq<Node>)
    requires |l.data| == l.capacity < newCap
    ensures |d| == newCap
    ensures d[..l.capacity] == l.data
    ensures forall i :: l.capacity <= i < newCap ==> d[i] == GrownSlot(l.capacity, newCap, i - l.capacity, l.free)
  {
    l.data + seq(newCap - l.capacity, j => GrownSlot(l.capacity, newCap, j, l.free))
  }

  /** The growing path of `list_resize` exactly as written: `free` becomes
      `newCap - capacity` when the chain was exhausted. */
  function GrowAsWritten(l: List, newCap: nat): (r: Outcome<()>)
    requires HasSentinel(l) && |l.data| == l.capacity < newCap
    ensures Validate(l) != 0 ==> r == Outcome(l, (), Structural(Validate(l)))
    ensures Validate(l) == 0 ==>
      && r.list.capacity == newCap && r.list.size == l.size
      && r.list.free == (if l.free == NULL_INDEX then newCap - l.capacity else l.free)
  {
    var mask := Validate(l);
    if mask != 0 then Outcome(l, (), Structural(mask))
    else
      var free := if l.free == NULL_INDEX then newCap - l.capacity else l.free;
      Checked(List(GrownData(l, newCap), newCap, l.size, free), (), ())
  }

  /** The growing path of `list_resize` with the evident intent: an exhausted
      chain restarts at the first new slot, `capacity`. When doubling this is
      the code as written (`GrowDoublingAgrees`), and doubling is the only
      growth the list performs on its own. The new slots are chained in index
      order, the last one linked to whatever `free` held; a chain that was
      not exhausted keeps its head, so then the new slots are unreachable,
      as in the source. */
  function Grow(l: List, newCap: nat): (r: Outcome<()>)
    requires HasSentinel(l) && |l.data| == l.capacity < newCap
    ensures Validate(l) != 0 ==> r == Outcome(l, (), Structural(Validate(l)))
    ensures Validate(l) == 0 ==>
      && r.list.capacity == newCap && |r.list.data| == newCap && r.list.size == l.size
      && r.list.data[..l.capacity] == l.data
      && (forall i :: l.capacity <= i < newCap ==>
            r.list.data[i].prev == POISON_PREV && r.list.data[i].elem == POISON_ELEM
            && r.list.data[i].next == (if i == newCap - 1 then l.free else i + 1))
      && r.list.free == (if l.free == NULL_INDEX then l.capacity else l.free)
  {
    var mask := Validate(l);
    if mask != 0 then Outcome(l, (), Structural(mask))
    else
      var free := if l.free == NULL_INDEX then l.capacity else l.free;
      Checked(List(GrownData(l, newCap), newCap, l.size, free), (), ())
  }

  /** Doubling the capacity: the as-written growth and the intended one agree. */
  lemma GrowDoublingAgrees(l: List)
    requires HasSentinel(l) && |l.data| == l.capacity
    ensures GrowAsWritten(l, 2 * l.capacity) == Grow(l, 2 * l.capacity)
  {
  }

  /** A well-formed full list of capacity 3 holding 10 and 20. */
  function FullTwo(): List
  {
    List([Node(POISON_ELEM, 1, 2), Node(10, 2, NULL_INDEX), Node(20, NULL_INDEX, 1)], 3, 2, NULL_INDEX)
  }

  /** `FullTwo` is well formed. */
  lemma FullTwoValid(l: List)
    requires l == FullTwo()
    ensures Valid(l, [1, 2], [])
  {
    var c := Cycle([1, 2]);
    assert c == [0, 1, 2];
    FullTwoPartition(c);
    FullTwoLinked(l.data, c);
    assert Chained(l.data, l.free, []);
    assert PoisonMarks(l.data, []) by {
      forall x | 0 <= x < |l.data| ensures l.data[x].prev != POISON_PREV {
        assert x == 0 || x == 1 || x == 2;
      }
    }
    assert Structured(l, [1, 2], []);
    StructuredInBounds(l, [1, 2], []);
  }

  /** The three slots of `FullTwo` all lie on its cycle. */
  lemma FullTwoPartition(c: seq<int>)
    requires c == [0, 1, 2]
    ensures Partition(c, [], 3)
  {
    forall x | 0 <= x < 3 ensures x in c {
      assert c[x] == x;
    }
  }

  /** The cycle of `FullTwo` is doubly linked. */
  lemma FullTwoLinked(d: seq<Node>, c: seq<int>)
    requires d == FullTwo().data && c == [0, 1, 2]
    ensures Linked(d, c)
  {
    assert NextIn(c, 0) == 1 && NextIn(c, 1) == 2 && NextIn(c, 2) == 0;
    assert PrevIn(c, 0) == 2 && PrevIn(c, 1) == 0 && PrevIn(c, 2) == 1;
  }

  /** Growing a list whose free chain is exhausted to anything but twice its
      capacity, as written: from the full list `FullTwo` to capacity 5,
      `free` becomes 2, the slot holding 20, so the next insert would
      overwrite a live element; `validateList` still reports nothing. */
  lemma GrowAsWrittenReusesLiveSlot()
    ensures Valid(FullTwo(), [1, 2], [])
    ensures var r := GrowAsWritten(FullTwo(), 5);
      && r.err == NoError
      && r.list.free == 2
      && r.list.data[2] == Node(20, 0, 1)
      && r.list.data[3].prev == POISON_PREV
      && Validate(r.list) == 0
  {
    FullTwoValid(FullTwo());
    GrowAsWrittenFullTwo(FullTwo());
  }

  /** The state `GrowAsWritten` leaves behind from `FullTwo`. */
  lemma GrowAsWrittenFullTwo(l: List)
    requires l == FullTwo()
    ensures var r := GrowAsWritten(l, 5);
      && r.err == NoError
      && r.list.free == 2
      && r.list.data[2] == Node(20, 0, 1)
      && r.list.data[3].prev == POISON_PREV
      && Validate(r.list) == 0
  {
    assert Validate(l) == 0;
    var g := List(GrownData(l, 5), 5, 2, 2);
    assert g.data[2] == Node(20, 0, 1) && g.data[3].prev == POISON_PREV;
    assert Validate(g) == 0;
  }

  /** Growth never fails its own validation on a list that passed it: the
      live count stays below the larger capacity, the head is untouched and
      `free` is non-null afterwards. */
  lemma GrowPassesValidate(l: List, newCap: nat)
    requires HasSentinel(l) && |l.data| == l.capacity < newCap
    requires Validate(l) == 0
    ensures Grow(l, newCap).err == NoError
  {
    var g := List(GrownData(l, newCap), newCap, l.size, if l.free == NULL_INDEX then l.capacity else l.free);
    assert Head(g) == Head(l);
    assert Validate(g) == 0;
  }

  /** Growth keeps every link inside the (larger) array. */
  lemma GrowInBounds(l: List, newCap: nat)
    requires InBounds(l) && l.capacity < newCap
    ensures InBounds(Grow(l, newCap).list)
  {
    var r := Grow(l, newCap).list;
    if Validate(l) == 0 {
      forall i | 0 <= i < newCap
        ensures 0 <= r.data[i].next < newCap
        ensures r.data[i].prev == POISON_PREV || 0 <= r.data[i].prev < newCap
      {
        if i < l.capacity {
          assert r.data[..l.capacity][i] == r.data[i];
        }
      }
    }
  }

  /** Links among slots below `cap` survive any change to slots above it. */
  lemma LinkedPrefix(d: seq<Node>, d': seq<Node>, c: seq<int>, cap: nat)
    requires Linked(d, c) && |d| == cap <= |d'| && d'[..cap] == d
    ensures Linked(d', c)
  {
    forall k | 0 <= k < |c| ensures d'[c[k]] == d[c[k]] {
      assert d'[..cap][c[k]] == d'[c[k]];
    }
  }

  /** Appending the slots `cap .. newCap-1` as a free chain to a partition
      whose chain was empty. */
  lemma PartitionGrown(c: seq<int>, cap: nat, newCap: nat)
    requires Partition(c, [], cap) && cap <= newCap
    ensures Partition(c, Range(cap, newCap), newCap)
  {
    var fc := Range(cap, newCap);
    forall x | 0 <= x < newCap ensures x in c || x in fc {
      if x >= cap {
        assert fc[x - cap] == x;
      } else {
        assert x in c || x in [];
      }
    }
  }

  /** The poison marks after growth: old slots were all unpoisoned (the chain
      was empty), new slots are all poisoned. */
  lemma PoisonMarksGrown(d: seq<Node>, d': seq<Node>, cap: nat)
    requires PoisonMarks(d, []) && |d| == cap <= |d'| && d'[..cap] == d
    requires forall i :: cap <= i < |d'| ==> d'[i].prev == POISON_PREV
    ensures PoisonMarks(d', Range(cap, |d'|))
  {
    var fc := Range(cap, |d'|);
    forall x | 0 <= x < |d'| ensures d'[x].prev == POISON_PREV <==> x in fc {
      if x < cap {
        assert d'[..cap][x] == d'[x];
        assert x !in [];
        assert x !in fc;
      } else {
        assert fc[x - cap] == x;
      }
    }
  }

  /** New slots chained in index order, the last one to `nullindex`. */
  lemma ChainedGrown(d: seq<Node>, cap: nat)
    requires cap < |d|
    requires forall i :: cap <= i < |d| ==> d[i].next == (if i == |d| - 1 then NULL_INDEX else i + 1)
    ensures Chained(d, cap, Range(cap, |d|))
  {
    var fc := Range(cap, |d|);
    forall k | 0 <= k < |fc| ensures d[fc[k]].next == ChainNext(fc, k) {
      assert fc[k] == cap + k;
    }
  }

  /** Growing a well-formed list with an exhausted free chain keeps it well
      formed: the live sequence, its links and its elements are unchanged, and
      the free chain becomes the new slots in index order. */
  lemma GrowValid(l: List, order: seq<int>, newCap: nat)
    requires Valid(l, order, [])
    requires l.capacity < newCap
    ensures var r := Grow(l, newCap);
      && r.err == NoError
      && r.list.free == l.capacity
      && Valid(r.list, order, Range(l.capacity, newCap))
      && Contents(r.list, order) == Contents(l, order)
  {
    GrowValidStructure(l, order, newCap);
    var r := Grow(l, newCap).list;
    var cap := l.capacity;
    ValidCounts(l, order, []);
    forall k | 0 <= k < |order| ensures r.data[order[k]].elem == l.data[order[k]].elem {
      assert r.data[..cap][order[k]] == r.data[order[k]];
    }
    ContentsFrame(l, r, order);
  }

  /** The structural half of `GrowValid`. */
  lemma GrowValidStructure(l: List, order: seq<int>, newCap: nat)
    requires Valid(l, order, [])
    requires l.capacity < newCap
    ensures var r := Grow(l, newCap);
      && r.err == NoError
      && r.list.free == l.capacity
      && Valid(r.list, order, Range(l.capacity, newCap))
  {
    GrowStructured(l, order, newCap);
    StructuredInBounds(Grow(l, newCap).list, order, Range(l.capacity, newCap));
  }

  /** The partition, links, chain and poison marks of a grown list. */
  lemma GrowStructured(l: List, order: seq<int>, newCap: nat)
    requires Valid(l, order, [])
    requires l.capacity < newCap
    ensures var r := Grow(l, newCap);
      && r.err == NoError
      && r.list.free == l.capacity
      && Structured(r.list, order, Range(l.capacity, newCap))
  {
    ValidPassesValidate(l, order, []);
    ValidCounts(l, order, []);
    GrowPassesValidate(l, newCap);
    GrownStructured(l, Grow(l, newCap).list, order, newCap);
  }

  /** A list whose old slots are kept and whose new slots are poisoned and
      chained in order is structured, with the new slots as its free chain. */
  lemma GrownStructured(l: List, r: List, order: seq<int>, newCap: nat)
    requires |l.data| == l.capacity < newCap && l.size == |order|
    requires Partition(Cycle(order), [], l.capacity) && Linked(l.data, Cycle(order)) && PoisonMarks(l.data, [])
    requires |r.data| == r.capacity == newCap && r.size == l.size && r.free == l.capacity
    requires r.data[..l.capacity] == l.data
    requires forall i :: l.capacity <= i < newCap ==>
      r.data[i].prev == POISON_PREV && r.data[i].next == (if i == newCap - 1 then NULL_INDEX else i + 1)
    ensures Structured(r, order, Range(l.capacity, newCap))
  {
    var c := Cycle(order);
    var cap := l.capacity;
    PartitionGrown(c, cap, newCap);
    LinkedPrefix(l.data, r.data, c, cap);
    ChainedGrown(r.data, cap);
    PoisonMarksGrown(l.data, r.data, cap);
  }
}
