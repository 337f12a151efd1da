/**
 The two link rewrites the list is built from, stated on the abstract
 witnesses: splicing a slot taken from the head of the free chain into the
 circular live sequence, and splicing a live slot out of it onto the free
 chain. Each lemma here re-establishes one part of the invariant.
 */
module ListSplice {
  import opened ListLayout
  import opened ListInvariant

  /** `c` with `f` placed right after position `p`. */
  function InsertedAfter(c: seq<int>, p: int, f: int): (r: seq<int>)
    requires 0 <= p < |c|
    ensures |r| == |c| + 1
    ensures forall k :: 0 <= k <= p ==> r[k] == c[k]
    ensures r[p + 1] == f
    ensures forall k :: p + 1 < k < |r| ==> r[k] == c[k - 1]
  {
    c[..p + 1] + [f] + c[p + 1..]
  }

  /** `c` without its element at position `p`. */
  function RemovedAt(c: seq<int>, p: int): (r: seq<int>)
    requires 0 <= p < |c|
    ensures |r| == |c| - 1
    ensures forall k :: 0 <= k < p ==> r[k] == c[k]
    ensures forall k :: p <= k < |r| ==> r[k] == c[k + 1]
  {
    c[..p] + c[p + 1..]
  }

  /** `d'` is `d` with free slot `f` (holding `e`) linked between `a` and its
      successor `s`, and nothing else changed. When `a == s` the sequence held
      only the sentinel, which then points to `f` both ways. */
  ghost predicate SplicedIn(d: seq<Node>, d': seq<Node>, a: int, s: int, f: int, e: int)
  {
    && |d'| == |d|
    && 0 <= a < |d| && 0 <= s < |d| && 0 <= f < |d| && f != a && f != s
    && d'[f] == Node(e, s, a)
    && d'[a] == (if a == s then d[a].(next := f, prev := f) else d[a].(next := f))
    && (a != s ==> d'[s] == d[s].(prev := f))
    && (forall i :: 0 <= i < |d| && i != f && i != a && i != s ==> d'[i] == d[i])
  }

  /** `d'` is `d` with slot `a` unlinked from between `pv` and `nx`, poisoned
      and pointed at the old free head `free`, and nothing else changed. When
      `nx == pv` the sequence is left holding only the sentinel. */
  ghost predicate SplicedOut(d: seq<Node>, d': seq<Node>, a: int, nx: int, pv: int, free: int)
  {
    && |d'| == |d|
    && 0 <= a < |d| && 0 <= nx < |d| && 0 <= pv < |d| && a != nx && a != pv
    && d'[a] == Node(POISON_ELEM, free, POISON_PREV)
    && (nx == pv ==> d'[nx] == d[nx].(next := nx, prev := pv))
    && (nx != pv ==> d'[nx] == d[nx].(prev := pv) && d'[pv] == d[pv].(next := nx))
    && (forall i :: 0 <= i < |d| && i != a && i != nx && i != pv ==> d'[i] == d[i])
  }

  /** Values on the free chain are never on the live cycle. */
  lemma FreeNotLive(c: seq<int>, fc: seq<int>, cap: nat, j: int)
    requires Partition(c, fc, cap) && 0 <= j < |fc|
    ensures fc[j] !in c
  {
    assert forall i :: 0 <= i < |c| ==> c[i] != fc[j];
  }

  // ---------------------------------------------------------------- insertion

  /** Taking the first free slot onto the cycle keeps the partition. */
  lemma PartitionInsert(c: seq<int>, fc: seq<int>, cap: nat, p: int)
    requires Partition(c, fc, cap) && |fc| > 0 && 0 <= p < |c|
    ensures Partition(InsertedAfter(c, p, fc[0]), fc[1..], cap)
  {
    var f := fc[0];
    var c' := InsertedAfter(c, p, f);
    var fc' := fc[1..];
    FreeNotLive(c, fc, cap, 0);
    assert Distinct(c') by {
      forall i, j | 0 <= i < j < |c'| ensures c'[i] != c'[j] {
        var ci := if i <= p then i else if i == p + 1 then -1 else i - 1;
        var cj := if j <= p then j else if j == p + 1 then -1 else j - 1;
        if ci >= 0 && cj >= 0 {
          assert c'[i] == c[ci] && c'[j] == c[cj] && ci < cj;
        }
      }
    }
    assert forall i, j :: 0 <= i < |c'| && 0 <= j < |fc'| ==> c'[i] != fc'[j] by {
      forall i, j | 0 <= i < |c'| && 0 <= j < |fc'| ensures c'[i] != fc'[j] {
        assert fc'[j] == fc[j + 1];
        if i == p + 1 {
          assert fc[0] != fc[j + 1];
        } else {
          var ci := if i <= p then i else i - 1;
          assert c'[i] == c[ci];
        }
      }
    }
    forall x | 0 <= x < cap ensures x in c' || x in fc' {
      if x in c {
        var k := IndexOf(c, x);
        assert c'[if k <= p then k else k + 1] == x;
      } else {
        var k := IndexOf(fc, x);
        if k == 0 {
          assert c'[p + 1] == x;
        } else {
          assert fc'[k - 1] == x;
        }
      }
    }
  }

  /** One slot of the longer cycle after splicing `f` in after position `p`. */
  lemma LinkedInsertAt(d: seq<Node>, d': seq<Node>, c: seq<int>, p: int, f: int, e: int, k: int)
    requires Distinct(c) && Linked(d, c) && 0 <= p < |c| && f !in c
    requires SplicedIn(d, d', c[p], NextIn(c, p), f, e)
    requires 0 <= k < |c| + 1
    ensures var c' := InsertedAfter(c, p, f);
      && 0 <= c'[k] < |d'|
      && d'[c'[k]].next == NextIn(c', k)
      && d'[c'[k]].prev == PrevIn(c', k)
  {
    var n := |c|;
    var a := c[p];
    var s := NextIn(c, p);
    var c' := InsertedAfter(c, p, f);
    if k == p || k == p + 1 {
    } else {
      var j := if k < p then k else k - 1;
      assert c'[k] == c[j];
      assert c[j] != a && c[j] != f;
      assert d[c[j]].next == NextIn(c, j) && d[c[j]].prev == PrevIn(c, j);
      if c[j] == s {
        assert j == (if p + 1 < n then p + 1 else 0);
        assert d'[c[j]] == d[c[j]].(prev := f);
      } else {
        assert d'[c[j]] == d[c[j]];
      }
    }
  }

  /** Splicing the slot in relinks the longer cycle. */
  lemma LinkedInsert(d: seq<Node>, d': seq<Node>, c: seq<int>, p: int, f: int, e: int)
    requires Distinct(c) && Linked(d, c) && 0 <= p < |c| && f !in c
    requires SplicedIn(d, d', c[p], NextIn(c, p), f, e)
    ensures Linked(d', InsertedAfter(c, p, f))
  {
    forall k | 0 <= k < |c| + 1
      ensures var c' := InsertedAfter(c, p, f);
        0 <= c'[k] < |d'| && d'[c'[k]].next == NextIn(c', k) && d'[c'[k]].prev == PrevIn(c', k)
    {
      LinkedInsertAt(d, d', c, p, f, e, k);
    }
  }

  /** The free chain loses its first slot and is otherwise untouched. */
  lemma ChainedInsert(d: seq<Node>, d': seq<Node>, c: seq<int>, fc: seq<int>, free: int, p: int, e: int)
    requires Partition(c, fc, |d|) && Chained(d, free, fc) && |fc| > 0 && 0 <= p < |c|
    requires SplicedIn(d, d', c[p], NextIn(c, p), fc[0], e)
    ensures Chained(d', d[fc[0]].next, fc[1..])
  {
    var fc' := fc[1..];
    forall k | 0 <= k < |fc'| ensures d'[fc'[k]] == d[fc'[k]] {
      assert fc'[k] == fc[k + 1];
      FreeNotLive(c, fc, |d|, k + 1);
      assert fc[k + 1] != fc[0];
    }
  }

  /** Only the slot taken off the chain loses its poison mark. */
  lemma PoisonInsert(d: seq<Node>, d': seq<Node>, c: seq<int>, fc: seq<int>, p: int, e: int)
    requires Partition(c, fc, |d|) && PoisonMarks(d, fc) && |fc| > 0 && 0 <= p < |c|
    requires SplicedIn(d, d', c[p], NextIn(c, p), fc[0], e)
    ensures PoisonMarks(d', fc[1..])
  {
    var fc' := fc[1..];
    var a := c[p];
    var s := NextIn(c, p);
    assert a in c && s in c;
    assert a !in fc && s !in fc;
    forall x | 0 <= x < |d'| ensures d'[x].prev == POISON_PREV <==> x in fc' {
      if x == fc[0] {
        assert x !in fc' by {
          forall j | 0 <= j < |fc'| ensures fc'[j] != x {
            assert fc'[j] == fc[j + 1];
          }
        }
      } else {
        assert x in fc <==> x in fc' by {
          if x in fc {
            var j := IndexOf(fc, x);
            assert fc'[j - 1] == x;
          }
        }
      }
    }
  }

  // ------------------------------------------------------------------ removal

  /** Moving a live slot to the front of the free chain keeps the partition. */
  lemma PartitionRemove(c: seq<int>, fc: seq<int>, cap: nat, p: int)
    requires Partition(c, fc, cap) && 1 <= p < |c|
    ensures Partition(RemovedAt(c, p), [c[p]] + fc, cap)
  {
    var a := c[p];
    var c' := RemovedAt(c, p);
    var fc' := [a] + fc;
    assert a !in fc by {
      forall j | 0 <= j < |fc| ensures fc[j] != a {}
    }
    assert Distinct(c') by {
      forall i, j | 0 <= i < j < |c'| ensures c'[i] != c'[j] {
        var ci := if i < p then i else i + 1;
        var cj := if j < p then j else j + 1;
        assert c'[i] == c[ci] && c'[j] == c[cj] && ci < cj;
      }
    }
    assert Distinct(fc') by {
      forall i, j | 0 <= i < j < |fc'| ensures fc'[i] != fc'[j] {
        assert fc'[j] == fc[j - 1];
        if i > 0 {
          assert fc'[i] == fc[i - 1];
        }
      }
    }
    assert forall i, j :: 0 <= i < |c'| && 0 <= j < |fc'| ==> c'[i] != fc'[j] by {
      forall i, j | 0 <= i < |c'| && 0 <= j < |fc'| ensures c'[i] != fc'[j] {
        var ci := if i < p then i else i + 1;
        assert c'[i] == c[ci];
        if j > 0 {
          assert fc'[j] == fc[j - 1];
        }
      }
    }
    forall x | 0 <= x < cap ensures x in c' || x in fc' {
      if x in c {
        var k := IndexOf(c, x);
        if k < p {
          assert c'[k] == x;
        } else if k > p {
          assert c'[k - 1] == x;
        } else {
          assert fc'[0] == x;
        }
      } else {
        var k := IndexOf(fc, x);
        assert fc'[k + 1] == x;
      }
    }
  }

  /** One slot of the shorter cycle after unlinking position `p`. */
  lemma LinkedRemoveAt(d: seq<Node>, d': seq<Node>, c: seq<int>, p: int, free: int, k: int)
    requires Distinct(c) && 1 <= p < |c|
    requires SplicedOut(d, d', c[p], NextIn(c, p), PrevIn(c, p), free)
    requires 0 <= k < |c| - 1
    requires var j := if k < p then k else k + 1;
      0 <= c[j] < |d| && d[c[j]].next == NextIn(c, j) && d[c[j]].prev == PrevIn(c, j)
    ensures var c' := RemovedAt(c, p);
      && 0 <= c'[k] < |d'|
      && d'[c'[k]].next == NextIn(c', k)
      && d'[c'[k]].prev == PrevIn(c', k)
  {
    var n := |c|;
    var a := c[p];
    var nx := NextIn(c, p);
    var pv := PrevIn(c, p);
    var c' := RemovedAt(c, p);
    var j := if k < p then k else k + 1;
    assert c'[k] == c[j] && c[j] != a;
    assert pv == c[p - 1];
    assert nx == c[if p + 1 < n then p + 1 else 0];
    assert NextIn(c', k) == (if k + 1 < n - 1 then c[if k + 1 < p then k + 1 else k + 2] else c[0]);
    assert PrevIn(c', k) == (if k == 0 then c[if n - 2 < p then n - 2 else n - 1] else c[if k - 1 < p then k - 1 else k]);
    if c[j] == pv && c[j] == nx {
      assert n == 2;
    } else if c[j] == pv {
      assert j == p - 1;
      assert d'[c[j]] == d[c[j]].(next := nx);
    } else if c[j] == nx {
      assert j == (if p + 1 < n then p + 1 else 0);
      assert d'[c[j]] == d[c[j]].(prev := pv);
    } else {
      assert j != p - 1 && j != (if p + 1 < n then p + 1 else 0);
      assert d'[c[j]] == d[c[j]];
    }
  }

  /** Unlinking a slot relinks the shorter cycle. */
  lemma LinkedRemove(d: seq<Node>, d': seq<Node>, c: seq<int>, p: int, free: int)
    requires Distinct(c) && Linked(d, c) && 1 <= p < |c|
    requires SplicedOut(d, d', c[p], NextIn(c, p), PrevIn(c, p), free)
    ensures Linked(d', RemovedAt(c, p))
  {
    forall k | 0 <= k < |c| - 1
      ensures var c' := RemovedAt(c, p);
        0 <= c'[k] < |d'| && d'[c'[k]].next == NextIn(c', k) && d'[c'[k]].prev == PrevIn(c', k)
    {
      var j := if k < p then k else k + 1;
      assert 0 <= c[j] < |d| && d[c[j]].next == NextIn(c, j) && d[c[j]].prev == PrevIn(c, j);
      LinkedRemoveAt(d, d', c, p, free, k);
    }
  }

  /** The unlinked slot becomes the new head of the free chain. */
  lemma ChainedRemove(d: seq<Node>, d': seq<Node>, c: seq<int>, fc: seq<int>, free: int, p: int)
    requires Partition(c, fc, |d|) && Chained(d, free, fc) && 1 <= p < |c|
    requires SplicedOut(d, d', c[p], NextIn(c, p), PrevIn(c, p), free)
    ensures Chained(d', c[p], [c[p]] + fc)
  {
    var fc' := [c[p]] + fc;
    var nx := NextIn(c, p);
    var pv := PrevIn(c, p);
    assert nx in c && pv in c;
    forall k | 0 <= k < |fc'| ensures 0 <= fc'[k] < |d'| && d'[fc'[k]].next == ChainNext(fc', k) {
      if k > 0 {
        assert fc'[k] == fc[k - 1];
        FreeNotLive(c, fc, |d|, k - 1);
        assert d'[fc[k - 1]] == d[fc[k - 1]];
      }
    }
  }

  /** Only the unlinked slot gains a poison mark. */
  lemma PoisonRemove(d: seq<Node>, d': seq<Node>, c: seq<int>, fc: seq<int>, p: int, free: int)
    requires Partition(c, fc, |d|) && PoisonMarks(d, fc) && 1 <= p < |c|
    requires SplicedOut(d, d', c[p], NextIn(c, p), PrevIn(c, p), free)
    ensures PoisonMarks(d', [c[p]] + fc)
  {
    var fc' := [c[p]] + fc;
    var nx := NextIn(c, p);
    var pv := PrevIn(c, p);
    assert nx in c && pv in c;
    assert nx !in fc && pv !in fc;
    assert pv >= 0;
    forall x | 0 <= x < |d'| ensures d'[x].prev == POISON_PREV <==> x in fc' {
      assert x in fc' <==> x == c[p] || x in fc;
    }
  }

  // ------------------------------------------------------- whole-list effect

  /** Inserting into the live sequence is inserting into the cycle one
      position further on. */
  lemma CycleInserted(order: seq<int>, p: int, f: int)
    requires 0 <= p <= |order|
    ensures Cycle(Spliced(order, p, f)) == InsertedAfter(Cycle(order), p, f)
  {
    var c := Cycle(order);
    assert c[..p + 1] == [NULL_INDEX] + order[..p];
    assert c[p + 1..] == order[p..];
    assert Cycle(Spliced(order, p, f)) == c[..p + 1] + [f] + c[p + 1..];
  }

  /** Removing from the live sequence is removing from the cycle one
      position further on. */
  lemma CycleRemoved(order: seq<int>, j: int)
    requires 0 <= j < |order|
    ensures Cycle(Without(order, j)) == RemovedAt(Cycle(order), j + 1)
  {
    var a := Cycle(Without(order, j));
    var b := RemovedAt(Cycle(order), j + 1);
    assert |a| == |b|;
    forall k | 0 <= k < |a| ensures a[k] == b[k] {
      if k > 0 {
        assert a[k] == Without(order, j)[k - 1];
      }
    }
  }

  /** A sequence with `e` inserted at position `p`. On slot indices it is
      the live sequence after splicing a slot in after the `p`-th slot of the
      cycle; on values it is the contents after that insertion. */
  function Spliced(s: seq<int>, p: int, e: int): (r: seq<int>)
    requires 0 <= p <= |s|
    ensures |r| == |s| + 1 && r[p] == e
    ensures forall k :: 0 <= k < p ==> r[k] == s[k]
    ensures forall k :: p < k < |r| ==> r[k] == s[k - 1]
  {
    s[..p] + [e] + s[p..]
  }

  /** A sequence with its element at position `j` dropped: the live
      sequence, or the contents, after the `j`-th live slot is removed. */
  function Without(s: seq<int>, j: int): (r: seq<int>)
    requires 0 <= j < |s|
    ensures |r| + 1 == |s|
    ensures forall k :: 0 <= k < j ==> r[k] == s[k]
    ensures forall k :: j <= k < |r| ==> r[k] == s[k + 1]
  {
    s[..j] + s[j + 1..]
  }

  /** Splicing a free slot in keeps the whole invariant (bar the bounds). */
  lemma StructuredInsert(l: List, r: List, order: seq<int>, fc: seq<int>, p: int, e: int)
    requires Structured(l, order, fc) && |fc| > 0 && 0 <= p <= |order|
    requires SplicedIn(l.data, r.data, Cycle(order)[p], NextIn(Cycle(order), p), fc[0], e)
    requires r.capacity == l.capacity && r.size == l.size + 1 && r.free == l.data[fc[0]].next
    ensures Structured(r, Spliced(order, p, fc[0]), fc[1..])
  {
    var c := Cycle(order);
    CycleInserted(order, p, fc[0]);
    FreeNotLive(c, fc, l.capacity, 0);
    PartitionInsert(c, fc, l.capacity, p);
    LinkedInsert(l.data, r.data, c, p, fc[0], e);
    ChainedInsert(l.data, r.data, c, fc, l.free, p, e);
    PoisonInsert(l.data, r.data, c, fc, p, e);
  }

  /** Splicing a live slot out keeps the whole invariant (bar the bounds). */
  lemma StructuredRemove(l: List, r: List, order: seq<int>, fc: seq<int>, j: int)
    requires Structured(l, order, fc) && 0 <= j < |order|
    requires SplicedOut(l.data, r.data, order[j], NextIn(Cycle(order), j + 1), PrevIn(Cycle(order), j + 1), l.free)
    requires r.capacity == l.capacity && r.size + 1 == l.size && r.free == order[j]
    ensures Structured(r, Without(order, j), [order[j]] + fc)
  {
    var c := Cycle(order);
    var p := j + 1;
    CycleRemoved(order, j);
    assert c[p] == order[j];
    PartitionRemove(c, fc, l.capacity, p);
    LinkedRemove(l.data, r.data, c, p, l.free);
    ChainedRemove(l.data, r.data, c, fc, l.free, p);
    PoisonRemove(l.data, r.data, c, fc, p, l.free);
  }

  /** Splicing in changes the element of the filled slot only. */
  lemma SplicedInElems(d: seq<Node>, d': seq<Node>, a: int, s: int, f: int, e: int)
    requires SplicedIn(d, d', a, s, f, e)
    ensures forall i :: 0 <= i < |d| && i != f ==> d'[i].elem == d[i].elem
  {
  }

  /** Splicing out changes the element of the released slot only. */
  lemma SplicedOutElems(d: seq<Node>, d': seq<Node>, a: int, nx: int, pv: int, free: int)
    requires SplicedOut(d, d', a, nx, pv, free)
    ensures forall i :: 0 <= i < |d| && i != a ==> d'[i].elem == d[i].elem
  {
  }

  /** When only slot `f` (not live) changes its element, to `e`, the contents
      along the longer sequence gain `e` at position `p`. */
  lemma ContentsInsert(l: List, r: List, order: seq<int>, p: int, f: int, e: int)
    requires 0 <= p <= |order| && |r.data| == |l.data| && 0 <= f < |l.data|
    requires forall k :: 0 <= k < |order| ==> 0 <= order[k] < |l.data| && order[k] != f
    requires r.data[f].elem == e
    requires forall i :: 0 <= i < |l.data| && i != f ==> r.data[i].elem == l.data[i].elem
    ensures Contents(r, Spliced(order, p, f)) == Spliced(Contents(l, order), p, e)
  {
    var order' := Spliced(order, p, f);
    var cs := Contents(l, order);
    forall k | 0 <= k < |order'| ensures r.data[order'[k]].elem == Spliced(cs, p, e)[k] {
      if k != p {
        var j := if k < p then k else k - 1;
        assert order'[k] == order[j];
      }
    }
  }

  /** When only the element of slot `order[j]` changes, the contents along the
      shorter sequence lose their `j`-th value. */
  lemma ContentsRemove(l: List, r: List, order: seq<int>, j: int)
    requires 0 <= j < |order| && |r.data| == |l.data|
    requires forall k :: 0 <= k < |order| ==> 0 <= order[k] < |l.data|
    requires forall k :: 0 <= k < |order| && k != j ==> order[k] != order[j]
    requires forall i :: 0 <= i < |l.data| && i != order[j] ==> r.data[i].elem == l.data[i].elem
    ensures Contents(r, Without(order, j)) == Without(Contents(l, order), j)
  {
    var order' := Without(order, j);
    var cs := Contents(l, order);
    forall k | 0 <= k < |order'| ensures r.data[order'[k]].elem == Without(cs, j)[k] {
      var i := if k < j then k else k + 1;
      assert order'[k] == order[i] && order[i] != order[j];
    }
  }
}
