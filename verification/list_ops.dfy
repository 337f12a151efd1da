/**
 The mutation algorithms of the list: `list_insertElement`,
 `list_removeElement` and the push/pop wrappers built on them, plus the
 read-only `list_get`, `list_size` and `list_capacity`.

 Every operation first runs `validateList` and returns its mask unchanged if
 it is non-zero; each mutating one runs it again on exit (the mask is then
 reported, but the mutation has already happened). On a well-formed list the
 exit check always passes (see the `...Valid` lemmas).
 */
module ListOps {
  import opened ListLayout
  import opened ListErrors
  import opened ListValidate
  import opened ListInvariant
  import opened ListAlloc
  import opened ListSplice

  // ---------------------------------------------------------------- insertion

  /** The link rewrite of `list_insertElement` once a free slot is available:
      take the first free slot, fill it with `e` between `anchor` and its
      successor, and make it the head if the list was empty. */
  function Link(l: List, anchor: int, e: int): (r: List)
    requires InBounds(l) && 0 <= anchor < l.capacity
    ensures InBounds(r)
    ensures |r.data| == |l.data| && r.capacity == l.capacity
    ensures r.size == l.size + 1 && r.free == l.data[l.free].next
    ensures r.data[l.free].elem == e
  {
    var f := l.free;
    var d1 := l.data[f := Node(e, l.data[anchor].next, anchor)];
    var s := d1[anchor].next;
    var d2 := d1[s := d1[s].(prev := f)];
    var d3 := d2[anchor := d2[anchor].(next := f)];
    var d4 := if l.size == 0 then d3[NULL_INDEX := d3[NULL_INDEX].(next := f)] else d3;
    List(d4, l.capacity, l.size + 1, l.data[f].next)
  }

  /** When the anchor and its successor are not the free head (and an empty
      list is anchored at the sentinel), `Link` changes exactly three slots. */
  lemma LinkSlots(l: List, anchor: int, e: int)
    requires InBounds(l) && 0 <= anchor < l.capacity
    requires anchor != l.free && l.data[anchor].next != l.free
    requires l.size == 0 ==> anchor == NULL_INDEX && l.data[NULL_INDEX].next == NULL_INDEX
    ensures SplicedIn(l.data, Link(l, anchor, e).data, anchor, l.data[anchor].next, l.free, e)
  {
  }

  /** The capacity doubling `list_insertElement` performs on a full list. */
  function Doubled(l: List): (r: List)
    requires InBounds(l) && Validate(l) == 0
    ensures InBounds(r) && Validate(r) == 0
    ensures r.capacity == 2 * l.capacity && r.size == l.size && r.free != NULL_INDEX
  {
    GrowPassesValidate(l, 2 * l.capacity);
    GrowInBounds(l, 2 * l.capacity);
    Grow(l, 2 * l.capacity).list
  }

  /** `list_insertElement`. A poisoned (free) anchor is refused with -1; a full
      list is doubled first; then the first free slot is linked in after
      `anchor` and its index returned. The anchor is not range-checked by the
      source, hence the precondition. */
  function Insert(l: List, anchor: int, e: int): (r: Outcome<int>)
    requires InBounds(l) && 0 <= anchor < l.capacity
    ensures InBounds(r.list)
    ensures Validate(l) != 0 ==> r == Outcome(l, NULL_INDEX, Structural(Validate(l)))
    ensures Validate(l) == 0 && l.data[anchor].prev == POISON_PREV ==> r == Outcome(l, NULL_INDEX, Local)
    ensures r.err == NoError ==>
      && 0 < r.ret < r.list.capacity && r.list.data[r.ret].elem == e
      && r.list.size == l.size + 1
      && r.list.capacity == (if l.size + 1 == l.capacity then 2 * l.capacity else l.capacity)
    ensures r.err != NoError ==> r.ret == NULL_INDEX
  {
    var mask := Validate(l);
    if mask != 0 then Outcome(l, NULL_INDEX, Structural(mask))
    else if l.data[anchor].prev == POISON_PREV then Outcome(l, NULL_INDEX, Local)
    else
      var g := Room(l);
      Checked(Link(g, anchor, e), g.free, NULL_INDEX)
  }

  /** The list `list_insertElement` links into: doubled when it is full, so
      that the free chain is never empty. */
  function Room(l: List): (g: List)
    requires InBounds(l) && Validate(l) == 0
    ensures InBounds(g) && 0 < g.free < g.capacity && g.size == l.size
    ensures g.capacity == (if l.size + 1 == l.capacity then 2 * l.capacity else l.capacity)
  {
    if l.size == l.capacity - 1 then Doubled(l) else l
  }

  /** Position of a non-poisoned anchor on the cycle `[0] + order`. */
  ghost function CyclePos(order: seq<int>, anchor: int): (p: nat)
    requires anchor == NULL_INDEX || anchor in order
    ensures p <= |order| && Cycle(order)[p] == anchor
  {
    if anchor == NULL_INDEX then 0 else IndexOf(order, anchor) + 1
  }

  /** A slot that is not poisoned in a well-formed list is the sentinel or live. */
  lemma UnpoisonedIsLive(l: List, order: seq<int>, fc: seq<int>, a: int)
    requires Valid(l, order, fc) && 0 <= a < l.capacity && l.data[a].prev != POISON_PREV
    ensures a == NULL_INDEX || a in order
  {
    PoisonExactlyOnFree(l, order, fc, a);
  }

  /** The link rewrite on a well-formed list with a free slot: the slot taken
      from the head of the free chain joins the live sequence right after the
      anchor, holding `e`, and the list is well formed again. */
  lemma LinkValid(l: List, order: seq<int>, fc: seq<int>, anchor: int, e: int)
    requires Valid(l, order, fc) && |fc| > 0
    requires anchor == NULL_INDEX || anchor in order
    ensures 0 <= anchor < l.capacity && l.free == fc[0]
    ensures Valid(Link(l, anchor, e), Spliced(order, CyclePos(order, anchor), fc[0]), fc[1..])
    ensures Contents(Link(l, anchor, e), Spliced(order, CyclePos(order, anchor), fc[0]))
         == Spliced(Contents(l, order), CyclePos(order, anchor), e)
  {
    LinkPre(l, order, fc, anchor);
    LinkSlots(l, anchor, e);
    SplicedInValid(l, Link(l, anchor, e), order, fc, CyclePos(order, anchor), e);
  }

  /** Any slot array that splices the first free slot in after cycle
      position `p` of a well-formed list, with the counters moved on, is well
      formed and holds `e` at position `p`. */
  lemma SplicedInValid(l: List, r: List, order: seq<int>, fc: seq<int>, p: int, e: int)
    requires Valid(l, order, fc) && |fc| > 0 && 0 <= p <= |order|
    requires SplicedIn(l.data, r.data, Cycle(order)[p], NextIn(Cycle(order), p), fc[0], e)
    requires r.capacity == l.capacity && r.size == l.size + 1 && r.free == l.data[fc[0]].next
    requires forall k :: 0 <= k < |order| ==> 0 <= order[k] < |l.data| && order[k] != fc[0]
    requires InBounds(r)
    ensures Valid(r, Spliced(order, p, fc[0]), fc[1..])
    ensures Contents(r, Spliced(order, p, fc[0])) == Spliced(Contents(l, order), p, e)
  {
    var c := Cycle(order);
    StructuredInsert(l, r, order, fc, p, e);
    SplicedInElems(l.data, r.data, c[p], NextIn(c, p), fc[0], e);
    ContentsInsert(l, r, order, p, fc[0], e);
  }

  /** The facts about a well-formed list that `LinkSlots` needs. */
  lemma LinkPre(l: List, order: seq<int>, fc: seq<int>, anchor: int)
    requires Valid(l, order, fc) && |fc| > 0
    requires anchor == NULL_INDEX || anchor in order
    ensures 0 <= anchor < l.capacity && l.free == fc[0]
    ensures var c := Cycle(order);
      var p := CyclePos(order, anchor);
      && l.data[anchor].next == NextIn(c, p)
      && anchor != l.free && l.data[anchor].next != l.free
    ensures l.size == 0 ==> anchor == NULL_INDEX && l.data[NULL_INDEX].next == NULL_INDEX
    ensures forall k :: 0 <= k < |order| ==> 0 <= order[k] < |l.data| && order[k] != fc[0]
  {
    ValidCounts(l, order, fc);
    var c := Cycle(order);
    var p := CyclePos(order, anchor);
    FreeNotLive(c, fc, l.capacity, 0);
    assert l.data[c[p]].next == NextIn(c, p);
    assert NextIn(c, p) in c;
    assert forall k :: 0 <= k < |order| ==> order[k] == c[k + 1];
  }

  /** On a well-formed list with a free slot, insertion at a live or
      sentinel anchor is exactly the link rewrite, returning the old free
      head, and the exit check passes. */
  lemma InsertIsLink(l: List, order: seq<int>, fc: seq<int>, anchor: int, e: int)
    requires Valid(l, order, fc) && |fc| > 0
    requires 0 <= anchor < l.capacity && l.data[anchor].prev != POISON_PREV
    ensures anchor == NULL_INDEX || anchor in order
    ensures Insert(l, anchor, e) == Outcome(Link(l, anchor, e), fc[0], NoError)
  {
    ValidPassesValidate(l, order, fc);
    ValidCounts(l, order, fc);
    LinkPasses(l, order, fc, anchor, e);
  }

  /** The link rewrite at a live or sentinel anchor of a well-formed list
      with a free slot passes `validateList`. */
  lemma LinkPasses(l: List, order: seq<int>, fc: seq<int>, anchor: int, e: int)
    requires Valid(l, order, fc) && |fc| > 0
    requires 0 <= anchor < l.capacity && l.data[anchor].prev != POISON_PREV
    ensures anchor == NULL_INDEX || anchor in order
    ensures Validate(Link(l, anchor, e)) == 0
  {
    UnpoisonedIsLive(l, order, fc, anchor);
    LinkValid(l, order, fc, anchor, e);
    ValidPassesValidate(Link(l, anchor, e), Spliced(order, CyclePos(order, anchor), fc[0]), fc[1..]);
  }

  /** Doubling a full well-formed list keeps it well formed, with the new
      slots as the free chain and the old free head being the old capacity. */
  lemma DoubledValid(l: List, order: seq<int>)
    requires Valid(l, order, [])
    ensures Validate(l) == 0 && 0 < l.capacity
    ensures Doubled(l).free == l.capacity
    ensures Valid(Doubled(l), order, Range(l.capacity, 2 * l.capacity))
  {
    ValidCounts(l, order, []);
    ValidPassesValidate(l, order, []);
    GrowValid(l, order, 2 * l.capacity);
  }

  /** Doubling a full well-formed list keeps its contents. */
  lemma DoubledContents(l: List, order: seq<int>)
    requires Valid(l, order, [])
    ensures Validate(l) == 0
    ensures Contents(Doubled(l), order) == Contents(l, order)
  {
    ValidPassesValidate(l, order, []);
    GrowValid(l, order, 2 * l.capacity);
  }

  /** On a full well-formed list, insertion doubles the capacity and then
      links in the first new slot, which is the old capacity. */
  lemma InsertIsGrowThenLink(l: List, order: seq<int>, anchor: int, e: int)
    requires Valid(l, order, [])
    requires 0 <= anchor < l.capacity && l.data[anchor].prev != POISON_PREV
    ensures anchor == NULL_INDEX || anchor in order
    ensures Insert(l, anchor, e) == Outcome(Link(Doubled(l), anchor, e), l.capacity, NoError)
  {
    ValidCounts(l, order, []);
    FullLinkPasses(l, order, anchor, e);
  }

  /** The link rewrite after doubling a full well-formed list places the
      element right after the anchor. */
  lemma FullLinkContents(l: List, order: seq<int>, anchor: int, e: int)
    requires Valid(l, order, [])
    requires 0 <= anchor < l.capacity && l.data[anchor].prev != POISON_PREV
    ensures anchor == NULL_INDEX || anchor in order
    ensures Validate(l) == 0
    ensures Contents(Link(Doubled(l), anchor, e), Spliced(order, CyclePos(order, anchor), l.capacity))
         == Spliced(Contents(l, order), CyclePos(order, anchor), e)
  {
    UnpoisonedIsLive(l, order, [], anchor);
    DoubledValid(l, order);
    DoubledContents(l, order);
    LinkFreshContents(Doubled(l), order, l.capacity, anchor, e);
  }

  /** ... and the exit check passes on it. */
  lemma FullLinkPasses(l: List, order: seq<int>, anchor: int, e: int)
    requires Valid(l, order, [])
    requires 0 <= anchor < l.capacity && l.data[anchor].prev != POISON_PREV
    ensures anchor == NULL_INDEX || anchor in order
    ensures Validate(l) == 0 && Doubled(l).free == l.capacity
    ensures Validate(Link(Doubled(l), anchor, e)) == 0
  {
    DoubledValid(l, order);
    UnpoisonedIsLive(l, order, [], anchor);
    LinkFresh(Doubled(l), order, l.capacity, anchor, e);
    ValidPassesValidate(Link(Doubled(l), anchor, e), Spliced(order, CyclePos(order, anchor), l.capacity),
      Range(l.capacity + 1, 2 * l.capacity));
  }

  /** Insertion on a well-formed list with a free slot succeeds for every
      live or sentinel anchor and returns the old free head. The element
      appears right after the anchor, at position `p` of the list, and the
      result is well formed again with the rest of the free chain. */
  lemma InsertValid(l: List, order: seq<int>, fc: seq<int>, anchor: int, e: int)
    requires Valid(l, order, fc) && |fc| > 0
    requires 0 <= anchor < l.capacity && l.data[anchor].prev != POISON_PREV
    ensures anchor == NULL_INDEX || anchor in order
    ensures Insert(l, anchor, e).err == NoError && Insert(l, anchor, e).ret == fc[0]
    ensures Valid(Insert(l, anchor, e).list, Spliced(order, CyclePos(order, anchor), fc[0]), fc[1..])
    ensures Contents(Insert(l, anchor, e).list, Spliced(order, CyclePos(order, anchor), fc[0]))
         == Spliced(Contents(l, order), CyclePos(order, anchor), e)
  {
    InsertIsLink(l, order, fc, anchor, e);
    LinkValid(l, order, fc, anchor, e);
    ValidTransfer(Link(l, anchor, e), Insert(l, anchor, e).list,
      Spliced(order, CyclePos(order, anchor), fc[0]), fc[1..]);
  }

  /** Insertion into a full well-formed list also succeeds: it doubles the
      capacity and returns the old capacity, the first slot the doubling
      added; the rest of the new slots form the free chain. */
  lemma InsertFullValid(l: List, order: seq<int>, anchor: int, e: int)
    requires Valid(l, order, [])
    requires 0 <= anchor < l.capacity && l.data[anchor].prev != POISON_PREV
    ensures Valid(Insert(l, anchor, e).list, Spliced(order, CyclePos(order, anchor), l.capacity),
                  Range(l.capacity + 1, 2 * l.capacity))
  {
    InsertIsGrowThenLink(l, order, anchor, e);
    DoubledValid(l, order);
    LinkFresh(Doubled(l), order, l.capacity, anchor, e);
    ValidTransfer(Link(Doubled(l), anchor, e), Insert(l, anchor, e).list,
      Spliced(order, CyclePos(order, anchor), l.capacity), Range(l.capacity + 1, 2 * l.capacity));
  }

  /** The outcome of insertion into a full well-formed list: success, the
      old capacity returned, the capacity doubled. */
  lemma InsertFullResult(l: List, order: seq<int>, anchor: int, e: int)
    requires Valid(l, order, [])
    requires 0 <= anchor < l.capacity && l.data[anchor].prev != POISON_PREV
    ensures anchor == NULL_INDEX || anchor in order
    ensures Insert(l, anchor, e).err == NoError && Insert(l, anchor, e).ret == l.capacity
    ensures Insert(l, anchor, e).list.capacity == 2 * l.capacity
  {
    InsertIsGrowThenLink(l, order, anchor, e);
  }

  /** The link rewrite on a list whose free chain is the run of slots a
      doubling added. */
  lemma LinkFresh(g: List, order: seq<int>, cap: nat, anchor: int, e: int)
    requires Valid(g, order, Range(cap, 2 * cap)) && 0 < cap
    requires anchor == NULL_INDEX || anchor in order
    ensures g.capacity == Link(g, anchor, e).capacity
    ensures Valid(Link(g, anchor, e), Spliced(order, CyclePos(order, anchor), cap), Range(cap + 1, 2 * cap))
  {
    var fc := Range(cap, 2 * cap);
    RangeTail(cap, 2 * cap);
    LinkValid(g, order, fc, anchor, e);
  }

  /** ... which places the element right after the anchor. */
  lemma LinkFreshContents(g: List, order: seq<int>, cap: nat, anchor: int, e: int)
    requires Valid(g, order, Range(cap, 2 * cap)) && 0 < cap
    requires anchor == NULL_INDEX || anchor in order
    ensures Contents(Link(g, anchor, e), Spliced(order, CyclePos(order, anchor), cap))
         == Spliced(Contents(g, order), CyclePos(order, anchor), e)
  {
    var fc := Range(cap, 2 * cap);
    RangeTail(cap, 2 * cap);
    LinkValid(g, order, fc, anchor, e);
  }

  /** The slot an insertion into a well-formed list fills: the free head,
      or the old capacity when the list is full and gets doubled. */
  function NewSlot(l: List, fc: seq<int>): int
  {
    if |fc| > 0 then fc[0] else l.capacity
  }

  /** The free chain left after such an insertion. */
  function RestFree(l: List, fc: seq<int>): seq<int>
    requires 0 < l.capacity
  {
    if |fc| > 0 then fc[1..] else Range(l.capacity + 1, 2 * l.capacity)
  }

  /** Both cases of insertion into a well-formed list at once: it succeeds,
      returns `NewSlot`, keeps the list well formed and places `e` right
      after the anchor. */
  lemma InsertAnyValid(l: List, order: seq<int>, fc: seq<int>, anchor: int, e: int)
    requires Valid(l, order, fc)
    requires 0 <= anchor < l.capacity && l.data[anchor].prev != POISON_PREV
    ensures anchor == NULL_INDEX || anchor in order
    ensures Insert(l, anchor, e).err == NoError && Insert(l, anchor, e).ret == NewSlot(l, fc)
    ensures Valid(Insert(l, anchor, e).list, Spliced(order, CyclePos(order, anchor), NewSlot(l, fc)), RestFree(l, fc))
  {
    UnpoisonedIsLive(l, order, fc, anchor);
    if |fc| > 0 {
      InsertAnyFree(l, order, fc, anchor, e);
    } else {
      InsertAnyFull(l, order, fc, anchor, e);
    }
  }

  /** `InsertAnyValid` when a free slot exists. */
  lemma InsertAnyFree(l: List, order: seq<int>, fc: seq<int>, anchor: int, e: int)
    requires Valid(l, order, fc) && |fc| > 0
    requires 0 <= anchor < l.capacity && l.data[anchor].prev != POISON_PREV
    ensures anchor == NULL_INDEX || anchor in order
    ensures Insert(l, anchor, e).err == NoError && Insert(l, anchor, e).ret == NewSlot(l, fc)
    ensures Valid(Insert(l, anchor, e).list, Spliced(order, CyclePos(order, anchor), NewSlot(l, fc)), RestFree(l, fc))
  {
    assert NewSlot(l, fc) == fc[0] && RestFree(l, fc) == fc[1..];
    InsertValid(l, order, fc, anchor, e);
  }

  /** `InsertAnyValid` on a full list. */
  lemma InsertAnyFull(l: List, order: seq<int>, fc: seq<int>, anchor: int, e: int)
    requires Valid(l, order, fc) && |fc| == 0
    requires 0 <= anchor < l.capacity && l.data[anchor].prev != POISON_PREV
    ensures anchor == NULL_INDEX || anchor in order
    ensures Insert(l, anchor, e).err == NoError && Insert(l, anchor, e).ret == NewSlot(l, fc)
    ensures Valid(Insert(l, anchor, e).list, Spliced(order, CyclePos(order, anchor), NewSlot(l, fc)), RestFree(l, fc))
  {
    assert fc == [];
    assert NewSlot(l, fc) == l.capacity && RestFree(l, fc) == Range(l.capacity + 1, 2 * l.capacity);
    InsertFullResult(l, order, anchor, e);
    InsertFullValid(l, order, anchor, e);
  }

  /** Contents after either case of insertion. */
  lemma InsertAnyContents(l: List, order: seq<int>, fc: seq<int>, anchor: int, e: int)
    requires Valid(l, order, fc)
    requires 0 <= anchor < l.capacity && l.data[anchor].prev != POISON_PREV
    ensures anchor == NULL_INDEX || anchor in order
    ensures Contents(Insert(l, anchor, e).list, Spliced(order, CyclePos(order, anchor), NewSlot(l, fc)))
         == Spliced(Contents(l, order), CyclePos(order, anchor), e)
  {
    UnpoisonedIsLive(l, order, fc, anchor);
    if |fc| > 0 {
      InsertValid(l, order, fc, anchor, e);
    } else {
      InsertFullContents(l, order, anchor, e);
    }
  }


  /** Insertion into a full well-formed list places the element right after
      the anchor, like insertion with a free slot. */
  lemma InsertFullContents(l: List, order: seq<int>, anchor: int, e: int)
    requires Valid(l, order, [])
    requires 0 <= anchor < l.capacity && l.data[anchor].prev != POISON_PREV
    ensures anchor == NULL_INDEX || anchor in order
    ensures Contents(Insert(l, anchor, e).list, Spliced(order, CyclePos(order, anchor), l.capacity))
         == Spliced(Contents(l, order), CyclePos(order, anchor), e)
  {
    InsertIsGrowThenLink(l, order, anchor, e);
    FullLinkContents(l, order, anchor, e);
  }

  /** The slot-level effect of inserting into a well-formed list that has a
      free slot: the old free head `f` is returned and filled with
      `{e, old next of anchor, anchor}`; the old successor's `prev` and the
      anchor's `next` become `f`; `free` moves on to the old `data[f].next`;
      `size` grows by one; no other slot changes. */
  lemma InsertSlots(l: List, order: seq<int>, fc: seq<int>, anchor: int, e: int)
    requires Valid(l, order, fc) && l.size + 1 < l.capacity
    requires 0 <= anchor < l.capacity && l.data[anchor].prev != POISON_PREV
    ensures Insert(l, anchor, e).ret == l.free && Insert(l, anchor, e).err == NoError
    ensures Insert(l, anchor, e).list.free == l.data[l.free].next
    ensures Insert(l, anchor, e).list.size == l.size + 1 && Insert(l, anchor, e).list.capacity == l.capacity
    ensures SplicedIn(l.data, Insert(l, anchor, e).list.data, anchor, l.data[anchor].next, l.free, e)
  {
    ValidCounts(l, order, fc);
    InsertIsLink(l, order, fc, anchor, e);
    LinkPre(l, order, fc, anchor);
    LinkSlots(l, anchor, e);
  }

  /** Inserting into a full well-formed list doubles the capacity first: the
      old slots are kept, the new slots `capacity .. 2*capacity-1` are chained
      in order ending at `nullindex`, and the first of them is the one filled. */
  lemma InsertIntoFull(l: List, order: seq<int>, anchor: int, e: int)
    requires Valid(l, order, []) && 0 <= anchor < l.capacity && l.data[anchor].prev != POISON_PREV
    ensures Doubled(l).capacity == 2 * l.capacity && Doubled(l).free == l.capacity
    ensures Doubled(l).data[..l.capacity] == l.data
    ensures forall i :: l.capacity <= i < 2 * l.capacity ==>
      Doubled(l).data[i].prev == POISON_PREV
      && Doubled(l).data[i].next == (if i == 2 * l.capacity - 1 then NULL_INDEX else i + 1)
    ensures Insert(l, anchor, e).ret == l.capacity && Insert(l, anchor, e).err == NoError
    ensures SplicedIn(Doubled(l).data, Insert(l, anchor, e).list.data, anchor, l.data[anchor].next, l.capacity, e)
  {
    InsertIsGrowThenLink(l, order, anchor, e);
    DoubledShape(l, order);
    FullLinkSlots(l, order, anchor, e);
  }

  /** The array a doubling of a full well-formed list produces: the old slots
      kept, the new ones poisoned and chained in order up to the terminator. */
  lemma DoubledShape(l: List, order: seq<int>)
    requires Valid(l, order, [])
    ensures Validate(l) == 0
    ensures Doubled(l).capacity == 2 * l.capacity && Doubled(l).free == l.capacity
    ensures Doubled(l).data[..l.capacity] == l.data
    ensures forall i :: l.capacity <= i < 2 * l.capacity ==>
      Doubled(l).data[i].prev == POISON_PREV
      && Doubled(l).data[i].next == (if i == 2 * l.capacity - 1 then NULL_INDEX else i + 1)
  {
    ValidCounts(l, order, []);
    ValidPassesValidate(l, order, []);
  }

  /** The slots the link rewrite changes after a doubling. */
  lemma FullLinkSlots(l: List, order: seq<int>, anchor: int, e: int)
    requires Valid(l, order, []) && 0 <= anchor < l.capacity && l.data[anchor].prev != POISON_PREV
    ensures Validate(l) == 0 && Doubled(l).free == l.capacity
    ensures SplicedIn(Doubled(l).data, Link(Doubled(l), anchor, e).data, anchor, l.data[anchor].next, l.capacity, e)
  {
    UnpoisonedIsLive(l, order, [], anchor);
    DoubledValid(l, order);
    var g := Doubled(l);
    assert g.data[..l.capacity][anchor] == g.data[anchor];
    LinkPre(g, order, Range(l.capacity, 2 * l.capacity), anchor);
    LinkSlots(g, anchor, e);
  }

  // ------------------------------------------------------------------ removal

  /** The unlink rewrite of `list_removeElement` once its checks have passed:
      splice the anchor out, move the head past it if it was the head, poison
      it onto the front of the free chain, and reset the head when the list
      becomes empty. */
  function Unlink(l: List, anchor: int): (r: List)
    requires LinksInRange(l) && 0 <= anchor < l.capacity && l.data[anchor].prev != POISON_PREV && l.size > 0
    ensures |r.data| == |l.data| && r.capacity == l.capacity
    ensures r.size == l.size - 1 && r.free == anchor
    ensures 0 <= l.free < l.capacity ==> LinksInRange(r)
    ensures InBounds(l) ==> InBounds(r)
  {
    var nx := l.data[anchor].next;
    var pv := l.data[anchor].prev;
    var d1 := l.data[nx := l.data[nx].(prev := pv)];
    var d2 := d1[pv := d1[pv].(next := nx)];
    var d3 := if anchor == d2[NULL_INDEX].next then d2[NULL_INDEX := d2[NULL_INDEX].(next := nx)] else d2;
    var d4 := d3[anchor := Node(POISON_ELEM, l.free, POISON_PREV)];
    var d5 := if l.size - 1 == 0 then d4[NULL_INDEX := d4[NULL_INDEX].(next := NULL_INDEX)] else d4;
    List(d5, l.capacity, l.size - 1, anchor)
  }

  /** `list_removeElement`. Refused with -1 when the out-parameter is null
      (`hasOut` false), the list is empty, the anchor is out of range or the
      anchor is poisoned; otherwise the anchor's element is returned and the
      slot released. */
  function Remove(l: List, anchor: int, hasOut: bool): (r: Outcome<Option<int>>)
    requires LinksInRange(l)
    ensures InBounds(l) ==> InBounds(r.list)
    ensures Validate(l) != 0 ==> r == Outcome(l, None, Structural(Validate(l)))
    ensures Validate(l) == 0 ==>
      (!hasOut || l.size == 0 || anchor < 0 || l.capacity <= anchor || l.data[anchor].prev == POISON_PREV
       <==> r == Outcome(l, None, Local))
    ensures r.err == NoError ==>
      && 0 <= anchor < l.capacity && r.ret == Some(l.data[anchor].elem)
      && r.list.size + 1 == l.size && r.list.free == anchor
      && |r.list.data| == l.capacity == r.list.capacity
      && r.list.data[anchor] == Node(POISON_ELEM, l.free, POISON_PREV)
  {
    var mask := Validate(l);
    if mask != 0 then Outcome(l, None, Structural(mask))
    else if !hasOut then Outcome(l, None, Local)
    else if l.size == 0 then Outcome(l, None, Local)
    else if anchor < 0 || l.capacity <= anchor then Outcome(l, None, Local)
    else if l.data[anchor].prev == POISON_PREV then Outcome(l, None, Local)
    else Checked(Unlink(l, anchor), Some(l.data[anchor].elem), None)
  }

  /** The value `list_removeElement` stores through its `element` pointer.
      The store happens once the entry checks have passed and before the
      exit check runs, so it is made exactly when the call is not refused,
      even when the exit check then fails and null is returned. */
  function RemoveStored(l: List, anchor: int, hasOut: bool): (v: Option<int>)
    requires LinksInRange(l)
    ensures v.Some? <==> Validate(l) == 0 && Remove(l, anchor, hasOut).err != Local
    ensures Remove(l, anchor, hasOut).ret.Some? ==> v == Remove(l, anchor, hasOut).ret
    ensures v.Some? ==> 0 <= anchor < l.capacity && v.value == l.data[anchor].elem
  {
    if Validate(l) != 0 || !hasOut || l.size == 0 || anchor < 0 || l.capacity <= anchor then None
    else if l.data[anchor].prev == POISON_PREV then None
    else Some(l.data[anchor].elem)
  }

  /** The unlink rewrite on a well-formed list: the `j`-th live slot leaves
      the live sequence and becomes the head of the free chain; only it and
      its two neighbours change, as `SplicedOut` describes. */
  lemma UnlinkValid(l: List, order: seq<int>, fc: seq<int>, j: int)
    requires Valid(l, order, fc) && 0 <= j < |order|
    ensures 0 < order[j] < l.capacity && l.data[order[j]].prev != POISON_PREV
    ensures var a := order[j];
      var r := Unlink(l, a);
      var c := Cycle(order);
      && SplicedOut(l.data, r.data, a, NextIn(c, j + 1), PrevIn(c, j + 1), l.free)
      && Valid(r, Without(order, j), [a] + fc)
      && Contents(r, Without(order, j)) == Without(Contents(l, order), j)
  {
    ValidCounts(l, order, fc);
    var c := Cycle(order);
    var p := j + 1;
    var a := order[j];
    assert c[p] == a;
    assert l.data[c[p]].next == NextIn(c, p) && l.data[c[p]].prev == PrevIn(c, p);
    assert l.data[c[0]].next == NextIn(c, 0);
    PoisonExactlyOnFree(l, order, fc, a);
    var nx := NextIn(c, p);
    var pv := PrevIn(c, p);
    assert pv == c[p - 1];
    assert nx == c[if p + 1 < |c| then p + 1 else 0];
    UnlinkSlots(l, a);
    var r := Unlink(l, a);
    StructuredRemove(l, r, order, fc, j);
    SplicedOutElems(l.data, r.data, a, nx, pv, l.free);
    assert forall k :: 0 <= k < |order| && k != j ==> order[k] != order[j] by {
      forall k | 0 <= k < |order| && k != j ensures order[k] != order[j] {
        assert c[k + 1] == order[k];
      }
    }
    ContentsRemove(l, r, order, j);
  }

  /** When the anchor's neighbours are distinct from it, the head moves past
      it only if it is the head, and a one-element list empties to the bare
      sentinel, `Unlink` changes exactly three slots. */
  lemma UnlinkSlots(l: List, a: int)
    requires InBounds(l) && 0 < a < l.capacity && l.data[a].prev != POISON_PREV && l.size > 0
    requires a != l.data[a].next && a != l.data[a].prev
    requires l.data[NULL_INDEX].next == a ==> l.data[a].prev == NULL_INDEX
    requires l.size == 1 ==> l.data[a].next == NULL_INDEX && l.data[a].prev == NULL_INDEX
    ensures SplicedOut(l.data, Unlink(l, a).data, a, l.data[a].next, l.data[a].prev, l.free)
  {
  }

  /** Removal on a well-formed list succeeds exactly for live anchors (given
      an out-parameter): it returns the anchor's element, drops it from the
      list, and leaves the list well formed with the slot at the head of the
      free chain. */
  lemma RemoveValid(l: List, order: seq<int>, fc: seq<int>, j: int)
    requires Valid(l, order, fc) && 0 <= j < |order|
    ensures var r := Remove(l, order[j], true);
      && r.err == NoError
      && r.ret == Some(Contents(l, order)[j])
      && Valid(r.list, Without(order, j), [order[j]] + fc)
      && Contents(r.list, Without(order, j)) == Without(Contents(l, order), j)
  {
    RemoveIsUnlink(l, order, fc, j);
    UnlinkValid(l, order, fc, j);
  }

  /** Removing a live slot from a well-formed list is the unlink rewrite,
      reporting the slot's element. */
  lemma RemoveIsUnlink(l: List, order: seq<int>, fc: seq<int>, j: int)
    requires Valid(l, order, fc) && 0 <= j < |order|
    ensures Remove(l, order[j], true) == Outcome(Unlink(l, order[j]), Some(Contents(l, order)[j]), NoError)
  {
    ValidPassesValidate(l, order, fc);
    UnlinkPasses(l, order, fc, j);
  }

  /** The unlink rewrite of a live slot passes `validateList`. */
  lemma UnlinkPasses(l: List, order: seq<int>, fc: seq<int>, j: int)
    requires Valid(l, order, fc) && 0 <= j < |order|
    ensures 0 < order[j] < l.capacity && l.data[order[j]].prev != POISON_PREV
    ensures Validate(Unlink(l, order[j])) == 0
  {
    UnlinkValid(l, order, fc, j);
    ValidPassesValidate(Unlink(l, order[j]), Without(order, j), [order[j]] + fc);
  }

  /** Every refused removal on a well-formed list leaves it untouched and
      still well formed: the sentinel, free slots and out-of-range anchors are
      never removed. */
  lemma RemoveRefusedNonLive(l: List, order: seq<int>, fc: seq<int>, anchor: int)
    requires Valid(l, order, fc) && anchor != NULL_INDEX && anchor !in order
    ensures Remove(l, anchor, true) == Outcome(l, None, Local)
  {
    ValidPassesValidate(l, order, fc);
    if 0 <= anchor < l.capacity && l.size > 0 {
      PoisonExactlyOnFree(l, order, fc, anchor);
    }
  }

  /** The sentinel is not refused as an anchor: on a non-empty well-formed
      list it is unlinked like a live slot and put on the free chain, and
      only the exit check notices, with `free` now `nullindex` while slots
      remain unused. Null is returned, yet the sentinel's element has been
      stored through `element`. */
  lemma RemoveSentinelReported(l: List, order: seq<int>, fc: seq<int>)
    requires Valid(l, order, fc) && |order| > 0
    ensures var r := Remove(l, NULL_INDEX, true);
      && r.list == Unlink(l, NULL_INDEX)
      && r.list.free == NULL_INDEX && r.list.size + 1 == l.size
      && r.ret == None
      && r.err.Structural? && r.err.mask & Code(NotFree) != 0
    ensures RemoveStored(l, NULL_INDEX, true) == Some(l.data[NULL_INDEX].elem)
  {
    ValidPassesValidate(l, order, fc);
    ValidCounts(l, order, fc);
    assert Tail(l) == order[|order| - 1] != POISON_PREV;
  }

  // ------------------------------------------------------------------- lookup

  /** `list_get`: the element of a non-sentinel, in-range, non-poisoned slot,
      without mutating anything; otherwise null with -1. */
  function Get(l: List, anchor: int): (r: Outcome<Option<int>>)
    requires HasSentinel(l) && |l.data| == l.capacity
    ensures r.list == l
    ensures Validate(l) != 0 ==> r == Outcome(l, None, Structural(Validate(l)))
    ensures Validate(l) == 0 ==>
      (anchor != NULL_INDEX && 0 <= anchor < l.capacity && l.data[anchor].prev != POISON_PREV
       <==> r.err == NoError)
    ensures r.err == NoError ==> 0 <= anchor < l.capacity && r.ret == Some(l.data[anchor].elem)
    ensures r.err != NoError ==> r.ret == None
  {
    var mask := Validate(l);
    if mask != 0 then Outcome(l, None, Structural(mask))
    else if anchor == NULL_INDEX then Outcome(l, None, Local)
    else if anchor < 0 || l.capacity <= anchor then Outcome(l, None, Local)
    else if l.data[anchor].prev == POISON_PREV then Outcome(l, None, Local)
    else Outcome(l, Some(l.data[anchor].elem), NoError)
  }

  /** On a well-formed list `list_get` succeeds exactly on live slots, and
      then yields that slot's element of the list contents. */
  lemma GetValid(l: List, order: seq<int>, fc: seq<int>, anchor: int)
    requires Valid(l, order, fc)
    ensures Get(l, anchor).err == NoError <==> anchor in order
    ensures anchor in order ==> Get(l, anchor).ret == Some(Contents(l, order)[IndexOf(order, anchor)])
  {
    ValidPassesValidate(l, order, fc);
    if anchor in order {
      var j := IndexOf(order, anchor);
      ValidCounts(l, order, fc);
      PoisonExactlyOnFree(l, order, fc, anchor);
      assert Contents(l, order)[j] == l.data[anchor].elem;
    } else if 0 <= anchor < l.capacity {
      PoisonExactlyOnFree(l, order, fc, anchor);
    }
  }

  /** `list_size` and `list_capacity`: the counters, or 0 with the mask. */
  function Size(l: List): (r: Outcome<nat>)
    requires HasSentinel(l)
    ensures r.list == l
    ensures Validate(l) == 0 ==> r.err == NoError && r.ret == l.size && r.ret < l.capacity
    ensures Validate(l) != 0 ==> r.ret == 0 && r.err == Structural(Validate(l))
  {
    var mask := Validate(l);
    if mask != 0 then Outcome(l, 0, Structural(mask)) else Outcome(l, l.size, NoError)
  }

  function Capacity(l: List): (r: Outcome<nat>)
    requires HasSentinel(l)
    ensures r.list == l
    ensures Validate(l) == 0 ==> r.err == NoError && r.ret == l.capacity && r.ret > l.size
    ensures Validate(l) != 0 ==> r.ret == 0 && r.err == Structural(Validate(l))
  {
    var mask := Validate(l);
    if mask != 0 then Outcome(l, 0, Structural(mask)) else Outcome(l, l.capacity, NoError)
  }
}
