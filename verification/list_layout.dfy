/**
 Layout of the array-backed list: the slot record, the list record, the
 sentinel convention of slot 0 and the values every operation reports back.

 `element_t` and `index_t` are modelled as `int`; `size_t` fields as `nat`.
 */
module ListLayout {

  /** `nullindex`: "no link", and also the index of the sentinel slot. */
  const NULL_INDEX: int := 0

  /** The `prev` marker of a slot that sits on the free chain. */
  const POISON_PREV: int := -1

  /** The element written into free slots and into the sentinel. The element
      type's poison function is not part of this model; one fixed value stands
      for it. */
  const POISON_ELEM: int := 0

  /** One slot of the array. */
  datatype Node = Node(elem: int, next: int, prev: int)

  /** The list record: the slot array, its length, the number of live slots and
      the first slot of the free chain. Canaries, hashes and debug provenance
      are not part of this model. */
  datatype List = List(data: seq<Node>, capacity: nat, size: nat, free: int)

  /** What an operation wrote into its `error` out-parameter: nothing, the
      local-failure code -1 (the ERROR macro), or a non-zero validation mask
      (the CHECK_VALID macro). */
  datatype ErrSignal = NoError | Local | Structural(mask: bv32)
  {
    /** The integer the caller's error variable receives, when one is written. */
    function Code(): int
      requires !NoError?
    {
      if Local? then -1 else mask as int
    }
  }

  /** A returned pointer: `None` for null, `Some(v)` for a pointer to an
      element holding `v`. */
  datatype Option<T> = None | Some(value: T)

  /** The state after a call, the value the call returned, and its error signal. */
  datatype Outcome<T> = Outcome(list: List, ret: T, err: ErrSignal)

  /** Slot 0 can be read: the array holds at least the sentinel. */
  predicate HasSentinel(l: List)
  {
    |l.data| > 0
  }

  /** Every link the source follows without checking names a slot: the
      array length matches `capacity`, every `next` names a slot and every
      `prev` names a slot or is the poison marker. Removal, lookup and the
      iterators dereference nothing else. */
  predicate LinksInRange(l: List)
  {
    && |l.data| == l.capacity
    && 0 < l.capacity
    && (forall i :: 0 <= i < |l.data| ==>
          0 <= l.data[i].next < |l.data| && (l.data[i].prev == POISON_PREV || 0 <= l.data[i].prev < |l.data|))
  }

  /** The links are in range and so is `free`, which insertion dereferences
      without checking. */
  predicate InBounds(l: List)
  {
    LinksInRange(l) && 0 <= l.free < l.capacity
  }

  /** `list_head`: the sentinel's `next` link. */
  function Head(l: List): (h: int)
    requires HasSentinel(l)
    ensures h == l.data[NULL_INDEX].next
  {
    l.data[NULL_INDEX].next
  }

  /** `list_tail`: the sentinel's `prev` link. */
  function Tail(l: List): (t: int)
    requires HasSentinel(l)
    ensures t == l.data[NULL_INDEX].prev
  {
    l.data[NULL_INDEX].prev
  }

  /** `set_head`: writes only the sentinel's `next` link. */
  function SetHead(l: List, h: int): (r: List)
    requires HasSentinel(l)
    ensures HasSentinel(r) && Head(r) == h && Tail(r) == Tail(l)
    ensures |r.data| == |l.data| && r.data[0].elem == l.data[0].elem
    ensures forall i :: 0 < i < |l.data| ==> r.data[i] == l.data[i]
    ensures r.capacity == l.capacity && r.size == l.size && r.free == l.free
    ensures InBounds(l) && 0 <= h < l.capacity ==> InBounds(r)
  {
    l.(data := l.data[NULL_INDEX := l.data[NULL_INDEX].(next := h)])
  }

  /** `set_tail`: writes only the sentinel's `prev` link. */
  function SetTail(l: List, t: int): (r: List)
    requires HasSentinel(l)
    ensures HasSentinel(r) && Tail(r) == t && Head(r) == Head(l)
    ensures |r.data| == |l.data| && r.data[0].elem == l.data[0].elem
    ensures forall i :: 0 < i < |l.data| ==> r.data[i] == l.data[i]
    ensures r.capacity == l.capacity && r.size == l.size && r.free == l.free
    ensures InBounds(l) && 0 <= t < l.capacity ==> InBounds(r)
  {
    l.(data := l.data[NULL_INDEX := l.data[NULL_INDEX].(prev := t)])
  }

  /** Writing back the head that is already there changes nothing. */
  lemma SetHeadOfHead(l: List)
    requires HasSentinel(l)
    ensures SetHead(l, Head(l)) == l
  {
    assert SetHead(l, Head(l)).data == l.data;
  }
}
