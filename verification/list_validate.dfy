/**
 `validateList`: the cheap cardinality checks the list runs on entry to and
 exit from every operation. Only three structural bits can be set; the
 canary and hash layers and the pointer checks are not part of this model,
 so their bits are always clear.
 */
module ListValidate {
  import opened ListLayout
  import opened ListErrors

  /** Largest `size_t` value; `capacity - 1` wraps to it when capacity is 0. */
  const SIZE_MAX: nat := 0xFFFF_FFFF_FFFF_FFFF

  /** `capacity - 1` computed in `size_t`. */
  function SizeMinusOne(c: nat): (r: nat)
    ensures c > 0 ==> r + 1 == c
    ensures c == 0 ==> r == SIZE_MAX
  {
    if c == 0 then SIZE_MAX else c - 1
  }

  /** The three structural bits a list can raise. */
  const StructuralBits: bv32 := Code(CapacityLessThanSize) | Code(NotHead) | Code(NotFree)

  /** `validateList` for a list whose record and array pointers are sound. */
  function Validate(l: List): (mask: bv32)
    requires HasSentinel(l)
    ensures mask & Code(CapacityLessThanSize) != 0 <==> l.size >= l.capacity
    ensures mask & Code(NotHead) != 0 <==> Head(l) == NULL_INDEX && l.size != 0
    ensures mask & Code(NotFree) != 0 <==> l.free == NULL_INDEX && l.size < SizeMinusOne(l.capacity)
    ensures mask & !StructuralBits == 0
    ensures mask == 0 <==>
      && l.size < l.capacity
      && (Head(l) == NULL_INDEX ==> l.size == 0)
      && (l.free == NULL_INDEX ==> l.size >= SizeMinusOne(l.capacity))
  {
    (if l.size >= l.capacity then Code(CapacityLessThanSize) else 0)
    | (if Head(l) == NULL_INDEX && l.size != 0 then Code(NotHead) else 0)
    | (if l.free == NULL_INDEX && l.size < SizeMinusOne(l.capacity) then Code(NotFree) else 0)
  }

  /** The two bits that no path of `validateList` ever sets. */
  lemma NeverReported(l: List)
    requires HasSentinel(l)
    ensures Validate(l) & Code(NotTail) == 0
    ensures Validate(l) & Code(FreeSequenceIsBroken) == 0
  {
  }
}
