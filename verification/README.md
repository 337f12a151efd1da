# Array-backed doubly linked list: a Dafny model

This project models the list of `src/list/list.cpp`, `include/list/list.h` and
`src/list/listiterator.cpp`. The list is a doubly linked list kept inside one array
of slots `Node{elem, next, prev}`.

- Slot 0 is the sentinel. Its `next` is the head, its `prev` is the tail, and
  `nullindex` (0) means "no link".
- Unused slots form a free chain. It is linked through `next` from `free`, and
  each free slot carries `prev == POISON_PREV`.
- The only validation is `validateList`. It checks three counters and combines
  them into a bit mask. Every operation except the initialiser and the iterator
  constructors runs it on entry. The initialiser, insertion, removal, lookup, push-front,
  resizing and the rebuild run it again on exit. `destroyList`, push-back and the
  pops do not re-check themselves, though the insertion or removal they hand
  over to does.

The model is functional. A list is the immutable record
`List(data: seq<Node>, capacity, size, free)`.

- Each operation returns an `Outcome(list, ret, err)`.
- `err` records what the operation writes to its `error` out-parameter:
  - `NoError`: nothing was written;
  - `Local`: the -1 of the `ERROR` macro;
  - `Structural(mask)`: the mask of `CHECK_VALID`.
- The exit check is modelled as well. When it fails, the mutation has still
  happened.

Well-formedness is the ghost predicate `Valid(l, order, fc)`:

- `order` lists the live slots from head to tail. `fc` lists the free slots from
  `free` to the end of the chain.
- Together with the sentinel, they partition the slots `0 .. capacity-1`.
- The cycle `[0] + order` is doubly linked and wraps round at both ends.
- The chain `fc` is linked through `next` and ends at `nullindex`.
- `prev` is `POISON_PREV` on exactly the free slots.
- `size == |order|`, so `|fc| == capacity - 1 - size`.

`validateList` checks much less than this. The proof obligation is
`Valid ⇒ validateList == 0`, never the converse. The contents of a list are
`Contents(l, order)`, the elements of `order` in list order.

Modules, in dependency order:

| module | file | content |
|---|---|---|
| `ListLayout` | list_layout.dfy | `Node`, `List`, outcomes, sentinel accessors |
| `ListErrors` | list_errors.dfy | the `ListError` bits and `ERROR_COUNT` |
| `ListValidate` | list_validate.dfy | `validateList` |
| `ListInvariant` | list_invariant.dfy | `Valid`, `Contents` and the facts they give |
| `ListAlloc` | list_alloc.dfy | init, destroy, growth, the exit check |
| `ListSplice` | list_splice.dfy | splicing a slot in or out keeps `Valid` |
| `ListOps` | list_ops.dfy | insert, remove, get, size, capacity |
| `ListEnds` | list_ends.dfy | push/pop at both ends, round trips |
| `ListIterator` | list_iterator.dfy | the iterators and traversal |
| `ListRestore` | list_restore.dfy | `list_restoreLinearity` |

Things that became parameters:

- The poison element is the constant `POISON_ELEM`, because the element type's
  poison function is not part of this model.
- The fresh allocation of `list_restoreLinearity` is the parameter `garbage`.
- Whether an out-pointer is null is the flag `hasOut`.

## Model

| member | source | states |
|---|---|---|
| ListLayout.Head | include/list/list.h:88-91 | returns the sentinel's `next` link; on a well-formed list that is the first live slot, or the sentinel when the list is empty (`ListInvariant.ValidCounts`) |
| ListLayout.Tail | include/list/list.h:93-96 | returns the sentinel's `prev` link; on a well-formed list that is the last live slot, or the sentinel when the list is empty (`ListInvariant.ValidCounts`) |
| ListLayout.SetHead | include/list/list.h:98-101 | writes only the sentinel's `next`: the head becomes the new value; tail, counters and every other slot are unchanged, and links stay in range |
| ListLayout.SetTail | include/list/list.h:103-106 | writes only the sentinel's `prev`: the tail becomes the new value; head, counters and every other slot are unchanged |
| ListLayout.SetHeadOfHead | include/list/list.h:88-101 | writing back the current head leaves the list unchanged |
| ListErrors.BitPosition | include/list/list.h:68-83 | every error kind has a bit position below `ERROR_COUNT`, and it sits at that position in the declared order |
| ListErrors.CodeIsSingleBit | include/list/list.h:68-83 | each error code is the single bit `0x01 << k` at its position |
| ListErrors.CodesDisjoint | include/list/list.h:68-83 | two codes share a bit exactly when they are the same error, so an OR of codes can be decoded |
| ListErrors.ErrorCountMatches | include/list/list.h:85-86 | `ERROR_COUNT` (14) is the number of declared error kinds, each listed once |
| ListValidate.SizeMinusOne | src/list/list.cpp:74 | `capacity - 1` in `size_t`: one less than a positive capacity, and the largest `size_t` when the capacity is 0 |
| ListValidate.Validate | src/list/list.cpp:55-108 | each of the three structural bits is set exactly under its counter condition, no other bit is ever set, and the mask is 0 exactly when all three conditions are clear |
| ListValidate.NeverReported | src/list/list.cpp:55-108 | `LIST_NOT_TAIL` and `LIST_FREE_SEQUENCE_IS_BROKEN` are never reported |
| ListInvariant.ValidCounts | include/list/list.h:29-32 | in a well-formed list `size < capacity`, the free chain has `capacity - 1 - size` slots, live and free slots are never the sentinel, and the sentinel's links are the first and last live slots |
| ListInvariant.StructuredInBounds | include/list/list.h:15-19 | the partition, link and chain structure alone keeps every `next` and `prev` inside the array |
| ListInvariant.ValidPassesValidate | src/list/list.cpp:68-75 | `validateList` reports nothing on a well-formed list |
| ListInvariant.LinkConsistency | include/list/list.h:15-19 | from the sentinel and from every live slot, one step forward then back, or back then forward, returns to the same slot |
| ListInvariant.PoisonExactlyOnFree | src/list/list.cpp:51 | a slot carries `POISON_PREV` exactly when it is neither live nor the sentinel |
| ListAlloc.Checked | src/list/list.cpp:28-42 | the exit `CHECK_VALID`: the mutated state is kept; the return value is kept when validation passes, and otherwise the failure value is returned with the mask |
| ListAlloc.Init | src/list/list.cpp:336-378 | a fresh list of capacity `c` has `c + 1` slots, no elements, the sentinel `{poison, 0, 0}`, and slots `1 .. c` poisoned and chained in order to `nullindex`, with `free` 1 (or `nullindex` when `c` is 0) |
| ListAlloc.InitAsWritten | src/list/list.cpp:110-156 | `do_initList` as written gives `capacity + 1` slots, size 0 and `free` 1 for every capacity |
| ListAlloc.InitAgreesFromOne | src/list/list.cpp:358-377 | for every capacity from 1 on, the initialiser as written is `Init` |
| ListAlloc.InitZeroAsWrittenBreaksSentinel | src/list/list.cpp:371-377 | with capacity 0, as written, the sentinel is poisoned and `free` points past the array, yet validation reports nothing |
| ListAlloc.InitValid | src/list/list.cpp:358-377 | a fresh list is well formed, with no live slots and the free chain `1 .. capacity` |
| ListAlloc.Destroy | src/list/list.cpp:158-185 | unless validation fails, the array is released and every counter is zeroed; on failure nothing changes |
| ListAlloc.GrowAsWritten | src/list/list.cpp:221-239 | the grow path as written: the new capacity and an unchanged size, with `free` set to `newCapacity - capacity` when the chain was exhausted |
| ListAlloc.Grow | src/list/list.cpp:221-239 | old slots are kept, the new slots are poisoned and chained in index order (the last one to the old `free`), and an exhausted chain restarts at the old capacity |
| ListAlloc.GrowDoublingAgrees | src/list/list.cpp:235-236 | when the capacity doubles, the code as written and `Grow` coincide |
| ListAlloc.GrowAsWrittenReusesLiveSlot | src/list/list.cpp:235-236 | as written, growing a full two-element list from 3 to 5 slots sets `free` to a slot that still holds a live element, and validation passes |
| ListAlloc.GrowValid | src/list/list.cpp:221-239 | growing a well-formed list with an exhausted chain keeps it well formed with the same contents, and the free chain becomes the new slots in order |
| ListAlloc.GrowPassesValidate | src/list/list.cpp:239-243 | the exit check of the grow path never fails on a list that passed the entry check |
| ListOps.Insert | src/list/list.cpp:381-422 | a failing mask is returned unchanged and a poisoned anchor is refused with -1; otherwise the returned slot is in range and holds the element, the size grows by one, and the capacity doubles exactly when the list was full |
| ListOps.InsertIsLink | src/list/list.cpp:397-421 | with a free slot, insertion at a live or sentinel anchor is the link rewrite, returning the old free head, and the exit check passes |
| ListOps.InsertSlots | src/list/list.cpp:397-421 | the old free head `f` gets `{e, old next of anchor, anchor}`, the old successor's `prev` and the anchor's `next` become `f`, `free` moves along the chain, and no other slot changes |
| ListOps.InsertIntoFull | src/list/list.cpp:388-395 | a full list is first doubled: the old slots are kept and the new ones are poisoned and chained in order. The element then goes into the slot at the old capacity, which is returned; only that slot, the anchor and its successor change |
| ListOps.InsertValid | src/list/list.cpp:381-422 | with a free slot, insertion keeps the list well formed and splices the element in right after the anchor |
| ListOps.InsertAnyValid | src/list/list.cpp:381-422 | in both the free-slot and the full case, insertion on a well-formed list succeeds, returns the predicted slot and keeps the list well formed |
| ListOps.InsertAnyContents | src/list/list.cpp:381-422 | in both cases the contents become the old contents with the element inserted after the anchor's position |
| ListOps.Remove | src/list/list.cpp:468-514 | refused with -1 exactly for a null out-pointer, an empty list, an out-of-range anchor or a poisoned anchor; on success it returns the anchor's element, the size drops by one, and the slot becomes the poisoned head of the free chain |
| ListOps.RemoveStored | src/list/list.cpp:468-484 | an element is stored through `element` exactly when the call is not refused, even when the exit check then fails and null is returned; it is the anchor's element, and whenever an element is returned it is the stored one |
| ListOps.UnlinkValid | src/list/list.cpp:484-507 | unlinking the `j`-th live slot changes only it and its two neighbours, keeps the list well formed, and drops the `j`-th element from the contents |
| ListOps.RemoveValid | src/list/list.cpp:468-514 | removing a live slot of a well-formed list succeeds, returns its element, and leaves a well-formed list without it |
| ListOps.RemoveRefusedNonLive | src/list/list.cpp:472-482 | every anchor other than the sentinel that is not live is refused and changes nothing |
| ListOps.RemoveSentinelReported | src/list/list.cpp:478-511 | the sentinel is not refused as an anchor: it is unlinked and put on the free chain, and only the exit check reports `LIST_NOT_FREE`; null is returned, yet the sentinel's element has been stored through `element` |
| ListOps.Get | src/list/list.cpp:448-466 | the list is never changed; on a passing list the call succeeds exactly for an in-range, non-sentinel, unpoisoned anchor, and then it returns that slot's element |
| ListOps.GetValid | src/list/list.cpp:448-466 | on a well-formed list, `get` succeeds exactly on the live slots and returns the matching element of the contents |
| ListOps.Size | src/list/list.cpp:530-535 | returns the size, which is below the capacity, or 0 with the mask |
| ListOps.Capacity | src/list/list.cpp:537-542 | returns the capacity, which exceeds the size, or 0 with the mask |
| ListEnds.PushBack | src/list/list.cpp:425-430 | a failing mask is returned unchanged; on success the returned slot holds the element and the size grows by one |
| ListEnds.PushFront | src/list/list.cpp:433-446 | on success the returned slot holds the element and has become the head |
| ListEnds.PopBack | src/list/list.cpp:516-521 | an empty list or a null out-pointer is refused with -1; on success the tail's element is returned and the size drops by one |
| ListEnds.PopFront | src/list/list.cpp:523-528 | an empty list or a null out-pointer is refused with -1; on success the head's element is returned and the size drops by one |
| ListEnds.PushBackValid | src/list/list.cpp:425-430 | on a well-formed list, push-back appends the element to the contents and keeps the list well formed |
| ListEnds.PushFrontValid | src/list/list.cpp:433-446 | on a well-formed list, push-front prepends the element, keeps the list well formed, and its head write changes nothing after the insertion |
| ListEnds.PopBackValid | src/list/list.cpp:516-521 | on a non-empty well-formed list, pop-back returns the last element and leaves the contents without it |
| ListEnds.PopFrontValid | src/list/list.cpp:523-528 | on a non-empty well-formed list, pop-front returns the first element and leaves the contents without it |
| ListEnds.PopEmpty | src/list/list.cpp:475-476 | popping either end of an empty well-formed list is refused and changes nothing |
| ListEnds.PushPopBack | src/list/list.cpp:425-430 | pushing to the back, then popping the back, returns the element and restores the contents |
| ListEnds.PushPopFront | src/list/list.cpp:433-446 | pushing to the front, then popping the front, returns the element and restores the contents |
| ListIterator.MakeMutable | src/list/listiterator.cpp:29-36 | a new mutable iterator is at the head of the list, unvalidated; it can be stepped whenever the list's links stay in the array |
| ListIterator.MakeConst | src/list/listiterator.cpp:38-45 | a new const iterator is at the head of the list, unvalidated; it can be stepped whenever the list's links stay in the array |
| ListIterator.Next | src/list/listiterator.cpp:47-54 | on a failing list the iterator does not move and 1 is returned; otherwise 0 is returned and the iterator stays usable |
| ListIterator.Prev | src/list/listiterator.cpp:56-63 | on a failing list the iterator does not move and 1 is returned; otherwise 0 is returned |
| ListIterator.HasNext | src/list/listiterator.cpp:65-70 | false on a failing list |
| ListIterator.HasPrev | src/list/listiterator.cpp:72-77 | false on a failing list |
| ListIterator.Index | src/list/listiterator.cpp:79-84 | `nullindex` on a failing list; always a slot of the array |
| ListIterator.Value | src/list/listiterator.cpp:86-98 | null exactly on a failing list; otherwise the element of the current slot |
| ListIterator.StepOnCycle | src/list/listiterator.cpp:47-63 | on a well-formed list, `next` and `prev` step forward and backward around the cycle sentinel, head, ..., tail, sentinel |
| ListIterator.NextPrevInverse | src/list/listiterator.cpp:47-63 | from the sentinel or a live slot, `prev` undoes `next` and `next` undoes `prev` |
| ListIterator.HasNextIffLive | src/list/listiterator.cpp:65-70 | on a well-formed list, `hasNext` holds exactly at live slots, the tail included, and fails at the sentinel |
| ListIterator.HasPrevIffNotFirst | src/list/listiterator.cpp:72-77 | on a well-formed list, `hasPrev` fails exactly at the first element (and everywhere when the list is empty) |
| ListIterator.IndexValueLive | src/list/listiterator.cpp:79-98 | at the `k`-th live slot, `index` returns the slot and `value` returns the `k`-th element of the contents |
| ListIterator.AdvanceIsWalk | src/list/listiterator.cpp:51 | on a passing list, `j` calls of `next` follow `j` links |
| ListIterator.Traversal | src/list/listiterator.cpp:47-54 | from a new iterator, the `k`-th `next` reaches the `k`-th live slot; after `size` calls it reaches the sentinel, and one more returns to the head |
| ListIterator.CollectIsContents | src/list/listiterator.cpp:86-98 | reading `value` while stepping with `next` from the head yields exactly the contents |
| ListRestore.RestoreLinearity | src/list/list.cpp:246-334 | a failing mask is returned unchanged; otherwise the array is rebuilt with the `k`-th element in slot `k`, the free slots chained in ascending order after the live ones, and the new capacity (`newCapacity` 0 keeps it). A well-formed list stays well formed with the same contents |
| ListRestore.CopyLive | src/list/list.cpp:271-296 | the sentinel goes to slot 0, and the elements met by the iterator go to slots `1 .. size`, each linked to its neighbours |
| ListRestore.ChainFree | src/list/list.cpp:300-315 | slots from the first free one on are poisoned and chained in order to `nullindex`; earlier slots are untouched |
| ListRestore.LinearValid | src/list/list.cpp:271-315 | the linear layout of any values is a well-formed list that holds exactly those values |
| ListRestore.RestoredTraversal | src/list/list.cpp:271-298 | after a rebuild, traversal from the head visits slots `1, 2, ..., size` in order and then the sentinel |
| ListRestore.RestoreAsWritten | src/list/list.cpp:246-334 | the rebuild as written keeps the size, takes the new capacity, and ends with a poisoned terminator in the last slot |
| ListRestore.RestoreAsWrittenAgrees | src/list/list.cpp:271-315 | with at least two elements and a slot left free, the code as written produces exactly the linear layout, whatever the allocation held |
| ListRestore.RestoreAsWrittenLosesSingle | src/list/list.cpp:277-296 | as written, rebuilding a one-element list replaces its element with the sentinel's, sets `free` past the array, and reports no error |
| ListRestore.RestoreAsWrittenLosesLast | src/list/list.cpp:311-315 | as written, rebuilding a full list overwrites its last element with the terminator, sets `free` past the array, and reports no error |
| ListRestore.RestoreAsWrittenLosesEmpty | src/list/list.cpp:271-302 | as written, rebuilding a freshly initialised empty list rewrites the sentinel with slot 1 as its tail while the size stays 0, leaves slot 2 as the allocation held it, sets `free` to 3, and reports no error |
| ListRestore.RestoreIntendedKeeps | src/list/list.cpp:271-315 | the intended layout of those three lists is the lists themselves, elements included |

## Left out

- Canaries, hashes and pointer validity are not modelled. The canary, hash and
  pointer bits of `validateList` are always clear, `UPDATE_HASH` does nothing,
  and a list record or iterator pointer is never null. `dumpList` is output only.
- Failing `calloc`, `malloc` and `recalloc` are not modelled, so every allocation
  succeeds. Those failures are foreign calls.
- A null `error` pointer is not modelled. The model always records what would be
  written. After a failed inner resize, insertion's `CHECK_ERROR` rewrites the
  code to -1; that path cannot occur from a passing list, because growth never
  fails its own validation (`GrowPassesValidate`).
- `list_resize` is modelled only on its growing path. The shrink path (documented
  as unsafe) is left out. So is the restore branch. It runs
  `list_restoreLinearity` and, when that reports any nonzero code, rewrites
  the code to -1 through `CHECK_ERROR` and returns; otherwise it validates the
  list once more.
- Grow: with a non-empty free chain, the new slots are chained to the old `free`
  but never become reachable. The model reproduces this and proves
  well-formedness only for an exhausted chain, which is the only growth the list
  performs on its own.
- RestoreLinearity (`ListRestore.RestoreLinearity`) requires a new capacity
  above the size. The truncating rebuild the source attempts for a smaller
  capacity is not modelled; it writes the old size into the sentinel's `prev`.
- RestoreLinearity does not model the `capacity == 0` early return. A list that
  passes validation always has a positive capacity.
- RestoreAsWritten (`ListRestore.RestoreAsWritten`) requires a new capacity of
  at least 2, because the source writes slot 1 without checking.
- RestoreAsWritten does not model the `set_head(list, 1)` at line 298. It writes
  the array that is freed right after, so it has no effect.
- Insert (`ListOps.Insert`) requires the anchor to lie inside the array, because
  the source indexes with it unchecked.
- PushBack (`ListEnds.PushBack`) requires a passing list's tail to be a slot
  index, because the source uses the tail as an unchecked anchor.
- `size_t` and `index_t` widths are not modelled, except the `capacity - 1` wrap
  in `validateList`. `capacity * 2`, `capacity + 1` and the index casts cannot
  overflow in the model.
- `value` returns the element and not a pointer into the array. Writing through
  a mutable iterator's pointer is not modelled.
- The `assert(iter)` of the iterator functions and the null-list checks of
  `do_initList` are not modelled.
- `list_get` and `list_removeElement` return the element as a value rather than
  a pointer to the caller's variable. Only the out-pointer's nullness is kept, as
  `hasOut`. The value `list_removeElement` stores through it is `RemoveStored`,
  which differs from the returned value only when the exit check fails.
- Lists whose links leave the array are not modelled: on them the source reads
  or writes outside the array. Removal, the pops, lookup, the iterators and the
  rebuild require only in-range links (`LinksInRange`). Insertion and the
  pushes also require `free` to name a slot (`InBounds`), because they write
  the free slot unchecked.
- The demo driver, the dump, the image generator and the debug provenance are
  not part of this model.

## Findings

| source | as written | input that shows it | evidently intended | confidence | as-written member | corrected member |
|---|---|---|---|---|---|---|
| src/list/list.cpp:235-236 | an exhausted free chain restarts at `newCapacity - capacity` | grow the full list `{10, 20}` of capacity 3 to 5: `free` becomes 2, a live slot | restart at the first new slot, `capacity` (the same value when doubling) | not executed | ListAlloc.GrowAsWrittenReusesLiveSlot | ListAlloc.GrowValid |
| src/list/list.cpp:371-377 | for capacity 0 the terminator write hits slot 0 and `free` becomes 1 | `do_initList` with capacity 0: the sentinel is poisoned and `free` equals the array length, yet validation passes | keep the sentinel, with an empty free chain | not executed | ListAlloc.InitZeroAsWrittenBreaksSentinel | ListAlloc.InitValid |
| src/list/list.cpp:277-296 | with one element, the `next` of the loop header moves past it before `temp[size]` is written | rebuild the list holding only 7: slot 1 gets the sentinel's element and `prev` 1, and `free` becomes 3 | slot 1 keeps 7, with links 0 and 0, and `free` 2 | not executed | ListRestore.RestoreAsWrittenLosesSingle | ListRestore.RestoreLinearity |
| src/list/list.cpp:271-302 | with no elements, `temp[size]` is the sentinel's slot and the `free` written is 3 | rebuild a freshly initialised list of capacity 4 in place: the sentinel's tail becomes 1 while the size is 0, slot 2 keeps what the allocation held and is on no chain, and `free` is 3 | keep the empty layout: sentinel links 0 and 0, free chain `1 -> 2 -> 3 -> 4`, `free` 1 | not executed | ListRestore.RestoreAsWrittenLosesEmpty | ListRestore.RestoreLinearity |
| src/list/list.cpp:311-315 | with a full list, the terminator write overwrites the last element and `free` is set past the array | rebuild the full list `{10, 20}` of capacity 3: 20 is lost, and `free` becomes 3 | keep every element, with `free` `nullindex` | not executed | ListRestore.RestoreAsWrittenLosesLast | ListRestore.RestoreIntendedKeeps |
