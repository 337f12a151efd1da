/**
 The `ListError` bit enumeration that `validateList` combines into its result
 mask, in its declared display order.
 */
module ListErrors {

  datatype ListError =
    | NullPointer
    | IncorrectPointer
    | NullData
    | CapacityLessThanSize
    | NotHead
    | NotTail
    | LeftCanaryDied
    | RightCanaryDied
    | LeftDataCanaryDied
    | RightDataCanaryDied
    | BrokenHash
    | BrokenDataHash
    | NotFree
    | FreeSequenceIsBroken

  /** `ERROR_COUNT`: how many error bits the enumeration declares. */
  const ERROR_COUNT: int := 14

  /** All error kinds, in declaration (and display) order. */
  const AllErrors: seq<ListError> := [
    NullPointer, IncorrectPointer, NullData, CapacityLessThanSize, NotHead, NotTail,
    LeftCanaryDied, RightCanaryDied, LeftDataCanaryDied, RightDataCanaryDied,
    BrokenHash, BrokenDataHash, NotFree, FreeSequenceIsBroken
  ]

  /** The bit position `k` of an error, so that its code is `0x01 << k`. */
  function BitPosition(e: ListError): (k: nat)
    ensures k < ERROR_COUNT
    ensures AllErrors[k] == e
  {
    match e
    case NullPointer => 0
    case IncorrectPointer => 1
    case NullData => 2
    case CapacityLessThanSize => 3
    case NotHead => 4
    case NotTail => 5
    case LeftCanaryDied => 6
    case RightCanaryDied => 7
    case LeftDataCanaryDied => 8
    case RightDataCanaryDied => 9
    case BrokenHash => 10
    case BrokenDataHash => 11
    case NotFree => 12
    case FreeSequenceIsBroken => 13
  }

  /** The numeric value of an error in the enumeration. */
  function Code(e: ListError): (c: bv32)
  {
    match e
    case NullPointer => 0x0001
    case IncorrectPointer => 0x0002
    case NullData => 0x0004
    case CapacityLessThanSize => 0x0008
    case NotHead => 0x0010
    case NotTail => 0x0020
    case LeftCanaryDied => 0x0040
    case RightCanaryDied => 0x0080
    case LeftDataCanaryDied => 0x0100
    case RightDataCanaryDied => 0x0200
    case BrokenHash => 0x0400
    case BrokenDataHash => 0x0800
    case NotFree => 0x1000
    case FreeSequenceIsBroken => 0x2000
  }

  /** Each code is the single bit `1 << k` at the error's position. */
  lemma CodeIsSingleBit(e: ListError)
    ensures Code(e) == (1 as bv32) << BitPosition(e)
  {
  }

  /** Distinct errors have disjoint codes, so a mask built with `|` can be
      decoded bit by bit. */
  lemma CodesDisjoint(e1: ListError, e2: ListError)
    ensures e1 != e2 <==> Code(e1) & Code(e2) == 0
  {
  }

  /** The enumeration lists each kind exactly once, and `ERROR_COUNT` is its
      length. */
  lemma ErrorCountMatches()
    ensures |AllErrors| == ERROR_COUNT
    ensures forall i, j :: 0 <= i < j < |AllErrors| ==> AllErrors[i] != AllErrors[j]
    ensures forall e: ListError :: e in AllErrors
  {
    forall e: ListError ensures e in AllErrors {
      assert AllErrors[BitPosition(e)] == e;
    }
  }
}
