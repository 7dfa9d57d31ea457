/** Outcast detection (WordNet/Outcast.java): among a list of nouns, the one
    whose total WordNet distance to the others is largest. The WordNet is
    modelled by its `distance` function between nouns. */
module Outcast {
  import opened Wrappers

  /** The sum of distance(nouns[i], nouns[j]) over j < k, j != i. */
  function PartialSum(distance: (string, string) -> int, nouns: seq<string>, i: nat, k: nat): int
    requires i < |nouns| && k <= |nouns|
  {
    if k == 0 then 0
    else PartialSum(distance, nouns, i, k - 1)
         + (if k - 1 == i then 0 else distance(nouns[i], nouns[k - 1]))
  }

  /** The total distance from nouns[i] to every other noun of the list. */
  function DistanceSum(distance: (string, string) -> int, nouns: seq<string>, i: nat): int
    requires i < |nouns|
  {
    PartialSum(distance, nouns, i, |nouns|)
  }

  /** `k` is the index `outcast` picks: when some noun has a positive total,
      the first noun of largest total; otherwise (only zero and negative
      totals, the loop's starting value 0 never beaten) the first noun. */
  ghost predicate IsOutcastIndex(distance: (string, string) -> int, nouns: seq<string>, k: int) {
    && 0 <= k < |nouns|
    && if forall i :: 0 <= i < |nouns| ==> DistanceSum(distance, nouns, i) <= 0 then k == 0
       else
         && (forall i :: 0 <= i < |nouns| ==> DistanceSum(distance, nouns, i) <= DistanceSum(distance, nouns, k))
         && (forall i :: 0 <= i < k ==> DistanceSum(distance, nouns, i) < DistanceSum(distance, nouns, k))
  }

  /** The total of a noun does not depend on its distance to itself. */
  lemma {:induction false} SumIgnoresSelf(distance: (string, string) -> int, distance': (string, string) -> int,
                                         nouns: seq<string>, i: nat, k: nat)
    requires i < |nouns| && k <= |nouns|
    requires forall j :: 0 <= j < |nouns| && j != i ==> distance(nouns[i], nouns[j]) == distance'(nouns[i], nouns[j])
    ensures PartialSum(distance, nouns, i, k) == PartialSum(distance', nouns, i, k)
  {
    if k > 0 {
      SumIgnoresSelf(distance, distance', nouns, i, k - 1);
    }
  }

  /** With non-negative distances (WordNet distances are path lengths), the
      noun picked has the largest total of all. */
  lemma OutcastIsFarthest(distance: (string, string) -> int, nouns: seq<string>, k: int)
    requires forall u, v :: distance(u, v) >= 0
    requires IsOutcastIndex(distance, nouns, k)
    ensures forall i :: 0 <= i < |nouns| ==> DistanceSum(distance, nouns, i) <= DistanceSum(distance, nouns, k)
  {
    if forall i :: 0 <= i < |nouns| ==> DistanceSum(distance, nouns, i) <= 0 {
      NonNegativeSum(distance, nouns, 0, |nouns|);
    }
  }

  lemma {:induction false} NonNegativeSum(distance: (string, string) -> int, nouns: seq<string>, i: nat, k: nat)
    requires forall u, v :: distance(u, v) >= 0
    requires i < |nouns| && k <= |nouns|
    ensures PartialSum(distance, nouns, i, k) >= 0
  {
    if k > 0 {
      NonNegativeSum(distance, nouns, i, k - 1);
    }
  }

  /** The outcast index is unique. */
  lemma OutcastIndexUnique(distance: (string, string) -> int, nouns: seq<string>, k: int, k': int)
    requires IsOutcastIndex(distance, nouns, k) && IsOutcastIndex(distance, nouns, k')
    ensures k == k'
  {
  }

  class Outcast {
    /** The WordNet, through its noun distance. */
    const distance: (string, string) -> int

    constructor (wordnet: (string, string) -> int)
      ensures distance == wordnet
    {
      distance := wordnet;
    }

    /** `outcast`: the noun of largest total distance to the others. An empty
        list makes `nouns[maxIndex]` throw. */
    method Outcast(nouns: seq<string>) returns (r: Result<string>)
      ensures |nouns| == 0 ==> r == Failure(IndexOutOfBounds)
      ensures |nouns| > 0 ==> r.Success? && exists k :: IsOutcastIndex(distance, nouns, k) && r.value == nouns[k]
    {
      var maxDistance := 0;
      var maxIndex := 0;
      for i := 0 to |nouns|
        invariant 0 <= maxIndex && (|nouns| > 0 ==> maxIndex < |nouns|) && maxIndex <= i
        invariant maxDistance >= 0
        invariant maxDistance == 0 <==> forall j :: 0 <= j < i ==> DistanceSum(distance, nouns, j) <= 0
        invariant maxDistance == 0 ==> maxIndex == 0
        invariant maxDistance > 0 ==>
          && maxIndex < i && maxDistance == DistanceSum(distance, nouns, maxIndex)
          && (forall j :: 0 <= j < i ==> DistanceSum(distance, nouns, j) <= maxDistance)
          && (forall j :: 0 <= j < maxIndex ==> DistanceSum(distance, nouns, j) < maxDistance)
      {
        var dist := 0;
        for j := 0 to |nouns|
          invariant dist == PartialSum(distance, nouns, i, j)
        {
          if i != j {
            dist := dist + distance(nouns[i], nouns[j]);
          }
        }
        if dist > maxDistance {
          maxDistance := dist;
          maxIndex := i;
        }
      }
      if |nouns| == 0 {
        return Failure(IndexOutOfBounds);
      }
      assert IsOutcastIndex(distance, nouns, maxIndex);
      return Success(nouns[maxIndex]);
    }
  }
}
