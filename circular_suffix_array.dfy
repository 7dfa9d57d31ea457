/** The circular suffix array (Burrows/CircularSuffixArray.java): the start
    positions of the n rotations of a string, sorted by the rotations they
    start, with equal rotations kept in ascending order of start position
    (the object sort of the source is stable). */
module CircularSuffixArray {
  import opened Wrappers
  import opened Lex

  /** The rotation of s that starts at position k: its m-th character is
      s[(k + m) mod n], the character the comparator reads. */
  function Rot(s: seq<Byte>, k: int): (r: seq<Byte>)
    requires 0 <= k < |s|
    ensures |r| == |s|
  {
    seq(|s|, m requires 0 <= m < |s| => s[(k + m) % |s|])
  }

  /** The order the sort establishes on start positions: by rotation, and
      by start position between equal rotations. */
  ghost predicate KeyLe(s: seq<Byte>, a: int, b: int)
    requires 0 <= a < |s| && 0 <= b < |s|
  {
    var c := Compare(Rot(s, a), Rot(s, b));
    c < 0 || (c == 0 && a <= b)
  }

  /** Two start positions are always ordered one way or the other. */
  lemma KeyTotal(s: seq<Byte>, a: int, b: int)
    requires 0 <= a < |s| && 0 <= b < |s|
    ensures KeyLe(s, a, b) || KeyLe(s, b, a)
  {
    CompareAntisymmetric(Rot(s, a), Rot(s, b));
  }

  /** The order on start positions is transitive. */
  lemma KeyTransitive(s: seq<Byte>, a: int, b: int, c: int)
    requires 0 <= a < |s| && 0 <= b < |s| && 0 <= c < |s|
    requires KeyLe(s, a, b) && KeyLe(s, b, c)
    ensures KeyLe(s, a, c)
  {
    CompareTransitive(Rot(s, a), Rot(s, b), Rot(s, c));
    if Compare(Rot(s, a), Rot(s, c)) == 0 {
      CompareAntisymmetric(Rot(s, a), Rot(s, b));
    }
  }

  /** Every entry is a start position of s. */
  ghost predicate InRange(s: seq<Byte>, idx: seq<int>) {
    forall j :: 0 <= j < |idx| ==> 0 <= idx[j] < |s|
  }

  /** The start positions are in the order of their rotations, ties in
      ascending order. */
  ghost predicate SortedRotations(s: seq<Byte>, idx: seq<int>) {
    && InRange(s, idx)
    && forall j, j' :: 0 <= j < j' < |idx| ==> KeyLe(s, idx[j], idx[j'])
  }

  /** The comparator of the source: compares the rotations starting at a
      and at b character by character, indices taken modulo the length. */
  method CompareRotations(s: seq<Byte>, a: int, b: int) returns (r: int)
    requires 0 <= a < |s| && 0 <= b < |s|
    ensures r == Compare(Rot(s, a), Rot(s, b))
  {
    var len := |s|;
    ghost var ra, rb := Rot(s, a), Rot(s, b);
    for i := 0 to len
      invariant ra[..i] == rb[..i]
    {
      var c1 := s[(a + i) % len];
      var c2 := s[(b + i) % len];
      assert c1 == ra[i] && c2 == rb[i];
      if c1 < c2 {
        CompareAt(ra, rb, i);
        return -1;
      }
      if c1 > c2 {
        CompareAt(ra, rb, i);
        return 1;
      }
      assert ra[..i + 1] == ra[..i] + [c1];
      assert rb[..i + 1] == rb[..i] + [c2];
    }
    assert ra == ra[..len] && rb == rb[..len];
    return 0;
  }

  /** Sorts the start positions in `a` by the comparator, stably. The
      library sort of the source is modelled by an insertion sort, which
      produces the same order. */
  method SortRotations(s: seq<Byte>, a: array<int>)
    requires InRange(s, a[..])
    modifies a
    ensures multiset(a[..]) == multiset(old(a[..]))
    ensures SortedRotations(s, a[..])
  {
    for i := 0 to a.Length
      invariant multiset(a[..]) == multiset(old(a[..]))
      invariant InRange(s, a[..])
      invariant forall p, q :: 0 <= p < q < i ==> KeyLe(s, a[p], a[q])
    {
      var j := i;
      while j > 0
        invariant 0 <= j <= i
        invariant multiset(a[..]) == multiset(old(a[..]))
        invariant InRange(s, a[..])
        invariant forall p, q :: 0 <= p < q <= i && q != j ==> KeyLe(s, a[p], a[q])
      {
        var c := CompareRotations(s, a[j - 1], a[j]);
        if c < 0 || (c == 0 && a[j - 1] <= a[j]) {
          break;
        }
        KeyTotal(s, a[j - 1], a[j]);
        Swap(s, a, j, i);
        j := j - 1;
      }
      forall p, q | 0 <= p < q <= i
        ensures KeyLe(s, a[p], a[q])
      {
        if q == j && p < j - 1 {
          KeyTransitive(s, a[p], a[j - 1], a[j]);
        }
      }
    }
  }

  /** One exchange of the insertion sort: a[j] moves in front of a[j-1]. */
  method Swap(s: seq<Byte>, a: array<int>, j: int, i: int)
    requires 0 < j <= i < a.Length
    requires InRange(s, a[..])
    requires KeyLe(s, a[j], a[j - 1])
    requires forall p, q :: 0 <= p < q <= i && q != j ==> KeyLe(s, a[p], a[q])
    modifies a
    ensures a[..] == old(a[..])[j - 1 := old(a[j])][j := old(a[j - 1])]
    ensures multiset(a[..]) == multiset(old(a[..]))
    ensures InRange(s, a[..])
    ensures forall p, q :: 0 <= p < q <= i && q != j - 1 ==> KeyLe(s, a[p], a[q])
  {
    a[j - 1], a[j] := a[j], a[j - 1];
  }

  class CircularSuffixArray {
    /** The string, its length, and the sorted start positions. */
    const str: seq<Byte>
    const len: nat
    const index: array<int>

    /** `index` holds each start position once, in sorted order. */
    ghost predicate Valid()
      reads this, index
    {
      && len == |str| && index.Length == len
      && IsPermutation(index[..], len)
      && SortedRotations(str, index[..])
    }

    /** Builds the array of start positions 0..n-1 and sorts it. */
    constructor (s: seq<Byte>)
      ensures str == s && len == |s|
      ensures Valid()
    {
      str := s;
      len := |s|;
      var idx := new int[|s|](i => i);
      assert idx[..] == Range(|s|);
      SortRotations(s, idx);
      index := idx;
    }

    /** `length`: the length of the string. */
    function Length(): (r: nat)
      reads this, index
      requires Valid()
      ensures r == |str|
    {
      len
    }

    /** `index(i)`: the start of the i-th smallest rotation; a position
        outside [0, n) throws. */
    method Index(i: int) returns (r: Result<int>)
      requires Valid()
      ensures !(0 <= i < len) ==> r == Failure(IllegalArgument)
      ensures 0 <= i < len ==> r == Success(index[i]) && 0 <= r.value < len
    {
      if i < 0 || i >= len {
        return Failure(IllegalArgument);
      }
      return Success(index[i]);
    }
  }

  /** The constructor of the source with its null check: a null string
      throws; otherwise the sorted suffix array of the string. */
  method NewCircularSuffixArray(s: Option<seq<Byte>>) returns (r: Result<CircularSuffixArray>)
    ensures s.None? ==> r == Failure(IllegalArgument)
    ensures s.Some? ==> r.Success? && fresh(r.value) && r.value.Valid() && r.value.str == s.value
  {
    if s.None? {
      return Failure(IllegalArgument);
    }
    var a := new CircularSuffixArray(s.value);
    return Success(a);
  }

  /** In "ABRACADABRA!" the rotation starting at the final '!' is smaller
      than every other rotation. */
  lemma BangRotationSmallest(s: seq<Byte>, k: int)
    requires s == [65, 66, 82, 65, 67, 65, 68, 65, 66, 82, 65, 33]
    requires 0 <= k < 11
    ensures Compare(Rot(s, 11), Rot(s, k)) == -1
  {
    assert Rot(s, k)[0] == s[k];
    assert Rot(s, 11)[0] == 33;
    CompareAt(Rot(s, 11), Rot(s, k), 0);
  }

  /** The circular suffix array of "ABRACADABRA!", which the source's test
      prints, begins with 11. */
  lemma SmallestRotationStartsWithBang(s: seq<Byte>, idx: seq<int>)
    requires s == [65, 66, 82, 65, 67, 65, 68, 65, 66, 82, 65, 33]
    requires SortedRotations(s, idx) && IsPermutation(idx, |s|)
    ensures idx[0] == 11
  {
    PermutationFacts(idx, |s|);
    assert 11 in idx;
    var j :| 0 <= j < |idx| && idx[j] == 11;
    if j != 0 {
      BangRotationSmallest(s, idx[0]);
      CompareAntisymmetric(Rot(s, 11), Rot(s, idx[0]));
      assert false;
    }
  }
}
