/** Bytes, the character-by-character order on strings of one length, and
    the facts about sorted sequences and permutations that the circular
    suffix array and the Burrows–Wheeler transform share. */
module Lex {

  /** A character of the compression pipeline: BinaryStdIn.readString
      delivers one char per input byte, so every char is below 256. */
  type Byte = b: int | 0 <= b < 256

  /** The character-by-character comparison of two strings of one length:
      -1, 0 or 1 by the first position where they differ. */
  function Compare(x: seq<int>, y: seq<int>): (r: int)
    requires |x| == |y|
    ensures -1 <= r <= 1
    ensures r == 0 <==> x == y
  {
    if |x| == 0 then 0
    else if x[0] < y[0] then -1
    else if x[0] > y[0] then 1
    else
      assert x == [x[0]] + x[1..] && y == [y[0]] + y[1..];
      Compare(x[1..], y[1..])
  }

  /** The comparison is decided by the first position where the strings
      differ, the way a loop over the positions decides it. */
  lemma {:induction false} CompareAt(x: seq<int>, y: seq<int>, i: nat)
    requires |x| == |y| && i < |x| && x[..i] == y[..i]
    ensures x[i] < y[i] ==> Compare(x, y) == -1
    ensures x[i] > y[i] ==> Compare(x, y) == 1
  {
    if i > 0 {
      assert x[0] == x[..i][0] == y[..i][0] == y[0];
      assert x[1..][..i - 1] == x[..i][1..] == y[..i][1..] == y[1..][..i - 1];
      CompareAt(x[1..], y[1..], i - 1);
    }
  }

  /** Swapping the arguments flips the sign. */
  lemma {:induction false} CompareAntisymmetric(x: seq<int>, y: seq<int>)
    requires |x| == |y|
    ensures Compare(x, y) == -Compare(y, x)
  {
    if |x| > 0 && x[0] == y[0] {
      CompareAntisymmetric(x[1..], y[1..]);
    }
  }

  /** The order is transitive. */
  lemma {:induction false} CompareTransitive(x: seq<int>, y: seq<int>, z: seq<int>)
    requires |x| == |y| == |z|
    requires Compare(x, y) <= 0 && Compare(y, z) <= 0
    ensures Compare(x, z) <= 0
  {
    if |x| > 0 && x[0] == y[0] == z[0] {
      CompareTransitive(x[1..], y[1..], z[1..]);
    }
  }

  /** Cutting both strings at the same length keeps their order. */
  lemma {:induction false} ComparePrefix(x: seq<int>, y: seq<int>, m: nat)
    requires |x| == |y| && m <= |x|
    requires Compare(x, y) <= 0
    ensures Compare(x[..m], y[..m]) <= 0
  {
    if m > 0 && x[0] == y[0] {
      assert x[..m][1..] == x[1..][..m - 1];
      assert y[..m][1..] == y[1..][..m - 1];
      ComparePrefix(x[1..], y[1..], m - 1);
    }
  }

  /** Strings of length n. */
  ghost predicate AllOfLength(a: seq<seq<int>>, n: nat) {
    forall j :: 0 <= j < |a| ==> |a[j]| == n
  }

  /** A sequence of strings of length n in nondecreasing order. */
  ghost predicate Sorted(a: seq<seq<int>>, n: nat)
    requires AllOfLength(a, n)
  {
    forall j, j' :: 0 <= j < j' < |a| ==> Compare(a[j], a[j']) <= 0
  }

  /** The first entries of two sorted sequences holding the same strings
      agree: each is below the other. */
  lemma SortedHeads(a: seq<seq<int>>, b: seq<seq<int>>, n: nat)
    requires AllOfLength(a, n) && AllOfLength(b, n)
    requires Sorted(a, n) && Sorted(b, n)
    requires multiset(a) == multiset(b) && |a| > 0
    ensures |b| > 0 && a[0] == b[0]
  {
    assert a[0] in multiset(b);
    var k :| 0 <= k < |b| && b[k] == a[0];
    assert b[0] in multiset(a);
    var m :| 0 <= m < |a| && a[m] == b[0];
    assert Compare(b[0], a[0]) <= 0 by {
      if k > 0 { assert Compare(b[0], b[k]) <= 0; }
    }
    assert Compare(a[0], b[0]) <= 0 by {
      if m > 0 { assert Compare(a[0], a[m]) <= 0; }
    }
    CompareAntisymmetric(a[0], b[0]);
  }

  /** Dropping the first entry keeps a sequence sorted. */
  lemma SortedTail(a: seq<seq<int>>, n: nat)
    requires AllOfLength(a, n) && Sorted(a, n) && |a| > 0
    ensures AllOfLength(a[1..], n) && Sorted(a[1..], n)
  {
    forall j, j' | 0 <= j < j' < |a| - 1
      ensures Compare(a[1..][j], a[1..][j']) <= 0
    {
      assert a[1..][j] == a[j + 1] && a[1..][j'] == a[j' + 1];
    }
  }

  /** Two sorted sequences holding the same strings are one sequence: a
      sorted order of a multiset of strings is unique. */
  lemma {:induction false} SortedUnique(a: seq<seq<int>>, b: seq<seq<int>>, n: nat)
    requires AllOfLength(a, n) && AllOfLength(b, n)
    requires Sorted(a, n) && Sorted(b, n)
    requires multiset(a) == multiset(b)
    ensures a == b
  {
    if |a| == 0 {
      assert |multiset(b)| == 0;
    } else {
      SortedHeads(a, b, n);
      assert a == [a[0]] + a[1..];
      assert b == [b[0]] + b[1..];
      assert multiset(a[1..]) == multiset(a) - multiset{a[0]};
      assert multiset(b[1..]) == multiset(b) - multiset{b[0]};
      SortedTail(a, n);
      SortedTail(b, n);
      SortedUnique(a[1..], b[1..], n);
    }
  }

  /** The identity sequence 0, 1, ..., n-1. */
  function Range(n: nat): (r: seq<int>)
    ensures |r| == n && forall i :: 0 <= i < n ==> r[i] == i
  {
    seq(n, i => i)
  }

  /** The values of x are exactly 0..n-1, each once. */
  ghost predicate IsPermutation(x: seq<int>, n: nat) {
    && |x| == n
    && (forall i :: 0 <= i < n ==> 0 <= x[i] < n)
    && multiset(x) == multiset(Range(n))
  }

  /** No value occurs twice. */
  ghost predicate Distinct(x: seq<int>) {
    forall i, j :: 0 <= i < j < |x| ==> x[i] != x[j]
  }

  /** In a sequence without repetitions every value is counted at most once. */
  lemma {:induction false} DistinctMultiplicity(x: seq<int>, v: int)
    requires Distinct(x)
    ensures multiset(x)[v] == if v in x then 1 else 0
  {
    if |x| > 0 {
      assert x == [x[0]] + x[1..];
      DistinctMultiplicity(x[1..], v);
    }
  }

  /** A sequence without repetitions has as many distinct values as entries. */
  lemma {:induction false} DistinctCardinality(x: seq<int>)
    requires Distinct(x)
    ensures |set v | v in x| == |x|
  {
    if |x| > 0 {
      assert x == [x[0]] + x[1..];
      assert (set v | v in x) == {x[0]} + (set v | v in x[1..]);
      DistinctCardinality(x[1..]);
    }
  }

  lemma SubsetOfSameSize(a: set<int>, b: set<int>)
    requires a <= b && |a| == |b|
    ensures a == b
  {
    assert b == a + (b - a);
    assert a * (b - a) == {};
    assert |b| == |a| + |b - a|;
    assert b - a == {};
  }

  /** The pigeonhole principle: n distinct values below n are all of them,
      so such a sequence is a permutation. */
  lemma DistinctIsPermutation(x: seq<int>, n: nat)
    requires |x| == n && Distinct(x)
    requires forall i :: 0 <= i < n ==> 0 <= x[i] < n
    ensures IsPermutation(x, n)
  {
    var r := Range(n);
    assert Distinct(r);
    var sx := set v | v in x;
    var sr := set v | v in r;
    DistinctCardinality(x);
    DistinctCardinality(r);
    forall v | v in sx
      ensures v in sr
    {
      var i :| 0 <= i < n && x[i] == v;
      assert r[v] == v;
    }
    SubsetOfSameSize(sx, sr);
    forall v
      ensures multiset(x)[v] == multiset(r)[v]
    {
      DistinctMultiplicity(x, v);
      DistinctMultiplicity(r, v);
      assert v in x <==> v in sx;
      assert v in r <==> v in sr;
    }
    assert multiset(x) == multiset(r);
  }

  /** What a permutation of 0..n-1 is, entry by entry. */
  lemma PermutationFacts(x: seq<int>, n: nat)
    requires IsPermutation(x, n)
    ensures forall v :: 0 <= v < n ==> v in x
    ensures Distinct(x)
  {
    var r := Range(n);
    assert Distinct(r);
    forall v | 0 <= v < n
      ensures v in x
    {
      assert r[v] == v;
      assert v in multiset(x);
    }
    forall i, j | 0 <= i < j < |x|
      ensures x[i] != x[j]
    {
      DistinctMultiplicity(r, x[i]);
      assert x == x[..i] + [x[i]] + x[i + 1..j] + [x[j]] + x[j + 1..];
    }
  }

  /** f applied to every entry of x. */
  function MapSeq<T>(f: int -> T, x: seq<int>): seq<T> {
    seq(|x|, i requires 0 <= i < |x| => f(x[i]))
  }

  lemma MapConcat<T>(f: int -> T, x: seq<int>, y: seq<int>)
    ensures MapSeq(f, x + y) == MapSeq(f, x) + MapSeq(f, y)
  {
  }

  /** Taking one entry out of the middle of a mapped sequence. */
  lemma MapSplit<T>(f: int -> T, front: seq<int>, c: int, back: seq<int>)
    ensures multiset(MapSeq(f, front + [c] + back)) == multiset{f(c)} + multiset(MapSeq(f, front + back))
  {
    MapConcat(f, front + [c], back);
    MapConcat(f, front, [c]);
    MapConcat(f, front, back);
  }

  /** Applying a function to two arrangements of the same values gives two
      arrangements of the same results. */
  lemma {:induction false} MapPreservesMultiset<T>(f: int -> T, x: seq<int>, y: seq<int>)
    requires multiset(x) == multiset(y)
    ensures multiset(MapSeq(f, x)) == multiset(MapSeq(f, y))
  {
    if |x| == 0 {
      assert |multiset(y)| == 0;
      assert y == [];
    } else {
      assert x[0] in multiset(y);
      var k :| 0 <= k < |y| && y[k] == x[0];
      var front, back := y[..k], y[k + 1..];
      assert y == front + [x[0]] + back;
      assert x == [] + [x[0]] + x[1..];
      assert multiset(front + back) == multiset(y) - multiset{x[0]};
      assert multiset(x[1..]) == multiset(x) - multiset{x[0]};
      MapPreservesMultiset(f, x[1..], front + back);
      MapSplit(f, front, x[0], back);
      MapSplit(f, [], x[0], x[1..]);
      assert [] + x[1..] == x[1..];
      calc {
        multiset(MapSeq(f, x));
        multiset(MapSeq(f, [] + [x[0]] + x[1..]));
        multiset{f(x[0])} + multiset(MapSeq(f, x[1..]));
        multiset{f(x[0])} + multiset(MapSeq(f, front + back));
        multiset(MapSeq(f, front + [x[0]] + back));
      }
    }
  }
}
