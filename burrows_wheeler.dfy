/** The Burrows–Wheeler transform and its inverse (Burrows/BurrowsWheeler.java),
    with the standard-input reading and standard-output writing replaced by
    parameters and results. The transform outputs the last column `t` of
    the sorted rotation matrix and the row `first` that holds the input;
    the inverse rebuilds the input from them by a counting sort of `t`. */
module BurrowsWheeler {
  import opened Wrappers
  import opened Lex
  import CSA = CircularSuffixArray

  /** The alphabet size of the counting arrays. */
  const R: int := 256

  lemma ModOnce(a: int, n: int)
    requires n > 0 && 0 <= a < 2 * n
    ensures a % n == if a < n then a else a - n
  {
    if a >= n {
      assert a == n + (a - n);
    }
  }

  /** Character m of the rotation starting at k, without the modulus. */
  lemma RotAt(s: seq<Byte>, k: int, m: int)
    requires 0 <= k < |s| && 0 <= m < |s|
    ensures CSA.Rot(s, k)[m] == s[if k + m < |s| then k + m else k + m - |s|]
  {
    ModOnce(k + m, |s|);
  }

  /** The last character moved to the front, and the first moved to the back. */
  function RShift(x: seq<Byte>): (r: seq<Byte>)
    requires |x| > 0
    ensures |r| == |x|
  {
    [x[|x| - 1]] + x[..|x| - 1]
  }

  function LShift(x: seq<Byte>): (r: seq<Byte>)
    requires |x| > 0
    ensures |r| == |x|
  {
    x[1..] + [x[0]]
  }

  lemma LShiftUndoesRShift(x: seq<Byte>)
    requires |x| > 0
    ensures LShift(RShift(x)) == x
  {
  }

  /** The predecessor of position k, cyclically. */
  function Pred(k: int, n: int): int
    requires 0 <= k < n
  {
    if k == 0 then n - 1 else k - 1
  }

  /** Shifting a rotation right gives the rotation that starts one earlier. */
  lemma RShiftRot(s: seq<Byte>, k: int)
    requires 0 <= k < |s|
    ensures RShift(CSA.Rot(s, k)) == CSA.Rot(s, Pred(k, |s|))
  {
    var n := |s|;
    var x, y := RShift(CSA.Rot(s, k)), CSA.Rot(s, Pred(k, n));
    forall m | 0 <= m < n
      ensures x[m] == y[m]
    {
      RotAt(s, Pred(k, n), m);
      if m == 0 {
        RotAt(s, k, n - 1);
      } else {
        RotAt(s, k, m - 1);
      }
    }
  }

  /** Shifting a rotation left gives the rotation that starts one later. */
  lemma LShiftRot(s: seq<Byte>, k: int)
    requires 0 <= k < |s|
    ensures LShift(CSA.Rot(s, k)) == CSA.Rot(s, if k + 1 < |s| then k + 1 else 0)
  {
    var n := |s|;
    var k' := if k + 1 < n then k + 1 else 0;
    var x, y := LShift(CSA.Rot(s, k)), CSA.Rot(s, k');
    forall m | 0 <= m < n
      ensures x[m] == y[m]
    {
      RotAt(s, k', m);
      if m == n - 1 {
        RotAt(s, k, 0);
      } else {
        RotAt(s, k, m + 1);
      }
    }
  }

  /** The character before position k, cyclically: the one `transform`
      writes for the rotation starting at k (0 off the positions of s). */
  function Before(s: seq<Byte>, k: int): Byte {
    if 0 <= k < |s| then s[(k - 1 + |s|) % |s|] else 0
  }

  function BeforeOf(s: seq<Byte>): int -> Byte {
    k => Before(s, k)
  }

  /** The last character of the rotation at k is the one before k. */
  lemma RotLast(s: seq<Byte>, k: int)
    requires 0 <= k < |s|
    ensures CSA.Rot(s, k)[|s| - 1] == Before(s, k)
  {
    RotAt(s, k, |s| - 1);
    ModOnce(k - 1 + |s|, |s|);
  }

  /** The last column of the matrix of rotations listed by `idx`. */
  function LastColumn(s: seq<Byte>, idx: seq<int>): (t: seq<Byte>)
    ensures |t| == |idx|
  {
    MapSeq(BeforeOf(s), idx)
  }

  /** `idx` is the circular suffix array of s. */
  ghost predicate IsSuffixArray(s: seq<Byte>, idx: seq<int>) {
    IsPermutation(idx, |s|) && CSA.SortedRotations(s, idx)
  }

  /** `first` is the row that holds the rotation at 0, the string itself
      (0 for the empty string, the starting value of the loop). */
  ghost predicate IsFirstRow(idx: seq<int>, first: int) {
    if |idx| == 0 then first == 0 else 0 <= first < |idx| && idx[first] == 0
  }

  /** (first, t) is what the transform outputs for s: for the circular
      suffix array of s, t is the last column and first the row holding s. */
  ghost predicate IsTransformOf(s: seq<Byte>, first: int, t: seq<Byte>) {
    exists idx :: IsSuffixArray(s, idx) && t == LastColumn(s, idx) && IsFirstRow(idx, first)
  }

  /** Listed by start position, the characters before the rotations are s
      turned right by one. */
  lemma BeforeInOrder(s: seq<Byte>)
    requires |s| > 0
    ensures MapSeq(BeforeOf(s), Range(|s|)) == [s[|s| - 1]] + s[..|s| - 1]
  {
    var n := |s|;
    forall k | 0 <= k < n
      ensures MapSeq(BeforeOf(s), Range(n))[k] == ([s[n - 1]] + s[..n - 1])[k]
    {
      ModOnce(k - 1 + n, n);
    }
  }

  /** The last column holds the characters of s, rearranged. */
  lemma LastColumnPermutes(s: seq<Byte>, idx: seq<int>)
    requires IsPermutation(idx, |s|)
    ensures multiset(LastColumn(s, idx)) == multiset(s)
  {
    var n := |s|;
    MapPreservesMultiset(BeforeOf(s), idx, Range(n));
    if n > 0 {
      BeforeInOrder(s);
      assert s == s[..n - 1] + [s[n - 1]];
    }
  }

  /** The output of the transform determines the length of its input and
      puts `first` among the rows. */
  lemma TransformShape(s: seq<Byte>, first: int, t: seq<Byte>)
    requires IsTransformOf(s, first, t)
    ensures |s| == |t|
    ensures |t| == 0 ==> first == 0
    ensures |t| > 0 ==> 0 <= first < |t|
  {
    var idx :| IsSuffixArray(s, idx) && t == LastColumn(s, idx) && IsFirstRow(idx, first);
  }

  /** `transform`: walks the circular suffix array, recording the row of
      the rotation at 0 and the character before each rotation. */
  method Transform(input: seq<Byte>) returns (first: int, t: seq<Byte>)
    ensures IsTransformOf(input, first, t)
    ensures multiset(t) == multiset(input)
  {
    var suffixArray := new CSA.CircularSuffixArray(input);
    var n := |input|;
    ghost var idx := suffixArray.index[..];
    PermutationFacts(idx, n);
    ghost var zeroRow := if n > 0 then FindValue(idx, 0) else 0;
    var column := new Byte[n];
    first := 0;
    for i := 0 to n
      invariant suffixArray.Valid() && suffixArray.index[..] == idx
      invariant forall j :: 0 <= j < i ==> column[j] == Before(input, idx[j])
      invariant first == if i > zeroRow then zeroRow else 0
    {
      var r := suffixArray.Index(i);
      var index := r.value;
      if index == 0 {
        first := i;
      }
      column[i] := input[(index - 1 + n) % n];
    }
    t := column[..];
    assert t == LastColumn(input, idx);
    assert IsSuffixArray(input, idx) && IsFirstRow(idx, first);
    LastColumnPermutes(input, idx);
  }

  /** The position of a value that a sequence holds. */
  ghost function FindValue(x: seq<int>, v: int): (j: int)
    requires v in x
    ensures 0 <= j < |x| && x[j] == v
    ensures forall j' :: 0 <= j' < |x| && j' != j && Distinct(x) ==> x[j'] != v
  {
    var j :| 0 <= j < |x| && x[j] == v; j
  }

  /** The number of positions below k that hold c, and that hold a
      character below c. */
  ghost function Occ(t: seq<Byte>, c: int, k: nat): nat
    requires k <= |t|
  {
    if k == 0 then 0 else Occ(t, c, k - 1) + (if t[k - 1] == c then 1 else 0)
  }

  ghost function Less(t: seq<Byte>, c: int, k: nat): nat
    requires k <= |t|
  {
    if k == 0 then 0 else Less(t, c, k - 1) + (if t[k - 1] < c then 1 else 0)
  }

  lemma {:induction false} LessStep(t: seq<Byte>, c: int, k: nat)
    requires k <= |t|
    ensures Less(t, c + 1, k) == Less(t, c, k) + Occ(t, c, k)
  {
    if k > 0 {
      LessStep(t, c, k - 1);
    }
  }

  lemma {:induction false} LessZero(t: seq<Byte>, k: nat)
    requires k <= |t|
    ensures Less(t, 0, k) == 0
  {
    if k > 0 {
      LessZero(t, k - 1);
    }
  }

  lemma {:induction false} LessMonotone(t: seq<Byte>, c: int, d: int, k: nat)
    requires k <= |t| && c <= d
    ensures Less(t, c, k) <= Less(t, d, k)
  {
    if k > 0 {
      LessMonotone(t, c, d, k - 1);
    }
  }

  lemma {:induction false} LessAll(t: seq<Byte>, k: nat)
    requires k <= |t|
    ensures Less(t, R, k) == k
  {
    if k > 0 {
      LessAll(t, k - 1);
    }
  }

  lemma {:induction false} OccMonotone(t: seq<Byte>, c: int, k: nat, k': nat)
    requires k <= k' <= |t|
    ensures Occ(t, c, k) <= Occ(t, c, k')
  {
    if k < k' {
      OccMonotone(t, c, k, k' - 1);
    }
  }

  /** Where the counting sort puts position k of t: after every smaller
      character, and after the earlier copies of its own character. */
  ghost function Pos(t: seq<Byte>, k: int): int
    requires 0 <= k < |t|
  {
    Less(t, t[k], |t|) + Occ(t, t[k], k)
  }

  /** Positions are in range and ordered by (character, position). */
  lemma PosOrder(t: seq<Byte>, k: int, k': int)
    requires 0 <= k < |t| && 0 <= k' < |t|
    ensures 0 <= Pos(t, k) < |t|
    ensures t[k] < t[k'] || (t[k] == t[k'] && k < k') ==> Pos(t, k) < Pos(t, k')
  {
    var n := |t|;
    OccMonotone(t, t[k], k + 1, n);
    LessStep(t, t[k], n);
    LessMonotone(t, t[k] as int + 1, R, n);
    LessAll(t, n);
    if t[k] < t[k'] {
      LessMonotone(t, t[k] as int + 1, t[k'], n);
    } else if t[k] == t[k'] && k < k' {
      OccMonotone(t, t[k], k + 1, k');
    }
  }

  /** Different positions go to different places. */
  lemma PosInjective(t: seq<Byte>, k: int, k': int)
    requires 0 <= k < |t| && 0 <= k' < |t| && k != k'
    ensures Pos(t, k) != Pos(t, k')
  {
    PosOrder(t, k, k');
    PosOrder(t, k', k);
  }

  /** `next` lists the positions of t sorted by character, positions of
      equal characters in ascending order: a stable sort of t. */
  ghost predicate StableSortOf(t: seq<Byte>, next: seq<int>) {
    && IsPermutation(next, |t|)
    && forall j, j' :: 0 <= j < j' < |next| ==>
         t[next[j]] < t[next[j']] || (t[next[j]] == t[next[j']] && next[j] < next[j'])
  }

  /** The counting sort of the inverse transform: character counts, their
      prefix sums, and the scatter of the positions into `next`. */
  method ComputeNext(t: seq<Byte>) returns (next: seq<int>)
    ensures StableSortOf(t, next)
  {
    var count := CountCharacters(t);
    AccumulateCounts(t, count);
    next := Scatter(t, count);
    NextIsStableSort(t, next);
  }

  /** count[c + 1] is the number of occurrences of c in t. */
  method CountCharacters(t: seq<Byte>) returns (count: array<int>)
    ensures fresh(count) && count.Length == R + 1
    ensures count[0] == 0 && forall c :: 0 <= c < R ==> count[c + 1] == Occ(t, c, |t|)
  {
    count := new int[R + 1](_ => 0);
    for i := 0 to |t|
      invariant count[0] == 0
      invariant forall c :: 0 <= c < R ==> count[c + 1] == Occ(t, c, i)
    {
      count[t[i] + 1] := count[t[i] + 1] + 1;
    }
  }

  /** The prefix sums: count[c] becomes the number of characters below c. */
  method AccumulateCounts(t: seq<Byte>, count: array<int>)
    requires count.Length == R + 1
    requires count[0] == 0 && forall c :: 0 <= c < R ==> count[c + 1] == Occ(t, c, |t|)
    modifies count
    ensures forall c :: 0 <= c <= R ==> count[c] == Less(t, c, |t|)
  {
    var n := |t|;
    LessZero(t, n);
    for r := 0 to R
      invariant forall c :: 0 <= c <= r ==> count[c] == Less(t, c, n)
      invariant forall c :: r < c <= R ==> count[c] == Occ(t, c - 1, n)
    {
      LessStep(t, r, n);
      count[r + 1] := count[r + 1] + count[r];
    }
  }

  /** Each position k goes to slot count[t[k]], which then moves on. */
  method Scatter(t: seq<Byte>, count: array<int>) returns (next: seq<int>)
    requires count.Length == R + 1
    requires forall c :: 0 <= c < R ==> count[c] == Less(t, c, |t|)
    modifies count
    ensures |next| == |t|
    ensures forall k :: 0 <= k < |t| ==> 0 <= Pos(t, k) < |t| && next[Pos(t, k)] == k
  {
    var n := |t|;
    var nextArray := new int[n](_ => 0);
    for i := 0 to n
      invariant forall c :: 0 <= c < R ==> count[c] == Less(t, c, n) + Occ(t, c, i)
      invariant forall k :: 0 <= k < i ==> 0 <= Pos(t, k) < n && nextArray[Pos(t, k)] == k
    {
      PosOrder(t, i, i);
      forall k | 0 <= k < i
        ensures Pos(t, k) != Pos(t, i)
      {
        PosInjective(t, k, i);
      }
      nextArray[count[t[i]]] := i;
      count[t[i]] := count[t[i]] + 1;
    }
    next := nextArray[..];
  }

  /** The array the scatter fills is the stable sort of t. */
  lemma NextIsStableSort(t: seq<Byte>, next: seq<int>)
    requires |next| == |t|
    requires forall k :: 0 <= k < |t| ==> 0 <= Pos(t, k) < |t| && next[Pos(t, k)] == k
    ensures StableSortOf(t, next)
  {
    var n := |t|;
    var pos := seq(n, k requires 0 <= k < n => Pos(t, k));
    forall k, k' | 0 <= k < k' < n
      ensures pos[k] != pos[k']
    {
      PosInjective(t, k, k');
    }
    DistinctIsPermutation(pos, n);
    PermutationFacts(pos, n);
    // next inverts pos: every slot j is Pos(t, k) for the k stored in it
    forall j | 0 <= j < n
      ensures 0 <= next[j] < n && Pos(t, next[j]) == j
    {
      var k := FindValue(pos, j);
    }
    forall j, j' | 0 <= j < j' < n
      ensures next[j] != next[j']
    {
    }
    DistinctIsPermutation(next, n);
    forall j, j' | 0 <= j < j' < n
      ensures t[next[j]] < t[next[j']] || (t[next[j]] == t[next[j']] && next[j] < next[j'])
    {
      PosOrder(t, next[j'], next[j]);
    }
  }

  /** The rotation at k as a row of the matrix ([] off the positions). */
  function Row(s: seq<Byte>, k: int): seq<Byte> {
    if 0 <= k < |s| then CSA.Rot(s, k) else []
  }

  function RowOf(s: seq<Byte>): int -> seq<Byte> {
    k => Row(s, k)
  }

  /** The rotation that starts one before k. */
  function PredRow(s: seq<Byte>, k: int): seq<Byte> {
    if 0 <= k < |s| then CSA.Rot(s, Pred(k, |s|)) else []
  }

  function PredRowOf(s: seq<Byte>): int -> seq<Byte> {
    k => PredRow(s, k)
  }

  /** Row i of the matrix listed by idx, turned right by one. */
  function ShiftedRow(s: seq<Byte>, idx: seq<int>, i: int): seq<Byte> {
    if 0 <= i < |idx| && 0 <= idx[i] < |s| then RShift(CSA.Rot(s, idx[i])) else []
  }

  function ShiftedRowOf(s: seq<Byte>, idx: seq<int>): int -> seq<Byte> {
    i => ShiftedRow(s, idx, i)
  }

  /** The rows of the sorted rotation matrix. */
  function Rows(s: seq<Byte>, idx: seq<int>): seq<seq<Byte>> {
    MapSeq(RowOf(s), idx)
  }

  /** The rows turned right by one, listed in the order of next. */
  function ShiftedRows(s: seq<Byte>, idx: seq<int>, next: seq<int>): seq<seq<Byte>> {
    MapSeq(ShiftedRowOf(s, idx), next)
  }

  /** Every row next[j] is row j turned left by one. */
  ghost predicate ShiftsRows(s: seq<Byte>, idx: seq<int>, next: seq<int>) {
    && |idx| == |s| && |next| == |s| && CSA.InRange(s, idx)
    && (forall j :: 0 <= j < |s| ==> 0 <= next[j] < |s|)
    && forall j :: 0 <= j < |s| ==> CSA.Rot(s, idx[next[j]]) == LShift(CSA.Rot(s, idx[j]))
  }

  /** The central fact of the inverse: the row next[j] is row j turned
      left by one. The rows turned right and listed in the order of next
      are sorted (by last character, then by row) and hold the same
      rotations as the rows, and a sorted order is unique. */
  lemma NextShiftsRows(s: seq<Byte>, idx: seq<int>, next: seq<int>)
    requires |s| > 0
    requires IsSuffixArray(s, idx)
    requires StableSortOf(LastColumn(s, idx), next)
    ensures ShiftsRows(s, idx, next)
  {
    var n := |s|;
    var rows := Rows(s, idx);
    var shifted := ShiftedRows(s, idx, next);
    RowsSorted(s, idx);
    ShiftedRowsSorted(s, idx, next);
    ShiftedRowsSameRotations(s, idx, next);
    SortedUnique(shifted, rows, n);
    forall j | 0 <= j < n
      ensures CSA.Rot(s, idx[next[j]]) == LShift(CSA.Rot(s, idx[j]))
    {
      assert shifted[j] == rows[j];
      LShiftUndoesRShift(CSA.Rot(s, idx[next[j]]));
    }
  }

  lemma RowsSorted(s: seq<Byte>, idx: seq<int>)
    requires CSA.SortedRotations(s, idx)
    ensures AllOfLength(Rows(s, idx), |s|) && Sorted(Rows(s, idx), |s|)
  {
    var rows := Rows(s, idx);
    forall j, j' | 0 <= j < j' < |rows|
      ensures Compare(rows[j], rows[j']) <= 0
    {
      assert CSA.KeyLe(s, idx[j], idx[j']);
    }
  }

  /** Turning two strings right by one orders them by their last
      characters first, then by the rest. */
  lemma RShiftOrder(x: seq<Byte>, y: seq<Byte>)
    requires |x| == |y| > 0
    requires x[|x| - 1] < y[|y| - 1] || (x[|x| - 1] == y[|y| - 1] && Compare(x, y) <= 0)
    ensures Compare(RShift(x), RShift(y)) <= 0
  {
    var n := |x|;
    if x[n - 1] < y[n - 1] {
      CompareAt(RShift(x), RShift(y), 0);
    } else {
      ComparePrefix(x, y, n - 1);
      ConsCompare(x[n - 1], x[..n - 1], y[..n - 1]);
    }
  }

  /** Two shifted rows in the order of next are in order: the first
      character is the last column's, and between equal characters next
      keeps the row order, which orders the remaining characters. */
  lemma ShiftedRowsAt(s: seq<Byte>, idx: seq<int>, next: seq<int>, j: int)
    requires 0 <= j < |next| && 0 <= next[j] < |idx| && 0 <= idx[next[j]] < |s|
    ensures ShiftedRows(s, idx, next)[j] == RShift(CSA.Rot(s, idx[next[j]]))
  {
  }

  lemma KeyLeCompare(s: seq<Byte>, a: int, b: int)
    requires 0 <= a < |s| && 0 <= b < |s| && CSA.KeyLe(s, a, b)
    ensures Compare(CSA.Rot(s, a), CSA.Rot(s, b)) <= 0
  {
  }

  /** The step of the proof for one pair of rows, from the two facts it
      needs: the order of their last characters and, between equal ones,
      the order of the rows. */
  lemma ShiftedPairCore(s: seq<Byte>, idx: seq<int>, next: seq<int>, j: int, j': int)
    requires 0 <= j < |next| && 0 <= j' < |next|
    requires 0 <= next[j] < |idx| && 0 <= next[j'] < |idx|
    requires 0 <= idx[next[j]] < |s| && 0 <= idx[next[j']] < |s|
    requires || Before(s, idx[next[j]]) < Before(s, idx[next[j']])
             || (Before(s, idx[next[j]]) == Before(s, idx[next[j']]) && CSA.KeyLe(s, idx[next[j]], idx[next[j']]))
    ensures Compare(ShiftedRows(s, idx, next)[j], ShiftedRows(s, idx, next)[j']) <= 0
  {
    var a, b := idx[next[j]], idx[next[j']];
    RotLast(s, a);
    RotLast(s, b);
    if Before(s, a) == Before(s, b) {
      KeyLeCompare(s, a, b);
    }
    RShiftOrder(CSA.Rot(s, a), CSA.Rot(s, b));
    ShiftedRowsAt(s, idx, next, j);
    ShiftedRowsAt(s, idx, next, j');
  }

  lemma ShiftedPairSorted(s: seq<Byte>, idx: seq<int>, next: seq<int>, j: int, j': int)
    requires IsSuffixArray(s, idx)
    requires StableSortOf(LastColumn(s, idx), next)
    requires 0 <= j < j' < |s|
    ensures Compare(ShiftedRows(s, idx, next)[j], ShiftedRows(s, idx, next)[j']) <= 0
  {
    var t := LastColumn(s, idx);
    var i, i' := next[j], next[j'];
    assert t[i] < t[i'] || (t[i] == t[i'] && i < i');
    assert 0 <= i < |s| && 0 <= i' < |s|;
    assert t[i] == Before(s, idx[i]) && t[i'] == Before(s, idx[i']);
    if t[i] == t[i'] {
      assert CSA.KeyLe(s, idx[i], idx[i']);
    }
    ShiftedPairCore(s, idx, next, j, j');
  }

  /** The shifted rows in the order of next are sorted. */
  lemma ShiftedRowsSorted(s: seq<Byte>, idx: seq<int>, next: seq<int>)
    requires IsSuffixArray(s, idx)
    requires StableSortOf(LastColumn(s, idx), next)
    ensures AllOfLength(ShiftedRows(s, idx, next), |s|) && Sorted(ShiftedRows(s, idx, next), |s|)
  {
    var sh := ShiftedRows(s, idx, next);
    assert AllOfLength(sh, |s|);
    forall j, j' | 0 <= j < j' < |s|
      ensures Compare(sh[j], sh[j']) <= 0
    {
      ShiftedPairSorted(s, idx, next, j, j');
    }
  }

  lemma ConsCompare(c: int, x: seq<int>, y: seq<int>)
    requires |x| == |y|
    ensures Compare([c] + x, [c] + y) == Compare(x, y)
  {
    assert ([c] + x)[1..] == x && ([c] + y)[1..] == y;
  }

  /** In row order, row i turned right is the rotation one before idx[i]. */
  lemma ShiftedInRowOrder(s: seq<Byte>, idx: seq<int>)
    requires IsPermutation(idx, |s|)
    ensures MapSeq(ShiftedRowOf(s, idx), Range(|s|)) == MapSeq(PredRowOf(s), idx)
  {
    forall i | 0 <= i < |s|
      ensures MapSeq(ShiftedRowOf(s, idx), Range(|s|))[i] == MapSeq(PredRowOf(s), idx)[i]
    {
      RShiftRot(s, idx[i]);
    }
  }

  /** By start position, the rotations one before are the rotations. */
  lemma PredRowsRotate(s: seq<Byte>)
    requires |s| > 0
    ensures multiset(MapSeq(PredRowOf(s), Range(|s|))) == multiset(MapSeq(RowOf(s), Range(|s|)))
  {
    var n := |s|;
    var lower := MapSeq(RowOf(s), Range(n - 1));
    assert MapSeq(PredRowOf(s), Range(n)) == [Row(s, n - 1)] + lower;
    assert MapSeq(RowOf(s), Range(n)) == lower + [Row(s, n - 1)];
  }

  /** The shifted rows are the same rotations as the rows. */
  lemma ShiftedRowsSameRotations(s: seq<Byte>, idx: seq<int>, next: seq<int>)
    requires |s| > 0
    requires IsPermutation(idx, |s|) && IsPermutation(next, |s|)
    ensures multiset(ShiftedRows(s, idx, next)) == multiset(Rows(s, idx))
  {
    var n := |s|;
    MapPreservesMultiset(ShiftedRowOf(s, idx), next, Range(n));
    ShiftedInRowOrder(s, idx);
    MapPreservesMultiset(PredRowOf(s), idx, Range(n));
    PredRowsRotate(s);
    MapPreservesMultiset(RowOf(s), idx, Range(n));
  }

  /** Row p_i after following next i times from first. */
  ghost function Follow(next: seq<int>, first: int, i: nat): (p: int)
    requires 0 <= first < |next|
    requires forall j :: 0 <= j < |next| ==> 0 <= next[j] < |next|
    ensures 0 <= p < |next|
  {
    if i == 0 then first else next[Follow(next, first, i - 1)]
  }

  /** Following next from the row of s visits the rotations of s in order. */
  lemma {:induction false} FollowRow(s: seq<Byte>, idx: seq<int>, next: seq<int>, first: int, i: nat)
    requires ShiftsRows(s, idx, next)
    requires 0 <= first < |s| && idx[first] == 0 && i < |s|
    ensures CSA.Rot(s, idx[Follow(next, first, i)]) == CSA.Rot(s, i)
  {
    if i > 0 {
      FollowRow(s, idx, next, first, i - 1);
      LShiftRot(s, i - 1);
    }
  }

  /** The character the inverse writes at step i is s[i]: the last
      character of the row after p_i is the first character of rotation i. */
  lemma OutputChar(s: seq<Byte>, idx: seq<int>, next: seq<int>, first: int, i: nat)
    requires ShiftsRows(s, idx, next)
    requires 0 <= first < |s| && idx[first] == 0 && i < |s|
    ensures LastColumn(s, idx)[next[Follow(next, first, i)]] == s[i]
  {
    var p := Follow(next, first, i);
    FollowRow(s, idx, next, first, i);
    RotLast(s, idx[next[p]]);
    RotAt(s, i, 0);
  }

  /** The first i characters the inverse writes, following next from first. */
  ghost function Decoded(t: seq<Byte>, next: seq<int>, first: int, i: nat): (out: seq<Byte>)
    requires IsPermutation(next, |t|) && 0 <= first < |t|
    ensures |out| == i
  {
    if i == 0 then [] else Decoded(t, next, first, i - 1) + [t[next[Follow(next, first, i - 1)]]]
  }

  /** When step k writes s[k] for every k, the first i characters written
      are the first i characters of s. */
  lemma {:induction false} DecodedIsPrefix(s: seq<Byte>, t: seq<Byte>, next: seq<int>, first: int, i: nat)
    requires IsPermutation(next, |t|) && 0 <= first < |t| && |s| == |t| && i <= |t|
    requires forall k :: 0 <= k < |t| ==> t[next[Follow(next, first, k)]] == s[k]
    ensures Decoded(t, next, first, i) == s[..i]
  {
    if i > 0 {
      DecodedIsPrefix(s, t, next, first, i - 1);
      assert s[..i] == s[..i - 1] + [s[i - 1]];
    }
  }

  /** Step k of the inverse writes s[k]. */
  lemma WritesString(s: seq<Byte>, idx: seq<int>, next: seq<int>, first: int)
    requires |s| > 0 && IsSuffixArray(s, idx) && StableSortOf(LastColumn(s, idx), next)
    requires 0 <= first < |s| && idx[first] == 0
    ensures forall k :: 0 <= k < |s| ==> LastColumn(s, idx)[next[Follow(next, first, k)]] == s[k]
  {
    NextShiftsRows(s, idx, next);
    forall k | 0 <= k < |s|
      ensures LastColumn(s, idx)[next[Follow(next, first, k)]] == s[k]
    {
      OutputChar(s, idx, next, first, k);
    }
  }

  /** The inverse writes the string whose transform t is. */
  lemma InverseCorrect(s: seq<Byte>, first: int, t: seq<Byte>, next: seq<int>)
    requires IsTransformOf(s, first, t) && StableSortOf(t, next)
    requires 0 <= first < |t|
    ensures Decoded(t, next, first, |t|) == s
  {
    var idx :| IsSuffixArray(s, idx) && t == LastColumn(s, idx) && IsFirstRow(idx, first);
    InverseCorrectFor(s, idx, first, t, next);
  }

  /** The same, for a given suffix array of s. */
  lemma InverseCorrectFor(s: seq<Byte>, idx: seq<int>, first: int, t: seq<Byte>, next: seq<int>)
    requires IsSuffixArray(s, idx) && t == LastColumn(s, idx) && IsFirstRow(idx, first)
    requires StableSortOf(t, next) && 0 <= first < |t|
    ensures Decoded(t, next, first, |t|) == s
  {
    assert |s| == |t| > 0 && idx[first] == 0;
    WritesString(s, idx, next, first);
    InverseFromSteps(s, t, next, first);
  }

  /** When step k writes s[k] for every k, the inverse writes s. */
  lemma InverseFromSteps(s: seq<Byte>, t: seq<Byte>, next: seq<int>, first: int)
    requires IsPermutation(next, |t|) && 0 <= first < |t| && |s| == |t|
    requires forall k :: 0 <= k < |t| ==> t[next[Follow(next, first, k)]] == s[k]
    ensures Decoded(t, next, first, |t|) == s
  {
    DecodedIsPrefix(s, t, next, first, |s|);
    assert s[..|s|] == s;
  }

  /** `inverseTransform`: counting-sorts t into next, then follows next
      from first, writing one character per step. A `first` outside the
      rows of a non-empty t makes `next[p]` throw. */
  method InverseTransform(first: int, t: seq<Byte>) returns (r: Result<seq<Byte>>)
    ensures |t| > 0 && !(0 <= first < |t|) <==> r == Failure(IndexOutOfBounds)
    ensures r.Success? ==> |r.value| == |t|
    ensures forall s :: IsTransformOf(s, first, t) ==> r == Success(s)
  {
    var n := |t|;
    if n == 0 {
      forall s | IsTransformOf(s, first, t)
        ensures s == []
      {
        TransformShape(s, first, t);
      }
      return Success([]);
    }
    if first < 0 || first >= n {
      forall s | IsTransformOf(s, first, t)
        ensures false
      {
        TransformShape(s, first, t);
      }
      return Failure(IndexOutOfBounds);
    }
    var next := ComputeNext(t);
    var out: seq<Byte> := [];
    var p := first;
    for i := 0 to n
      invariant p == Follow(next, first, i)
      invariant out == Decoded(t, next, first, i)
    {
      out := out + [t[next[p]]];
      p := next[p];
    }
    forall s | IsTransformOf(s, first, t)
      ensures out == s
    {
      InverseCorrect(s, first, t, next);
    }
    return Success(out);
  }

  /** The transform followed by its inverse gives the input back. */
  method RoundTrip(input: seq<Byte>) returns (r: Result<seq<Byte>>)
    ensures r == Success(input)
  {
    var first, t := Transform(input);
    r := InverseTransform(first, t);
  }
}
