/** The percolation system (Percolation/src/Percolation.java): an n-by-n
    grid of sites, each blocked or open, with two union-find structures over
    the sites and a virtual top element 0 (joined to every top-row site).
    `unionFind` also has a virtual bottom element n*n+1 (joined to every
    bottom-row site) and decides percolation; `withoutBottom` has no bottom
    element and decides fullness, so that a site is not made full through
    the bottom row. Rows and columns count from 1. */
module Percolation {
  import opened Wrappers
  import opened UnionFind

  type Site = (int, int)

  /** The offsets `connectNeighbors` visits: up, left, right, down. */
  const DRow: seq<int> := [-1, 0, 0, 1]
  const DCol: seq<int> := [0, -1, 1, 0]

  /** The site `DRow[j]`, `DCol[j]` away from s. */
  function Step(s: Site, j: int): Site
    requires 0 <= j < 4
  {
    (s.0 + DRow[j], s.1 + DCol[j])
  }

  /** The site lies in the n-by-n grid: what `checkRep` demands. */
  predicate InGrid(n: int, s: Site) {
    1 <= s.0 <= n && 1 <= s.1 <= n
  }

  /** Two sites share a side. */
  predicate Adjacent(s: Site, t: Site) {
    || (s.0 == t.0 && (s.1 - t.1 == 1 || t.1 - s.1 == 1))
    || (s.1 == t.1 && (s.0 - t.0 == 1 || t.0 - s.0 == 1))
  }

  /** The sites adjacent to s are the four `connectNeighbors` visits. */
  lemma AdjacentIsStep(s: Site, t: Site)
    requires Adjacent(t, s)
    ensures exists j :: 0 <= j < 4 && t == Step(s, j)
  {
    if t == Step(s, 0) {
    } else if t == Step(s, 1) {
    } else if t == Step(s, 2) {
    } else {
      assert t == Step(s, 3);
    }
  }

  /** `index`: the union-find element of a site, row by row from 1. */
  function Index(n: int, s: Site): int {
    (s.0 - 1) * n + s.1
  }

  /** The site an element stands for. */
  function SiteOf(n: int, v: int): Site
    requires n > 0
  {
    ((v - 1) / n + 1, (v - 1) % n + 1)
  }

  lemma MulMonotone(x: int, y: int, n: int)
    requires x <= y && n >= 0
    ensures x * n <= y * n
  {
    assert y * n == x * n + (y - x) * n;
  }

  lemma DivModUnique(n: int, a: int, b: int)
    requires n > 0 && 0 <= b < n
    ensures (a * n + b) / n == a && (a * n + b) % n == b
  {
    var q, r := (a * n + b) / n, (a * n + b) % n;
    assert a * n + b == q * n + r;
    assert (a - q) * n == r - b;
    if a - q >= 1 {
      MulMonotone(1, a - q, n);
      assert false;
    } else if a - q <= -1 {
      MulMonotone(a - q, -1, n);
      assert false;
    }
  }

  /** `index` maps the grid into 1..n*n and SiteOf undoes it. */
  lemma IndexInverse(n: int, s: Site)
    requires InGrid(n, s)
    ensures 1 <= Index(n, s) <= n * n
    ensures SiteOf(n, Index(n, s)) == s
  {
    DivModUnique(n, s.0 - 1, s.1 - 1);
    assert (s.0 - 1) * n <= (n - 1) * n;
    assert (n - 1) * n + n == n * n;
  }

  /** Every element of 1..n*n is the index of a site of the grid. */
  lemma SiteOfInverse(n: int, v: int)
    requires n > 0 && 1 <= v <= n * n
    ensures InGrid(n, SiteOf(n, v)) && Index(n, SiteOf(n, v)) == v
  {
    var q, r := (v - 1) / n, (v - 1) % n;
    assert v - 1 == q * n + r;
    if q >= n {
      MulMonotone(n, q, n);
      assert false;
    }
    if q < 0 {
      MulMonotone(q, -1, n);
      assert false;
    }
  }

  /** `index` after `checkRep`: a site outside the grid throws. */
  function CheckedIndex(n: int, s: Site): (r: Result<int>)
    ensures r.Failure? <==> !InGrid(n, s)
    ensures r.Failure? ==> r.error == IllegalArgument
    ensures r.Success? ==> n > 0 && 1 <= r.value <= n * n && SiteOf(n, r.value) == s
  {
    if !InGrid(n, s) then Failure(IllegalArgument)
    else
      IndexInverse(n, s);
      Success(Index(n, s))
  }

  /** Element v is a site of the top row, or of the bottom row. */
  ghost predicate TopCell(n: int, v: int)
    requires n > 0
  {
    1 <= v <= n * n && SiteOf(n, v).0 == 1
  }

  ghost predicate BottomCell(n: int, v: int)
    requires n > 0
  {
    1 <= v <= n * n && SiteOf(n, v).0 == n
  }

  /** Two elements stand for adjacent open sites. */
  ghost predicate OpenLink(n: int, open: set<Site>, u: int, v: int)
    requires n > 0
  {
    && 1 <= u <= n * n && 1 <= v <= n * n
    && SiteOf(n, u) in open && SiteOf(n, v) in open
    && Adjacent(SiteOf(n, u), SiteOf(n, v))
  }

  /** The links the unions may follow: the virtual top to the top row, the
      virtual bottom to the bottom row (in `unionFind` only), and adjacent
      open sites. */
  ghost predicate Link(n: int, open: set<Site>, withBottom: bool, u: int, v: int)
    requires n > 0
  {
    || (u == 0 && TopCell(n, v)) || (v == 0 && TopCell(n, u))
    || (withBottom && u == n * n + 1 && BottomCell(n, v))
    || (withBottom && v == n * n + 1 && BottomCell(n, u))
    || OpenLink(n, open, u, v)
  }

  /** Opening a site keeps every link. */
  lemma LinkMonotone(n: int, open: set<Site>, x: Site, wb: bool, u: int, v: int)
    requires n > 0 && Link(n, open, wb, u, v)
    ensures Link(n, open + {x}, wb, u, v)
  {
  }

  /** A walk along links. */
  ghost predicate IsWalk(n: int, open: set<Site>, wb: bool, w: seq<int>)
    requires n > 0
  {
    |w| > 0 && forall k :: 0 <= k < |w| - 1 ==> Link(n, open, wb, w[k], w[k + 1])
  }

  ghost predicate Reaches(n: int, open: set<Site>, wb: bool, x: int, y: int)
    requires n > 0
  {
    exists w :: IsWalk(n, open, wb, w) && w[0] == x && w[|w| - 1] == y
  }

  lemma ReachesReflexive(n: int, open: set<Site>, wb: bool, x: int)
    requires n > 0
    ensures Reaches(n, open, wb, x, x)
  {
    assert IsWalk(n, open, wb, [x]);
  }

  lemma LinkReaches(n: int, open: set<Site>, wb: bool, u: int, v: int)
    requires n > 0 && Link(n, open, wb, u, v)
    ensures Reaches(n, open, wb, u, v) && Reaches(n, open, wb, v, u)
  {
    assert IsWalk(n, open, wb, [u, v]);
    assert IsWalk(n, open, wb, [v, u]);
  }

  lemma ReachesTransitive(n: int, open: set<Site>, wb: bool, x: int, y: int, z: int)
    requires n > 0 && Reaches(n, open, wb, x, y) && Reaches(n, open, wb, y, z)
    ensures Reaches(n, open, wb, x, z)
  {
    var w1 :| IsWalk(n, open, wb, w1) && w1[0] == x && w1[|w1| - 1] == y;
    var w2 :| IsWalk(n, open, wb, w2) && w2[0] == y && w2[|w2| - 1] == z;
    var w := w1 + w2[1..];
    forall k | 0 <= k < |w| - 1
      ensures Link(n, open, wb, w[k], w[k + 1])
    {
      if k < |w1| - 1 {
        assert w[k] == w1[k] && w[k + 1] == w1[k + 1];
      } else {
        assert w[k] == w2[k - |w1| + 1] && w[k + 1] == w2[k - |w1| + 2];
      }
    }
    assert IsWalk(n, open, wb, w);
  }

  /** The unions follow links only. */
  ghost predicate Sound(n: int, open: set<Site>, wb: bool, E: seq<(int, int)>)
    requires n > 0
  {
    forall i :: 0 <= i < |E| ==> Link(n, open, wb, E[i].0, E[i].1)
  }

  /** Every link is joined by the unions. */
  ghost predicate Complete(n: int, open: set<Site>, wb: bool, E: seq<(int, int)>)
    requires n > 0
  {
    forall u, v :: Link(n, open, wb, u, v) ==> Joined(E, u, v)
  }

  /** Unions along links join only what a walk connects. */
  lemma {:induction false} JoinedSound(n: int, open: set<Site>, wb: bool, E: seq<(int, int)>, x: int, y: int)
    requires n > 0 && Sound(n, open, wb, E) && Joined(E, x, y)
    ensures Reaches(n, open, wb, x, y)
    decreases |E|
  {
    if |E| == 0 {
      ReachesReflexive(n, open, wb, x);
    } else {
      var E', e := E[..|E| - 1], E[|E| - 1];
      assert Sound(n, open, wb, E') by {
        forall i | 0 <= i < |E'| ensures Link(n, open, wb, E'[i].0, E'[i].1) {
          assert E'[i] == E[i];
        }
      }
      assert Link(n, open, wb, e.0, e.1);
      LinkReaches(n, open, wb, e.0, e.1);
      if Joined(E', x, y) {
        JoinedSound(n, open, wb, E', x, y);
      } else if Joined(E', x, e.0) && Joined(E', e.1, y) {
        JoinedSound(n, open, wb, E', x, e.0);
        JoinedSound(n, open, wb, E', e.1, y);
        ReachesTransitive(n, open, wb, x, e.0, e.1);
        ReachesTransitive(n, open, wb, x, e.1, y);
      } else {
        JoinedSound(n, open, wb, E', x, e.1);
        JoinedSound(n, open, wb, E', e.0, y);
        ReachesTransitive(n, open, wb, x, e.1, e.0);
        ReachesTransitive(n, open, wb, x, e.0, y);
      }
    }
  }

  /** Unions joining every link join the two ends of every walk. */
  lemma {:induction false} JoinedComplete(n: int, open: set<Site>, wb: bool, E: seq<(int, int)>, w: seq<int>)
    requires n > 0 && Complete(n, open, wb, E) && IsWalk(n, open, wb, w)
    ensures Joined(E, w[0], w[|w| - 1])
    decreases |w|
  {
    if |w| == 1 {
      JoinedReflexive(E, w[0]);
    } else {
      var w' := w[..|w| - 1];
      assert IsWalk(n, open, wb, w') by {
        forall k | 0 <= k < |w'| - 1 ensures Link(n, open, wb, w'[k], w'[k + 1]) {
          assert w'[k] == w[k] && w'[k + 1] == w[k + 1];
        }
      }
      JoinedComplete(n, open, wb, E, w');
      assert Link(n, open, wb, w[|w| - 2], w[|w| - 1]);
      JoinedTransitive(E, w[0], w[|w| - 2], w[|w| - 1]);
    }
  }

  /** With sound and complete unions, `find` agrees with walks. */
  lemma JoinedIffReaches(n: int, open: set<Site>, wb: bool, E: seq<(int, int)>, x: int, y: int)
    requires n > 0 && Sound(n, open, wb, E) && Complete(n, open, wb, E)
    ensures Joined(E, x, y) <==> Reaches(n, open, wb, x, y)
  {
    if Joined(E, x, y) {
      JoinedSound(n, open, wb, E, x, y);
    }
    if Reaches(n, open, wb, x, y) {
      var w :| IsWalk(n, open, wb, w) && w[0] == x && w[|w| - 1] == y;
      JoinedComplete(n, open, wb, E, w);
    }
  }

  /** A path of open sites of the grid, each adjacent to the next. */
  ghost predicate OpenPath(n: int, open: set<Site>, p: seq<Site>) {
    && |p| > 0
    && (forall k :: 0 <= k < |p| ==> InGrid(n, p[k]) && p[k] in open)
    && (forall k :: 0 <= k < |p| - 1 ==> Adjacent(p[k], p[k + 1]))
  }

  /** A full site: an open path leads to it from an open top-row site. */
  ghost predicate Full(n: int, open: set<Site>, s: Site) {
    exists p: seq<Site> :: OpenPath(n, open, p) && p[0].0 == 1 && p[|p| - 1] == s
  }

  /** The system percolates: an open path leads from the top row to the
      bottom row. */
  ghost predicate Percolating(n: int, open: set<Site>) {
    exists p: seq<Site> :: OpenPath(n, open, p) && p[0].0 == 1 && p[|p| - 1].0 == n
  }

  /** An open top-row site is full. */
  lemma TopFull(n: int, open: set<Site>, s: Site)
    requires InGrid(n, s) && s in open && s.0 == 1
    ensures Full(n, open, s)
  {
    assert OpenPath(n, open, [s]);
  }

  /** An open site next to a full one is full. */
  lemma FullStep(n: int, open: set<Site>, s: Site, t: Site)
    requires Full(n, open, s) && InGrid(n, t) && t in open && Adjacent(s, t)
    ensures Full(n, open, t)
  {
    var p: seq<Site> :| OpenPath(n, open, p) && p[0].0 == 1 && p[|p| - 1] == s;
    var q := p + [t];
    assert forall k :: 0 <= k < |p| ==> q[k] == p[k];
    assert OpenPath(n, open, q);
  }

  /** A full bottom-row site makes the system percolate. */
  lemma FullBottom(n: int, open: set<Site>, s: Site)
    requires Full(n, open, s) && s.0 == n
    ensures Percolating(n, open)
  {
    var p: seq<Site> :| OpenPath(n, open, p) && p[0].0 == 1 && p[|p| - 1] == s;
  }

  /** A path of open sites from the top row gives a walk from the virtual
      top. */
  lemma PathWalk(n: int, open: set<Site>, wb: bool, p: seq<Site>)
    requires n > 0 && OpenPath(n, open, p) && p[0].0 == 1
    ensures Reaches(n, open, wb, 0, Index(n, p[|p| - 1]))
  {
    var w := [0] + seq(|p|, k requires 0 <= k < |p| => Index(n, p[k]));
    forall k | 0 <= k < |p|
      ensures 1 <= w[k + 1] <= n * n && SiteOf(n, w[k + 1]) == p[k]
    {
      IndexInverse(n, p[k]);
    }
    forall k | 0 <= k < |w| - 1
      ensures Link(n, open, wb, w[k], w[k + 1])
    {
      if k == 0 {
        assert TopCell(n, w[1]);
      } else {
        assert OpenLink(n, open, w[k], w[k + 1]);
      }
    }
    assert IsWalk(n, open, wb, w);
  }

  /** Where a walk from the virtual top can end: at the top, at a top-row
      site, at a full site, or (with the bottom) anywhere once the system
      percolates. The one-site grid needs its site open, since there the
      top and bottom rows are one. */
  ghost predicate Reached(n: int, open: set<Site>, v: int)
    requires n > 0
  {
    v == 0 || TopCell(n, v) || (1 <= v <= n * n && SiteOf(n, v) in open && Full(n, open, SiteOf(n, v)))
  }

  /** One link further from a reached element. */
  lemma ReachedStep(n: int, open: set<Site>, wb: bool, u: int, v: int)
    requires n > 0 && (wb ==> n >= 2 || (1, 1) in open)
    requires Reached(n, open, u) && Link(n, open, wb, u, v)
    ensures Reached(n, open, v) || (wb && Percolating(n, open))
  {
    MulMonotone(1, n, n);
    if u == 0 {
      assert TopCell(n, v);
    } else if OpenLink(n, open, u, v) {
      ReachedOpenLink(n, open, u, v);
    } else if wb && v == n * n + 1 {
      ReachedBottom(n, open, u);
    }
  }

  lemma ReachedOpenLink(n: int, open: set<Site>, u: int, v: int)
    requires n > 0 && u != 0 && Reached(n, open, u) && OpenLink(n, open, u, v)
    ensures Reached(n, open, v)
  {
    SiteOfInverse(n, u);
    SiteOfInverse(n, v);
    var s, t := SiteOf(n, u), SiteOf(n, v);
    if TopCell(n, u) {
      TopFull(n, open, s);
    }
    FullStep(n, open, s, t);
  }

  lemma ReachedBottom(n: int, open: set<Site>, u: int)
    requires n > 0 && (n >= 2 || (1, 1) in open)
    requires u != 0 && Reached(n, open, u) && BottomCell(n, u)
    ensures Percolating(n, open)
  {
    var s := SiteOf(n, u);
    if TopCell(n, u) {
      OneRow(n, u);
      TopFull(n, open, s);
    }
    FullBottom(n, open, s);
  }

  /** A site in both the top and the bottom row is the one site of the
      one-site grid. */
  lemma OneRow(n: int, u: int)
    requires n > 0 && TopCell(n, u) && BottomCell(n, u)
    ensures n == 1 && SiteOf(n, u) == (1, 1)
  {
    SiteOfInverse(n, u);
  }

  lemma {:induction false} WalkReached(n: int, open: set<Site>, wb: bool, w: seq<int>)
    requires n > 0 && (wb ==> n >= 2 || (1, 1) in open)
    requires IsWalk(n, open, wb, w) && w[0] == 0
    ensures Reached(n, open, w[|w| - 1]) || (wb && Percolating(n, open))
    decreases |w|
  {
    if |w| > 1 {
      var w' := w[..|w| - 1];
      assert IsWalk(n, open, wb, w') by {
        forall k | 0 <= k < |w'| - 1 ensures Link(n, open, wb, w'[k], w'[k + 1]) {
          assert w'[k] == w[k] && w'[k + 1] == w[k + 1];
        }
      }
      WalkReached(n, open, wb, w');
      if !(wb && Percolating(n, open)) {
        assert Link(n, open, wb, w[|w| - 2], w[|w| - 1]);
        ReachedStep(n, open, wb, w[|w| - 2], w[|w| - 1]);
      }
    }
  }

  /** An open site is joined to the virtual top without the bottom exactly
      when it is full. */
  lemma FullIff(n: int, open: set<Site>, s: Site)
    requires InGrid(n, s) && s in open
    ensures Reaches(n, open, false, 0, Index(n, s)) <==> Full(n, open, s)
  {
    IndexInverse(n, s);
    if Reaches(n, open, false, 0, Index(n, s)) {
      var w :| IsWalk(n, open, false, w) && w[0] == 0 && w[|w| - 1] == Index(n, s);
      WalkReached(n, open, false, w);
      if TopCell(n, Index(n, s)) {
        TopFull(n, open, s);
      }
    }
    if Full(n, open, s) {
      var p: seq<Site> :| OpenPath(n, open, p) && p[0].0 == 1 && p[|p| - 1] == s;
      PathWalk(n, open, false, p);
    }
  }

  /** The virtual top reaches the virtual bottom exactly when the system
      percolates. */
  lemma PercolatingIff(n: int, open: set<Site>)
    requires n > 0 && (n >= 2 || (1, 1) in open)
    ensures Reaches(n, open, true, 0, n * n + 1) <==> Percolating(n, open)
  {
    if Reaches(n, open, true, 0, n * n + 1) {
      var w :| IsWalk(n, open, true, w) && w[0] == 0 && w[|w| - 1] == n * n + 1;
      WalkReached(n, open, true, w);
    }
    if Percolating(n, open) {
      var p: seq<Site> :| OpenPath(n, open, p) && p[0].0 == 1 && p[|p| - 1].0 == n;
      var last := p[|p| - 1];
      PathWalk(n, open, true, p);
      IndexInverse(n, last);
      assert BottomCell(n, Index(n, last));
      LinkReaches(n, open, true, n * n + 1, Index(n, last));
      ReachesTransitive(n, open, true, 0, Index(n, last), n * n + 1);
    }
  }

  /** A path of adjacent sites passes through every row between its ends. */
  lemma {:induction false} PathHitsRow(p: seq<Site>, r: int)
    requires |p| > 0 && forall k :: 0 <= k < |p| - 1 ==> Adjacent(p[k], p[k + 1])
    requires p[0].0 <= r <= p[|p| - 1].0
    ensures exists k :: 0 <= k < |p| && p[k].0 == r
    decreases |p|
  {
    if p[|p| - 1].0 != r {
      var p' := p[..|p| - 1];
      assert Adjacent(p[|p| - 2], p[|p| - 1]);
      PathHitsRow(p', r);
      var k :| 0 <= k < |p'| && p'[k].0 == r;
      assert p[k] == p'[k];
    }
  }

  /** The sites of rows 1..m among s. */
  ghost function RowsUpTo(s: set<Site>, m: int): set<Site> {
    set t | t in s && 1 <= t.0 <= m
  }

  /** Some site of s lies in row r. */
  ghost predicate HasRow(s: set<Site>, r: int) {
    exists t :: t in s && t.0 == r
  }

  /** A set with a site in each of the rows 1..m has at least m sites there. */
  lemma {:induction false} RowsCount(s: set<Site>, m: nat)
    requires forall r :: 1 <= r <= m ==> HasRow(s, r)
    ensures |RowsUpTo(s, m)| >= m
  {
    if m > 0 {
      RowsCount(s, m - 1);
      assert HasRow(s, m);
      var t :| t in s && t.0 == m;
      assert RowsUpTo(s, m) == RowsUpTo(s, m - 1) + {t} + (RowsUpTo(s, m) - RowsUpTo(s, m - 1) - {t});
      assert t !in RowsUpTo(s, m - 1);
    }
  }

  /** A subset is no larger. */
  lemma SubsetSize(a: set<Site>, b: set<Site>)
    requires a <= b
    ensures |a| <= |b|
  {
    assert b == a + (b - a);
  }

  /** Percolation takes at least n open sites: the path meets every row. */
  lemma PercolatingNeedsSites(n: int, open: set<Site>)
    requires Percolating(n, open)
    ensures |open| >= n
  {
    var p: seq<Site> :| OpenPath(n, open, p) && p[0].0 == 1 && p[|p| - 1].0 == n;
    if n >= 1 {
      forall r | 1 <= r <= n
        ensures HasRow(open, r)
      {
        PathHitsRow(p, r);
        var k :| 0 <= k < |p| && p[k].0 == r;
        assert p[k] in open;
      }
      RowsCount(open, n);
      SubsetSize(RowsUpTo(open, n), open);
    }
  }

  /** The state `percolates` records tells whether the system percolates. */
  lemma PercolatesCorrect(n: int, open: set<Site>, E: seq<(int, int)>, percolates: bool)
    requires n > 0 && forall s :: s in open ==> InGrid(n, s)
    requires Sound(n, open, true, E) && Complete(n, open, true, E)
    requires percolates <==> |open| >= n && Joined(E, 0, n * n + 1)
    ensures percolates <==> Percolating(n, open)
  {
    if Percolating(n, open) {
      PercolatingNeedsSites(n, open);
    }
    if |open| >= n {
      EnoughOpen(n, open);
      JoinedIffReaches(n, open, true, E, 0, n * n + 1);
      PercolatingIff(n, open);
    }
  }

  /** In the one-site grid, one open site is the site itself. */
  lemma EnoughOpen(n: int, open: set<Site>)
    requires n > 0 && (forall s :: s in open ==> InGrid(n, s)) && |open| >= n
    ensures n >= 2 || (1, 1) in open
  {
    if n < 2 {
      var s :| s in open;
      assert s == (1, 1);
    }
  }

  /** A union found by its membership joins its ends. */
  lemma JoinedMember(E: seq<(int, int)>, p: int, q: int)
    requires (p, q) in E
    ensures Joined(E, p, q)
  {
    var i :| 0 <= i < |E| && E[i] == (p, q);
    JoinedUnion(E, i);
  }

  /** Element v is joined by a union to each site of row r in columns
      below i. */
  ghost predicate RowJoined(n: int, v: int, r: int, E: seq<(int, int)>, i: int) {
    forall c :: 1 <= c < i ==> (v, Index(n, (r, c))) in E
  }

  lemma RowJoinedStep(n: int, v: int, r: int, E: seq<(int, int)>, E': seq<(int, int)>, i: int)
    requires RowJoined(n, v, r, E, i) && E <= E' && (v, Index(n, (r, i))) in E'
    ensures RowJoined(n, v, r, E', i + 1)
  {
    forall c | 1 <= c < i + 1
      ensures (v, Index(n, (r, c))) in E'
    {
      if c < i {
        var k :| 0 <= k < |E| && E[k] == (v, Index(n, (r, c)));
        assert E'[k] == E[k];
      }
    }
  }

  /** The unions of the constructor join every virtual link. */
  lemma InitialComplete(n: int, wb: bool, E: seq<(int, int)>)
    requires n > 0
    requires RowJoined(n, 0, 1, E, n + 1)
    requires wb ==> RowJoined(n, n * n + 1, n, E, n + 1)
    ensures Complete(n, {}, wb, E)
  {
    forall u, v | Link(n, {}, wb, u, v)
      ensures Joined(E, u, v)
    {
      if u == 0 && TopCell(n, v) {
        SiteOfInverse(n, v);
        JoinedMember(E, u, v);
      } else if v == 0 && TopCell(n, u) {
        SiteOfInverse(n, u);
        JoinedMember(E, v, u);
        JoinedSymmetric(E, v, u);
      } else if wb && u == n * n + 1 && BottomCell(n, v) {
        SiteOfInverse(n, v);
        JoinedMember(E, u, v);
      } else {
        assert wb && v == n * n + 1 && BottomCell(n, u);
        SiteOfInverse(n, u);
        JoinedMember(E, v, u);
        JoinedSymmetric(E, v, u);
      }
    }
  }

  /** Links to the virtual top and bottom hold whatever is open. */
  lemma InitialSound(n: int, wb: bool, E: seq<(int, int)>, u: int, v: int)
    requires n > 0 && Sound(n, {}, wb, E) && (u, v) in E
    ensures Link(n, {}, wb, u, v)
  {
  }

  /** Opening x keeps the unions sound. */
  lemma SoundAfterOpen(n: int, open: set<Site>, x: Site, wb: bool, E: seq<(int, int)>)
    requires n > 0 && Sound(n, open, wb, E)
    ensures Sound(n, open + {x}, wb, E)
  {
    forall i | 0 <= i < |E| ensures Link(n, open + {x}, wb, E[i].0, E[i].1) {
      LinkMonotone(n, open, x, wb, E[i].0, E[i].1);
    }
  }

  /** The unions `connectNeighbors` makes, for each of the four offsets. */
  ghost predicate NeighbourJoined(n: int, open: set<Site>, x: Site, E: seq<(int, int)>, j: int)
    requires 0 <= j < 4
  {
    InGrid(n, Step(x, j)) && Step(x, j) in open ==> (Index(n, Step(x, j)), Index(n, x)) in E
  }

  /** One more offset handled by `connectNeighbors`. */
  lemma NeighbourStep(n: int, open: set<Site>, x: Site, E: seq<(int, int)>, E': seq<(int, int)>, i: int)
    requires 0 <= i < 4 && E <= E'
    requires forall j :: 0 <= j < i ==> NeighbourJoined(n, open, x, E, j)
    requires InGrid(n, Step(x, i)) && Step(x, i) in open ==> (Index(n, Step(x, i)), Index(n, x)) in E'
    ensures forall j :: 0 <= j < i + 1 ==> NeighbourJoined(n, open, x, E', j)
  {
    forall j | 0 <= j < i
      ensures NeighbourJoined(n, open, x, E', j)
    {
      if InGrid(n, Step(x, j)) && Step(x, j) in open {
        assert NeighbourJoined(n, open, x, E, j);
        var k :| 0 <= k < |E| && E[k] == (Index(n, Step(x, j)), Index(n, x));
        assert E'[k] == E[k];
      }
    }
  }

  /** A union along a link keeps the unions sound. */
  lemma SoundAppend(n: int, open: set<Site>, wb: bool, E: seq<(int, int)>, u: int, v: int)
    requires n > 0 && Sound(n, open, wb, E) && Link(n, open, wb, u, v)
    ensures Sound(n, open, wb, E + [(u, v)])
  {
    var E' := E + [(u, v)];
    forall i | 0 <= i < |E'| ensures Link(n, open, wb, E'[i].0, E'[i].1) {
      if i < |E| {
        assert E'[i] == E[i];
      }
    }
  }

  /** After opening x and joining it to its open neighbours, the unions
      join every link again. */
  lemma CompleteAfterOpen(n: int, open: set<Site>, x: Site, wb: bool, E: seq<(int, int)>, E': seq<(int, int)>)
    requires InGrid(n, x) && Complete(n, open, wb, E) && E <= E'
    requires forall j :: 0 <= j < 4 ==> NeighbourJoined(n, open + {x}, x, E', j)
    ensures Complete(n, open + {x}, wb, E')
  {
    forall u, v | Link(n, open + {x}, wb, u, v)
      ensures Joined(E', u, v)
    {
      if Link(n, open, wb, u, v) {
        JoinedPrefix(E, E', u, v);
      } else {
        assert OpenLink(n, open + {x}, u, v);
        SiteOfInverse(n, u);
        SiteOfInverse(n, v);
        if SiteOf(n, v) == x {
          AdjacentIsStep(x, SiteOf(n, u));
          var j :| 0 <= j < 4 && SiteOf(n, u) == Step(x, j);
          assert NeighbourJoined(n, open + {x}, x, E', j);
          JoinedMember(E', u, v);
        } else {
          assert SiteOf(n, u) == x;
          AdjacentIsStep(x, SiteOf(n, v));
          var j :| 0 <= j < 4 && SiteOf(n, v) == Step(x, j);
          assert NeighbourJoined(n, open + {x}, x, E', j);
          JoinedMember(E', v, u);
          JoinedSymmetric(E', v, u);
        }
      }
    }
  }

  /** The unions of the constructor: in both structures the virtual top
      with each top-row site, and in `unionFind` the virtual bottom with each
      bottom-row site. With every site blocked these join every link. */
  method JoinVirtual(n: int) returns (uf: UF, wb: UF)
    requires n > 0
    ensures fresh(uf) && fresh(wb) && uf != wb && uf.count == n * n + 2 && wb.count == n * n + 1
    ensures Sound(n, {}, true, uf.unions) && Complete(n, {}, true, uf.unions)
    ensures Sound(n, {}, false, wb.unions) && Complete(n, {}, false, wb.unions)
  {
    uf := new UF(n * n + 2);
    wb := new UF(n * n + 1);
    for i := 1 to n + 1
      invariant uf.count == n * n + 2 && wb.count == n * n + 1
      invariant Sound(n, {}, false, wb.unions) && Sound(n, {}, true, uf.unions)
      invariant RowJoined(n, 0, 1, wb.unions, i) && RowJoined(n, 0, 1, uf.unions, i)
      invariant RowJoined(n, n * n + 1, n, uf.unions, i)
    {
      ghost var uf0, wb0 := uf.unions, wb.unions;
      IndexInverse(n, (1, i));
      IndexInverse(n, (n, i));
      assert Link(n, {}, false, 0, Index(n, (1, i)));
      assert Link(n, {}, true, n * n + 1, Index(n, (n, i)));
      wb.Union(0, Index(n, (1, i)));
      SoundAppend(n, {}, false, wb0, 0, Index(n, (1, i)));
      RowJoinedStep(n, 0, 1, wb0, wb.unions, i);
      uf.Union(0, Index(n, (1, i)));
      SoundAppend(n, {}, true, uf0, 0, Index(n, (1, i)));
      ghost var uf1 := uf.unions;
      uf.Union(n * n + 1, Index(n, (n, i)));
      SoundAppend(n, {}, true, uf1, n * n + 1, Index(n, (n, i)));
      RowJoinedStep(n, 0, 1, uf0, uf.unions, i);
      RowJoinedStep(n, n * n + 1, n, uf0, uf.unions, i);
    }
    InitialComplete(n, false, wb.unions);
    InitialComplete(n, true, uf.unions);
  }

  class Percolation {
    const length: int
    const size: int
    const top: int
    const bottom: int
    const grid: array2<bool>
    const unionFind: UF
    const withoutBottom: UF
    var openSites: int
    var percolates: bool
    /** The open sites. */
    ghost var openSet: set<Site>

    /** The grid records the open sites, which lie in the grid. */
    ghost predicate GridShape()
      reads this, grid
    {
      && length > 0 && size == length * length && top == 0 && bottom == size + 1
      && grid.Length0 == length && grid.Length1 == length
      && (forall s :: s in openSet ==> InGrid(length, s))
      && (forall r, c :: 0 <= r < length && 0 <= c < length ==> (grid[r, c] <==> (r + 1, c + 1) in openSet))
    }

    /** The grid, the count of open sites, the unions of both structures
        (following links and joining every link), and `percolates`, which
        is the top joined to the bottom once at least n sites are open. */
    ghost predicate Valid()
      reads this, grid, unionFind, withoutBottom
    {
      && GridShape()
      && unionFind != withoutBottom
      && unionFind.count == size + 2 && withoutBottom.count == size + 1
      && openSites == |openSet|
      && Sound(length, openSet, true, unionFind.unions)
      && Complete(length, openSet, true, unionFind.unions)
      && Sound(length, openSet, false, withoutBottom.unions)
      && Complete(length, openSet, false, withoutBottom.unions)
      && (percolates <==> openSites >= length && Joined(unionFind.unions, top, bottom))
    }

    /** The n-by-n grid with every site blocked; the virtual top joined to
        the top row in both structures, the virtual bottom to the bottom
        row in `unionFind`. */
    constructor (n: int)
      requires n > 0
      ensures Valid() && fresh(grid) && fresh(unionFind) && fresh(withoutBottom)
      ensures length == n && openSet == {} && openSites == 0 && !percolates
    {
      var uf, wb := JoinVirtual(n);
      length := n;
      size := n * n;
      grid := new bool[n, n]((_, _) => false);
      top := 0;
      bottom := n * n + 1;
      openSites := 0;
      percolates := false;
      openSet := {};
      unionFind := uf;
      withoutBottom := wb;
    }

    /** `isOpen`: a site outside the grid throws. */
    method IsOpen(row: int, col: int) returns (r: Result<bool>)
      requires GridShape()
      ensures !InGrid(length, (row, col)) ==> r == Failure(IllegalArgument)
      ensures InGrid(length, (row, col)) ==> r == Success((row, col) in openSet)
    {
      if !InGrid(length, (row, col)) {
        return Failure(IllegalArgument);
      }
      return Success(grid[row - 1, col - 1]);
    }

    /** `connectNeighbors`: joins the site to each open site next to it,
        in both structures. */
    method ConnectNeighbors(row: int, col: int)
      requires GridShape() && InGrid(length, (row, col)) && (row, col) in openSet
      requires unionFind != withoutBottom
      requires unionFind.count == size + 2 && withoutBottom.count == size + 1
      requires Sound(length, openSet, true, unionFind.unions)
      requires Sound(length, openSet, false, withoutBottom.unions)
      modifies unionFind, withoutBottom
      ensures old(unionFind.unions) <= unionFind.unions
      ensures old(withoutBottom.unions) <= withoutBottom.unions
      ensures Sound(length, openSet, true, unionFind.unions)
      ensures Sound(length, openSet, false, withoutBottom.unions)
      ensures forall j :: 0 <= j < 4 ==> NeighbourJoined(length, openSet, (row, col), unionFind.unions, j)
      ensures forall j :: 0 <= j < 4 ==> NeighbourJoined(length, openSet, (row, col), withoutBottom.unions, j)
    {
      var x := (row, col);
      IndexInverse(length, x);
      for i := 0 to |DRow|
        invariant old(unionFind.unions) <= unionFind.unions
        invariant old(withoutBottom.unions) <= withoutBottom.unions
        invariant Sound(length, openSet, true, unionFind.unions)
        invariant Sound(length, openSet, false, withoutBottom.unions)
        invariant forall j :: 0 <= j < i ==> NeighbourJoined(length, openSet, x, unionFind.unions, j)
        invariant forall j :: 0 <= j < i ==> NeighbourJoined(length, openSet, x, withoutBottom.unions, j)
      {
        ghost var uf, wb := unionFind.unions, withoutBottom.unions;
        var r := row + DRow[i];
        var c := col + DCol[i];
        if r < 1 || r > length || c < 1 || c > length {
          NeighbourStep(length, openSet, x, uf, uf, i);
          NeighbourStep(length, openSet, x, wb, wb, i);
          continue;
        }
        var isOpen := IsOpen(r, c);
        if isOpen.value {
          IndexInverse(length, (r, c));
          assert OpenLink(length, openSet, Index(length, (r, c)), Index(length, x));
          unionFind.Union(Index(length, (r, c)), Index(length, x));
          withoutBottom.Union(Index(length, (r, c)), Index(length, x));
          SoundAppend(length, openSet, true, uf, Index(length, (r, c)), Index(length, x));
          SoundAppend(length, openSet, false, wb, Index(length, (r, c)), Index(length, x));
        }
        NeighbourStep(length, openSet, x, uf, unionFind.unions, i);
        NeighbourStep(length, openSet, x, wb, withoutBottom.unions, i);
      }
    }

    /** `open`: opens a blocked site and joins it to its open neighbours;
        `percolates` is recomputed once at least n sites are open. An open
        site is left as it is; a site outside the grid throws. */
    method Open(row: int, col: int) returns (r: Outcome)
      requires Valid()
      modifies this, grid, unionFind, withoutBottom
      ensures Valid()
      ensures !InGrid(length, (row, col)) ==> r == Fail(IllegalArgument)
      ensures InGrid(length, (row, col)) ==> r == Pass && openSet == old(openSet) + {(row, col)}
      ensures !InGrid(length, (row, col)) || (row, col) in old(openSet) ==>
                && openSet == old(openSet) && openSites == old(openSites) && percolates == old(percolates)
                && unionFind.unions == old(unionFind.unions) && withoutBottom.unions == old(withoutBottom.unions)
      ensures old(percolates) ==> percolates
    {
      var isOpen := IsOpen(row, col);
      if isOpen.Failure? {
        return Fail(IllegalArgument);
      }
      if isOpen.value {
        return Pass;
      }
      ghost var open0, uf0, wb0 := openSet, unionFind.unions, withoutBottom.unions;
      grid[row - 1, col - 1] := true;
      openSites := openSites + 1;
      openSet := openSet + {(row, col)};
      SoundAfterOpen(length, open0, (row, col), true, uf0);
      SoundAfterOpen(length, open0, (row, col), false, wb0);
      ConnectNeighbors(row, col);
      CompleteAfterOpen(length, open0, (row, col), true, uf0, unionFind.unions);
      CompleteAfterOpen(length, open0, (row, col), false, wb0, withoutBottom.unions);
      if old(percolates) {
        JoinedPrefix(uf0, unionFind.unions, top, bottom);
      }
      if openSites >= length {
        percolates := unionFind.Connected(top, bottom);
      }
      return Pass;
    }

    /** `isFull`: a blocked site is not full; an open site is full when
        `withoutBottom` joins it to the virtual top, which is when an open
        path leads to it from the top row. */
    method IsFull(row: int, col: int) returns (r: Result<bool>)
      requires Valid()
      ensures !InGrid(length, (row, col)) ==> r == Failure(IllegalArgument)
      ensures InGrid(length, (row, col)) ==>
                r == Success((row, col) in openSet && Full(length, openSet, (row, col)))
    {
      var isOpen := IsOpen(row, col);
      if isOpen.Failure? {
        return Failure(IllegalArgument);
      }
      if !isOpen.value {
        return Success(false);
      }
      JoinedIffReaches(length, openSet, false, withoutBottom.unions, top, Index(length, (row, col)));
      FullIff(length, openSet, (row, col));
      var b := withoutBottom.Connected(top, Index(length, (row, col)));
      return Success(b);
    }

    /** `numberOfOpenSites`. */
    method NumberOfOpenSites() returns (k: int)
      requires Valid()
      ensures k == |openSet|
    {
      return openSites;
    }

    /** `percolates`: whether an open path leads from the top row to the
        bottom row. */
    method Percolates() returns (b: bool)
      requires Valid()
      ensures b <==> Percolating(length, openSet)
    {
      PercolatesCorrect(length, openSet, unionFind.unions, percolates);
      return percolates;
    }
  }

  /** The constructor of the source: a size that is not positive throws;
      otherwise an n-by-n grid with every site blocked. */
  method NewPercolation(n: int) returns (r: Result<Percolation>)
    ensures n <= 0 ==> r == Failure(IllegalArgument)
    ensures n > 0 ==> r.Success? && fresh(r.value) && r.value.Valid() && r.value.length == n
    ensures n > 0 ==> r.value.openSet == {} && r.value.openSites == 0 && !r.value.percolates
  {
    if n <= 0 {
      return Failure(IllegalArgument);
    }
    var p := new Percolation(n);
    return Success(p);
  }
}
