/** The union-find structure the percolation system uses
    (edu.princeton.cs.algs4.WeightedQuickUnionUF), modelled by what it
    answers rather than by its trees: the unions performed so far, and two
    elements share a root exactly when the equivalence closure of those
    unions relates them. */
module UnionFind {

  /** x and y are in one component after the unions E: the last union
      merges the component of its one end with that of its other end. */
  function Joined(E: seq<(int, int)>, x: int, y: int): bool
    decreases |E|
  {
    if |E| == 0 then x == y
    else
      var E', e := E[..|E| - 1], E[|E| - 1];
      || Joined(E', x, y)
      || (Joined(E', x, e.0) && Joined(E', e.1, y))
      || (Joined(E', x, e.1) && Joined(E', e.0, y))
  }

  lemma {:induction false} JoinedReflexive(E: seq<(int, int)>, x: int)
    ensures Joined(E, x, x)
    decreases |E|
  {
    if |E| > 0 {
      JoinedReflexive(E[..|E| - 1], x);
    }
  }

  lemma {:induction false} JoinedSymmetric(E: seq<(int, int)>, x: int, y: int)
    requires Joined(E, x, y)
    ensures Joined(E, y, x)
    decreases |E|
  {
    if |E| > 0 {
      var E', e := E[..|E| - 1], E[|E| - 1];
      if Joined(E', x, y) {
        JoinedSymmetric(E', x, y);
      } else if Joined(E', x, e.0) && Joined(E', e.1, y) {
        JoinedSymmetric(E', x, e.0);
        JoinedSymmetric(E', e.1, y);
      } else {
        JoinedSymmetric(E', x, e.1);
        JoinedSymmetric(E', e.0, y);
      }
    }
  }

  lemma {:induction false} JoinedTransitive(E: seq<(int, int)>, x: int, y: int, z: int)
    requires Joined(E, x, y) && Joined(E, y, z)
    ensures Joined(E, x, z)
    decreases |E|
  {
    if |E| > 0 {
      var E', e := E[..|E| - 1], E[|E| - 1];
      var p, q := e.0, e.1;
      if Joined(E', x, y) {
        if Joined(E', y, z) {
          JoinedTransitive(E', x, y, z);
        } else if Joined(E', y, p) && Joined(E', q, z) {
          JoinedTransitive(E', x, y, p);
        } else {
          JoinedTransitive(E', x, y, q);
        }
      } else if Joined(E', x, p) && Joined(E', q, y) {
        if Joined(E', y, z) {
          JoinedTransitive(E', q, y, z);
        } else if Joined(E', y, q) && Joined(E', p, z) {
          JoinedTransitive(E', x, p, z);
        }
      } else {
        assert Joined(E', x, q) && Joined(E', p, y);
        if Joined(E', y, z) {
          JoinedTransitive(E', p, y, z);
        } else if Joined(E', y, p) && Joined(E', q, z) {
          JoinedTransitive(E', x, q, z);
        }
      }
    }
  }

  /** One more union keeps every component together. */
  lemma JoinedExtend(E: seq<(int, int)>, e: (int, int), x: int, y: int)
    requires Joined(E, x, y)
    ensures Joined(E + [e], x, y)
  {
    assert (E + [e])[..|E|] == E;
  }

  /** The union just performed joins its two ends. */
  lemma JoinedLast(E: seq<(int, int)>, p: int, q: int)
    ensures Joined(E + [(p, q)], p, q)
  {
    assert (E + [(p, q)])[..|E|] == E;
    JoinedReflexive(E, p);
    JoinedReflexive(E, q);
  }

  /** Later unions keep every component together. */
  lemma {:induction false} JoinedPrefix(E: seq<(int, int)>, F: seq<(int, int)>, x: int, y: int)
    requires E <= F && Joined(E, x, y)
    ensures Joined(F, x, y)
    decreases |F|
  {
    if |F| > |E| {
      var F' := F[..|F| - 1];
      assert E <= F';
      JoinedPrefix(E, F', x, y);
      JoinedExtend(F', F[|F| - 1], x, y);
      assert F' + [F[|F| - 1]] == F;
    } else {
      assert E == F;
    }
  }

  /** Every union performed joins its two ends. */
  lemma {:induction false} JoinedUnion(E: seq<(int, int)>, i: int)
    requires 0 <= i < |E|
    ensures Joined(E, E[i].0, E[i].1)
  {
    JoinedLast(E[..i], E[i].0, E[i].1);
    assert E[..i] + [E[i]] == E[..i + 1];
    JoinedPrefix(E[..i + 1], E, E[i].0, E[i].1);
  }

  /** The union-find object: its number of elements and the unions made. */
  class UF {
    const count: int
    var unions: seq<(int, int)>

    /** `n` singleton components. */
    constructor (n: int)
      ensures count == n && unions == []
      ensures forall x, y :: Joined(unions, x, y) <==> x == y
    {
      count := n;
      unions := [];
    }

    /** `union`: merges the components of p and q. */
    method Union(p: int, q: int)
      requires 0 <= p < count && 0 <= q < count
      modifies this
      ensures unions == old(unions) + [(p, q)]
      ensures Joined(unions, p, q)
    {
      unions := unions + [(p, q)];
      JoinedLast(old(unions), p, q);
    }

    /** `find(p) == find(q)`: whether p and q share a component. */
    method Connected(p: int, q: int) returns (b: bool)
      ensures b <==> Joined(unions, p, q)
    {
      return Joined(unions, p, q);
    }
  }
}
