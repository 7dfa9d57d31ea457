/** Shortest ancestral paths (WordNet/SAP.java). A breadth-first search of
    the digraph from a vertex (or from a set of vertices) is foreign code; it
    is modelled by its result, the distance of every vertex from the
    source(s): `Some(d)` when the vertex is reachable at distance d, `None`
    otherwise. Each query scans all vertices for the common ancestor with the
    least total distance. */
module SAP {
  import opened Wrappers

  /** Per-vertex BFS distances from one source or a set of sources. */
  type Distances = seq<Option<nat>>

  /** The digraph the queries run on: V vertices and adjacency lists. */
  datatype Digraph = Digraph(V: nat, adj: seq<seq<nat>>)

  /** Vertex i is reachable from both searches. */
  predicate Common(dv: Distances, dw: Distances, i: int) {
    0 <= i < |dv| && i < |dw| && dv[i].Some? && dw[i].Some?
  }

  /** The length of the ancestral path through the common vertex i. */
  function PathLength(dv: Distances, dw: Distances, i: int): nat
    requires Common(dv, dw, i)
  {
    dv[i].value + dw[i].value
  }

  /** `len` is what `length` promises: -1 when no vertex is reachable from
      both sides, otherwise the least ancestral path length. */
  ghost predicate IsShortestLength(dv: Distances, dw: Distances, len: int) {
    if forall i :: 0 <= i < |dv| ==> !Common(dv, dw, i) then len == -1
    else
      && (exists i :: Common(dv, dw, i) && PathLength(dv, dw, i) == len)
      && (forall i :: Common(dv, dw, i) ==> len <= PathLength(dv, dw, i))
  }

  /** `a` is what `ancestor` computes: -1 when there is no common vertex,
      otherwise the lowest-numbered common vertex of least path length. */
  ghost predicate IsShortestAncestor(dv: Distances, dw: Distances, a: int) {
    if forall i :: 0 <= i < |dv| ==> !Common(dv, dw, i) then a == -1
    else
      && Common(dv, dw, a)
      && (forall i :: Common(dv, dw, i) ==> PathLength(dv, dw, a) <= PathLength(dv, dw, i))
      && (forall i :: 0 <= i < a && Common(dv, dw, i) ==> PathLength(dv, dw, a) < PathLength(dv, dw, i))
  }

  /** Whenever `ancestor` names a vertex, its path length is `length`. */
  lemma AncestorRealisesLength(dv: Distances, dw: Distances, len: int, a: int)
    requires |dv| == |dw|
    requires IsShortestLength(dv, dw, len) && IsShortestAncestor(dv, dw, a)
    ensures a == -1 <==> len == -1
    ensures a != -1 ==> PathLength(dv, dw, a) == len
  {
    if !forall i :: 0 <= i < |dv| ==> !Common(dv, dw, i) {
      var i :| Common(dv, dw, i) && PathLength(dv, dw, i) == len;
      assert PathLength(dv, dw, a) <= len;
    }
  }

  /** The answer of a query is unique: only one value meets the predicate. */
  lemma ShortestAncestorUnique(dv: Distances, dw: Distances, a: int, b: int)
    requires IsShortestAncestor(dv, dw, a) && IsShortestAncestor(dv, dw, b)
    ensures a == b
  {
  }

  class SAP {
    /** The private copy of the digraph. */
    const graph: Digraph

    /** Stores a copy of the digraph; a value cannot be changed afterwards
        by the caller. */
    constructor (G: Digraph)
      ensures graph == G
    {
      graph := G;
    }

    /** `length(v, w)`, given the BFS distances from v and from w. The
        source's `Integer.MAX_VALUE` starting value is the absence of a
        candidate. */
    method Length(dv: Distances, dw: Distances) returns (len: int)
      requires |dv| == graph.V && |dw| == graph.V
      ensures IsShortestLength(dv, dw, len)
    {
      var minLength: Option<nat> := None;
      for i := 0 to graph.V
        invariant minLength.None? <==> forall j :: 0 <= j < i ==> !Common(dv, dw, j)
        invariant minLength.Some? ==>
          && (exists j :: 0 <= j < i && Common(dv, dw, j) && PathLength(dv, dw, j) == minLength.value)
          && (forall j :: 0 <= j < i && Common(dv, dw, j) ==> minLength.value <= PathLength(dv, dw, j))
      {
        if dv[i].Some? && dw[i].Some? {
          assert Common(dv, dw, i);
          var pathLen := dv[i].value + dw[i].value;
          if minLength.None? || pathLen < minLength.value {
            minLength := Some(pathLen);
          }
        }
      }
      len := if minLength.None? then -1 else minLength.value;
    }

    /** `ancestor(v, w)`, given the BFS distances from v and from w: the
        strict comparison keeps the first vertex of least length. */
    method Ancestor(dv: Distances, dw: Distances) returns (ancestor: int)
      requires |dv| == graph.V && |dw| == graph.V
      ensures IsShortestAncestor(dv, dw, ancestor)
    {
      var minLength: Option<nat> := None;
      ancestor := -1;
      for i := 0 to graph.V
        invariant minLength.None? <==> ancestor == -1
        invariant minLength.None? <==> forall j :: 0 <= j < i ==> !Common(dv, dw, j)
        invariant minLength.Some? ==>
          && 0 <= ancestor < i && Common(dv, dw, ancestor)
          && minLength.value == PathLength(dv, dw, ancestor)
          && (forall j :: 0 <= j < i && Common(dv, dw, j) ==> minLength.value <= PathLength(dv, dw, j))
          && (forall j :: 0 <= j < ancestor && Common(dv, dw, j) ==> minLength.value < PathLength(dv, dw, j))
      {
        if dv[i].Some? && dw[i].Some? {
          assert Common(dv, dw, i);
          var pathLen := dv[i].value + dw[i].value;
          if minLength.None? || pathLen < minLength.value {
            minLength := Some(pathLen);
            ancestor := i;
          }
        }
      }
    }

    /** `checkIter`: a null iterable throws; otherwise, is it non-empty? */
    static method CheckIter(v: Option<seq<nat>>) returns (r: Result<bool>)
      ensures v.None? ==> r == Failure(IllegalArgument)
      ensures v.Some? ==> r == Success(|v.value| > 0)
    {
      if v.None? {
        return Failure(IllegalArgument);
      }
      return Success(|v.value| > 0);
    }

    /** `length(Iterable, Iterable)`, given the multi-source BFS distances:
        null throws, an empty set gives -1, otherwise as `length`. The
        second set is only examined when the first is non-empty. */
    method LengthOfSets(v: Option<seq<nat>>, w: Option<seq<nat>>, dv: Distances, dw: Distances)
      returns (r: Result<int>)
      requires |dv| == graph.V && |dw| == graph.V
      ensures v.None? ==> r == Failure(IllegalArgument)
      ensures v.Some? && |v.value| == 0 ==> r == Success(-1)
      ensures v.Some? && |v.value| > 0 && w.None? ==> r == Failure(IllegalArgument)
      ensures v.Some? && |v.value| > 0 && w.Some? && |w.value| == 0 ==> r == Success(-1)
      ensures v.Some? && |v.value| > 0 && w.Some? && |w.value| > 0 ==>
                r.Success? && IsShortestLength(dv, dw, r.value)
    {
      var checkV := CheckIter(v);
      if checkV.Failure? { return Failure(checkV.error); }
      if !checkV.value { return Success(-1); }
      var checkW := CheckIter(w);
      if checkW.Failure? { return Failure(checkW.error); }
      if !checkW.value { return Success(-1); }
      var len := Length(dv, dw);
      return Success(len);
    }

    /** `ancestor(Iterable, Iterable)`, with the same argument checks. */
    method AncestorOfSets(v: Option<seq<nat>>, w: Option<seq<nat>>, dv: Distances, dw: Distances)
      returns (r: Result<int>)
      requires |dv| == graph.V && |dw| == graph.V
      ensures v.None? ==> r == Failure(IllegalArgument)
      ensures v.Some? && |v.value| == 0 ==> r == Success(-1)
      ensures v.Some? && |v.value| > 0 && w.None? ==> r == Failure(IllegalArgument)
      ensures v.Some? && |v.value| > 0 && w.Some? && |w.value| == 0 ==> r == Success(-1)
      ensures v.Some? && |v.value| > 0 && w.Some? && |w.value| > 0 ==>
                r.Success? && IsShortestAncestor(dv, dw, r.value)
    {
      var checkV := CheckIter(v);
      if checkV.Failure? { return Failure(checkV.error); }
      if !checkV.value { return Success(-1); }
      var checkW := CheckIter(w);
      if checkW.Failure? { return Failure(checkW.error); }
      if !checkW.value { return Success(-1); }
      var a := Ancestor(dv, dw);
      return Success(a);
    }
  }
}
