/** The A* solver of the n-puzzle (Puzzle/src/Solver.java): two searches
    run in lockstep, one from the board and one from its twin, and the
    first to take a goal board off its priority queue decides. The
    priority queue (edu.princeton.cs.algs4.MinPQ) is a multiset with
    delete-min. The search of the source may run forever; here it gets a
    bound on the number of rounds. */
module Solver {
  import opened Wrappers
  import opened Board

  /** `SearchNode`: a board, the node it was reached from (None for the
      start), the moves made and the board's `manhattan`, which the
      constructor computes. */
  datatype SearchNode = SearchNode(board: Board, prev: Option<SearchNode>, moves: int, manhattan: int)

  function Priority(n: SearchNode): int {
    n.moves + n.manhattan
  }

  /** `compareTo`: the difference of the two priorities. */
  function CompareTo(a: SearchNode, b: SearchNode): (r: int)
    ensures r == Priority(a) - Priority(b)
  {
    a.moves - b.moves + a.manhattan - b.manhattan
  }

  /** The constructor of `SearchNode`. */
  method NewSearchNode(board: Board, prev: Option<SearchNode>, moves: int) returns (n: SearchNode)
    requires Square(board)
    ensures n == SearchNode(board, prev, moves, ManhattanOf(board))
  {
    var m := Manhattan(board);
    n := SearchNode(board, prev, moves, m);
  }

  /** A node of least priority in s. */
  predicate IsMin(m: SearchNode, s: multiset<SearchNode>) {
    m in s && forall o :: o in s ==> Priority(m) <= Priority(o)
  }

  lemma MinOfOne(x: SearchNode)
    ensures IsMin(x, multiset{x})
  {
    forall o | o in multiset{x}
      ensures Priority(x) <= Priority(o)
    {
      assert o == x;
    }
  }

  /** Adding x to a multiset with least element m: the lesser of x and m
      is least. */
  lemma MinOfAdd(rest: multiset<SearchNode>, x: SearchNode, m: SearchNode)
    requires IsMin(m, rest)
    ensures IsMin(if Priority(x) <= Priority(m) then x else m, rest + multiset{x})
  {
    var w := if Priority(x) <= Priority(m) then x else m;
    forall o | o in rest + multiset{x}
      ensures Priority(w) <= Priority(o)
    {
      if o != x {
        assert o in rest;
      }
    }
  }

  lemma TakeOut(s: multiset<SearchNode>, x: SearchNode)
    requires x in s
    ensures s == (s - multiset{x}) + multiset{x} && |s - multiset{x}| < |s|
  {
  }

  /** A nonempty queue has an element of least priority. */
  lemma {:induction false} MinExists(s: multiset<SearchNode>)
    requires s != multiset{}
    ensures exists m :: IsMin(m, s)
    decreases |s|
  {
    var x :| x in s;
    var rest := s - multiset{x};
    TakeOut(s, x);
    if rest == multiset{} {
      assert s == multiset{x};
      MinOfOne(x);
    } else {
      MinExists(rest);
      var m :| IsMin(m, rest);
      MinOfAdd(rest, x, m);
    }
  }

  /** The priority queue: the nodes it holds. */
  class MinPQ {
    var items: multiset<SearchNode>

    constructor ()
      ensures items == multiset{}
    {
      items := multiset{};
    }

    method Insert(n: SearchNode)
      modifies this
      ensures items == old(items) + multiset{n}
    {
      items := items + multiset{n};
    }

    /** `delMin`: a node of least priority, taken out; an empty queue
        throws. Which of several nodes of equal priority comes out is not
        fixed. */
    method DelMin() returns (r: Result<SearchNode>)
      modifies this
      ensures old(items) == multiset{} ==> r == Failure(NoSuchElement) && items == old(items)
      ensures old(items) != multiset{} ==>
                && r.Success? && r.value in old(items)
                && (forall o :: o in old(items) ==> CompareTo(r.value, o) <= 0)
                && items == old(items) - multiset{r.value}
    {
      if items == multiset{} {
        return Failure(NoSuchElement);
      }
      MinExists(items);
      var m :| IsMin(m, items);
      items := items - multiset{m};
      return Success(m);
    }
  }

  /** A node reached from `start`: the start with no moves, or a
      neighbour of its predecessor's board with one move more; every
      stored `manhattan` is that of its board. */
  ghost predicate ChainFrom(n: SearchNode, start: Board)
    decreases n
  {
    && Square(n.board) && n.manhattan == ManhattanOf(n.board)
    && match n.prev
       case None => n.board == start && n.moves == 0
       case Some(p) => Square(p.board) && n.moves == p.moves + 1 && n.board in NeighborsOf(p.board) && ChainFrom(p, start)
  }

  /** The boards of a chain, from the start to the node. */
  function Boards(n: SearchNode): (p: seq<Board>)
    decreases n
  {
    match n.prev
    case None => [n.board]
    case Some(q) => Boards(q) + [n.board]
  }

  /** Consecutive boards are neighbours. */
  ghost predicate IsPath(p: seq<Board>) {
    && (forall k :: 0 <= k < |p| ==> Square(p[k]))
    && forall k :: 0 <= k < |p| - 1 ==> p[k + 1] in NeighborsOf(p[k])
  }

  /** The boards of a node reached from `start` lead from `start` to the
      node's board through neighbours, one board per move and one
      more. */
  lemma {:induction false} ChainPath(n: SearchNode, start: Board)
    requires ChainFrom(n, start)
    ensures var p := Boards(n);
            |p| == n.moves + 1 && p[0] == start && p[|p| - 1] == n.board && IsPath(p)
    decreases n
  {
    match n.prev
    case None =>
    case Some(q) =>
      ChainPath(q, start);
      PathSnoc(Boards(q), n.board);
  }

  lemma PathSnoc(p: seq<Board>, b: Board)
    requires IsPath(p) && |p| > 0 && Square(b) && b in NeighborsOf(p[|p| - 1])
    ensures IsPath(p + [b])
  {
    var p' := p + [b];
    forall k | 0 <= k < |p'| - 1
      ensures p'[k + 1] in NeighborsOf(p'[k])
    {
      if k < |p| - 1 {
        assert p'[k] == p[k] && p'[k + 1] == p[k + 1];
      }
    }
  }

  /** Whether `updatePQ` enqueues a neighbour: always from the start,
      otherwise unless it is the predecessor's board. */
  predicate Keep(node: SearchNode, next: Board) {
    node.prev.None? || !Equals(next, node.prev.value.board)
  }

  /** Every board of ns is square. */
  ghost predicate AllSquare(ns: seq<Board>) {
    forall k :: 0 <= k < |ns| ==> Square(ns[k])
  }

  /** The nodes `updatePQ` enqueues for the neighbours ns, in order. */
  function Successors(node: SearchNode, ns: seq<Board>): seq<SearchNode>
    requires AllSquare(ns)
  {
    if ns == [] then []
    else
      Successors(node, ns[..|ns| - 1]) + Extra(node, ns[|ns| - 1])
  }

  /** The node `updatePQ` enqueues for one neighbour, if any. */
  function Extra(node: SearchNode, next: Board): seq<SearchNode>
    requires Square(next)
  {
    if Keep(node, next) then [SearchNode(next, Some(node), node.moves + 1, ManhattanOf(next))] else []
  }

  lemma NeighborsSquare(b: Board)
    requires Square(b)
    ensures AllSquare(NeighborsOf(b))
  {
    forall k | 0 <= k < |NeighborsOf(b)|
      ensures Square(NeighborsOf(b)[k])
    {
      NeighborsAreSlides(b, NeighborsOf(b)[k]);
    }
  }

  /** The nodes `updatePQ` enqueues for a node. */
  function Children(node: SearchNode): seq<SearchNode>
    requires Square(node.board)
  {
    NeighborsSquare(node.board);
    Successors(node, NeighborsOf(node.board))
  }

  /** The successors are exactly the nodes for the kept neighbours, each
      one move further with the node as predecessor. */
  lemma {:induction false} SuccessorsAre(node: SearchNode, ns: seq<Board>, s: SearchNode)
    requires AllSquare(ns)
    ensures s in Successors(node, ns) <==>
              s.board in ns && Keep(node, s.board) && s == SearchNode(s.board, Some(node), node.moves + 1, ManhattanOf(s.board))
  {
    if ns != [] {
      var ns' := ns[..|ns| - 1];
      assert AllSquare(ns');
      SuccessorsAre(node, ns', s);
      assert ns == ns' + [ns[|ns| - 1]];
    }
  }

  /** Adding the elements of a list at most one long. */
  lemma AddAll<T>(m: multiset<T>, extra: seq<T>)
    requires |extra| <= 1
    ensures |extra| == 0 ==> m + multiset(extra) == m
    ensures |extra| == 1 ==> m + multiset(extra) == m + multiset{extra[0]}
  {
    if |extra| == 1 {
      assert extra == [extra[0]];
    }
  }

  lemma MultisetAppend<T>(m: multiset<T>, a: seq<T>, b: seq<T>)
    ensures m + multiset(a + b) == (m + multiset(a)) + multiset(b)
  {
  }

  lemma SuccessorsSnoc(node: SearchNode, ns: seq<Board>, k: int)
    requires AllSquare(ns) && 0 <= k < |ns|
    ensures AllSquare(ns[..k]) && AllSquare(ns[..k + 1])
    ensures Successors(node, ns[..k + 1]) == Successors(node, ns[..k]) + Extra(node, ns[k])
  {
    var t := ns[..k + 1];
    assert t[..|t| - 1] == ns[..k];
    assert t[|t| - 1] == ns[k];
  }

  /** A node's children are the nodes for the neighbours of its board
      other than its predecessor's board, each one move further with the
      node as predecessor. */
  lemma ChildrenAre(node: SearchNode, s: SearchNode)
    requires Square(node.board)
    ensures s in Children(node) <==>
              && s.board in NeighborsOf(node.board) && Square(s.board)
              && (node.prev.Some? ==> s.board != node.prev.value.board)
              && s == SearchNode(s.board, Some(node), node.moves + 1, ManhattanOf(s.board))
  {
    NeighborsSquare(node.board);
    SuccessorsAre(node, NeighborsOf(node.board), s);
  }

  /** `updatePQ`: one node per neighbour, except the predecessor's board. */
  method UpdatePQ(queue: MinPQ, node: SearchNode)
    requires Square(node.board)
    modifies queue
    ensures queue.items == old(queue.items) + multiset(Children(node))
  {
    var board := node.board;
    var ns := Neighbors(board);
    NeighborsSquare(board);
    EnqueueAll(queue, node, ns);
  }

  /** The loop of `updatePQ` over the neighbours ns. */
  method EnqueueAll(queue: MinPQ, node: SearchNode, ns: seq<Board>)
    requires AllSquare(ns)
    modifies queue
    ensures queue.items == old(queue.items) + multiset(Successors(node, ns))
  {
    var moves := node.moves;
    ghost var added: seq<SearchNode> := [];
    for k := 0 to |ns|
      invariant AllSquare(ns[..k]) && added == Successors(node, ns[..k])
      invariant queue.items == old(queue.items) + multiset(added)
    {
      var next := ns[k];
      SuccessorsSnoc(node, ns, k);
      ghost var before := queue.items;
      if Keep(node, next) {
        var child := NewSearchNode(next, Some(node), moves + 1);
        queue.Insert(child);
        assert child == Extra(node, next)[0];
      }
      AddAll(before, Extra(node, next));
      MultisetAppend(old(queue.items), added, Extra(node, next));
      added := added + Extra(node, next);
    }
    assert ns[..|ns|] == ns;
  }

  /** The children of a node reached from `start` are reached from it
      too. */
  lemma ChildrenChain(node: SearchNode, start: Board, s: SearchNode)
    requires ChainFrom(node, start) && s in Children(node)
    ensures ChainFrom(s, start)
  {
    ChildrenAre(node, s);
    NeighborsAreSlides(node.board, s.board);
  }

  /** How a search ends: a goal taken off the queue of the board, or off
      the queue of the twin; an exception; or the bound on rounds
      reached. */
  datatype Search = Found(node: SearchNode) | TwinFound(node: SearchNode) | Thrown(error: Error) | Exhausted

  /** Adding the children of a node reached from `start` to nodes reached
      from it gives nodes reached from it. */
  lemma ChainsAfterUpdate(items: multiset<SearchNode>, node: SearchNode, start: Board)
    requires ChainFrom(node, start) && Square(node.board)
    requires forall n :: n in items ==> ChainFrom(n, start)
    ensures forall n :: n in items + multiset(Children(node)) ==> ChainFrom(n, start)
  {
    forall n | n in items + multiset(Children(node))
      ensures ChainFrom(n, start)
    {
      if n !in items {
        ChildrenChain(node, start, n);
      }
    }
  }

  /** `solve`, for at most `fuel` rounds. `boardSide` is the node the
      board's queue gave up in the last round: a twin goal is only taken
      after that node was checked and found not to be a goal. */
  method Solve(initial: Board, fuel: nat) returns (s: Search, ghost boardSide: Option<SearchNode>)
    requires Square(initial)
    ensures s.TwinFound? ==> boardSide.Some? && ChainFrom(boardSide.value, initial) && !IsGoalBoard(boardSide.value.board)
    ensures s.Found? ==> ChainFrom(s.node, initial) && IsGoalBoard(s.node.board)
    ensures s.TwinFound? ==> Twin(initial).Success? && ChainFrom(s.node, Twin(initial).value) && IsGoalBoard(s.node.board)
    ensures s.Thrown? ==> (s.error == IndexOutOfBounds <==> initial.size < 2) && s.error in {IndexOutOfBounds, NoSuchElement}
    ensures fuel > 0 && initial.size >= 2 && IsGoalBoard(initial) ==> s == Found(SearchNode(initial, None, 0, ManhattanOf(initial)))
  {
    boardSide := None;
    var pq := new MinPQ();
    var twin := new MinPQ();
    var root := NewSearchNode(initial, None, 0);
    pq.Insert(root);
    var t := Twin(initial);
    if t.Failure? {
      return Thrown(t.error), boardSide;
    }
    var twinRoot := NewSearchNode(t.value, None, 0);
    twin.Insert(twinRoot);
    var round := 0;
    while round < fuel
      invariant forall n :: n in pq.items ==> ChainFrom(n, initial)
      invariant forall n :: n in twin.items ==> ChainFrom(n, t.value)
      invariant round == 0 ==> pq.items == multiset{root} && twin.items == multiset{twinRoot}
      invariant round > 0 ==> !IsGoalBoard(initial)
    {
      var node := pq.DelMin();
      if node.Failure? {
        return Thrown(node.error), boardSide;
      }
      var twinNode := twin.DelMin();
      if twinNode.Failure? {
        return Thrown(twinNode.error), boardSide;
      }
      var goal := IsGoal(node.value.board);
      if goal {
        return Found(node.value), Some(node.value);
      }
      var twinGoal := IsGoal(twinNode.value.board);
      if twinGoal {
        return TwinFound(twinNode.value), Some(node.value);
      }
      ChainsAfterUpdate(pq.items, node.value, initial);
      UpdatePQ(pq, node.value);
      ChainsAfterUpdate(twin.items, twinNode.value, t.value);
      UpdatePQ(twin, twinNode.value);
      round := round + 1;
    }
    return Exhausted, boardSide;
  }

  /** The solver after its search: whether the board is solvable, the goal
      node of the board's search when it is, and (for the proof) the goal
      node of the twin's search when it is not. */
  class Solver {
    ghost const initial: Board
    const solvable: bool
    var solution: Option<SearchNode>
    ghost const twinSolution: Option<SearchNode>

    ghost predicate Valid()
      reads this
    {
      && Square(initial)
      && (solvable ==> solution.Some? && ChainFrom(solution.value, initial) && IsGoalBoard(solution.value.board))
      && (!solvable ==> solution.None? && twinSolution.Some? && Twin(initial).Success?
                        && ChainFrom(twinSolution.value, Twin(initial).value) && IsGoalBoard(twinSolution.value.board))
    }

    constructor (initial: Board, solvable: bool, solution: Option<SearchNode>, twinSolution: Option<SearchNode>)
      requires Square(initial)
      requires solvable ==> solution.Some? && ChainFrom(solution.value, initial) && IsGoalBoard(solution.value.board)
      requires !solvable ==> solution.None? && twinSolution.Some? && Twin(initial).Success?
                             && ChainFrom(twinSolution.value, Twin(initial).value) && IsGoalBoard(twinSolution.value.board)
      ensures Valid()
      ensures this.initial == initial && this.solvable == solvable && this.solution == solution
    {
      this.initial := initial;
      this.solvable := solvable;
      this.solution := solution;
      this.twinSolution := twinSolution;
    }

    method IsSolvable() returns (b: bool)
      requires Valid()
      ensures b <==> solution.Some?
      ensures b ==> ChainFrom(solution.value, initial) && IsGoalBoard(solution.value.board)
    {
      return solvable;
    }

    /** `moves`: -1 exactly when the board is not solvable, otherwise the
        moves of the solution. */
    method Moves() returns (m: int)
      requires Valid()
      ensures m == -1 <==> !solvable
      ensures solvable ==> m == solution.value.moves && m >= 0
    {
      if solvable {
        ChainPath(solution.value, initial);
        return solution.value.moves;
      }
      return -1;
    }

    /** `solution`: null when the board is not solvable, otherwise the
        boards from the initial board to the goal, collected by walking the
        predecessors back and adding each at the front. */
    method Solution() returns (r: Option<seq<Board>>)
      requires Valid()
      ensures r.None? <==> !solvable
      ensures r.Some? ==> var p := r.value;
                && p == Boards(solution.value)
                && |p| == solution.value.moves + 1 && p[0] == initial && IsGoalBoard(p[|p| - 1]) && IsPath(p)
    {
      if !solvable {
        return None;
      }
      var solutions: seq<Board> := [];
      var current := solution;
      while current.Some?
        invariant current.Some? ==> Boards(current.value) + solutions == Boards(solution.value)
        invariant current.None? ==> solutions == Boards(solution.value)
        decreases current
      {
        if current.value.prev.Some? {
          assert Boards(current.value) == Boards(current.value.prev.value) + [current.value.board];
        }
        solutions := [current.value.board] + solutions;
        current := current.value.prev;
      }
      ChainPath(solution.value, initial);
      return Some(solutions);
    }
  }

  /** How building a solver ends. */
  datatype Construction = Built(solver: Solver) | Threw(error: Error) | OutOfFuel

  /** The constructor of `Solver`: a null board throws; otherwise the
      board is solvable exactly when its own search reaches a goal
      first. */
  method NewSolver(initial: Option<Board>, fuel: nat) returns (r: Construction)
    requires initial.Some? ==> Square(initial.value)
    ensures initial.None? ==> r == Threw(IllegalArgument)
    ensures r.Built? ==> fresh(r.solver) && r.solver.Valid() && r.solver.initial == initial.value
    ensures r.Threw? && initial.Some? ==> r.error in {IndexOutOfBounds, NoSuchElement}
  {
    if initial.None? {
      return Threw(IllegalArgument);
    }
    var s, _ := Solve(initial.value, fuel);
    match s
    case Found(n) =>
      var solver := new Solver(initial.value, true, Some(n), None);
      return Built(solver);
    case TwinFound(n) =>
      var solver := new Solver(initial.value, false, None, Some(n));
      return Built(solver);
    case Thrown(e) =>
      return Threw(e);
    case Exhausted =>
      return OutOfFuel;
  }
}
