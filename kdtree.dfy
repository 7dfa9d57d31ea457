/** The 2d-tree (KdTree/src/KdTree.java): a binary search tree whose
    levels split alternately on x and on y, each node carrying the
    rectangle of the plane it covers, the unit square at the root.
    Coordinates are reals and `Double.compare` is their order; a null
    argument is None. The nodes are private to the tree and never shared,
    so the in-place relinking of `insertHelper` is modelled by rebuilding
    the search path as a value. */
module KdTree {
  import opened Wrappers

  datatype Point2D = Point2D(x: real, y: real)

  datatype RectHV = RectHV(xmin: real, ymin: real, xmax: real, ymax: real)

  /** `BSTNode`, with Nil for null. */
  datatype Tree =
    | Nil
    | Node(point: Point2D, left: Tree, right: Tree, rect: RectHV, isXCor: bool)

  /** The rectangle of the root. */
  const UnitSquare: RectHV := RectHV(0.0, 0.0, 1.0, 1.0)

  /** The coordinate a node splitting on x (or on y) compares. */
  function Key(p: Point2D, isXCor: bool): real {
    if isXCor then p.x else p.y
  }

  predicate Inside(p: Point2D, r: RectHV) {
    r.xmin <= p.x <= r.xmax && r.ymin <= p.y <= r.ymax
  }

  /** The rectangles the `RectHV` constructor accepts: it throws
      IllegalArgumentException when `xmax < xmin` or `ymax < ymin`. */
  predicate Proper(r: RectHV) {
    r.xmin <= r.xmax && r.ymin <= r.ymax
  }

  predicate SubRect(a: RectHV, b: RectHV) {
    b.xmin <= a.xmin && a.xmax <= b.xmax && b.ymin <= a.ymin && a.ymax <= b.ymax
  }

  /** `smallerRect`: the part of the node's rectangle left of an x split
      (`leftRect`) or below a y split (`bottomRect`). */
  function SmallerRect(n: Tree): RectHV
    requires n.Node?
  {
    if n.isXCor then RectHV(n.rect.xmin, n.rect.ymin, n.point.x, n.rect.ymax)
    else RectHV(n.rect.xmin, n.rect.ymin, n.rect.xmax, n.point.y)
  }

  /** `largerRect`: the part right of an x split (`rightRect`) or above a
      y split (`topRect`). */
  function LargerRect(n: Tree): RectHV
    requires n.Node?
  {
    if n.isXCor then RectHV(n.point.x, n.rect.ymin, n.rect.xmax, n.rect.ymax)
    else RectHV(n.rect.xmin, n.point.y, n.rect.xmax, n.rect.ymax)
  }

  /** For a node whose point lies in its rectangle, the two child
      rectangles lie in it and split it at the node's coordinate: a point
      of the rectangle is in the smaller one exactly when its coordinate is
      at most the node's, and in the larger one exactly when it is at least
      the node's. */
  lemma SplitRect(n: Tree, q: Point2D)
    requires n.Node? && Inside(n.point, n.rect)
    ensures SubRect(SmallerRect(n), n.rect) && SubRect(LargerRect(n), n.rect)
    ensures Inside(q, SmallerRect(n)) <==> Inside(q, n.rect) && Key(q, n.isXCor) <= Key(n.point, n.isXCor)
    ensures Inside(q, LargerRect(n)) <==> Inside(q, n.rect) && Key(q, n.isXCor) >= Key(n.point, n.isXCor)
  {
  }

  /** The points stored in a tree. */
  function Points(t: Tree): set<Point2D> {
    if t.Nil? then {} else {t.point} + Points(t.left) + Points(t.right)
  }

  /** The search order `insert` keeps: below each node, the left subtree
      holds points whose splitting coordinate is smaller than the node's,
      the right subtree points whose coordinate is not smaller. */
  ghost predicate Ordered(t: Tree) {
    t.Node? ==>
      && (forall q :: q in Points(t.left) ==> Key(q, t.isXCor) < Key(t.point, t.isXCor))
      && (forall q :: q in Points(t.right) ==> Key(q, t.isXCor) >= Key(t.point, t.isXCor))
      && Ordered(t.left) && Ordered(t.right)
  }

  /** The shape `insert` keeps: a node at a position has the rectangle and
      the axis given there, and its children get its smaller and larger
      rectangles and the other axis. */
  ghost predicate Shaped(t: Tree, rect: RectHV, isXCor: bool) {
    t.Node? ==>
      && t.rect == rect && t.isXCor == isXCor
      && Shaped(t.left, SmallerRect(t), !isXCor)
      && Shaped(t.right, LargerRect(t), !isXCor)
  }

  /** The rectangle and the axis of a node created below `parent` (the
      unit square and x at the root). */
  function ChildRect(parent: Tree, isSmaller: bool): RectHV {
    if parent.Nil? then UnitSquare
    else if isSmaller then SmallerRect(parent)
    else LargerRect(parent)
  }

  function ChildAxis(parent: Tree): bool {
    parent.Nil? || !parent.isXCor
  }

  /** `insertHelper`: the subtree with the point inserted, and whether a
      node was created (when `size` grows). A point equal to one on the
      search path stops the search; otherwise a strictly smaller
      coordinate goes left and ties go right. */
  function InsertHelper(point: Point2D, node: Tree, parent: Tree, isSmaller: bool): (r: (Tree, bool))
  {
    if node.Nil? then
      (Node(point, Nil, Nil, ChildRect(parent, isSmaller), ChildAxis(parent)), true)
    else if point == node.point then
      (node, false)
    else if Key(point, node.isXCor) < Key(node.point, node.isXCor) then
      var sub := InsertHelper(point, node.left, node, true);
      (node.(left := sub.0), sub.1)
    else
      var sub := InsertHelper(point, node.right, node, false);
      (node.(right := sub.0), sub.1)
  }

  /** Inserting adds exactly the point. */
  lemma {:induction false} InsertPoints(point: Point2D, node: Tree, parent: Tree, isSmaller: bool)
    ensures Points(InsertHelper(point, node, parent, isSmaller).0) == Points(node) + {point}
  {
    if node.Node? && point != node.point {
      if Key(point, node.isXCor) < Key(node.point, node.isXCor) {
        InsertPoints(point, node.left, node, true);
      } else {
        InsertPoints(point, node.right, node, false);
      }
    }
  }

  /** In an ordered tree the search path of a stored point leads to it,
      so a node is created exactly when the point is new, and a stored
      point leaves the tree as it is. */
  lemma {:induction false} InsertGrows(point: Point2D, node: Tree, parent: Tree, isSmaller: bool)
    requires Ordered(node)
    ensures InsertHelper(point, node, parent, isSmaller).1 <==> point !in Points(node)
    ensures point in Points(node) ==> InsertHelper(point, node, parent, isSmaller).0 == node
  {
    if node.Node? && point != node.point {
      if Key(point, node.isXCor) < Key(node.point, node.isXCor) {
        InsertGrows(point, node.left, node, true);
      } else {
        InsertGrows(point, node.right, node, false);
      }
    }
  }

  /** Inserting keeps the search order. */
  lemma {:induction false} InsertOrdered(point: Point2D, node: Tree, parent: Tree, isSmaller: bool)
    requires Ordered(node)
    ensures Ordered(InsertHelper(point, node, parent, isSmaller).0)
  {
    if node.Node? && point != node.point {
      if Key(point, node.isXCor) < Key(node.point, node.isXCor) {
        InsertOrdered(point, node.left, node, true);
        InsertPoints(point, node.left, node, true);
      } else {
        InsertOrdered(point, node.right, node, false);
        InsertPoints(point, node.right, node, false);
      }
    }
  }

  /** Inserting keeps every rectangle and axis where it belongs. */
  lemma {:induction false} InsertShaped(point: Point2D, node: Tree, parent: Tree, isSmaller: bool)
    requires Shaped(node, ChildRect(parent, isSmaller), ChildAxis(parent))
    ensures Shaped(InsertHelper(point, node, parent, isSmaller).0, ChildRect(parent, isSmaller), ChildAxis(parent))
  {
    if node.Node? && point != node.point {
      if Key(point, node.isXCor) < Key(node.point, node.isXCor) {
        InsertShaped(point, node.left, node, true);
        assert ChildRect(node, true) == SmallerRect(node.(left := InsertHelper(point, node.left, node, true).0));
      } else {
        InsertShaped(point, node.right, node, false);
        assert ChildRect(node, false) == LargerRect(node.(right := InsertHelper(point, node.right, node, false).0));
      }
    }
  }

  /** Every node's point lies in the node's rectangle. */
  ghost predicate NodesInside(t: Tree) {
    t.Node? ==> Inside(t.point, t.rect) && NodesInside(t.left) && NodesInside(t.right)
  }

  /** Whether `insertHelper` throws: the node it creates gets a rectangle
      the `RectHV` constructor rejects. That happens below a node whose
      point lies outside its own rectangle, so only for points outside the
      unit square. `size` has already grown when it throws, and no link
      has been changed. */
  predicate InsertThrows(point: Point2D, node: Tree, parent: Tree, isSmaller: bool) {
    if node.Nil? then !Proper(ChildRect(parent, isSmaller))
    else if point == node.point then false
    else if Key(point, node.isXCor) < Key(node.point, node.isXCor) then InsertThrows(point, node.left, node, true)
    else InsertThrows(point, node.right, node, false)
  }

  /** A point in the rectangle of its position, below nodes that lie in
      theirs, never makes `insertHelper` throw, and the node it creates
      lies in its rectangle too. */
  lemma {:induction false} InsertInside(point: Point2D, node: Tree, parent: Tree, isSmaller: bool)
    requires Shaped(node, ChildRect(parent, isSmaller), ChildAxis(parent)) && NodesInside(node)
    requires Inside(point, ChildRect(parent, isSmaller))
    ensures !InsertThrows(point, node, parent, isSmaller)
    ensures NodesInside(InsertHelper(point, node, parent, isSmaller).0)
  {
    if node.Node? && point != node.point {
      SplitRect(node, point);
      if Key(point, node.isXCor) < Key(node.point, node.isXCor) {
        InsertInside(point, node.left, node, true);
      } else {
        InsertInside(point, node.right, node, false);
      }
    }
  }

  /** In an ordered tree the search for a stored point ends at it, so it
      never reaches the creation of a node. */
  lemma {:induction false} StoredNeverThrows(point: Point2D, node: Tree, parent: Tree, isSmaller: bool)
    requires Ordered(node) && point in Points(node)
    ensures !InsertThrows(point, node, parent, isSmaller)
  {
    if point != node.point {
      if Key(point, node.isXCor) < Key(node.point, node.isXCor) {
        StoredNeverThrows(point, node.left, node, true);
      } else {
        StoredNeverThrows(point, node.right, node, false);
      }
    }
  }

  /** Points outside the unit square can make `insert` throw: with
      (0.5, 0.5) and then (0.7, 2.0) stored, (0.8, 3.0) goes above
      (0.7, 2.0), whose upper rectangle would run from y = 2.0 up to
      y = 1.0. */
  lemma InsertOutsideThrows()
    ensures var t := InsertHelper(Point2D(0.7, 2.0), InsertHelper(Point2D(0.5, 0.5), Nil, Nil, true).0, Nil, true).0;
            !InsertThrows(Point2D(0.7, 2.0), InsertHelper(Point2D(0.5, 0.5), Nil, Nil, true).0, Nil, true)
            && InsertThrows(Point2D(0.8, 3.0), t, Nil, true)
  {
    var t := InsertHelper(Point2D(0.7, 2.0), InsertHelper(Point2D(0.5, 0.5), Nil, Nil, true).0, Nil, true).0;
    assert t.right.point == Point2D(0.7, 2.0) && t.right.rect == RectHV(0.5, 0.0, 1.0, 1.0);
  }

  /** `containsHelper` as written: it compares the node's coordinate with
      the query's, so it goes left when the node's coordinate is the
      smaller one, the opposite of where `insertHelper` puts points. */
  function ContainsHelper(node: Tree, point: Point2D): bool {
    if node.Nil? then false
    else if node.point == point then true
    else if Key(node.point, node.isXCor) < Key(point, node.isXCor) then ContainsHelper(node.left, point)
    else ContainsHelper(node.right, point)
  }

  /** The search as written only answers true for a stored point. */
  lemma {:induction false} ContainsHelperSound(node: Tree, point: Point2D)
    requires ContainsHelper(node, point)
    ensures point in Points(node)
  {
    if node.point != point {
      if Key(node.point, node.isXCor) < Key(point, node.isXCor) {
        ContainsHelperSound(node.left, point);
      } else {
        ContainsHelperSound(node.right, point);
      }
    }
  }

  /** The search as written misses an inserted point: with (0.5, 0.5) at
      the root, (0.2, 0.5) is inserted to the left, but the search for it
      goes right. */
  lemma ContainsHelperMisses()
    ensures var t := InsertHelper(Point2D(0.2, 0.5), InsertHelper(Point2D(0.5, 0.5), Nil, Nil, true).0, Nil, true).0;
            Point2D(0.2, 0.5) in Points(t) && !ContainsHelper(t, Point2D(0.2, 0.5))
  {
    var t := InsertHelper(Point2D(0.2, 0.5), InsertHelper(Point2D(0.5, 0.5), Nil, Nil, true).0, Nil, true).0;
    assert t.left.point == Point2D(0.2, 0.5);
  }

  /** The search with the comparison the right way round, as in
      `insertHelper`. */
  function ContainsCorrected(node: Tree, point: Point2D): bool {
    if node.Nil? then false
    else if node.point == point then true
    else if Key(point, node.isXCor) < Key(node.point, node.isXCor) then ContainsCorrected(node.left, point)
    else ContainsCorrected(node.right, point)
  }

  /** In an ordered tree the corrected search finds exactly the stored
      points. */
  lemma {:induction false} ContainsCorrectedIffStored(node: Tree, point: Point2D)
    requires Ordered(node)
    ensures ContainsCorrected(node, point) <==> point in Points(node)
  {
    if node.Node? && node.point != point {
      if Key(point, node.isXCor) < Key(node.point, node.isXCor) {
        ContainsCorrectedIffStored(node.left, point);
      } else {
        ContainsCorrectedIffStored(node.right, point);
      }
    }
  }

  /** The corrected search finds a point after it is inserted. */
  lemma ContainsAfterInsert(root: Tree, point: Point2D, q: Point2D)
    requires Ordered(root)
    ensures ContainsCorrected(InsertHelper(point, root, Nil, true).0, q) <==> q == point || ContainsCorrected(root, q)
  {
    InsertOrdered(point, root, Nil, true);
    InsertPoints(point, root, Nil, true);
    ContainsCorrectedIffStored(root, q);
    ContainsCorrectedIffStored(InsertHelper(point, root, Nil, true).0, q);
  }

  class KdTree {
    var root: Tree
    var size: int

    /** The tree is in search order and every node has its rectangle and
        axis. */
    ghost predicate Valid()
      reads this
    {
      Ordered(root) && Shaped(root, UnitSquare, true)
    }

    /** `size` counts the distinct points: true until an `insert` throws
        after growing `size`. */
    ghost predicate Counted()
      reads this
    {
      size == |Points(root)|
    }

    /** Every stored point lies in the rectangle of its node, and so in the
        unit square. */
    ghost predicate InUnitSquare()
      reads this
    {
      NodesInside(root)
    }

    /** An empty tree. */
    constructor ()
      ensures Valid() && Counted() && InUnitSquare() && Points(root) == {}
    {
      root := Nil;
      size := 0;
    }

    method IsEmpty() returns (b: bool)
      ensures b <==> size == 0
      ensures Counted() ==> (b <==> Points(root) == {})
    {
      return size == 0;
    }

    method Size() returns (n: int)
      ensures n == size
      ensures Counted() ==> n == |Points(root)|
    {
      return size;
    }

    /** `insert`: a null point throws; so does `insertHelper` when the node
        it would create gets an improper rectangle, with `size` already
        grown and the tree as it was. Otherwise the point is added, `size`
        grows exactly when a node is created, and a point already stored
        changes nothing. A tree in the unit square never throws and stays
        there. */
    method Insert(p: Option<Point2D>) returns (r: Outcome)
      requires Valid()
      modifies this
      ensures Valid()
      ensures p.None? ==> r == Fail(IllegalArgument) && root == old(root) && size == old(size)
      ensures p.Some? && InsertThrows(p.value, old(root), Nil, true) ==>
                r == Fail(IllegalArgument) && root == old(root) && size == old(size) + 1
      ensures p.Some? && !InsertThrows(p.value, old(root), Nil, true) ==>
                && r == Pass
                && root == InsertHelper(p.value, old(root), Nil, true).0
                && size == old(size) + (if InsertHelper(p.value, old(root), Nil, true).1 then 1 else 0)
                && Points(root) == old(Points(root)) + {p.value}
                && (old(Counted()) ==> Counted())
      ensures p.Some? && p.value in old(Points(root)) ==> r == Pass && root == old(root) && size == old(size)
      ensures p.Some? && old(InUnitSquare()) && Inside(p.value, UnitSquare) ==> r == Pass && InUnitSquare()
    {
      if p.None? {
        return Fail(IllegalArgument);
      }
      var point := p.value;
      if NodesInside(root) && Inside(point, UnitSquare) {
        InsertInside(point, root, Nil, true);
      }
      if point in Points(root) {
        StoredNeverThrows(point, root, Nil, true);
      }
      if InsertThrows(point, root, Nil, true) {
        size := size + 1;
        return Fail(IllegalArgument);
      }
      InsertPoints(point, root, Nil, true);
      InsertGrows(point, root, Nil, true);
      InsertOrdered(point, root, Nil, true);
      InsertShaped(point, root, Nil, true);
      var res := InsertHelper(point, root, Nil, true);
      if res.1 {
        size := size + 1;
      }
      root := res.0;
      return Pass;
    }

    /** `contains`, as written: a null point throws; an answer of true is
        always right, but a stored point can be missed. */
    method Contains(p: Option<Point2D>) returns (r: Result<bool>)
      requires Valid()
      ensures p.None? ==> r == Failure(IllegalArgument)
      ensures p.Some? ==> r == Success(ContainsHelper(root, p.value))
      ensures p.Some? && r.value ==> p.value in Points(root)
    {
      if p.None? {
        return Failure(IllegalArgument);
      }
      var found := ContainsHelper(root, p.value);
      if found {
        ContainsHelperSound(root, p.value);
      }
      return Success(found);
    }

    /** `contains` with the comparison of `insertHelper`: a null point
        throws; otherwise the answer is whether the point is stored. */
    method ContainsIntended(p: Option<Point2D>) returns (r: Result<bool>)
      requires Valid()
      ensures p.None? ==> r == Failure(IllegalArgument)
      ensures p.Some? ==> r == Success(p.value in Points(root))
    {
      if p.None? {
        return Failure(IllegalArgument);
      }
      ContainsCorrectedIffStored(root, p.value);
      return Success(ContainsCorrected(root, p.value));
    }

    /** `range` is a stub returning null. */
    method Range(rect: RectHV) returns (r: Option<seq<Point2D>>)
      ensures r.None?
    {
      return None;
    }

    /** `nearest` is a stub returning null. */
    method Nearest(p: Point2D) returns (r: Option<Point2D>)
      ensures r.None?
    {
      return None;
    }
  }
}
