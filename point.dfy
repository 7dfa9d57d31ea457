/** Points of the integer plane, their natural order and the slope order
    used by the collinear-points search (Collinear/src/Point.java). */
module Point {

  /** An immutable point with integer coordinates. */
  datatype Point = Point(x: int, y: int)

  /** `sameAs`: both coordinates agree. */
  function SameAs(p: Point, q: Point): (r: bool)
    ensures r <==> p == q
  {
    p.x == q.x && p.y == q.y
  }

  /** `horizontal`: distinct points on one horizontal line. */
  function Horizontal(p: Point, q: Point): (r: bool)
    ensures r <==> p != q && p.y == q.y
  {
    if SameAs(p, q) then false else p.y == q.y
  }

  /** `vertical`: distinct points on one vertical line. */
  function Vertical(p: Point, q: Point): (r: bool)
    ensures r <==> p != q && p.x == q.x
  {
    if SameAs(p, q) then false else p.x == q.x
  }

  /** The values `slopeTo` can take: the two infinities and an exact
      rational standing for the finite double. */
  datatype Slope = NegativeInfinity | Finite(value: real) | PositiveInfinity

  /** `slopeTo`: negative infinity for the point itself, positive infinity
      for a vertical segment, +0 for a horizontal one, rise over run
      otherwise. */
  function SlopeTo(p: Point, q: Point): (r: Slope)
    ensures r == NegativeInfinity <==> p == q
    ensures r == PositiveInfinity <==> p != q && p.x == q.x
    ensures r.Finite? <==> p.x != q.x
    ensures r.Finite? ==> r.value * (q.x - p.x) as real == (q.y - p.y) as real
    ensures r == Finite(0.0) <==> p.x != q.x && p.y == q.y
  {
    if SameAs(p, q) then NegativeInfinity
    else if Vertical(p, q) then PositiveInfinity
    else if Horizontal(p, q) then Finite(0.0)
    else
      var s := (q.y - p.y) as real / (q.x - p.x) as real;
      assert s * (q.x - p.x) as real == (q.y - p.y) as real;
      Finite(s)
  }

  /** `compareTo`: order by y, ties broken by x. */
  function CompareTo(p: Point, q: Point): (r: int)
    ensures r == 0 <==> p == q
    ensures r < 0 <==> p.y < q.y || (p.y == q.y && p.x < q.x)
    ensures r > 0 <==> p.y > q.y || (p.y == q.y && p.x > q.x)
  {
    if SameAs(p, q) then 0
    else if Horizontal(p, q) then (if p.x < q.x then -1 else 1)
    else (if p.y < q.y then -1 else 1)
  }

  /** `compareTo` is antisymmetric in sign. */
  lemma CompareToAntisymmetric(p: Point, q: Point)
    ensures CompareTo(p, q) < 0 <==> CompareTo(q, p) > 0
    ensures CompareTo(p, q) == 0 <==> CompareTo(q, p) == 0
  {
  }

  /** `compareTo` is transitive, so it is a total order on points. */
  lemma CompareToTransitive(p: Point, q: Point, s: Point)
    requires CompareTo(p, q) <= 0 && CompareTo(q, s) <= 0
    ensures CompareTo(p, s) <= 0
    ensures CompareTo(p, s) == 0 ==> p == q == s
  {
  }

  /** `Double.compare` restricted to the values `slopeTo` produces. No
      finite slope other than the horizontal one is zero, so the negative
      zero of IEEE arithmetic never arises. */
  function CompareSlopes(a: Slope, b: Slope): (r: int)
    ensures r == 0 <==> a == b
    ensures r < 0 <==> SlopeLess(a, b)
    ensures r > 0 <==> SlopeLess(b, a)
  {
    if Rank(a) != Rank(b) then (if Rank(a) < Rank(b) then -1 else 1)
    else if a.Finite? && a.value != b.value then (if a.value < b.value then -1 else 1)
    else 0
  }

  /** The ranks of the three kinds of slope. */
  function Rank(a: Slope): int {
    match a
    case NegativeInfinity => 0
    case Finite(_) => 1
    case PositiveInfinity => 2
  }

  /** `SlopeComparator.compare`: points ordered by the slope they make with
      the origin point `o`. */
  function SlopeOrder(o: Point, p1: Point, p2: Point): (r: int)
    ensures r == 0 <==> SlopeTo(o, p1) == SlopeTo(o, p2)
    ensures r < 0 <==> SlopeLess(SlopeTo(o, p1), SlopeTo(o, p2))
  {
    CompareSlopes(SlopeTo(o, p1), SlopeTo(o, p2))
  }

  /** The strict order on slopes: −∞ below every finite value, +∞ above. */
  predicate SlopeLess(a: Slope, b: Slope) {
    match (a, b)
    case (NegativeInfinity, NegativeInfinity) => false
    case (NegativeInfinity, _) => true
    case (Finite(u), Finite(v)) => u < v
    case (Finite(_), PositiveInfinity) => true
    case (_, _) => false
  }

  /** The slope order is transitive. */
  lemma SlopeOrderTransitive(o: Point, p1: Point, p2: Point, p3: Point)
    requires SlopeOrder(o, p1, p2) <= 0 && SlopeOrder(o, p2, p3) <= 0
    ensures SlopeOrder(o, p1, p3) <= 0
  {
  }

  /** Cross-multiplication for exact quotients. */
  lemma QuotientsEqual(a: real, b: real, c: real, d: real)
    requires b != 0.0 && d != 0.0
    ensures a / b == c / d <==> a * d == c * b
  {
    assert a / b * (b * d) == a * d;
    assert c / d * (b * d) == c * b;
  }

  /** A finite slope is rise over run, the horizontal case included. */
  lemma FiniteSlopeIsQuotient(o: Point, p: Point)
    requires p.x != o.x
    ensures SlopeTo(o, p) == Finite((p.y - o.y) as real / (p.x - o.x) as real)
  {
  }

  /** Two points other than `o` have the same slope from `o` exactly when
      the three points are collinear — the fact the collinear search uses. */
  lemma EqualSlopesIffCollinear(o: Point, p: Point, q: Point)
    requires p != o && q != o
    ensures SlopeTo(o, p) == SlopeTo(o, q) <==>
            (p.x - o.x) * (q.y - o.y) == (p.y - o.y) * (q.x - o.x)
  {
    var dxp, dyp := p.x - o.x, p.y - o.y;
    var dxq, dyq := q.x - o.x, q.y - o.y;
    if dxp != 0 && dxq != 0 {
      FiniteSlopeIsQuotient(o, p);
      FiniteSlopeIsQuotient(o, q);
      QuotientsEqual(dyp as real, dxp as real, dyq as real, dxq as real);
      assert (dyp * dxq) as real == dyp as real * dxq as real;
      assert (dyq * dxp) as real == dyq as real * dxp as real;
    } else if dxp == 0 && dxq == 0 {
      assert dyp != 0 && dyq != 0;
    } else if dxp == 0 {
      assert dyp * dxq != 0;
    } else {
      assert dxp * dyq != 0;
    }
  }

  /** The comparisons the unit test of Point.java prints. */
  lemma UnitTestCompareTo()
    ensures CompareTo(Point(1, 1), Point(1, 1)) == 0
    ensures CompareTo(Point(1, 1), Point(0, 1)) > 0
    ensures CompareTo(Point(1, 1), Point(2, 3)) < 0
  {
  }

  /** The slope-order results the unit test of Point.java prints. */
  lemma UnitTestSlopeOrder()
    ensures SlopeOrder(Point(1, 1), Point(1, 0), Point(2, 3)) == 1
    ensures SlopeOrder(Point(1, 1), Point(0, 1), Point(2, 3)) == -1
  {
    assert SlopeTo(Point(1, 1), Point(2, 3)) == Finite(2.0);
  }
}
