/**
 * The pure numeric primitives of VoronoiDiagram (js/_voronoi.js): points,
 * implicit lines, the perpendicular bisector, the two cross products, the
 * tolerance test, the line/segment intersection and the convex point-in-polygon
 * test. Coordinates are exact reals, so every primitive is exact rational
 * arithmetic.
 */
module GeometryKernel {
  import opened Wrappers

  /** 2^-23, the tolerance the VoronoiDiagram constructor stores in `eps`. */
  const Eps: real := 1.0 / 8388608.0

  datatype Point = Point(x: real, y: real)

  /**
   * Three coefficients. A line a*x + b*y + c = 0 is Vec3(a, b, c); the
   * cross product of two lines is read as the homogeneous point (a, b, c).
   */
  datatype Vec3 = Vec3(a: real, b: real, c: real)

  type Line = Vec3

  function Sub(p: Point, q: Point): Point
  {
    Point(p.x - q.x, p.y - q.y)
  }

  function Abs(v: real): real
  {
    if v < 0.0 then -v else v
  }

  function Dot(u: Vec3, v: Vec3): real
  {
    u.a * v.a + u.b * v.b + u.c * v.c
  }

  predicate OnLine(l: Line, p: Point)
  {
    l.a * p.x + l.b * p.y + l.c == 0.0
  }

  /** Squared Euclidean distance. */
  function Dist2(p: Point, q: Point): real
  {
    (p.x - q.x) * (p.x - q.x) + (p.y - q.y) * (p.y - q.y)
  }

  function Midpoint(p: Point, q: Point): Point
  {
    Point((p.x + q.x) / 2.0, (p.y + q.y) / 2.0)
  }

  /** The point a + t*(b - a) of the line through a and b. */
  function Lerp(a: Point, b: Point, t: real): Point
  {
    Point(a.x + t * (b.x - a.x), a.y + t * (b.y - a.y))
  }

  /** two_points_equal: exact coordinate-wise comparison. */
  function PointsEqual(p: Point, q: Point): (r: bool)
    ensures r <==> p == q
  {
    p.x == q.x && p.y == q.y
  }

  /** isclose: strictly closer than the tolerance. */
  function IsClose(u: real, v: real, tolerance: real): (r: bool)
    ensures r <==> v - tolerance < u < v + tolerance
  {
    Abs(u - v) < tolerance
  }

  /**
   * two_points_bisector: the line through the midpoint of p and q whose
   * normal is q - p.
   */
  function Bisector(p: Point, q: Point): (l: Line)
    ensures l.a == q.x - p.x && l.b == q.y - p.y
    ensures (l.a == 0.0 && l.b == 0.0) <==> p == q
    ensures OnLine(l, Midpoint(p, q))
  {
    var m := Midpoint(p, q);
    var a := q.x - p.x;
    var b := q.y - p.y;
    Vec3(a, b, -m.x * a - m.y * b)
  }

  /** A point is on the bisector of p and q exactly when it is equally far from both. */
  lemma BisectorEquidistant(p: Point, q: Point, z: Point)
    ensures OnLine(Bisector(p, q), z) <==> Dist2(z, p) == Dist2(z, q)
  {
    var l := Bisector(p, q);
    assert Dist2(z, q) - Dist2(z, p) == -2.0 * (l.a * z.x + l.b * z.y + l.c);
  }

  /** cross_prod: the 3D cross product, orthogonal to both of its arguments. */
  function CrossProd(u: Vec3, v: Vec3): (r: Vec3)
    ensures Dot(r, u) == 0.0 && Dot(r, v) == 0.0
  {
    Vec3(u.b * v.c - u.c * v.b, u.c * v.a - u.a * v.c, u.a * v.b - u.b * v.a)
  }

  /** cross_2D: the third component of the 3D cross product of two vectors of the plane. */
  function Cross2D(u: Point, v: Point): real
  {
    u.x * v.y - u.y * v.x
  }

  /** cross_2D agrees with cross_prod on vectors lifted into the plane z = 0, and is antisymmetric. */
  lemma Cross2DIsCrossProd(u: Point, v: Point)
    ensures Cross2D(u, v) == CrossProd(Vec3(u.x, u.y, 0.0), Vec3(v.x, v.y, 0.0)).c
    ensures Cross2D(v, u) == -Cross2D(u, v)
  {
  }

  /** The implicit line through a and b that line_and_segment_intersection builds. */
  function SegmentLine(a: Point, b: Point): (l: Line)
    ensures OnLine(l, a) && OnLine(l, b)
    ensures (l.a == 0.0 && l.b == 0.0) <==> a == b
  {
    Vec3(a.y - b.y, b.x - a.x, a.x * b.y - b.x * a.y)
  }

  /** The normals of l and m are collinear: the homogeneous coordinate of their meet is 0. */
  predicate Parallel(l: Line, m: Line)
  {
    l.a * m.b == l.b * m.a
  }

  /**
   * The source's first test for proportional lines, with its divisions by
   * the b coefficients guarded.
   */
  predicate Proportional(l: Line, m: Line)
  {
    l.b != 0.0 && m.b != 0.0 && l.a / l.b == m.a / m.b && l.c / l.b == m.c / m.b
  }

  /** The proportional test never rejects a pair that the homogeneous test would accept. */
  lemma ProportionalIsParallel(l: Line, m: Line)
    requires Proportional(l, m)
    ensures Parallel(l, m) && CrossProd(l, m).c == 0.0
  {
    var ka, kb := l.a / l.b, m.a / m.b;
    assert l.a == ka * l.b;
    assert m.a == kb * m.b;
    calc {
      l.a * m.b;
      ka * l.b * m.b;
      kb * m.b * l.b;
      l.b * m.a;
    }
  }

  lemma DividedOnLine(l: Line, h: Vec3)
    requires h.c != 0.0 && Dot(h, l) == 0.0
    ensures OnLine(l, Point(h.a / h.c, h.b / h.c))
  {
    var px, py := h.a / h.c, h.b / h.c;
    assert px * h.c == h.a && py * h.c == h.b;
    assert (l.a * px + l.b * py + l.c) * h.c == Dot(h, l);
  }

  lemma OnBothIsMeet(l: Line, m: Line, q: Point)
    requires !Parallel(l, m) && OnLine(l, q) && OnLine(m, q)
    ensures q == Point(CrossProd(l, m).a / CrossProd(l, m).c, CrossProd(l, m).b / CrossProd(l, m).c)
  {
    var h := CrossProd(l, m);
    assert h.c != 0.0;
    assert q.x * h.c == h.a by {
      assert m.b * (l.a * q.x + l.b * q.y + l.c) - l.b * (m.a * q.x + m.b * q.y + m.c) == q.x * h.c - h.a;
    }
    assert q.y * h.c == h.b by {
      assert l.a * (m.a * q.x + m.b * q.y + m.c) - m.a * (l.a * q.x + l.b * q.y + l.c) == q.y * h.c - h.b;
    }
  }

  /**
   * The point where two non-parallel lines meet, obtained by dividing their
   * cross product by its homogeneous coordinate: it lies on both lines and is
   * the only point that does.
   */
  function Meet(l: Line, m: Line): (p: Point)
    requires !Parallel(l, m)
    ensures OnLine(l, p) && OnLine(m, p)
    ensures forall q :: OnLine(l, q) && OnLine(m, q) ==> q == p
  {
    var h := CrossProd(l, m);
    DividedOnLine(l, h);
    DividedOnLine(m, h);
    forall q | OnLine(l, q) && OnLine(m, q)
      ensures q == Point(h.a / h.c, h.b / h.c)
    {
      OnBothIsMeet(l, m, q);
    }
    Point(h.a / h.c, h.b / h.c)
  }

  /** (v < e1) != (v < e2): v lies between the two ends, including the lower one. */
  function Straddles(v: real, e1: real, e2: real): (r: bool)
    ensures r <==> (e1 <= v < e2 || e2 <= v < e1)
  {
    (v < e1) != (v < e2)
  }

  /**
   * The acceptance rule of line_and_segment_intersection for a candidate point
   * p of the line through a and b: a nearly vertical segment accepts p near an
   * endpoint's y or between the endpoints' y; a nearly horizontal one does the
   * same along x; any segment accepts p between the endpoints on both axes.
   */
  predicate AcceptedOnSegment(p: Point, a: Point, b: Point)
  {
    var isVertical := IsClose(a.x, b.x, Eps);
    var isHorizontal := IsClose(a.y, b.y, Eps);
    var isEndpointY := IsClose(p.y, a.y, Eps) || IsClose(p.y, b.y, Eps);
    var isEndpointX := IsClose(p.x, a.x, Eps) || IsClose(p.x, b.x, Eps);
    var isBetweenX := Straddles(p.x, a.x, b.x);
    var isBetweenY := Straddles(p.y, a.y, b.y);
    (isVertical && (isEndpointY || isBetweenY))
    || (isHorizontal && (isEndpointX || isBetweenX))
    || (isBetweenX && isBetweenY)
  }

  /**
   * line_and_segment_intersection: the point where `line` meets the segment
   * from a to b, or None. A result lies on both lines and passes the
   * acceptance rule; None means the lines are parallel or their one common
   * point fails the rule.
   */
  function LineSegmentIntersection(line: Line, a: Point, b: Point): (r: Option<Point>)
    ensures r.Some? ==> OnLine(line, r.value) && OnLine(SegmentLine(a, b), r.value)
    ensures r.Some? ==> AcceptedOnSegment(r.value, a, b)
    ensures Parallel(line, SegmentLine(a, b)) ==> r.None?
    ensures r.None? && !Parallel(line, SegmentLine(a, b)) ==>
      forall q :: OnLine(line, q) && OnLine(SegmentLine(a, b), q) ==> !AcceptedOnSegment(q, a, b)
  {
    var segment := SegmentLine(a, b);
    if Proportional(line, segment) then
      ProportionalIsParallel(line, segment);
      None
    else
      var w := CrossProd(line, segment).c;
      assert w == 0.0 <==> Parallel(line, segment);
      if w == 0.0 then
        None
      else
        var p := Meet(line, segment);
        if AcceptedOnSegment(p, a, b) then Some(p) else None
  }

  lemma StraddlesX(a: Point, b: Point, p: Point)
    requires OnLine(SegmentLine(a, b), p) && Straddles(p.x, a.x, b.x)
    ensures exists t :: 0.0 <= t <= 1.0 && p == Lerp(a, b, t)
  {
    var t := (p.x - a.x) / (b.x - a.x);
    assert t * (b.x - a.x) == p.x - a.x;
    assert (b.x - a.x) * (p.y - a.y) == (b.y - a.y) * (p.x - a.x);
    assert (b.x - a.x) * (p.y - a.y) == (b.x - a.x) * (t * (b.y - a.y));
    assert p == Lerp(a, b, t);
  }

  lemma StraddlesY(a: Point, b: Point, p: Point)
    requires OnLine(SegmentLine(a, b), p) && Straddles(p.y, a.y, b.y)
    ensures exists t :: 0.0 <= t <= 1.0 && p == Lerp(a, b, t)
  {
    var t := (p.y - a.y) / (b.y - a.y);
    assert t * (b.y - a.y) == p.y - a.y;
    assert (b.y - a.y) * (p.x - a.x) == (b.x - a.x) * (p.y - a.y);
    assert (b.y - a.y) * (p.x - a.x) == (b.y - a.y) * (t * (b.x - a.x));
    assert p == Lerp(a, b, t);
  }

  /**
   * A point returned by line_and_segment_intersection lies on the closed
   * segment from a to b, except that for a segment within Eps of vertical
   * (horizontal) it may instead be within Eps of an endpoint's y (x).
   */
  lemma IntersectionNearSegment(line: Line, a: Point, b: Point)
    requires LineSegmentIntersection(line, a, b).Some?
    ensures var p := LineSegmentIntersection(line, a, b).value;
      (exists t :: 0.0 <= t <= 1.0 && p == Lerp(a, b, t))
      || (IsClose(a.x, b.x, Eps) && (IsClose(p.y, a.y, Eps) || IsClose(p.y, b.y, Eps)))
      || (IsClose(a.y, b.y, Eps) && (IsClose(p.x, a.x, Eps) || IsClose(p.x, b.x, Eps)))
  {
    var p := LineSegmentIntersection(line, a, b).value;
    if Straddles(p.x, a.x, b.x) {
      StraddlesX(a, b, p);
    } else if Straddles(p.y, a.y, b.y) {
      StraddlesY(a, b, p);
    }
  }

  // ---------------------------------------------------------------------------
  // Point in polygon

  /** Twice the signed area of the triangle a, b, p: positive when p is left of a->b. */
  function Side(a: Point, b: Point, p: Point): real
  {
    Cross2D(Sub(b, a), Sub(p, a))
  }

  /**
   * The test is_point_in_polygon makes at the corner p1 between the edges
   * (p0, p1) and (p1, p2): pt is on the same side of edge p1->p0 as p2, and on
   * the same side of edge p1->p2 as p0 (or on the edge).
   */
  predicate CornerTest(pt: Point, p0: Point, p1: Point, p2: Point)
  {
    var edge := Sub(p0, p1);
    var toPoint := Sub(pt, p1);
    var nextEdge := Sub(p2, p1);
    Cross2D(edge, toPoint) * Cross2D(edge, nextEdge) >= 0.0
    && Cross2D(nextEdge, toPoint) * Cross2D(nextEdge, edge) >= 0.0
  }

  /** The corner test at vertex triple (i, i+1, i+2), indices modulo the vertex count. */
  predicate CornerAt(pt: Point, poly: seq<Point>, i: nat)
    requires i < |poly|
  {
    CornerTest(pt, poly[i], poly[(i + 1) % |poly|], poly[(i + 2) % |poly|])
  }

  /** Every corner test passes. */
  predicate Inside(pt: Point, poly: seq<Point>)
  {
    forall i :: 0 <= i < |poly| ==> CornerAt(pt, poly, i)
  }

  /** is_point_in_polygon: stops at the first corner whose test fails. */
  method IsPointInPolygon(point: Point, polygon: seq<Point>) returns (inside: bool)
    ensures inside <==> Inside(point, polygon)
    ensures !inside <==> (exists i :: 0 <= i < |polygon| && !CornerAt(point, polygon, i))
  {
    var n := |polygon|;
    var i := 0;
    while i < n
      invariant 0 <= i <= n
      invariant forall k :: 0 <= k < i ==> CornerAt(point, polygon, k)
    {
      var previous, current, next := polygon[i], polygon[(i + 1) % n], polygon[(i + 2) % n];
      if !CornerTest(point, previous, current, next) {
        assert !CornerAt(point, polygon, i);
        return false;
      }
      i := i + 1;
    }
    return true;
  }

  /** The corner test in terms of which side of each of the two edges pt lies on. */
  lemma CornerTestBySides(pt: Point, p0: Point, p1: Point, p2: Point)
    ensures Side(p1, p2, p0) == Side(p0, p1, p2)
    ensures CornerTest(pt, p0, p1, p2) <==>
      Side(p0, p1, pt) * Side(p0, p1, p2) >= 0.0 && Side(p1, p2, pt) * Side(p0, p1, p2) >= 0.0
  {
    var edge, toPoint, nextEdge := Sub(p0, p1), Sub(pt, p1), Sub(p2, p1);
    assert Cross2D(edge, toPoint) == -Side(p0, p1, pt);
    assert Cross2D(edge, nextEdge) == -Side(p0, p1, p2);
    assert Cross2D(nextEdge, toPoint) == Side(p1, p2, pt);
    assert Cross2D(nextEdge, edge) == Side(p1, p2, p0);
  }

  lemma PositiveProduct(u: real, v: real)
    requires u > 0.0 && v > 0.0
    ensures u * v > 0.0
  {
  }

  lemma NonNegativeProduct(u: real, v: real)
    requires u >= 0.0 && v >= 0.0
    ensures u * v >= 0.0
  {
  }

  lemma ProductSign(u: real, s: real)
    requires s != 0.0
    ensures u * s >= 0.0 <==> (if s > 0.0 then u >= 0.0 else u <= 0.0)
  {
    if s > 0.0 {
      if u < 0.0 { assert u * s < 0.0; }
    } else {
      if u > 0.0 { assert u * s < 0.0; }
    }
  }

  /** The turn at vertex (i + 1): the side of edge (i, i+1) that vertex i + 2 is on. */
  function TurnAt(poly: seq<Point>, i: nat): real
    requires i < |poly|
  {
    Side(poly[i], poly[(i + 1) % |poly|], poly[(i + 2) % |poly|])
  }

  /** The side of edge (i, i+1) that pt is on. */
  function EdgeSide(poly: seq<Point>, i: nat, pt: Point): real
    requires i < |poly|
  {
    Side(poly[i], poly[(i + 1) % |poly|], pt)
  }

  /** Every corner is a strict left turn (counter-clockwise with y upward), or every one is a right turn. */
  predicate Turns(poly: seq<Point>, left: bool)
  {
    forall i :: 0 <= i < |poly| ==> if left then TurnAt(poly, i) > 0.0 else TurnAt(poly, i) < 0.0
  }

  /** pt is on the inner side of, or on, every edge of a polygon wound the `left` way. */
  predicate InnerSideOfEveryEdge(pt: Point, poly: seq<Point>, left: bool)
  {
    forall i :: 0 <= i < |poly| ==> if left then EdgeSide(poly, i, pt) >= 0.0 else EdgeSide(poly, i, pt) <= 0.0
  }

  lemma ModBelow(x: int, n: int)
    requires 0 <= x < n
    ensures x % n == x
  {
  }

  lemma ModOnce(x: int, n: int)
    requires 0 < n <= x < 2 * n
    ensures x % n == x - n
  {
    ModBelow(x - n, n);
    assert (x - n) % n == x % n;
  }

  lemma NextIndex(i: nat, n: nat)
    requires i < n
    ensures (i + 1) % n == if i + 1 < n then i + 1 else 0
    ensures ((i + 1) % n + 1) % n == (i + 2) % n
  {
    if i + 1 < n {
      ModBelow(i + 1, n);
      if i + 2 < n {
        ModBelow(i + 2, n);
      } else {
        ModOnce(i + 2, n);
      }
    } else {
      ModOnce(i + 1, n);
      if n == 1 {
        assert (i + 2) % n == 0;
        assert 1 % n == 0;
      } else {
        ModBelow(1, n);
        ModOnce(i + 2, n);
      }
    }
  }

  /** The index after i round a cycle of n vertices: (i + 1) % n without the division. */
  function Next(i: nat, n: nat): nat
    requires i < n
  {
    if i + 1 < n then i + 1 else 0
  }

  /** The index before i round a cycle of n vertices: (i + n - 1) % n without the division. */
  function Prev(i: nat, n: nat): nat
    requires i < n
  {
    if i == 0 then n - 1 else i - 1
  }

  /** Next is the source's step (i + 1) % n, and Next after Next is (i + 2) % n. */
  lemma NextIsModular(i: nat, n: nat)
    requires i < n
    ensures Next(i, n) == (i + 1) % n
    ensures Next(Next(i, n), n) == (i + 2) % n
  {
    NextIndex(i, n);
  }

  /** Prev is the source's step (i + n - 1) % n. */
  lemma PrevIsModular(i: nat, n: nat)
    requires i < n
    ensures Prev(i, n) == (i + n - 1) % n
  {
    if i == 0 {
      ModBelow(n - 1, n);
    } else {
      ModOnce(i + n - 1, n);
    }
  }

  /** Prev undoes Next. */
  lemma PrevOfNext(i: nat, n: nat)
    requires i < n
    ensures Next(i, n) < n && Prev(Next(i, n), n) == i
  {
  }

  lemma CornerAtBySides(pt: Point, poly: seq<Point>, i: nat, left: bool)
    requires i < |poly|
    requires if left then TurnAt(poly, i) > 0.0 else TurnAt(poly, i) < 0.0
    ensures CornerAt(pt, poly, i) <==>
      var s0, s1 := EdgeSide(poly, i, pt), EdgeSide(poly, (i + 1) % |poly|, pt);
      if left then s0 >= 0.0 && s1 >= 0.0 else s0 <= 0.0 && s1 <= 0.0
  {
    var n := |poly|;
    var p0, p1, p2 := poly[i], poly[(i + 1) % n], poly[(i + 2) % n];
    NextIndex(i, n);
    assert EdgeSide(poly, (i + 1) % n, pt) == Side(p1, p2, pt);
    CornerTestBySides(pt, p0, p1, p2);
    ProductSign(Side(p0, p1, pt), Side(p0, p1, p2));
    ProductSign(Side(p1, p2, pt), Side(p0, p1, p2));
  }

  /**
   * For a convex polygon whose corners all turn the same way, the corner tests
   * all pass exactly when the point is on the inner side of every edge.
   */
  lemma ConvexInsideIff(pt: Point, poly: seq<Point>, left: bool)
    requires Turns(poly, left)
    ensures Inside(pt, poly) <==> InnerSideOfEveryEdge(pt, poly, left)
  {
    var n := |poly|;
    forall i | 0 <= i < n
      ensures CornerAt(pt, poly, i) <==>
        var s0, s1 := EdgeSide(poly, i, pt), EdgeSide(poly, (i + 1) % n, pt);
        if left then s0 >= 0.0 && s1 >= 0.0 else s0 <= 0.0 && s1 <= 0.0
    {
      CornerAtBySides(pt, poly, i, left);
    }
    if InnerSideOfEveryEdge(pt, poly, left) {
      forall i | 0 <= i < n
        ensures CornerAt(pt, poly, i)
      {
        var j := (i + 1) % n;
        assert if left then EdgeSide(poly, j, pt) >= 0.0 else EdgeSide(poly, j, pt) <= 0.0;
      }
      assert Inside(pt, poly);
    }
    if Inside(pt, poly) {
      forall i | 0 <= i < n
        ensures if left then EdgeSide(poly, i, pt) >= 0.0 else EdgeSide(poly, i, pt) <= 0.0
      {
        assert CornerAt(pt, poly, i);
      }
      assert InnerSideOfEveryEdge(pt, poly, left);
    }
  }
}
