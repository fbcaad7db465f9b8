/**
 * calculateRoundedPolygon of VoronoiDiagram (js/_voronoi.js): for every
 * vertex of a polygon, the two points where a rounded corner of the
 * requested radius leaves the corner along its two edges. The edge length
 * the source computes with Math.sqrt is a parameter `length`; the lemmas
 * about where the points lie assume only that it is non-negative and is 0
 * for the zero vector alone.
 */
module CornerRounder {
  import opened Wrappers
  import opened GeometryKernel

  /** The record pushed for one vertex. */
  datatype RoundedCorner = RoundedCorner(start: Point, corner: Point, end: Point, radius: real)

  function Min(u: real, v: real): real
  {
    if u <= v then u else v
  }

  /** v divided by its length when that length is positive, v itself otherwise. */
  function Normalized(v: Point, len: real): Point
  {
    if len > 0.0 then Point(v.x / len, v.y / len) else v
  }

  /** p moved r times along d. */
  function Offset(p: Point, d: Point, r: real): Point
  {
    Point(p.x + d.x * r, p.y + d.y * r)
  }

  /**
   * The record for vertex i: the corner is the vertex itself, and the radius
   * used is the smallest of the requested radius and half the lengths of the
   * edges to the previous and to the next vertex (indices wrap round).
   */
  function RoundCorner(vertices: seq<Point>, i: nat, radius: real, length: Point -> real): (c: RoundedCorner)
    requires i < |vertices|
    ensures c.corner == vertices[i]
    ensures var toPrev, toNext := Sub(vertices[Prev(i, |vertices|)], vertices[i]), Sub(vertices[Next(i, |vertices|)], vertices[i]);
      c.radius <= radius && c.radius <= length(toPrev) / 2.0 && c.radius <= length(toNext) / 2.0 &&
      (c.radius == radius || c.radius == length(toPrev) / 2.0 || c.radius == length(toNext) / 2.0)
  {
    var n := |vertices|;
    var prev, curr, next := vertices[Prev(i, n)], vertices[i], vertices[Next(i, n)];
    var toPrev, toNext := Sub(prev, curr), Sub(next, curr);
    var toPrevLen, toNextLen := length(toPrev), length(toNext);
    var actualRadius := Min(Min(radius, toPrevLen / 2.0), toNextLen / 2.0);
    RoundedCorner(
      Offset(curr, Normalized(toPrev, toPrevLen), actualRadius),
      curr,
      Offset(curr, Normalized(toNext, toNextLen), actualRadius),
      actualRadius)
  }

  /** `length` behaves like a norm as far as the lemmas need: never negative, 0 only for the zero vector. */
  ghost predicate IsLength(length: Point -> real)
  {
    forall v :: length(v) >= 0.0 && (length(v) == 0.0 ==> v == Point(0.0, 0.0))
  }

  /**
   * Moving from `corner` toward `other` along the normalized edge by r is the
   * point a fraction r / len of the way along the edge, and with r at most
   * half the edge's length it stays on the first half of that edge. A
   * zero-length edge leaves the corner where it is.
   */
  lemma OffsetAlongEdge(corner: Point, other: Point, len: real, r: real)
    requires len >= 0.0 && (len == 0.0 ==> other == corner)
    requires 0.0 <= r <= len / 2.0
    ensures len > 0.0 ==> Offset(corner, Normalized(Sub(other, corner), len), r) == Lerp(corner, other, r / len)
    ensures len > 0.0 ==> 0.0 <= r / len <= 0.5
    ensures len == 0.0 ==> Offset(corner, Normalized(Sub(other, corner), len), r) == corner
    ensures exists t :: 0.0 <= t <= 0.5 && Offset(corner, Normalized(Sub(other, corner), len), r) == Lerp(corner, other, t)
  {
    var edge := Sub(other, corner);
    var moved := Offset(corner, Normalized(edge, len), r);
    if len > 0.0 {
      var t := r / len;
      assert t * len == r;
      assert t <= 0.5 by {
        assert r <= 0.5 * len;
      }
      assert edge.x / len * r == t * edge.x;
      assert edge.y / len * r == t * edge.y;
      assert moved == Lerp(corner, other, t);
    } else {
      assert moved == corner;
      assert moved == Lerp(corner, other, 0.0);
    }
  }

  /** A non-negative requested radius gives a non-negative radius. */
  lemma RadiusIsNonNegative(vertices: seq<Point>, i: nat, radius: real, length: Point -> real)
    requires i < |vertices| && radius >= 0.0 && IsLength(length)
    ensures RoundCorner(vertices, i, radius, length).radius >= 0.0
  {
    var n := |vertices|;
    var toPrev, toNext := Sub(vertices[Prev(i, n)], vertices[i]), Sub(vertices[Next(i, n)], vertices[i]);
    assert length(toPrev) >= 0.0 && length(toNext) >= 0.0;
  }

  /**
   * The start point is the corner pulled toward the previous vertex by the
   * radius: a fraction radius / len of that edge, at most half of it; the
   * corner itself when the edge has length 0.
   */
  lemma StartOnPreviousEdge(vertices: seq<Point>, i: nat, radius: real, length: Point -> real)
    requires i < |vertices| && radius >= 0.0 && IsLength(length)
    ensures var c, prev := RoundCorner(vertices, i, radius, length), vertices[Prev(i, |vertices|)];
      var len := length(Sub(prev, vertices[i]));
      len > 0.0 ==> c.start == Lerp(vertices[i], prev, c.radius / len) && c.radius / len <= 0.5
    ensures var c, prev := RoundCorner(vertices, i, radius, length), vertices[Prev(i, |vertices|)];
      length(Sub(prev, vertices[i])) == 0.0 ==> c.start == vertices[i]
    ensures var c := RoundCorner(vertices, i, radius, length);
      exists t :: 0.0 <= t <= 0.5 && c.start == Lerp(vertices[i], vertices[Prev(i, |vertices|)], t)
  {
    var n := |vertices|;
    var curr, prev := vertices[i], vertices[Prev(i, n)];
    var len := length(Sub(prev, curr));
    assert len == 0.0 ==> Sub(prev, curr) == Point(0.0, 0.0);
    RadiusIsNonNegative(vertices, i, radius, length);
    OffsetAlongEdge(curr, prev, len, RoundCorner(vertices, i, radius, length).radius);
  }

  /**
   * The end point is the corner pulled toward the next vertex by the radius:
   * a fraction radius / len of that edge, at most half of it; the corner
   * itself when the edge has length 0.
   */
  lemma EndOnNextEdge(vertices: seq<Point>, i: nat, radius: real, length: Point -> real)
    requires i < |vertices| && radius >= 0.0 && IsLength(length)
    ensures var c, next := RoundCorner(vertices, i, radius, length), vertices[Next(i, |vertices|)];
      var len := length(Sub(next, vertices[i]));
      len > 0.0 ==> c.end == Lerp(vertices[i], next, c.radius / len) && c.radius / len <= 0.5
    ensures var c, next := RoundCorner(vertices, i, radius, length), vertices[Next(i, |vertices|)];
      length(Sub(next, vertices[i])) == 0.0 ==> c.end == vertices[i]
    ensures var c := RoundCorner(vertices, i, radius, length);
      exists t :: 0.0 <= t <= 0.5 && c.end == Lerp(vertices[i], vertices[Next(i, |vertices|)], t)
  {
    var n := |vertices|;
    var curr, next := vertices[i], vertices[Next(i, n)];
    var len := length(Sub(next, curr));
    assert len == 0.0 ==> Sub(next, curr) == Point(0.0, 0.0);
    RadiusIsNonNegative(vertices, i, radius, length);
    OffsetAlongEdge(curr, next, len, RoundCorner(vertices, i, radius, length).radius);
  }

  /**
   * calculateRoundedPolygon: None for fewer than three vertices, otherwise
   * one record per vertex, in vertex order.
   */
  method CalculateRoundedPolygon(vertices: seq<Point>, radius: real, length: Point -> real)
    returns (rounded: Option<seq<RoundedCorner>>)
    ensures rounded.None? <==> |vertices| < 3
    ensures rounded.Some? ==> |rounded.value| == |vertices|
    ensures rounded.Some? ==> forall i :: 0 <= i < |vertices| ==> rounded.value[i] == RoundCorner(vertices, i, radius, length)
  {
    if |vertices| < 3 {
      return None;
    }
    var n := |vertices|;
    var roundedPoints: seq<RoundedCorner> := [];
    var i := 0;
    while i < n
      invariant 0 <= i <= n
      invariant |roundedPoints| == i
      invariant forall k :: 0 <= k < i ==> roundedPoints[k] == RoundCorner(vertices, k, radius, length)
    {
      var prev, curr, next := vertices[Prev(i, n)], vertices[i], vertices[Next(i, n)];
      var toPrev, toNext := Sub(prev, curr), Sub(next, curr);
      var toPrevLen, toNextLen := length(toPrev), length(toNext);
      if toPrevLen > 0.0 {
        toPrev := Point(toPrev.x / toPrevLen, toPrev.y / toPrevLen);
      }
      if toNextLen > 0.0 {
        toNext := Point(toNext.x / toNextLen, toNext.y / toNextLen);
      }
      var actualRadius := Min(Min(radius, toPrevLen / 2.0), toNextLen / 2.0);
      var startPoint, endPoint := Offset(curr, toPrev, actualRadius), Offset(curr, toNext, actualRadius);
      roundedPoints := roundedPoints + [RoundedCorner(startPoint, curr, endPoint, actualRadius)];
      i := i + 1;
    }
    return Some(roundedPoints);
  }
}
