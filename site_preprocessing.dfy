/**
 * max_xy and preprocess_sites of VoronoiDiagram (js/_voronoi.js): the
 * per-axis magnitude of a point list, removal of duplicate sites and the
 * small jitter added to every site. The random numbers p5 draws are supplied
 * by the caller as fractions in [0, 1).
 */
module SitePreprocessing {
  import opened GeometryKernel

  datatype Axis = X | Y

  function Coord(p: Point, axis: Axis): real
  {
    if axis == X then p.x else p.y
  }

  function Max(u: real, v: real): real
  {
    if u >= v then u else v
  }

  /** The running maximum of the absolute coordinates on one axis, taken front to back. */
  function MaxAbs(points: seq<Point>, axis: Axis): real
    requires |points| > 0
  {
    if |points| == 1 then Abs(Coord(points[0], axis))
    else Max(MaxAbs(points[..|points| - 1], axis), Abs(Coord(points[|points| - 1], axis)))
  }

  /** No absolute coordinate exceeds MaxAbs. */
  lemma {:induction false} MaxAbsIsBound(points: seq<Point>, axis: Axis)
    requires |points| > 0
    ensures forall k :: 0 <= k < |points| ==> Abs(Coord(points[k], axis)) <= MaxAbs(points, axis)
  {
    if |points| > 1 {
      var front := points[..|points| - 1];
      MaxAbsIsBound(front, axis);
      assert forall k :: 0 <= k < |front| ==> front[k] == points[k];
    }
  }

  /** MaxAbs is the absolute coordinate of some point. */
  lemma {:induction false} MaxAbsIsAttained(points: seq<Point>, axis: Axis)
    requires |points| > 0
    ensures exists k :: 0 <= k < |points| && Abs(Coord(points[k], axis)) == MaxAbs(points, axis)
  {
    if |points| == 1 {
      assert Abs(Coord(points[0], axis)) == MaxAbs(points, axis);
    } else {
      var front := points[..|points| - 1];
      MaxAbsIsAttained(front, axis);
      var k :| 0 <= k < |front| && Abs(Coord(front[k], axis)) == MaxAbs(front, axis);
      assert front[k] == points[k];
      var last := |points| - 1;
      if MaxAbs(front, axis) >= Abs(Coord(points[last], axis)) {
        assert Abs(Coord(points[k], axis)) == MaxAbs(points, axis);
      } else {
        assert Abs(Coord(points[last], axis)) == MaxAbs(points, axis);
      }
    }
  }

  /** The magnitude pair of max_xy: each axis' largest absolute coordinate, floored at 1. */
  function Magnitude(points: seq<Point>): Point
    requires |points| > 0
  {
    Point(Max(1.0, MaxAbs(points, X)), Max(1.0, MaxAbs(points, Y)))
  }

  /**
   * max_xy: on each axis, a running maximum of the absolute coordinates
   * floored at 1. Each component is at least 1 and at least every absolute
   * coordinate on its axis, and is 1 or one of those coordinates.
   */
  method MaxXY(points: seq<Point>) returns (maxX: real, maxY: real)
    requires |points| > 0
    ensures Point(maxX, maxY) == Magnitude(points)
    ensures 1.0 <= maxX && forall k :: 0 <= k < |points| ==> Abs(points[k].x) <= maxX
    ensures 1.0 <= maxY && forall k :: 0 <= k < |points| ==> Abs(points[k].y) <= maxY
    ensures maxX == 1.0 || exists k :: 0 <= k < |points| && Abs(points[k].x) == maxX
    ensures maxY == 1.0 || exists k :: 0 <= k < |points| && Abs(points[k].y) == maxY
  {
    maxX, maxY := Abs(points[0].x), Abs(points[0].y);
    var i := 1;
    while i < |points|
      invariant 1 <= i <= |points|
      invariant maxX == MaxAbs(points[..i], X) && maxY == MaxAbs(points[..i], Y)
    {
      var absX, absY := Abs(points[i].x), Abs(points[i].y);
      assert points[..i + 1][..i] == points[..i];
      if absX > maxX {
        maxX := absX;
      }
      if absY > maxY {
        maxY := absY;
      }
      i := i + 1;
    }
    assert points[..i] == points;
    maxX := if maxX > 1.0 then maxX else 1.0;
    maxY := if maxY > 1.0 then maxY else 1.0;
    MaxAbsIsBound(points, X);
    MaxAbsIsBound(points, Y);
    MaxAbsIsAttained(points, X);
    MaxAbsIsAttained(points, Y);
  }

  // ---------------------------------------------------------------------------
  // Duplicate removal

  /**
   * The sites with later copies of an earlier coordinate pair removed: the
   * Map keyed by the site's coordinates keeps each key at the position of its
   * first insertion. The result holds the same points, each once.
   */
  function Dedup(sites: seq<Point>): (r: seq<Point>)
    ensures forall p :: p in r <==> p in sites
    ensures forall i, j :: 0 <= i < j < |r| ==> r[i] != r[j]
  {
    if sites == [] then []
    else
      var front := sites[..|sites| - 1];
      var last := sites[|sites| - 1];
      assert sites == front + [last];
      if last in front then Dedup(front) else Dedup(front) + [last]
  }

  /** The index of the first occurrence of p in s. */
  function FirstIndex(s: seq<Point>, p: Point): (k: nat)
    requires p in s
    ensures k < |s| && s[k] == p
    ensures forall j :: 0 <= j < k ==> s[j] != p
  {
    if s[0] == p then 0 else 1 + FirstIndex(s[1..], p)
  }

  lemma FirstIndexOfPrefix(s: seq<Point>, last: Point, p: Point)
    requires p in s
    ensures FirstIndex(s + [last], p) == FirstIndex(s, p)
  {
    var k, k' := FirstIndex(s, p), FirstIndex(s + [last], p);
    assert (s + [last])[k] == p;
    assert k' <= k;
    assert s[k'] == p;
  }

  /** The kept sites appear in the order of their first occurrence in the input. */
  lemma {:induction false} DedupKeepsFirstOccurrenceOrder(sites: seq<Point>)
    ensures forall i, j :: 0 <= i < j < |Dedup(sites)| ==>
      FirstIndex(sites, Dedup(sites)[i]) < FirstIndex(sites, Dedup(sites)[j])
  {
    if sites != [] {
      var front := sites[..|sites| - 1];
      var last := sites[|sites| - 1];
      assert sites == front + [last];
      DedupKeepsFirstOccurrenceOrder(front);
      var d, r := Dedup(front), Dedup(sites);
      forall i, j | 0 <= i < j < |r|
        ensures FirstIndex(sites, r[i]) < FirstIndex(sites, r[j])
      {
        FirstIndexOfPrefix(front, last, r[i]);
        if j < |d| {
          FirstIndexOfPrefix(front, last, r[j]);
        } else {
          assert r[j] == last && last !in front;
          assert FirstIndex(sites, last) == |front|;
        }
      }
    }
  }

  // ---------------------------------------------------------------------------
  // Jitter

  /** The two random fractions drawn for one site, one per axis. */
  datatype Draw = Draw(fx: real, fy: real)

  predicate IsFraction(f: real)
  {
    0.0 <= f < 1.0
  }

  predicate ValidDraws(draws: seq<Draw>)
  {
    forall k :: 0 <= k < |draws| ==> IsFraction(draws[k].fx) && IsFraction(draws[k].fy)
  }

  /** eps * magnitude * 100 on each axis: the upper end of the random offset. */
  function JitterRange(unique: seq<Point>): Point
    requires |unique| > 0
  {
    var m := Magnitude(unique);
    Point(Eps * m.x * 100.0, Eps * m.y * 100.0)
  }

  /** One site moved by random(0, range) on each axis, that is by fraction * range. */
  function Shift(site: Point, draw: Draw, range: Point): Point
  {
    Point(site.x + draw.fx * range.x, site.y + draw.fy * range.y)
  }

  /** Every site shifted by its own draw. */
  function Jittered(unique: seq<Point>, draws: seq<Draw>): seq<Point>
    requires |unique| > 0 && |draws| >= |unique|
  {
    var range := JitterRange(unique);
    seq(|unique|, i requires 0 <= i < |unique| => Shift(unique[i], draws[i], range))
  }

  /** A shift moves each coordinate up by less than the range on its axis. */
  lemma ShiftIsSmall(site: Point, draw: Draw, range: Point)
    requires IsFraction(draw.fx) && IsFraction(draw.fy) && range.x > 0.0 && range.y > 0.0
    ensures 0.0 <= Shift(site, draw, range).x - site.x < range.x
    ensures 0.0 <= Shift(site, draw, range).y - site.y < range.y
  {
    PositiveProduct(1.0 - draw.fx, range.x);
    PositiveProduct(1.0 - draw.fy, range.y);
    NonNegativeProduct(draw.fx, range.x);
    NonNegativeProduct(draw.fy, range.y);
    assert (1.0 - draw.fx) * range.x == range.x - draw.fx * range.x;
    assert (1.0 - draw.fy) * range.y == range.y - draw.fy * range.y;
    var moved := Shift(site, draw, range);
    assert moved.x - site.x == draw.fx * range.x;
    assert moved.y - site.y == draw.fy * range.y;
  }

  /**
   * Each jittered coordinate exceeds the original by at least 0 and less than
   * eps * max(1, largest absolute coordinate on that axis) * 100.
   */
  lemma JitterIsSmall(unique: seq<Point>, draws: seq<Draw>)
    requires |unique| > 0 && |draws| >= |unique| && ValidDraws(draws)
    ensures |Jittered(unique, draws)| == |unique|
    ensures forall i :: 0 <= i < |unique| ==>
      0.0 <= Jittered(unique, draws)[i].x - unique[i].x < Eps * Max(1.0, MaxAbs(unique, X)) * 100.0
    ensures forall i :: 0 <= i < |unique| ==>
      0.0 <= Jittered(unique, draws)[i].y - unique[i].y < Eps * Max(1.0, MaxAbs(unique, Y)) * 100.0
  {
    var range := JitterRange(unique);
    var jittered := Jittered(unique, draws);
    assert range == Point(Eps * Max(1.0, MaxAbs(unique, X)) * 100.0, Eps * Max(1.0, MaxAbs(unique, Y)) * 100.0);
    RangeIsPositive(Max(1.0, MaxAbs(unique, X)));
    RangeIsPositive(Max(1.0, MaxAbs(unique, Y)));
    forall i | 0 <= i < |unique|
      ensures 0.0 <= jittered[i].x - unique[i].x < range.x
      ensures 0.0 <= jittered[i].y - unique[i].y < range.y
    {
      assert jittered[i] == Shift(unique[i], draws[i], range);
      ShiftIsSmall(unique[i], draws[i], range);
    }
  }

  lemma RangeIsPositive(m: real)
    requires m >= 1.0
    ensures Eps * m * 100.0 > 0.0
  {
  }

  /**
   * preprocess_sites: remove duplicates, then move every remaining site by
   * a random offset on each axis. A fresh sequence is returned in place of
   * the source's update of the site arrays.
   */
  method PreprocessSites(sites: seq<Point>, draws: seq<Draw>) returns (processed: seq<Point>)
    requires |sites| > 0
    requires |draws| >= |Dedup(sites)| && ValidDraws(draws)
    ensures |Dedup(sites)| > 0
    ensures processed == Jittered(Dedup(sites), draws)
  {
    var unique := Dedup(sites);
    assert sites[0] in unique;
    var magnitudeX, magnitudeY := MaxXY(unique);
    var offsetX, offsetY := Eps * magnitudeX * 100.0, Eps * magnitudeY * 100.0;
    var range := Point(offsetX, offsetY);
    assert range == JitterRange(unique);
    processed := unique;
    var i := 0;
    while i < |processed|
      invariant 0 <= i <= |processed| == |unique|
      invariant forall k :: 0 <= k < i ==> processed[k] == Shift(unique[k], draws[k], range)
      invariant forall k :: i <= k < |processed| ==> processed[k] == unique[k]
    {
      processed := processed[i := Shift(processed[i], draws[i], range)];
      i := i + 1;
    }
  }
}
