/**
 * compute of VoronoiDiagram (js/_voronoi.js): every site's cell starts as the
 * padded screen box and is clipped in turn by the bisector between that site
 * and every other site.
 *
 * One clip step walks the cell's edges for a first crossing, copies vertices
 * forward to a second crossing, and when the site is not inside the vertex
 * list so built, rebuilds it from the complementary run of vertices. The
 * source keeps the loop variable `vertex1` of that rebuild alive across the
 * whole computation (a function-scoped `var`); the model carries it as
 * `lastVertex`. Reading a null second crossing or a never-assigned `vertex1`
 * throws in the source; the model returns the corresponding Fault.
 */
module VoronoiBuilder {
  import opened Wrappers
  import opened GeometryKernel
  import opened SitePreprocessing

  /** The four corners (left, top), (right, top), (right, bottom), (left, bottom) of the padded screen. */
  function Box(width: real, height: real, padding: real): seq<Point>
  {
    var left, top, right, bottom := -padding, -padding, width + padding, height + padding;
    [Point(left, top), Point(right, top), Point(right, bottom), Point(left, bottom)]
  }

  /** The box turns left at every corner (y grows downward on screen). */
  lemma BoxTurnsLeft(width: real, height: real, padding: real)
    requires width + 2.0 * padding > 0.0 && height + 2.0 * padding > 0.0
    ensures Turns(Box(width, height, padding), true)
  {
    var box := Box(width, height, padding);
    var w, h := width + 2.0 * padding, height + 2.0 * padding;
    PositiveProduct(w, h);
    assert TurnAt(box, 0) == w * h;
    assert TurnAt(box, 1) == h * w;
    assert TurnAt(box, 2) == (-w) * (-h);
    assert TurnAt(box, 3) == h * w;
  }

  /** A point is on the inner side of every box edge exactly when it lies in the closed padded rectangle. */
  lemma BoxInnerSides(width: real, height: real, padding: real, pt: Point)
    requires width + 2.0 * padding > 0.0 && height + 2.0 * padding > 0.0
    ensures InnerSideOfEveryEdge(pt, Box(width, height, padding), true) <==>
      -padding <= pt.x <= width + padding && -padding <= pt.y <= height + padding
  {
    var box := Box(width, height, padding);
    var w, h := width + 2.0 * padding, height + 2.0 * padding;
    assert EdgeSide(box, 0, pt) == (pt.y + padding) * w;
    assert EdgeSide(box, 1, pt) == (width + padding - pt.x) * h;
    assert EdgeSide(box, 2, pt) == (height + padding - pt.y) * w;
    assert EdgeSide(box, 3, pt) == (pt.x + padding) * h;
    ProductSign(pt.y + padding, w);
    ProductSign(width + padding - pt.x, h);
    ProductSign(height + padding - pt.y, w);
    ProductSign(pt.x + padding, h);
    assert InnerSideOfEveryEdge(pt, box, true) <==>
      EdgeSide(box, 0, pt) >= 0.0 && EdgeSide(box, 1, pt) >= 0.0 && EdgeSide(box, 2, pt) >= 0.0 && EdgeSide(box, 3, pt) >= 0.0;
  }

  /** A point passes the point-in-polygon test for the box exactly when it lies in the closed padded rectangle. */
  lemma BoxInsideIff(width: real, height: real, padding: real, pt: Point)
    requires width + 2.0 * padding > 0.0 && height + 2.0 * padding > 0.0
    ensures Inside(pt, Box(width, height, padding)) <==>
      -padding <= pt.x <= width + padding && -padding <= pt.y <= height + padding
  {
    BoxTurnsLeft(width, height, padding);
    ConvexInsideIff(pt, Box(width, height, padding), true);
    BoxInnerSides(width, height, padding, pt);
  }

  // ---------------------------------------------------------------------------
  // One clip step

  /** Where the bisector crosses edge v, from vertex v to the next vertex. */
  function EdgeCrossing(bisector: Line, cell: seq<Point>, v: nat): Option<Point>
    requires v < |cell|
  {
    LineSegmentIntersection(bisector, cell[v], cell[Next(v, |cell|)])
  }

  /** The lowest edge index at or after `from` that the bisector crosses, as the scans find it. */
  function FirstCrossing(bisector: Line, cell: seq<Point>, from: nat): (r: Option<nat>)
    requires from <= |cell|
    ensures r.Some? ==> from <= r.value < |cell| && EdgeCrossing(bisector, cell, r.value).Some?
    ensures r.Some? ==> forall u :: from <= u < r.value ==> EdgeCrossing(bisector, cell, u).None?
    ensures r.None? ==> forall u :: from <= u < |cell| ==> EdgeCrossing(bisector, cell, u).None?
    decreases |cell| - from
  {
    if from == |cell| then None
    else if EdgeCrossing(bisector, cell, from).Some? then Some(from)
    else FirstCrossing(bisector, cell, from + 1)
  }

  /** An edge that is crossed, with no crossed edge before it from `from` on, is the first crossing. */
  lemma FirstCrossingAt(bisector: Line, cell: seq<Point>, from: nat, v: nat)
    requires from <= v < |cell| && EdgeCrossing(bisector, cell, v).Some?
    requires forall u :: from <= u < v ==> EdgeCrossing(bisector, cell, u).None?
    ensures FirstCrossing(bisector, cell, from) == Some(v)
  {
  }

  /**
   * The index the second scan starts from: past the far end of edge v, or one
   * vertex further when the crossing is exactly that far end.
   */
  function ResumeIndex(bisector: Line, cell: seq<Point>, v: nat): (k: nat)
    requires v < |cell| && EdgeCrossing(bisector, cell, v).Some?
    ensures k < |cell|
  {
    var n := |cell|;
    if EdgeCrossing(bisector, cell, v).value == cell[Next(v, n)] then Next(Next(v, n), n) else Next(v, n)
  }

  /**
   * The first two vertices pushed at the first crossing: the crossing and the
   * far end of its edge, or, when the crossing is that far end, the far end
   * and the vertex after it.
   */
  function ArcHead(bisector: Line, cell: seq<Point>, v: nat): (head: seq<Point>)
    requires v < |cell| && EdgeCrossing(bisector, cell, v).Some?
    ensures |head| == 2 && head[1] in cell
    ensures OnLine(bisector, head[0])
  {
    var n := |cell|;
    var first := EdgeCrossing(bisector, cell, v).value;
    var next := cell[Next(v, n)];
    if first == next then [next, cell[Next(Next(v, n), n)]] else [first, next]
  }

  /** The far ends of the uncrossed edges lo, ..., hi - 1, pushed by the second scan. */
  function FarEnds(cell: seq<Point>, lo: nat, hi: nat): (r: seq<Point>)
    requires lo <= hi <= |cell|
    ensures |r| == hi - lo
    ensures forall q :: q in r ==> q in cell
    decreases hi - lo
  {
    if hi == lo then [] else FarEnds(cell, lo, hi - 1) + [cell[Next(hi - 1, |cell|)]]
  }

  /**
   * The vertex list of the first two scans when edge v holds the first
   * crossing: the crossing, the vertices after it, and the second crossing
   * (or, without one, every vertex up to vertex 0). It has at least three
   * entries, starts on the bisector, ends on it when a second crossing
   * exists, and holds nothing but cell vertices and bisector points.
   */
  function FirstArc(bisector: Line, cell: seq<Point>, v: nat): (arc: seq<Point>)
    requires v < |cell| && EdgeCrossing(bisector, cell, v).Some?
    ensures |arc| >= 3
    ensures OnLine(bisector, arc[0])
    ensures FirstCrossing(bisector, cell, ResumeIndex(bisector, cell, v)).Some? ==>
      OnLine(bisector, arc[|arc| - 1])
    ensures forall q :: q in arc ==> q in cell || OnLine(bisector, q)
  {
    var n := |cell|;
    var head := ArcHead(bisector, cell, v);
    var resume := ResumeIndex(bisector, cell, v);
    match FirstCrossing(bisector, cell, resume)
    case Some(w) => head + FarEnds(cell, resume, w) + [EdgeCrossing(bisector, cell, w).value]
    case None => head + FarEnds(cell, resume, n)
  }

  /** The number of steps from index k forward to index stop, modulo n. */
  function Distance(k: nat, stop: nat, n: nat): nat
    requires k < n && stop < n
  {
    if k <= stop then stop - k else n - k + stop
  }

  lemma DistanceStep(k: nat, stop: nat, n: nat)
    requires k < n && stop < n && k != stop
    ensures Distance(Next(k, n), stop, n) == Distance(k, stop, n) - 1
  {
  }

  /**
   * The complementary walk from vertex k forward to vertex stop (excluded),
   * modulo n, keeping a vertex only when it differs from the next one. It
   * holds only cell vertices, at most one per step.
   */
  function DistinctWalk(cell: seq<Point>, k: nat, stop: nat): (r: seq<Point>)
    requires k < |cell| && stop < |cell|
    ensures |r| <= Distance(k, stop, |cell|)
    ensures forall q :: q in r ==> q in cell
    decreases Distance(k, stop, |cell|)
  {
    if k == stop then []
    else
      var next := Next(k, |cell|);
      DistanceStep(k, stop, |cell|);
      (if cell[k] == cell[next] then [] else [cell[k]]) + DistinctWalk(cell, next, stop)
  }

  /** The two reads of the source that throw: a null second crossing, and vertex1 never assigned. */
  datatype Fault = NullSecondIntersection | UndefinedLastVertex

  /** The new cell with the value vertex1 holds afterwards, or the fault that stopped the computation. */
  datatype ClipOutcome = Clipped(cell: seq<Point>, lastVertex: Option<Point>) | Crashed(fault: Fault)

  /**
   * The rebuild when the site is not inside the first arc: from the far end
   * of the second crossed edge w round to the resume index of the first
   * crossing at edge v, between the second and the first crossing points.
   */
  function Complement(bisector: Line, cell: seq<Point>, v: nat, w: nat, lastVertex: Option<Point>): (out: ClipOutcome)
    requires v < |cell| && w < |cell|
    requires EdgeCrossing(bisector, cell, v).Some? && EdgeCrossing(bisector, cell, w).Some?
    ensures out.Clipped? ==> forall q :: q in out.cell ==> q in cell || OnLine(bisector, q)
    ensures out.Crashed? ==> out.fault == UndefinedLastVertex && lastVertex.None?
  {
    var n := |cell|;
    var first := EdgeCrossing(bisector, cell, v).value;
    var second := EdgeCrossing(bisector, cell, w).value;
    var stop := ResumeIndex(bisector, cell, v);
    var start := Next(w, n);
    var walked := DistinctWalk(cell, start, stop);
    var last := if start == stop then lastVertex else Some(cell[Prev(stop, n)]);
    match last
    case None => Crashed(UndefinedLastVertex)
    case Some(vertex) =>
      Clipped((if second == cell[start] then [] else [second]) + walked + (if first == vertex then [] else [first]), last)
  }

  /**
   * One clip of `cell` for `site` by `bisector`. When the bisector crosses no
   * edge the cell is kept unchanged. The new cell holds only old vertices
   * and points of the bisector. A fault arises only from a crossing, and an
   * undefined vertex1 only when none was ever assigned.
   */
  function Clip(bisector: Line, cell: seq<Point>, site: Point, lastVertex: Option<Point>): (out: ClipOutcome)
    ensures (forall u :: 0 <= u < |cell| ==> EdgeCrossing(bisector, cell, u).None?) ==>
      out == Clipped(cell, lastVertex)
    ensures out.Clipped? ==> forall q :: q in out.cell ==> q in cell || OnLine(bisector, q)
    ensures out.Crashed? ==> exists u :: 0 <= u < |cell| && EdgeCrossing(bisector, cell, u).Some?
    ensures out == Crashed(UndefinedLastVertex) ==> lastVertex.None?
  {
    match FirstCrossing(bisector, cell, 0)
    case None => Clipped(cell, lastVertex)
    case Some(v) =>
      var arc := FirstArc(bisector, cell, v);
      if Inside(site, arc) then Clipped(arc, lastVertex)
      else
        match FirstCrossing(bisector, cell, ResumeIndex(bisector, cell, v))
        case None => Crashed(NullSecondIntersection)
        case Some(w) => Complement(bisector, cell, v, w, lastVertex)
  }

  /**
   * The rebuild loop: walks from vertex start forward to vertex stop,
   * keeping each vertex that differs from the next one and assigning each
   * visited vertex to vertex1 on the way.
   */
  method WalkComplement(cell: seq<Point>, start: nat, stop: nat, lastVertex: Option<Point>)
    returns (walked: seq<Point>, vertex1: Option<Point>)
    requires start < |cell| && stop < |cell|
    ensures walked == DistinctWalk(cell, start, stop)
    ensures vertex1 == if start == stop then lastVertex else Some(cell[Prev(stop, |cell|)])
  {
    var n := |cell|;
    walked := [];
    vertex1 := lastVertex;
    var i: nat := start;
    while i != stop
      invariant i < n
      invariant walked + DistinctWalk(cell, i, stop) == DistinctWalk(cell, start, stop)
      invariant Distance(i, stop, n) <= Distance(start, stop, n)
      invariant i == start ==> vertex1 == lastVertex
      invariant i != start ==> vertex1 == Some(cell[Prev(i, n)])
      decreases Distance(i, stop, n)
    {
      var current, next := cell[i], cell[Next(i, n)];
      vertex1 := Some(current);
      DistanceStep(i, stop, n);
      PrevOfNext(i, n);
      if !PointsEqual(current, next) {
        walked := walked + [current];
      }
      i := Next(i, n);
    }
  }

  /** The first scan of a clip step: the first crossed edge, with the two vertices it pushes. */
  method FirstScan(bisector: Line, cell: seq<Point>)
    returns (clipped: seq<Point>, firstIntersection: Option<Point>, firstIndex: nat, v: nat)
    ensures clipped == [] <==> FirstCrossing(bisector, cell, 0).None?
    ensures clipped != [] ==>
      FirstCrossing(bisector, cell, 0) == Some(v) && firstIntersection == EdgeCrossing(bisector, cell, v) &&
      clipped == ArcHead(bisector, cell, v) && firstIndex == ResumeIndex(bisector, cell, v)
  {
    var n := |cell|;
    clipped, firstIntersection, firstIndex := [], None, 0;
    v := 0;
    while v < n
      invariant 0 <= v <= n
      invariant clipped == []
      invariant forall u :: 0 <= u < v ==> EdgeCrossing(bisector, cell, u).None?
    {
      var current, next := cell[v], cell[Next(v, n)];
      firstIntersection := LineSegmentIntersection(bisector, current, next);
      if firstIntersection.Some? {
        if firstIntersection.value == next {
          clipped := [next, cell[Next(Next(v, n), n)]];
          firstIndex := Next(Next(v, n), n);
        } else {
          clipped := [firstIntersection.value, next];
          firstIndex := Next(v, n);
        }
        FirstCrossingAt(bisector, cell, 0, v);
        return;
      }
      v := v + 1;
    }
  }

  /**
   * The second scan of a clip step: from the resume index, push the far end
   * of every uncrossed edge, then the second crossing if there is one.
   */
  method SecondScan(bisector: Line, cell: seq<Point>, head: seq<Point>, firstIndex: nat)
    returns (clipped: seq<Point>, secondIntersection: Option<Point>, secondIndex: nat)
    requires firstIndex < |cell|
    ensures FirstCrossing(bisector, cell, firstIndex).None? ==>
      secondIntersection.None? && clipped == head + FarEnds(cell, firstIndex, |cell|)
    ensures FirstCrossing(bisector, cell, firstIndex).Some? ==>
      var w := FirstCrossing(bisector, cell, firstIndex).value;
      secondIntersection == EdgeCrossing(bisector, cell, w) && secondIndex == Next(w, |cell|) &&
      clipped == head + FarEnds(cell, firstIndex, w) + [secondIntersection.value]
  {
    var n := |cell|;
    clipped, secondIntersection, secondIndex := head, None, 0;
    var k := firstIndex;
    while k < n
      invariant firstIndex <= k <= n
      invariant clipped == head + FarEnds(cell, firstIndex, k)
      invariant forall u :: firstIndex <= u < k ==> EdgeCrossing(bisector, cell, u).None?
      invariant secondIntersection.None?
    {
      var current, next := cell[k], cell[Next(k, n)];
      secondIntersection := LineSegmentIntersection(bisector, current, next);
      if secondIntersection.Some? {
        clipped := clipped + [secondIntersection.value];
        secondIndex := Next(k, n);
        FirstCrossingAt(bisector, cell, firstIndex, k);
        return;
      }
      clipped := clipped + [next];
      k := k + 1;
    }
  }

  /** The body of compute's loop over the other sites, for one non-degenerate bisector. */
  method ClipCell(cell: seq<Point>, site: Point, bisector: Line, lastVertex: Option<Point>) returns (out: ClipOutcome)
    ensures out == Clip(bisector, cell, site, lastVertex)
  {
    var clipped, firstIntersection, firstIndex, v := FirstScan(bisector, cell);
    if clipped == [] {
      return Clipped(cell, lastVertex);
    }
    var secondIntersection, secondIndex;
    clipped, secondIntersection, secondIndex := SecondScan(bisector, cell, clipped, firstIndex);
    assert clipped == FirstArc(bisector, cell, v);

    var inside := IsPointInPolygon(site, clipped);
    if inside {
      return Clipped(clipped, lastVertex);
    }
    if secondIntersection.None? {
      return Crashed(NullSecondIntersection);
    }

    // Rebuild from the complementary run of vertices.
    ghost var w := FirstCrossing(bisector, cell, firstIndex).value;
    assert Clip(bisector, cell, site, lastVertex) == Complement(bisector, cell, v, w, lastVertex);
    var second := secondIntersection.value;
    var walked, vertex1 := WalkComplement(cell, secondIndex, firstIndex, lastVertex);
    clipped := (if PointsEqual(second, cell[secondIndex]) then [] else [second]) + walked;
    if vertex1.None? {
      return Crashed(UndefinedLastVertex);
    }
    if !PointsEqual(firstIntersection.value, vertex1.value) {
      clipped := clipped + [firstIntersection.value];
    }
    return Clipped(clipped, vertex1);
  }

  // ---------------------------------------------------------------------------
  // The whole diagram

  /** A bisector with both normal coefficients 0 (two equal sites) puts no constraint on a cell. */
  predicate Degenerate(l: Line)
  {
    l.a == 0.0 && l.b == 0.0
  }

  /**
   * The inner loop of compute for site i: clip `cell` by the bisector with
   * each of the sites j, j + 1, ..., skipping site i itself and degenerate
   * bisectors, threading vertex1 through and stopping at the first fault.
   */
  function ClipByOthers(sites: seq<Point>, i: nat, j: nat, cell: seq<Point>, lastVertex: Option<Point>): ClipOutcome
    requires i < |sites| && j <= |sites|
    decreases |sites| - j
  {
    if j == |sites| then Clipped(cell, lastVertex)
    else
      var bisector := Bisector(sites[i], sites[j]);
      if j == i || Degenerate(bisector) then ClipByOthers(sites, i, j + 1, cell, lastVertex)
      else
        match Clip(bisector, cell, sites[i], lastVertex)
        case Crashed(fault) => Crashed(fault)
        case Clipped(clipped, vertex1) => ClipByOthers(sites, i, j + 1, clipped, vertex1)
  }

  /** The entry compute pushes for a finished cell: None for an empty one. */
  function Entry(cell: seq<Point>): Option<seq<Point>>
  {
    if |cell| > 0 then Some(cell) else None
  }

  /** The processed sites and, per site in order, its cell or None for an empty one. */
  datatype Diagram = Diagram(sites: seq<Point>, cells: seq<Option<seq<Point>>>)

  /** The empty site list makes max_xy read a missing first point; the other faults come from a clip step. */
  datatype Failure = NoSites | ClipFault(fault: Fault)

  datatype Result<T> = Ok(value: T) | Failed(failure: Failure)

  /**
   * The outer loop of compute from site i on: each site's cell starts as the
   * box, `cells` holds the entries of the sites before i.
   */
  function CellsFrom(sites: seq<Point>, box: seq<Point>, i: nat, cells: seq<Option<seq<Point>>>, lastVertex: Option<Point>)
    : Result<seq<Option<seq<Point>>>>
    requires i <= |sites|
    decreases |sites| - i
  {
    if i == |sites| then Ok(cells)
    else
      match ClipByOthers(sites, i, 0, box, lastVertex)
      case Crashed(fault) => Failed(ClipFault(fault))
      case Clipped(cell, vertex1) => CellsFrom(sites, box, i + 1, cells + [Entry(cell)], vertex1)
  }

  /** The result compute returns for the given input, jitter draws and screen size. */
  function Computed(sites: seq<Point>, draws: seq<Draw>, width: real, height: real, padding: real): Result<Diagram>
    requires |draws| >= |Dedup(sites)| && ValidDraws(draws)
  {
    if |sites| == 0 then Failed(NoSites)
    else
      assert sites[0] in Dedup(sites);
      var processed := Jittered(Dedup(sites), draws);
      match CellsFrom(processed, Box(width, height, padding), 0, [], None)
      case Failed(failure) => Failed(failure)
      case Ok(cells) => Ok(Diagram(processed, cells))
  }

  /** q is a corner of the box or lies on the bisector of site i and some other site. */
  predicate FromBoxOrBisector(q: Point, box: seq<Point>, sites: seq<Point>, i: nat)
    requires i < |sites|
  {
    q in box || exists j :: 0 <= j < |sites| && j != i && OnLine(Bisector(sites[i], sites[j]), q)
  }

  /**
   * Clipping by the bisectors of site i with the sites from j on keeps every
   * vertex a box corner or a point of such a bisector.
   */
  lemma {:induction false} ClipByOthersProvenance(sites: seq<Point>, box: seq<Point>, i: nat, j: nat,
                                                  cell: seq<Point>, lastVertex: Option<Point>)
    requires i < |sites| && j <= |sites|
    requires forall q :: q in cell ==> FromBoxOrBisector(q, box, sites, i)
    ensures var out := ClipByOthers(sites, i, j, cell, lastVertex);
      out.Clipped? ==> forall q :: q in out.cell ==> FromBoxOrBisector(q, box, sites, i)
    decreases |sites| - j
  {
    if j < |sites| {
      var bisector := Bisector(sites[i], sites[j]);
      if j == i || Degenerate(bisector) {
        ClipByOthersProvenance(sites, box, i, j + 1, cell, lastVertex);
      } else {
        var out := Clip(bisector, cell, sites[i], lastVertex);
        if out.Clipped? {
          forall q | q in out.cell
            ensures FromBoxOrBisector(q, box, sites, i)
          {
            if q !in cell {
              assert OnLine(Bisector(sites[i], sites[j]), q);
            }
          }
          ClipByOthersProvenance(sites, box, i, j + 1, out.cell, out.lastVertex);
        }
      }
    }
  }

  /**
   * A successful outer loop has one entry per site, in site order; each
   * entry is None or a non-empty vertex list of box corners and points of
   * bisectors between that site and another.
   */
  lemma {:induction false} CellsFromShape(sites: seq<Point>, box: seq<Point>, i: nat,
                                          cells: seq<Option<seq<Point>>>, lastVertex: Option<Point>)
    requires i <= |sites| && |cells| == i
    requires forall k :: 0 <= k < i && cells[k].Some? ==> |cells[k].value| > 0
    requires forall k, q :: 0 <= k < i && cells[k].Some? && q in cells[k].value ==> FromBoxOrBisector(q, box, sites, k)
    ensures var r := CellsFrom(sites, box, i, cells, lastVertex);
      r.Ok? ==> |r.value| == |sites| && r.value[..i] == cells
    ensures var r := CellsFrom(sites, box, i, cells, lastVertex);
      r.Ok? ==> forall k :: 0 <= k < |r.value| && r.value[k].Some? ==> |r.value[k].value| > 0
    ensures var r := CellsFrom(sites, box, i, cells, lastVertex);
      r.Ok? ==> forall k, q :: 0 <= k < |r.value| && r.value[k].Some? && q in r.value[k].value ==>
        FromBoxOrBisector(q, box, sites, k)
    decreases |sites| - i
  {
    if i < |sites| {
      match ClipByOthers(sites, i, 0, box, lastVertex)
      case Crashed(_) =>
      case Clipped(cell, vertex1) =>
        assert forall q :: q in box ==> FromBoxOrBisector(q, box, sites, i);
        ClipByOthersProvenance(sites, box, i, 0, box, lastVertex);
        var cells' := cells + [Entry(cell)];
        CellsFromShape(sites, box, i + 1, cells', vertex1);
        var r := CellsFrom(sites, box, i + 1, cells', vertex1);
        if r.Ok? {
          assert r.value[..i] == r.value[..i + 1][..i];
        }
    }
  }

  /**
   * The inner loop of compute for site i: starting from the box, clip the
   * cell by the bisector with every other site in index order, skipping
   * degenerate bisectors and stopping at the first fault.
   */
  method ClipAgainstOthers(sites: seq<Point>, siteIndex: nat, box: seq<Point>, lastVertex: Option<Point>)
    returns (out: ClipOutcome)
    requires siteIndex < |sites|
    ensures out == ClipByOthers(sites, siteIndex, 0, box, lastVertex)
  {
    var cell := box;
    var vertex1 := lastVertex;
    var currentSite := sites[siteIndex];
    var otherIndex := 0;
    while otherIndex < |sites|
      invariant 0 <= otherIndex <= |sites|
      invariant ClipByOthers(sites, siteIndex, otherIndex, cell, vertex1) == ClipByOthers(sites, siteIndex, 0, box, lastVertex)
    {
      if siteIndex != otherIndex {
        var otherSite := sites[otherIndex];
        var bisector := Bisector(currentSite, otherSite);
        if !Degenerate(bisector) {
          var step := ClipCell(cell, currentSite, bisector, vertex1);
          if step.Crashed? {
            return step;
          }
          cell, vertex1 := step.cell, step.lastVertex;
        }
      }
      otherIndex := otherIndex + 1;
    }
    return Clipped(cell, vertex1);
  }

  /**
   * compute: the processed sites and one entry per site, in site order: None
   * for an empty cell, otherwise a non-empty vertex list whose every vertex
   * is a box corner or a point of a bisector between that site and another.
   */
  method Compute(sites: seq<Point>, draws: seq<Draw>, width: real, height: real, padding: real)
    returns (result: Result<Diagram>)
    requires |draws| >= |Dedup(sites)| && ValidDraws(draws)
    ensures result == Computed(sites, draws, width, height, padding)
    ensures result.Ok? ==> result.value.sites == Jittered(Dedup(sites), draws)
    ensures result.Ok? ==> |result.value.cells| == |result.value.sites|
    ensures result.Ok? ==> forall i :: 0 <= i < |result.value.cells| && result.value.cells[i].Some? ==>
      |result.value.cells[i].value| > 0
    ensures result.Ok? ==> forall i, q ::
      0 <= i < |result.value.cells| && result.value.cells[i].Some? && q in result.value.cells[i].value ==>
        FromBoxOrBisector(q, Box(width, height, padding), result.value.sites, i)
  {
    if |sites| == 0 {
      return Failed(NoSites);
    }
    var processed := PreprocessSites(sites, draws);
    var box := Box(width, height, padding);
    CellsFromShape(processed, box, 0, [], None);
    ghost var spec := CellsFrom(processed, box, 0, [], None);

    var cells: seq<Option<seq<Point>>> := [];
    var lastVertex: Option<Point> := None;
    var siteIndex := 0;
    while siteIndex < |processed|
      invariant 0 <= siteIndex <= |processed|
      invariant CellsFrom(processed, box, siteIndex, cells, lastVertex) == spec
    {
      var out := ClipAgainstOthers(processed, siteIndex, box, lastVertex);
      if out.Crashed? {
        return Failed(ClipFault(out.fault));
      }
      cells, lastVertex := cells + [Entry(out.cell)], out.lastVertex;
      siteIndex := siteIndex + 1;
    }
    return Ok(Diagram(processed, cells));
  }
}
