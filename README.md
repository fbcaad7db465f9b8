# Voronoi wallpaper: a verified model of `VoronoiDiagram`

This project models the `VoronoiDiagram` class of `js/_voronoi.js` in Dafny.
The class builds the Voronoi cells of an animated wallpaper by repeated
half-plane clipping. Every site's cell starts as the padded screen box. The
cell is then cut by the perpendicular bisector between that site and each
other site. After the cuts, the cell's corners can be rounded for drawing.

Coordinates are Dafny `real`s, so every primitive is exact rational
arithmetic. The class's single field is `eps = 2^-23`. It is never changed
after construction, so it is the module constant `GeometryKernel.Eps` and
no class is modelled.

Modules, one file each:

- `Wrappers` (`wrappers.dfy`): the `Option` type. It stands for the
  source's `null` results.
- `GeometryKernel` (`geometry_kernel.dfy`) holds the primitives:
  - `two_points_equal`, `isclose`, `two_points_bisector`, `cross_prod` and
    `cross_2D`;
  - `line_and_segment_intersection`;
  - `is_point_in_polygon`, with its convex-polygon characterisation;
  - the wrap-around index steps `Next` and `Prev`.
- `SitePreprocessing` (`site_preprocessing.dfy`): `max_xy`, duplicate
  removal, the jitter, and `preprocess_sites`.
- `VoronoiBuilder` (`voronoi_builder.dfy`):
  - the padded box and one clip step;
  - `compute`, as imperative methods, each proved equal to a specification
    function. Properties of those functions are proved as lemmas.
- `CornerRounder` (`corner_rounder.dfy`): `calculateRoundedPolygon`.

How the model reads inputs and errors:

- **Screen size and padding.** `compute` reads the screen size from the
  browser globals `screen.width` and `screen.height`. Here they are the
  parameters `width` and `height`. The padding, whose default is 10, is the
  parameter `padding`.
- **Jitter.** `preprocess_sites` moves each site by p5's `random(0, offset)`
  on each axis. Here the caller supplies one pair of fractions in [0, 1) per
  site, and the offset is fraction × range.
- **Hoisted `vertex1`.** The source declares `vertex1` with `var`, so one
  variable lives across the whole of `compute`. The complement loop can
  therefore run zero times and leave a value from an earlier clip step, or
  none at all. The model threads this value through every clip step as
  `lastVertex : Option<Point>`.
- **Errors the source throws.** `compute` throws a TypeError in three
  places. The model returns a `Failure` value for each:
  - `NoSites`: the site list is empty, and `max_xy` reads `points[0][0]`.
  - `NullSecondIntersection`: the site is outside the first arc and no
    second crossing was found, so a null point is dereferenced (line 74).
  - `UndefinedLastVertex`: `vertex1` was never assigned and is compared
    (line 84).
- **Few sites.** `compute` has no special case for fewer than three sites,
  and neither has the model. One site keeps the whole box as its cell; two
  sites are clipped by their one bisector.
- **Throwing clip steps.** A clip step can throw at js/_voronoi.js:74 and
  at js/_voronoi.js:84. The model returns the `Failure` values above for
  those throws instead of a diagram.

## Model

| member | source | states |
|---|---|---|
| `GeometryKernel.PointsEqual` | js/_voronoi.js:132-134 | true exactly when the two points are equal |
| `GeometryKernel.IsClose` | js/_voronoi.js:190-192 | true exactly when u lies strictly within tolerance of v |
| `GeometryKernel.Bisector` | js/_voronoi.js:136-144 | the normal is (qx-px, qy-py); both normal coefficients are 0 exactly when p = q; the midpoint lies on the line |
| `GeometryKernel.BisectorEquidistant` | js/_voronoi.js:136-144 | a point lies on the bisector of p and q exactly when it is equally far from p and from q |
| `GeometryKernel.CrossProd` | js/_voronoi.js:179-188 | the result is orthogonal to both arguments |
| `GeometryKernel.Cross2D` | js/_voronoi.js:211-213 | cross_2D: the z-component u.x*v.y - u.y*v.x of the cross product of two plane vectors (its meaning is stated by `Cross2DIsCrossProd`) |
| `GeometryKernel.Cross2DIsCrossProd` | js/_voronoi.js:211-213 | cross_2D is the third component of cross_prod on vectors lifted into the plane, and is antisymmetric |
| `GeometryKernel.SegmentLine` | js/_voronoi.js:147-151 | the segment line passes through both endpoints; its normal is zero exactly when the endpoints coincide |
| `GeometryKernel.Proportional` | js/_voronoi.js:153 | the first parallel test: equal slopes a/b and equal intercepts c/b, with the divisions guarded by b != 0 on both lines (the source divides unguarded) |
| `GeometryKernel.ProportionalIsParallel` | js/_voronoi.js:153-160 | the proportional-lines test only rejects pairs whose cross product has third component 0, so the homogeneous test at line 159 subsumes it |
| `GeometryKernel.DividedOnLine` | js/_voronoi.js:162 | dividing a vector orthogonal to a line by its third component gives a point of that line |
| `GeometryKernel.OnBothIsMeet` | js/_voronoi.js:157-162 | any point on two non-parallel lines is the divided cross product |
| `GeometryKernel.Meet` | js/_voronoi.js:157-162 | the divided cross product lies on both lines and is their only common point |
| `GeometryKernel.Straddles` | js/_voronoi.js:168-169 | (v < e1) != (v < e2) holds exactly when v lies between the ends, lower end included |
| `GeometryKernel.LineSegmentIntersection` | js/_voronoi.js:146-177 | a result lies on the cutting line and on the segment line and passes the vertical/horizontal/between rule; parallel lines give None; None for non-parallel lines means their common point fails the rule |
| `GeometryKernel.StraddlesX` | js/_voronoi.js:168 | a point of the segment line strictly between the endpoints' x lies on the segment |
| `GeometryKernel.StraddlesY` | js/_voronoi.js:169 | a point of the segment line strictly between the endpoints' y lies on the segment |
| `GeometryKernel.AcceptedOnSegment` | js/_voronoi.js:164-175 | the acceptance rule for a line point: near an endpoint coordinate or between the ends of a nearly vertical or nearly horizontal segment, or strictly between the ends on both axes, with tolerance eps |
| `GeometryKernel.IntersectionNearSegment` | js/_voronoi.js:164-175 | a returned point lies on the closed segment, or is within eps of an endpoint coordinate of a nearly vertical or horizontal segment |
| `GeometryKernel.IsPointInPolygon` | js/_voronoi.js:195-209 | returns true exactly when the corner test passes at every vertex triple (i, i+1, i+2 mod n), false exactly when some triple fails |
| `GeometryKernel.CornerTest` | js/_voronoi.js:199-203 | the test at one corner: pt is on the same side of the edge as the next edge, and on the same side of the next edge as the edge, by signs of cross_2D products |
| `GeometryKernel.CornerAt` | js/_voronoi.js:199-203 | the corner test at the vertex triple (i, i+1, i+2), indices modulo the vertex count |
| `GeometryKernel.Inside` | js/_voronoi.js:198-208 | the loop's verdict: the corner test passes at every vertex index |
| `GeometryKernel.CornerTestBySides` | js/_voronoi.js:199-203 | the corner test says pt is on the same side of both corner edges as the polygon's turn |
| `GeometryKernel.NextIndex` | js/_voronoi.js:199-201 | (i+1) % n is i+1 or wraps to 0, and two steps give (i+2) % n |
| `GeometryKernel.NextIsModular` | js/_voronoi.js:39 | Next(i, n) is (i+1) % n, and Next twice is (i+2) % n |
| `GeometryKernel.PrevIsModular` | js/_voronoi.js:222 | Prev(i, n) is (i-1+n) % n |
| `GeometryKernel.PrevOfNext` | js/_voronoi.js:76-78 | Prev undoes Next, and Next stays in range |
| `GeometryKernel.CornerAtBySides` | js/_voronoi.js:195-209 | at a corner that turns the polygon's way, the test passes exactly when pt is on the inner side of both adjacent edges |
| `GeometryKernel.ConvexInsideIff` | js/_voronoi.js:195-209 | for a polygon whose corners all turn the same way, the test returns true exactly when pt is on the inner side of every edge |
| `SitePreprocessing.MaxAbsIsBound` | js/_voronoi.js:116-124 | no absolute coordinate on an axis exceeds the running maximum |
| `SitePreprocessing.MaxAbsIsAttained` | js/_voronoi.js:116-124 | the running maximum is the absolute coordinate of some point |
| `SitePreprocessing.MaxAbs` | js/_voronoi.js:116-124 | the running maximum of absolute coordinates on one axis, over a non-empty list |
| `SitePreprocessing.Magnitude` | js/_voronoi.js:126-129 | the max_xy pair: each axis's running maximum, raised to 1 when it is smaller |
| `SitePreprocessing.MaxXY` | js/_voronoi.js:116-130 | each component is max(1, largest absolute coordinate on its axis): at least 1, at least every absolute coordinate, and 1 or one of them |
| `SitePreprocessing.Dedup` | js/_voronoi.js:102 | keeps exactly the points of the input, each once |
| `SitePreprocessing.FirstIndex` | js/_voronoi.js:102 | the position of a point's first occurrence |
| `SitePreprocessing.DedupKeepsFirstOccurrenceOrder` | js/_voronoi.js:102 | the kept sites appear in the order of their first occurrence |
| `SitePreprocessing.ShiftIsSmall` | js/_voronoi.js:109-110 | a site moved by a fraction in [0, 1) of the range moves up by at least 0 and less than the range on each axis |
| `SitePreprocessing.JitterRange` | js/_voronoi.js:104-106 | the offset range on each axis: eps * 100 * that axis's max_xy component |
| `SitePreprocessing.Shift` | js/_voronoi.js:109-110 | one site moved by random(0, range) on each axis, as fraction * range |
| `SitePreprocessing.Jittered` | js/_voronoi.js:104-111 | every unique site shifted by its own draw, in order, with one shared range |
| `SitePreprocessing.JitterIsSmall` | js/_voronoi.js:104-111 | every jittered coordinate exceeds the original by an amount in [0, eps * max(1, largest absolute coordinate on that axis) * 100) |
| `SitePreprocessing.PreprocessSites` | js/_voronoi.js:101-114 | the result is the deduplicated sites, each shifted by its own draw times eps * 100 * the max_xy magnitude |
| `VoronoiBuilder.BoxTurnsLeft` | js/_voronoi.js:9-19 | the padded box is convex, and every corner turns the same way |
| `VoronoiBuilder.BoxInnerSides` | js/_voronoi.js:9-19 | a point is on the inner side of every box edge exactly when it lies in the closed padded rectangle |
| `VoronoiBuilder.BoxInsideIff` | js/_voronoi.js:9-19 | is_point_in_polygon on the box is true exactly when -padding <= x <= width+padding and -padding <= y <= height+padding |
| `VoronoiBuilder.Box` | js/_voronoi.js:9-19 | the padded box: corners (left, top), (right, top), (right, bottom), (left, bottom) with left = top = -padding, right = width + padding, bottom = height + padding |
| `VoronoiBuilder.EdgeCrossing` | js/_voronoi.js:38-40 | the crossing of the bisector with edge v of the cell, from vertex v to vertex (v+1) mod n; the second scan makes the same call at js/_voronoi.js:62 |
| `VoronoiBuilder.Degenerate` | js/_voronoi.js:35 | a bisector with both normal coefficients 0, which compute skips |
| `VoronoiBuilder.FirstCrossing` | js/_voronoi.js:37-54 | the lowest crossed edge at or after the start, with no crossed edge before it; None when no edge from there on is crossed |
| `VoronoiBuilder.FirstCrossingAt` | js/_voronoi.js:37-54 | a crossed edge with no crossed edge before it is the first crossing |
| `VoronoiBuilder.ResumeIndex` | js/_voronoi.js:43-51 | the second scan starts at a vertex index in range |
| `VoronoiBuilder.ArcHead` | js/_voronoi.js:43-51 | the two pushed points start with a point of the bisector and continue with a cell vertex |
| `VoronoiBuilder.FarEnds` | js/_voronoi.js:59-71 | the second scan pushes one cell vertex per uncrossed edge |
| `VoronoiBuilder.FirstArc` | js/_voronoi.js:37-71 | the first two scans build at least three vertices, starting on the bisector and ending on it when a second crossing exists, all cell vertices or bisector points |
| `VoronoiBuilder.DistanceStep` | js/_voronoi.js:76 | each step of the complement loop brings the index one step closer to the stop index, so the loop ends |
| `VoronoiBuilder.DistinctWalk` | js/_voronoi.js:76-82 | the complement walk keeps only cell vertices, at most one per step |
| `VoronoiBuilder.Complement` | js/_voronoi.js:73-85 | the rebuilt cell holds only cell vertices and bisector points; it fails only with an undefined vertex1, and only when none was ever assigned |
| `VoronoiBuilder.Clip` | js/_voronoi.js:30-88 | with no crossed edge the cell and vertex1 are unchanged; a clipped cell holds only old vertices and bisector points; a fault needs a crossed edge; an undefined-vertex1 fault needs vertex1 never assigned |
| `VoronoiBuilder.WalkComplement` | js/_voronoi.js:76-82 | the loop pushes exactly the complement walk, and vertex1 ends as the vertex before the stop index (or keeps its old value when the loop does not run) |
| `VoronoiBuilder.FirstScan` | js/_voronoi.js:37-54 | finds nothing exactly when no edge is crossed; otherwise the first crossed edge, its crossing, the two pushed points and the resume index |
| `VoronoiBuilder.SecondScan` | js/_voronoi.js:59-71 | pushes the far ends up to the next crossed edge and that crossing, or every far end with a null second crossing |
| `VoronoiBuilder.ClipCell` | js/_voronoi.js:30-88 | one clip step of compute returns exactly the clip specification |
| `VoronoiBuilder.ClipByOthers` | js/_voronoi.js:27-89 | the inner loop for site i: clip by each other site's bisector in index order, skipping i itself and degenerate bisectors, threading vertex1 through, stopping at the first fault |
| `VoronoiBuilder.ClipAgainstOthers` | js/_voronoi.js:24-89 | the inner loop of compute for one site, starting from the box, returns exactly the clip-by-others specification, including its first fault |
| `VoronoiBuilder.Entry` | js/_voronoi.js:91-95 | a finished cell is pushed as itself when non-empty, as null when empty |
| `VoronoiBuilder.CellsFrom` | js/_voronoi.js:23-96 | the outer loop: for each site in order, its clipped box as an entry, vertex1 carried from one site to the next, stopping at the first fault |
| `VoronoiBuilder.Computed` | js/_voronoi.js:8-99 | the compute result: NoSites for an empty input, otherwise the jittered unique sites with their cells, or the first clip fault |
| `VoronoiBuilder.ClipByOthersProvenance` | js/_voronoi.js:27-89 | clipping site i's cell by its bisectors keeps every vertex a box corner or a point of a bisector between site i and another site |
| `VoronoiBuilder.CellsFromShape` | js/_voronoi.js:23-96 | a finished diagram has one entry per site, in site order; each is None or a non-empty list of box corners and that site's bisector points |
| `VoronoiBuilder.Compute` | js/_voronoi.js:8-99 | returns exactly the compute specification: the jittered deduplicated sites, one entry per site, each None or a non-empty list of box corners and bisector points of that site |
| `CornerRounder.RoundCorner` | js/_voronoi.js:221-256 | the record's corner is the vertex; its radius is at most the requested radius and half of each adjacent edge length, and equals one of the three |
| `CornerRounder.Normalized` | js/_voronoi.js:234-242 | an edge vector divided by its length when that length is positive, left as it is otherwise |
| `CornerRounder.Offset` | js/_voronoi.js:248-249 | the corner moved along a normalized edge vector by the radius |
| `CornerRounder.OffsetAlongEdge` | js/_voronoi.js:227-249 | moving a corner by r along its normalized edge of length len > 0 gives the point a fraction r / len along the edge, at most half way when r <= len / 2; a zero-length edge leaves the corner in place |
| `CornerRounder.RadiusIsNonNegative` | js/_voronoi.js:245 | a non-negative requested radius gives a non-negative radius |
| `CornerRounder.StartOnPreviousEdge` | js/_voronoi.js:222-248 | the start point is the corner pulled toward the previous vertex by the radius, a fraction radius / len of that edge and at most half of it; it is the corner itself when that edge has length 0 |
| `CornerRounder.EndOnNextEdge` | js/_voronoi.js:224-249 | the end point is the corner pulled toward the next vertex by the radius, a fraction radius / len of that edge and at most half of it; it is the corner itself when that edge has length 0 |
| `CornerRounder.CalculateRoundedPolygon` | js/_voronoi.js:215-260 | None exactly when there are fewer than three vertices; otherwise one record per vertex, in order |

## Left out

- Floating point: coordinates are exact reals. NaN and Infinity from the unguarded divisions by `line[1]` and `segmentLine[1]` at js/_voronoi.js:153 are not reproduced. The model guards that division, and `ProportionalIsParallel` shows the homogeneous test subsumes it.
- `Math.sqrt` in `calculateRoundedPolygon` is the parameter `length`. The lemmas assume only that it is non-negative and is 0 for the zero vector alone.
- p5's `random` and the `screen` globals are parameters. The jitter draws must cover every kept site.
- `PreprocessSites`: returns a fresh sequence. The source instead writes the jitter into the caller's site arrays, which the kept map entries alias.
- `Dedup`: compares two-coordinate points. The source compares `JSON.stringify` keys of whole site arrays. For finite numbers the two agree; `-0` and `0` give the same key and also compare equal. They differ in two ways. First, `NaN`, `Infinity` and `-Infinity` all give the key `null`, so the source merges sites that differ only in those values. The model's reals have none of those values. Second, a site array with more than two entries gets a key that includes every entry, so the source keeps sites that agree on x and y but differ in later entries. The model's points have no later entries.
- Global Voronoi correctness is not proved. This covers disjoint cells, cells covering the box, each site lying in its own cell, and the complement branch building the right convex cell. The code does not establish these.
- Containment of every vertex in the padded box is not proved. Intersections accepted within eps of an endpoint can lie slightly outside it.
- The rendering and animation code of the wallpaper is not part of this model: dot movement, physics, Delaunay calls, drawing and host-property callbacks.
