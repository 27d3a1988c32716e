# Bezier-to-polyline flattening (KiCad `common/bezier_curves.cpp`)

This project models KiCad's converter from quadratic and cubic Bezier
curves to polylines. The curve is split at t = 0.5 by de Casteljau
midpoints, computed with C++'s truncating integer division. A recursion
then decides, level by level, to stop or to split again. It stops on three
grounds: the flatness test, the collinear test, or the fixed depth limit.
Each stopping level offers at most one point to `add_segment`. That rule
appends a point to the file-static buffer `bezier_points` only when the
point differs from the buffer's last point. `Bezier2Poly` does four
things: it clears the buffer, derives the squared tolerance from the
approximation scale, pushes the first control point and runs the
recursion, and finally pushes the last control point unconditionally.

Modules:

- `Geometry`: integer points, the truncating midpoint, and the
  cross/dot products. It also has `calc_sq_distance`, and a reference
  definition of "strictly between two points on a line" in real
  arithmetic, proved equal to the projection test the source uses. A
  second reference definition, the distance of a point from the chord line,
  gives the flatness test its geometric meaning.
- `Emitter`: the `add_segment` rule over a sequence, and what it does to
  a whole list of offered points.
- `Settings`: the file's tuning statics as constants, the tolerance
  derivation, and the three things one level can decide.
- `Recursion`: the recursion shared by both routines, parameterised by
  the decision and the subdivision. It also carries the general lemmas
  about what the recursion offers.
- `Quadratic` and `Cubic`: the decision one level takes, the points the
  whole recursion offers, the polyline `Bezier2Poly` returns, and the
  properties of each.
- `BezierCurves`: class `BezierConverter`. Its fields are the buffer and
  the squared tolerance. Its methods are `add_segment`, the two
  `recursive_bezier` routines and the four `Bezier2Poly` overloads. Each
  method is proved to leave the buffer exactly as the functions of
  `Quadratic` and `Cubic` describe.

## Model

| member | source | states |
|---|---|---|
| Geometry.Half | common/bezier_curves.cpp:98-103 | `a / 2` on `int` truncates toward zero: the remainder is 0 or 1 for a non-negative a, and 0 or -1 for a negative a |
| Geometry.Mid | common/bezier_curves.cpp:188-199 | each coordinate of a midpoint lies between the two points' coordinates |
| Geometry.MidInBox | common/bezier_curves.cpp:98-103 | a midpoint of two points in an axis-aligned box stays in the box |
| Geometry.SqDistance | common/bezier_curves.cpp:51-57 | `calc_sq_distance` is never negative and is zero exactly when the two points coincide |
| Geometry.SqDistanceSymmetric | common/bezier_curves.cpp:147-161 | the argument order of `calc_sq_distance` does not matter (the source calls it both ways round) |
| Geometry.CrossFromEitherEnd | common/bezier_curves.cpp:107 | the cross product the source takes from the far end point (P2 − P3 against the chord) equals the one taken from the near end, which the projection test uses |
| Geometry.CollinearProjection | common/bezier_curves.cpp:151-163 | for a point on the chord line, the point at the projection parameter `dot / len²` is the point itself |
| Geometry.StrictlyInsideIff | common/bezier_curves.cpp:151-157 | the integer test "cross = 0, chord ≠ 0, 0 < dot < len²" holds exactly when the point is a convex combination of the end points with a parameter strictly between 0 and 1 |
| Geometry.ClampedEndIsNearer | common/bezier_curves.cpp:158-161 | the end point a projection is clamped to is the nearer one: a projection at or before the start leaves the point no farther from the start than from the end, and one at or beyond the end leaves it no farther from the end |
| Geometry.CrossMeasuresLineDistance | common/bezier_curves.cpp:105-107 | the squared cross product against a distinct chord equals the squared chord length times the squared distance of the point from the chord line, measured at the foot of the perpendicular |
| Geometry.FootIsNearest | common/bezier_curves.cpp:163 | the point at the projection parameter is the point of the chord line nearest to the given point, so the distance measured there is the distance from the line |
| Geometry.CrossBoundIff | common/bezier_curves.cpp:113 | for a distinct chord, `d² ≤ tol · len²` on the absolute cross product d holds exactly when the point is within √tol of the chord line |
| Emitter.AddSegment | common/bezier_curves.cpp:9 | `add_segment`: the point becomes the last one; the buffer keeps its old contents as a prefix and grows by one exactly when the point differs from the old last point; no neighbouring duplicates are created |
| Emitter.AddSegments | common/bezier_curves.cpp:9 | offering a list of points keeps the old buffer as a prefix, adds at most one point per offer, and ends with the last offered point |
| Emitter.AddSegmentsFrom | common/bezier_curves.cpp:9 | every point the buffer gains is one of the offered points |
| Emitter.AddSegmentsNoStutter | common/bezier_curves.cpp:9 | a buffer without neighbouring duplicates keeps that property through any sequence of `add_segment` calls |
| Emitter.AddSegmentsConcat | common/bezier_curves.cpp:174-175 | offering a + b is offering a and then b, so all points of the left half reach the buffer before any point of the right half |
| Emitter.RepeatedPointDropped | common/bezier_curves.cpp:9 | offering the buffer's only point again leaves the buffer unchanged |
| Settings.ToleranceSquare | common/bezier_curves.cpp:64-65 | the squared tolerance `(0.5 / scale)²` is positive and satisfies `4 · scale² · tol = 1` |
| Settings.DefaultToleranceIsOne | common/bezier_curves.cpp:16 | with the file's scale of 0.5 the squared tolerance is exactly 1 |
| Settings.WithinToleranceMeaning | common/bezier_curves.cpp:105-113 | the flatness test on the deviation taken from the far end point passes exactly when the inner point lies within √tol of the line through the end points |
| Settings.WithinToleranceMonotone | common/bezier_curves.cpp:347 | a deviation no larger than one that passes the flatness test passes it too |
| Recursion.Offered | common/bezier_curves.cpp:91-94 | a call deeper than the recursion limit offers nothing; a call at depth d offers at most 2^(12 − d) points |
| Recursion.OfferedSatisfy | common/bezier_curves.cpp:174-175 | a property that every appended point has, and that both halves inherit, holds of every offered point at any depth |
| Recursion.OfferedReverse | common/bezier_curves.cpp:174-175 | when decisions ignore direction and reversing swaps the halves, the reversed curve offers the same points in reverse order |
| Recursion.SeqReverseConcat | common/bezier_curves.cpp:174-175 | reversing a concatenation swaps and reverses its parts |
| Quadratic.Split | common/bezier_curves.cpp:98-103 | the halves (P1, P12, P123) and (P123, P23, P3) keep the end points and share the split point |
| Quadratic.SplitInBox | common/bezier_curves.cpp:174-175 | both halves stay in every box that holds the control points |
| Quadratic.EndDistance | common/bezier_curves.cpp:144-164 | the collinear-case distance is never negative, and whenever P2 does not project strictly inside a real chord it is the squared distance from P2 to the nearer of P1 and P3 |
| Quadratic.Decide | common/bezier_curves.cpp:105-170 | off the chord line the level appends P123 if and only if `d² ≤ tol · len²` and otherwise subdivides; on the line it appends P2 only when the clamped end distance is below tol, and subdivides only when it is not |
| Quadratic.Emitted | common/bezier_curves.cpp:89-176 | a call deeper than 12 offers nothing, and the whole recursion offers at most 2^12 points |
| Quadratic.Polyline | common/bezier_curves.cpp:60-72 | the result of `Bezier2Poly` starts with P1, ends with P3, and has between 2 and 2^12 + 2 points |
| Quadratic.DecideStraightIff | common/bezier_curves.cpp:140-157 | a level stops without appending exactly when P2 lies strictly between two distinct end points |
| Quadratic.FlatnessIff | common/bezier_curves.cpp:105-124 | off the chord line the chord is real, and a level appends P123 exactly when P2 lies within √tol of the line through P1 and P3 |
| Quadratic.EmittedInBox | common/bezier_curves.cpp:119-168 | every offered point lies in every box holding the control points |
| Quadratic.ReverseMeasures | common/bezier_curves.cpp:105-151 | reversing the curve keeps the deviation, the chord length and the split point, and turns the projection t into len² − t |
| Quadratic.DecideReverse | common/bezier_curves.cpp:105-170 | the decision does not depend on the direction of traversal |
| Quadratic.SplitReverse | common/bezier_curves.cpp:98-103 | splitting the reversed curve gives the reversed halves, swapped |
| Quadratic.EmittedReverse | common/bezier_curves.cpp:89-176 | the reversed curve offers the same points in reverse order |
| Quadratic.PolylineShape | common/bezier_curves.cpp:60-72 | the result starts with P1 and ends with P3, has 2 to 2^12 + 2 points, has no equal neighbours except possibly the final pair, and lies in every box holding the control points |
| Quadratic.StraightLine | common/bezier_curves.cpp:150-157 | with P2 strictly between P1 and P3 the result is exactly [P1, P3] |
| Quadratic.StraightLineExample | common/bezier_curves.cpp:150-157 | (0,0), (5,0), (10,0) gives [(0,0), (10,0)] |
| Quadratic.DecideCoincident | common/bezier_curves.cpp:144-168 | three equal control points make the level append P2 |
| Quadratic.EmittedCoincident | common/bezier_curves.cpp:144-168 | three equal control points make the recursion offer just that point |
| Quadratic.CoincidentControlPoints | common/bezier_curves.cpp:66-68 | three equal control points give that point exactly twice |
| Quadratic.PolylineOfSingle | common/bezier_curves.cpp:66-68 | when the only offered point equals both end points, the result is that point twice |
| Quadratic.EmittedSingle | common/bezier_curves.cpp:165-168 | a top level that appends one point makes the recursion offer just that point |
| Quadratic.ForwardEnd | common/bezier_curves.cpp:142-161 | (0,0), (len,0), (len,0) with len > 0 is collinear, P2 projects at the far end and lies at distance 0 from P3 |
| Quadratic.BackwardEnd | common/bezier_curves.cpp:142-159 | (len,0), (len,0), (0,0) with len > 0 is collinear, P2 projects at the start and lies at distance 0 from P1 |
| Quadratic.PolylineNotReversed | common/bezier_curves.cpp:60-72 | although the offered points are reversal-symmetric, the returned polyline is not: (0,0), (len,0), (len,0) gives [(0,0), (len,0), (len,0)] while its reversal gives [(len,0), (0,0)], because the end point is pushed without the `add_segment` check |
| Quadratic.LevelAfterAsWritten | common/bezier_curves.cpp:174-175 | the `level` the source passes down a path never exceeds the path length in magnitude |
| Quadratic.RightSpineEscapesGuard | common/bezier_curves.cpp:91-94 | as written, the level along the right-most path alternates 0, −1, 0, … and never passes the guard `abs(level) > 12` |
| Cubic.Split | common/bezier_curves.cpp:188-199 | the halves (P1, P12, P123, P1234) and (P1234, P234, P34, P4) keep the end points and share P1234 |
| Cubic.SplitInBox | common/bezier_curves.cpp:396-397 | both halves stay in every box that holds the control points |
| Cubic.ClassifyOnLine | common/bezier_curves.cpp:207-212 | the `switch` selector: P2 is on the line P1-P4 exactly in cases 0 and 1, and P3 exactly in cases 0 and 2, so case 0 means both are on it and case 3 neither |
| Cubic.ClampedDistance | common/bezier_curves.cpp:239-251 | the distance of an inner control point from its clamped projection: the squared distance to the nearer end whenever the projection is clamped, and 0 (the distance to the exact projected point, which is the point itself) when it falls strictly inside the chord; never more than the distance to the nearer end |
| Cubic.ClampedDistanceExact | common/bezier_curves.cpp:239-251 | for an inner control point on the line of a real chord, the value is exactly the squared distance to the chord's point at the projection parameter clamped to [0, 1] |
| Cubic.Distance2 | common/bezier_curves.cpp:218-245 | the value compared for P2: P2's squared distance to the nearer of P1 and P4 unless P2 projects strictly inside a real chord, and 0 (the distance to its exact projection) when it does |
| Cubic.Distance3 | common/bezier_curves.cpp:218-252 | the value compared for P3: P3's squared distance to the nearer of P1 and P4 unless P3 projects strictly inside a real chord, and 0 (the distance to its exact projection) when it does |
| Cubic.Decide | common/bezier_curves.cpp:204-391 | off the all-collinear case the level appends P23 exactly when `(d2 + d3)² ≤ tol · len²` and otherwise subdivides. In the all-collinear case it appends P2 only when d3 < d2 < tol, or P3 only when d2 ≤ d3 < tol, and subdivides only when the larger distance is at least tol |
| Cubic.Emitted | common/bezier_curves.cpp:179-398 | a call deeper than 12 offers nothing, and the whole recursion offers at most 2^12 points |
| Cubic.Polyline | common/bezier_curves.cpp:75-86 | the result of `Bezier2Poly` starts with P1, ends with P4, and has between 2 and 2^12 + 2 points |
| Cubic.ProjectionIsControlPoint | common/bezier_curves.cpp:243-251 | in the collinear case the projection of an inner control point on the chord is that control point |
| Cubic.DecideStraightIff | common/bezier_curves.cpp:233-238 | a level stops without appending exactly when P2 and P3 both lie strictly between two distinct end points |
| Cubic.FlatDeviations | common/bezier_curves.cpp:271-356 | a level off the collinear case that appends P23 has a real chord, and each of the two deviations passes the flatness test on its own |
| Cubic.FlatnessBound | common/bezier_curves.cpp:271-356 | a level off the collinear case that appends P23 leaves both P2 and P3 within √tol of the line through P1 and P4 |
| Cubic.EmittedInBox | common/bezier_curves.cpp:253-356 | every offered point lies in every box holding the control points |
| Cubic.PolylineShape | common/bezier_curves.cpp:75-86 | the result starts with P1 and ends with P4, has 2 to 2^12 + 2 points, has no equal neighbours except possibly the final pair, and lies in every box holding the control points |
| Cubic.StraightLine | common/bezier_curves.cpp:233-238 | with P2 and P3 strictly between P1 and P4 the result is exactly [P1, P4] |
| Cubic.StraightLineExample | common/bezier_curves.cpp:233-238 | (0,0), (3,0), (7,0), (10,0) gives [(0,0), (10,0)] |
| Cubic.EmittedSingle | common/bezier_curves.cpp:257-266 | a top level that appends one point makes the recursion offer just that point |
| Cubic.PolylineOfSingle | common/bezier_curves.cpp:81-83 | when the recursion offers one point p, the result is [P1, P4] if p = P1 and [P1, p, P4] otherwise |
| Cubic.CoincidentControlPoints | common/bezier_curves.cpp:219-222 | four equal control points give that point exactly twice |
| Cubic.CoincidentEmitted | common/bezier_curves.cpp:218-268 | four equal control points make the recursion offer just P3 |
| Cubic.CoincidentMeasures | common/bezier_curves.cpp:218-222 | four equal control points fall in case 0 with a zero chord and both distances zero |
| Cubic.CoincidentDistances | common/bezier_curves.cpp:218-222 | four equal control points give a zero chord and two zero distances |
| Cubic.CoincidentCollinear | common/bezier_curves.cpp:207-214 | inner control points equal to P4 select case 0 |
| Cubic.TieGoesToP3 | common/bezier_curves.cpp:253-268 | in the all-collinear case a tie between the two distances appends P3 when it is within tolerance |
| Cubic.HorizontalCollinear | common/bezier_curves.cpp:207-214 | control points all on the x axis select case 0 |
| Cubic.ForwardTie | common/bezier_curves.cpp:218-252 | for (0,0), (m,0), (len,0), (len,0) with 0 < m < len: case 0, not all inside, both distances zero |
| Cubic.BackwardTie | common/bezier_curves.cpp:218-252 | the same for the reversed curve |
| Cubic.ReversalAsymmetry | common/bezier_curves.cpp:253-268 | in the exact-arithmetic model, (0,0), (m,0), (len,0), (len,0) offers [(len,0)] while its reversal offers [(m,0)], which is not the reverse: unlike the quadratic recursion, the cubic one does not offer the reversed points for the reversed curve, because a tie goes to P3. The polylines are [(0,0), (len,0), (len,0)] and [(len,0), (m,0), (0,0)]. The source's `double` arithmetic gives the same results whenever len is a power of two, but not for every len (for example len = 7, m = 1; see Cubic.Decide under Left out) |
| BezierCurves.BezierConverter.constructor | common/bezier_curves.cpp:13-21 | the buffer starts empty and the tolerance zero |
| BezierCurves.BezierConverter.AddSegment | common/bezier_curves.cpp:9 | the buffer becomes `Emitter.AddSegment` of the old buffer |
| BezierCurves.BezierConverter.QuadDecision | common/bezier_curves.cpp:105-170 | the tests of one quadratic level, computed on the coordinates, return exactly `Quadratic.Decide` |
| BezierCurves.BezierConverter.RecursiveBezierQuad | common/bezier_curves.cpp:89-176 | the buffer becomes the old buffer with every point of `Quadratic.Emitted` offered in order |
| BezierCurves.BezierConverter.CubicDecision | common/bezier_curves.cpp:204-391 | the `switch` of one cubic level, computed on the coordinates, returns exactly `Cubic.Decide` |
| BezierCurves.BezierConverter.RecursiveBezierCubic | common/bezier_curves.cpp:179-398 | the buffer becomes the old buffer with every point of `Cubic.Emitted` offered in order |
| BezierCurves.BezierConverter.SetTolerance | common/bezier_curves.cpp:64-65 | the tolerance field becomes `(0.5 / scale)²` |
| BezierCurves.BezierConverter.Bezier2PolyQuad | common/bezier_curves.cpp:60-72 | the returned list is the buffer and equals `Quadratic.Polyline` of the arguments alone, whatever the state before |
| BezierCurves.BezierConverter.Bezier2PolyQuadPoints | common/bezier_curves.cpp:45-48 | the point overload returns `Quadratic.Polyline` of its three points |
| BezierCurves.BezierConverter.Bezier2PolyCubic | common/bezier_curves.cpp:75-86 | the returned list is the buffer and equals `Cubic.Polyline` of the arguments alone, whatever the state before |
| BezierCurves.BezierConverter.Bezier2PolyCubicPoints | common/bezier_curves.cpp:39-42 | the point overload returns `Cubic.Polyline` of its four points |

## Left out

- The `atan2` angle and cusp criteria (common/bezier_curves.cpp:125-137, 283-303, 319-339, 358-389) are not modelled. The statics at lines 19-22 are never assigned, so the angle tolerance 0 is below its epsilon and every flatness pass appends at once. These branches are dead code.
- `wxLogDebug` (lines 70, 84) is logging only.
- C++ `int` overflow in products such as `dx * dx` and the cross terms is not modelled. Coordinates are unbounded integers.
- The collinearity epsilon `1e-30` is modelled as "the integer cross product is not zero". For integer coordinates this is the same test.
- Cubic.Decide: the projection parameters of the collinear case are computed in `double` and compared with 0 and 1. The model compares the exact dot product with len² instead. When a projection falls strictly inside the chord, the source truncates the projected point to `int` before measuring its distance. The model uses the exact projected point instead, which is the control point itself (Cubic.ProjectionIsControlPoint), so the distance is 0. The two differ on small, ordinary inputs, not only in rounding noise. For (0,0), (1,0), (7,0), (7,0) the source computes P3's parameter as `(1/49) * 49`, which is just below 1 in `double`, so it stops at once and returns [(0,0), (7,0)]; the model sees the parameter 1 and returns [(0,0), (7,0), (7,0)]. For (0,0), (7,0), (9,0), (9,0) the source truncates P2's projected point to x = 6, measures a squared distance of 1, which is not below the tolerance, and subdivides; the model measures 0. When the chord length is a power of two, `1 / len²` and the projected points are exact and the two agree.
- The tuning statics `bezier_recursion_limit` and `bezier_approximation_scale` become constants, because nothing in the file assigns them. `bezier_distance_tolerance_square` is a field of the converter.
- BezierCurves.BezierConverter.RecursiveBezierQuad passes both halves one level deeper and takes a non-negative depth. The source passes the right half `-(level + 1)` (see Findings). The as-written level is modelled separately by Quadratic.LevelAfterAsWritten.
- The files eeschema/onleftclick.cpp, pagelayout_editor/menubar.cpp, pcbnew/dialogs/panel_pcbnew_settings.cpp and plugins/3d/vrml/v2/vrml2_shape.cpp are not part of this model. They are user-interface and file-format plumbing around the converter.

## Findings

| source | as written | input that shows it | evidently intended | confidence | as-written member | corrected member |
|---|---|---|---|---|---|---|
| common/bezier_curves.cpp:175 | the quadratic routine passes the right half `-(level + 1)`, and the guard at line 91 tests `abs(level) > 12` | the chain of right halves: its levels are 0, -1, 0, -1, … at any depth, so the guard never ends it, and only the flatness and collinear tests stop that branch | both halves one level deeper, as the cubic routine does at line 397, so no call goes deeper than 13 and the result has at most 2^12 + 2 points | not executed | Quadratic.RightSpineEscapesGuard | Quadratic.Emitted |
