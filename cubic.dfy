/** The cubic flattener: the decision one level of `recursive_bezier` takes
    for the control points P1, P2, P3, P4, the points the whole recursion
    offers to `add_segment`, and the polyline `Bezier2Poly` returns. */
module Cubic {
  import opened Geometry
  import opened Emitter
  import opened Settings
  import opened Recursion

  datatype CubicCurve = CubicCurve(p1: Point, p2: Point, p3: Point, p4: Point)

  /** The same curve traversed from P4 to P1. */
  function Reverse(c: CubicCurve): CubicCurve {
    CubicCurve(c.p4, c.p3, c.p2, c.p1)
  }

  predicate ControlsIn(c: CubicCurve, b: Box) {
    InBox(c.p1, b) && InBox(c.p2, b) && InBox(c.p3, b) && InBox(c.p4, b)
  }

  /** P1234, the curve's point at parameter 0.5 up to truncation. */
  function SplitPoint(c: CubicCurve): Point {
    Mid(Mid(Mid(c.p1, c.p2), Mid(c.p2, c.p3)), Mid(Mid(c.p2, c.p3), Mid(c.p3, c.p4)))
  }

  /** De Casteljau subdivision at parameter 0.5 with truncating midpoints:
      (P1, P12, P123, P1234) and (P1234, P234, P34, P4). */
  function Split(c: CubicCurve): (halves: (CubicCurve, CubicCurve))
    ensures halves.0.p1 == c.p1 && halves.1.p4 == c.p4
    ensures halves.0.p4 == halves.1.p1 == SplitPoint(c)
  {
    var p12 := Mid(c.p1, c.p2);
    var p23 := Mid(c.p2, c.p3);
    var p34 := Mid(c.p3, c.p4);
    var p123 := Mid(p12, p23);
    var p234 := Mid(p23, p34);
    var p1234 := Mid(p123, p234);
    (CubicCurve(c.p1, p12, p123, p1234), CubicCurve(p1234, p234, p34, c.p4))
  }

  /** Both halves stay inside any box that holds the control points. */
  lemma SplitInBox(c: CubicCurve, b: Box)
    requires ControlsIn(c, b)
    ensures ControlsIn(Split(c).0, b) && ControlsIn(Split(c).1, b)
  {
    var p12, p23, p34 := Mid(c.p1, c.p2), Mid(c.p2, c.p3), Mid(c.p3, c.p4);
    MidInBox(c.p1, c.p2, b);
    MidInBox(c.p2, c.p3, b);
    MidInBox(c.p3, c.p4, b);
    MidInBox(p12, p23, b);
    MidInBox(p23, p34, b);
    MidInBox(Mid(p12, p23), Mid(p23, p34), b);
  }

  /** |cross(P2 - P4, P4 - P1)|: the chord length times the distance of P2
      from the chord line. */
  function Deviation2(c: CubicCurve): nat {
    Abs(Cross(Sub(c.p2, c.p4), Sub(c.p4, c.p1)))
  }

  /** |cross(P3 - P4, P4 - P1)|, the same for P3. */
  function Deviation3(c: CubicCurve): nat {
    Abs(Cross(Sub(c.p3, c.p4), Sub(c.p4, c.p1)))
  }

  /** `dx * dx + dy * dy` for the chord P1-P4. */
  function ChordSq(c: CubicCurve): int {
    SqDistance(c.p1, c.p4)
  }

  /** The chord length squared times the projection parameter of p. */
  function Projection(c: CubicCurve, p: Point): int {
    Dot(Sub(p, c.p1), Sub(c.p4, c.p1))
  }

  /** The four cases of the source's `switch`, selected by which of P2 and
      P3 lie off the chord line. */
  datatype Alignment = AllCollinear | OnlyP3Off | OnlyP2Off | BothOff

  function Classify(c: CubicCurve): Alignment {
    if Deviation2(c) == 0 then
      if Deviation3(c) == 0 then AllCollinear else OnlyP3Off
    else
      if Deviation3(c) == 0 then OnlyP2Off else BothOff
  }

  /** The case is fixed by which inner control points lie on the line
      through P1 and P4, with the cross product taken from P1. */
  lemma ClassifyOnLine(c: CubicCurve)
    ensures Classify(c) in {AllCollinear, OnlyP3Off} <==> Cross(Sub(c.p2, c.p1), Sub(c.p4, c.p1)) == 0
    ensures Classify(c) in {AllCollinear, OnlyP2Off} <==> Cross(Sub(c.p3, c.p1), Sub(c.p4, c.p1)) == 0
  {
    CrossFromEitherEnd(c.p1, c.p2, c.p4);
    CrossFromEitherEnd(c.p1, c.p3, c.p4);
  }

  /** Collinear case, chord not degenerate: the squared distance from an
      inner control point p to its projection on the chord clamped to the
      chord. Outside the chord that is the nearer end point; inside it the
      projection is p itself (see ProjectionIsControlPoint), so zero. It is
      never more than the distance to the nearer end, and equal to it
      whenever the projection is clamped. */
  function ClampedDistance(c: CubicCurve, p: Point): (r: int)
    ensures 0 <= r <= Min(SqDistance(p, c.p1), SqDistance(p, c.p4))
    ensures !(0 < Projection(c, p) < ChordSq(c)) ==> r == Min(SqDistance(p, c.p1), SqDistance(p, c.p4))
    ensures 0 < Projection(c, p) < ChordSq(c) ==> r == 0
  {
    ClampedEndIsNearer(c.p1, p, c.p4);
    var t := Projection(c, p);
    if t <= 0 then SqDistance(p, c.p1)
    else if t >= ChordSq(c) then SqDistance(p, c.p4)
    else 0
  }

  /** The projection parameter of p on a real chord, clamped to [0, 1]. */
  function ClampedParameter(c: CubicCurve, p: Point): real
    requires ChordSq(c) != 0
  {
    if Projection(c, p) <= 0 then 0.0
    else if Projection(c, p) >= ChordSq(c) then 1.0
    else Projection(c, p) as real / ChordSq(c) as real
  }

  /** For an inner control point on the line of a real chord, ClampedDistance
      is exactly the squared distance from p to the point of the chord at the
      clamped projection parameter: the end point when the projection is
      clamped, the foot of the perpendicular (p itself) otherwise. */
  lemma ClampedDistanceExact(c: CubicCurve, p: Point)
    requires ChordSq(c) != 0 && Cross(Sub(p, c.p1), Sub(c.p4, c.p1)) == 0
    ensures ClampedDistance(c, p) as real == SqDistanceToLerp(c.p1, p, c.p4, ClampedParameter(c, p))
  {
    var t := ClampedParameter(c, p);
    LerpDistanceExpand(c.p1, p, c.p4, t);
    SqDistanceSymmetric(c.p1, p);
    if Projection(c, p) <= 0 {
      assert t == 0.0;
    } else if Projection(c, p) >= ChordSq(c) {
      assert t == 1.0;
      SqDistanceExpand(c.p1, p, c.p4);
    } else {
      CollinearProjection(c.p1, p, c.p4);
    }
  }

  /** The value the collinear case compares for P2: the squared distance
      to the nearer end unless P2 projects strictly inside a real chord. */
  function Distance2(c: CubicCurve): (r: int)
    ensures 0 <= r <= Min(SqDistance(c.p2, c.p1), SqDistance(c.p2, c.p4))
    ensures !(ChordSq(c) != 0 && 0 < Projection(c, c.p2) < ChordSq(c)) ==>
              r == Min(SqDistance(c.p2, c.p1), SqDistance(c.p2, c.p4))
    ensures ChordSq(c) != 0 && 0 < Projection(c, c.p2) < ChordSq(c) ==> r == 0
  {
    SqDistanceSymmetric(c.p1, c.p2);
    if ChordSq(c) == 0 then SqDistance(c.p1, c.p2) else ClampedDistance(c, c.p2)
  }

  /** The value the collinear case compares for P3, likewise. */
  function Distance3(c: CubicCurve): (r: int)
    ensures 0 <= r <= Min(SqDistance(c.p3, c.p1), SqDistance(c.p3, c.p4))
    ensures !(ChordSq(c) != 0 && 0 < Projection(c, c.p3) < ChordSq(c)) ==>
              r == Min(SqDistance(c.p3, c.p1), SqDistance(c.p3, c.p4))
    ensures ChordSq(c) != 0 && 0 < Projection(c, c.p3) < ChordSq(c) ==> r == 0
  {
    SqDistanceSymmetric(c.p4, c.p3);
    if ChordSq(c) == 0 then SqDistance(c.p4, c.p3) else ClampedDistance(c, c.p3)
  }

  /** Both inner control points project strictly inside a real chord. */
  predicate ProjectsInside(c: CubicCurve) {
    ChordSq(c) != 0 &&
    0 < Projection(c, c.p2) < ChordSq(c) && 0 < Projection(c, c.p3) < ChordSq(c)
  }

  /** One level of the recursion after its depth guard, with the angle and
      cusp criteria disabled. Off the collinear case the level appends P23
      exactly when the two deviations together are within tolerance (the
      zero one adds nothing in the cases where only one inner control point
      is off the chord line) and subdivides otherwise. In the collinear case
      it stops silently, appends whichever of P2 and P3 is farther from the
      chord (P3 on a tie) when that one is close enough, or subdivides. */
  function Decide(c: CubicCurve, tol: real): (d: Decision)
    ensures Classify(c) != AllCollinear ==>
              (d == AppendAndStop(Mid(c.p2, c.p3)) <==>
               WithinTolerance(Deviation2(c) + Deviation3(c), ChordSq(c), tol))
    ensures Classify(c) != AllCollinear ==> d == AppendAndStop(Mid(c.p2, c.p3)) || d == Subdivide
    ensures d.AppendAndStop? ==> d.p == c.p2 || d.p == c.p3 || d.p == Mid(c.p2, c.p3)
    ensures d.AppendAndStop? && Classify(c) == AllCollinear ==>
              (d.p == c.p2 && Distance3(c) < Distance2(c) && (Distance2(c) as real) < tol) ||
              (d.p == c.p3 && Distance2(c) <= Distance3(c) && (Distance3(c) as real) < tol)
    ensures d.Subdivide? && Classify(c) == AllCollinear ==> tol <= Max(Distance2(c), Distance3(c)) as real
  {
    match Classify(c)
    case AllCollinear =>
      if ProjectsInside(c) then StopStraight
      else if Distance2(c) > Distance3(c) then
        if (Distance2(c) as real) < tol then AppendAndStop(c.p2) else Subdivide
      else
        if (Distance3(c) as real) < tol then AppendAndStop(c.p3) else Subdivide
    case OnlyP3Off =>
      if WithinTolerance(Deviation3(c), ChordSq(c), tol) then AppendAndStop(Mid(c.p2, c.p3)) else Subdivide
    case OnlyP2Off =>
      if WithinTolerance(Deviation2(c), ChordSq(c), tol) then AppendAndStop(Mid(c.p2, c.p3)) else Subdivide
    case BothOff =>
      if WithinTolerance(Deviation2(c) + Deviation3(c), ChordSq(c), tol) then AppendAndStop(Mid(c.p2, c.p3))
      else Subdivide
  }

  /** The points the cubic `recursive_bezier` called at `depth` offers to
      `add_segment`, with squared tolerance tol. */
  function Emitted(c: CubicCurve, depth: nat, tol: real): (r: seq<Point>)
    ensures depth > RecursionLimit ==> r == []
    ensures depth <= RecursionLimit ==> |r| <= Pow2(RecursionLimit - depth)
  {
    Offered(q => Decide(q, tol), Split, c, depth)
  }

  /** What `Bezier2Poly(P1, P2, P3, P4)` returns: P1, the de-duplicated
      points of the recursion, then P4 unconditionally. */
  function Polyline(c: CubicCurve): (r: seq<Point>)
    ensures 2 <= |r| <= Pow2(RecursionLimit) + 2
    ensures r[0] == c.p1 && r[|r| - 1] == c.p4
  {
    AddSegments([c.p1], Emitted(c, 0, ToleranceSquare(ApproximationScale))) + [c.p4]
  }

  /** In the collinear case the exact projection of an inner control point
      on the chord is that control point, so the distance the source computes
      for a projection strictly inside the chord is zero. */
  lemma ProjectionIsControlPoint(c: CubicCurve, p: Point)
    requires ChordSq(c) != 0 && Cross(Sub(p, c.p4), Sub(c.p4, c.p1)) == 0
    ensures Lerp(c.p1, c.p4, Projection(c, p) as real / ChordSq(c) as real) == RealPoint(p)
  {
    CrossFromEitherEnd(c.p1, p, c.p4);
    CollinearProjection(c.p1, p, c.p4);
  }

  /** The flatness test in geometric terms: a level off the collinear case
      that appends P23 has a real chord, and both P2 and P3 lie within the
      square root of tol of the line through P1 and P4. */
  lemma FlatnessBound(c: CubicCurve, tol: real)
    requires Classify(c) != AllCollinear && Decide(c, tol).AppendAndStop?
    ensures c.p1 != c.p4
    ensures LineSqDistance(c.p1, c.p2, c.p4) <= tol && LineSqDistance(c.p1, c.p3, c.p4) <= tol
  {
    FlatDeviations(c, tol);
    WithinToleranceMeaning(c.p1, c.p2, c.p4, tol);
    WithinToleranceMeaning(c.p1, c.p3, c.p4, tol);
  }

  /** Passing the joint flatness test bounds each deviation on its own. */
  lemma FlatDeviations(c: CubicCurve, tol: real)
    requires Classify(c) != AllCollinear && Decide(c, tol).AppendAndStop?
    ensures c.p1 != c.p4
    ensures WithinTolerance(Deviation2(c), ChordSq(c), tol) && WithinTolerance(Deviation3(c), ChordSq(c), tol)
  {
    var d2, d3 := Deviation2(c), Deviation3(c);
    assert WithinTolerance(d2 + d3, ChordSq(c), tol);
    OffLineChord(c);
    WithinToleranceMonotone(d2, d2 + d3, ChordSq(c), tol);
    WithinToleranceMonotone(d3, d2 + d3, ChordSq(c), tol);
  }

  /** An inner control point off the chord line means the chord is real. */
  lemma OffLineChord(c: CubicCurve)
    requires Classify(c) != AllCollinear
    ensures c.p1 != c.p4
  {
  }

  /** A level stops without appending exactly when P2 and P3 both lie
      strictly between two distinct end points. */
  lemma DecideStraightIff(c: CubicCurve, tol: real)
    ensures Decide(c, tol).StopStraight? <==>
              StrictlyInside(c.p1, c.p2, c.p4) && StrictlyInside(c.p1, c.p3, c.p4)
  {
    CrossFromEitherEnd(c.p1, c.p2, c.p4);
    CrossFromEitherEnd(c.p1, c.p3, c.p4);
    StrictlyInsideIff(c.p1, c.p2, c.p4);
    StrictlyInsideIff(c.p1, c.p3, c.p4);
  }

  /** Every offered point is P2, P3 or P23 of some sub-curve, so it lies in
      every box that holds the control points. */
  lemma EmittedInBox(c: CubicCurve, depth: nat, tol: real, b: Box)
    requires ControlsIn(c, b)
    ensures forall q :: q in Emitted(c, depth, tol) ==> InBox(q, b)
  {
    forall q | ControlsIn(q, b)
      ensures ControlsIn(Split(q).0, b) && ControlsIn(Split(q).1, b)
      ensures Decide(q, tol).AppendAndStop? ==> InBox(Decide(q, tol).p, b)
    {
      SplitInBox(q, b);
      MidInBox(q.p2, q.p3, b);
    }
    OfferedSatisfy(q => Decide(q, tol), Split, q => ControlsIn(q, b), p => InBox(p, b), c, depth);
  }

  /** The shape of every result of `Bezier2Poly(P1, P2, P3, P4)`: it starts
      with P1 and ends with P4, no two neighbouring points are equal except
      possibly the final pair, it holds at most 2^12 + 2 points, and every
      point lies in every box that holds the control points. */
  lemma PolylineShape(c: CubicCurve)
    ensures var r := Polyline(c);
      2 <= |r| <= Pow2(RecursionLimit) + 2 && r[0] == c.p1 && r[|r| - 1] == c.p4 &&
      NoStutter(r[..|r| - 1]) &&
      forall b: Box, i :: ControlsIn(c, b) && 0 <= i < |r| ==> InBox(r[i], b)
  {
    var tol := ToleranceSquare(ApproximationScale);
    var e := Emitted(c, 0, tol);
    var body := AddSegments([c.p1], e);
    assert NoStutter([c.p1]);
    AddSegmentsNoStutter([c.p1], e);
    AddSegmentsFrom([c.p1], e);
    assert Polyline(c)[..|Polyline(c)| - 1] == body;
    forall b: Box, i | ControlsIn(c, b) && 0 <= i < |Polyline(c)|
      ensures InBox(Polyline(c)[i], b)
    {
      EmittedInBox(c, 0, tol, b);
      if i == 0 {
        assert body[..1] == [c.p1];
      } else if i < |body| {
        assert body[i] in e;
      }
    }
  }

  /** Control points that already form a straight line with P2 and P3
      strictly inside give just the two end points. */
  lemma StraightLine(c: CubicCurve)
    requires StrictlyInside(c.p1, c.p2, c.p4) && StrictlyInside(c.p1, c.p3, c.p4)
    ensures Polyline(c) == [c.p1, c.p4]
  {
    DecideStraightIff(c, ToleranceSquare(ApproximationScale));
  }

  /** Four points spread along a horizontal segment. */
  lemma StraightLineExample()
    ensures Polyline(CubicCurve(Point(0, 0), Point(3, 0), Point(7, 0), Point(10, 0))) == [Point(0, 0), Point(10, 0)]
  {
    var c := CubicCurve(Point(0, 0), Point(3, 0), Point(7, 0), Point(10, 0));
    OnChordExample(c.p1, c.p2, c.p4, 3);
    OnChordExample(c.p1, c.p3, c.p4, 7);
    StraightLine(c);
  }

  /** (x, 0) with 0 < x < 10 lies strictly inside the segment from (0, 0)
      to (10, 0). */
  lemma OnChordExample(a: Point, p: Point, b: Point, x: int)
    requires a == Point(0, 0) && p == Point(x, 0) && b == Point(10, 0) && 0 < x < 10
    ensures StrictlyInside(a, p, b)
  {
    assert Cross(Sub(p, a), Sub(b, a)) == 0;
    assert Dot(Sub(p, a), Sub(b, a)) == 10 * x;
    assert SqDistance(a, b) == 100;
    StrictlyInsideIff(a, p, b);
  }

  /** A level that appends one point at the top offers just that point. */
  lemma EmittedSingle(c: CubicCurve, tol: real, p: Point)
    requires Decide(c, tol) == AppendAndStop(p)
    ensures Emitted(c, 0, tol) == [p]
  {
  }

  /** The polyline when the recursion offers exactly one point p. */
  lemma PolylineOfSingle(c: CubicCurve, p: Point)
    requires Emitted(c, 0, ToleranceSquare(ApproximationScale)) == [p]
    ensures Polyline(c) == (if p == c.p1 then [c.p1, c.p4] else [c.p1, p, c.p4])
  {
    assert [p][1..] == [];
    assert AddSegments([c.p1], [p]) == AddSegment([c.p1], p);
  }

  /** Four equal control points give that point twice: the level appends
      P3 (a tie at distance zero), which `add_segment` drops, and the end
      point is pushed anyway. */
  lemma CoincidentControlPoints(c: CubicCurve)
    requires c.p1 == c.p2 == c.p3 == c.p4
    ensures Polyline(c) == [c.p1, c.p1]
  {
    CoincidentEmitted(c);
    PolylineOfSingle(c, c.p3);
  }

  /** Four equal control points make the recursion offer just P3. */
  lemma CoincidentEmitted(c: CubicCurve)
    requires c.p1 == c.p2 == c.p3 == c.p4
    ensures Emitted(c, 0, ToleranceSquare(ApproximationScale)) == [c.p3]
  {
    var tol := ToleranceSquare(ApproximationScale);
    CoincidentMeasures(c);
    TieGoesToP3(c, tol);
    EmittedSingle(c, tol, c.p3);
  }

  lemma CoincidentMeasures(c: CubicCurve)
    requires c.p1 == c.p2 == c.p3 == c.p4
    ensures Classify(c) == AllCollinear && ChordSq(c) == 0
    ensures Distance2(c) == 0 && Distance3(c) == 0
  {
    CoincidentCollinear(c);
    CoincidentDistances(c);
  }

  lemma CoincidentDistances(c: CubicCurve)
    requires c.p1 == c.p2 == c.p3 == c.p4
    ensures ChordSq(c) == 0 && Distance2(c) == 0 && Distance3(c) == 0
  {
    assert SqDistance(c.p1, c.p4) == 0;
    assert SqDistance(c.p1, c.p2) == 0 && SqDistance(c.p4, c.p3) == 0;
  }

  /** Inner control points equal to P4 are on every line through P4. */
  lemma CoincidentCollinear(c: CubicCurve)
    requires c.p2 == c.p4 && c.p3 == c.p4
    ensures Classify(c) == AllCollinear
  {
    var v := Sub(c.p4, c.p1);
    assert Sub(c.p2, c.p4) == Point(0, 0) && Sub(c.p3, c.p4) == Point(0, 0);
    assert Cross(Point(0, 0), v) == 0;
  }

  /** In the collinear case, when neither inner control point is farther
      from the chord than the other, the level appends P3 if that distance is
      within tolerance. */
  lemma TieGoesToP3(c: CubicCurve, tol: real)
    requires Classify(c) == AllCollinear && !ProjectsInside(c)
    requires Distance2(c) == Distance3(c) && (Distance3(c) as real) < tol
    ensures Decide(c, tol) == AppendAndStop(c.p3)
  {
  }

  /** Cross products of two horizontal vectors vanish. */
  lemma HorizontalCross(u: Point, v: Point)
    requires u.y == 0 && v.y == 0
    ensures Cross(u, v) == 0
  {
  }

  /** Control points all on the x axis are all collinear. */
  lemma HorizontalCollinear(c: CubicCurve)
    requires c.p1.y == 0 && c.p2.y == 0 && c.p3.y == 0 && c.p4.y == 0
    ensures Classify(c) == AllCollinear
  {
    HorizontalCross(Sub(c.p2, c.p4), Sub(c.p4, c.p1));
    HorizontalCross(Sub(c.p3, c.p4), Sub(c.p4, c.p1));
  }

  /** P1 = (0, 0), P2 = (m, 0), P3 = P4 = (len, 0) with 0 < m < len: P3
      projects onto P4 and P2 inside the chord, both at distance zero. */
  lemma ForwardTie(c: CubicCurve, m: int, len: int)
    requires c.p1 == Point(0, 0) && c.p2 == Point(m, 0) && c.p3 == Point(len, 0) && c.p4 == Point(len, 0)
    requires 0 < m < len
    ensures Classify(c) == AllCollinear && !ProjectsInside(c)
    ensures Distance2(c) == 0 && Distance3(c) == 0
  {
    HorizontalCollinear(c);
    assert ChordSq(c) == len * len;
    assert Projection(c, c.p3) == len * len;
    assert Projection(c, c.p2) == m * len;
    assert 0 < m * len < len * len;
  }

  /** The same curve reversed: P2 = (len, 0) projects onto P1 and
      P3 = (m, 0) inside the chord, both at distance zero. */
  lemma BackwardTie(c: CubicCurve, m: int, len: int)
    requires c.p1 == Point(len, 0) && c.p2 == Point(len, 0) && c.p3 == Point(m, 0) && c.p4 == Point(0, 0)
    requires 0 < m < len
    ensures Classify(c) == AllCollinear && !ProjectsInside(c)
    ensures Distance2(c) == 0 && Distance3(c) == 0
  {
    HorizontalCollinear(c);
    assert ChordSq(c) == len * len;
    assert Projection(c, c.p2) == 0;
    assert Projection(c, c.p3) == (len - m) * len;
    assert 0 < (len - m) * len < len * len;
  }

  /** Unlike the quadratic recursion (Quadratic.EmittedReverse), the cubic
      one does not offer the reversed points for the reversed curve: the
      straight curve (0, 0), (m, 0), (len, 0), (len, 0) offers (len, 0)
      while its reversal offers (m, 0), because a tie between the two
      distances goes to P3. The polylines are then (0, 0), (len, 0), (len, 0)
      and (len, 0), (m, 0), (0, 0). This holds for the exact arithmetic of
      Decide; the source's `double` arithmetic gives the same results when
      len is a power of two, where `1 / len^2` and the projected points are
      exact, but not for every len (see Cubic.Decide under Left out in
      README.md). */
  lemma ReversalAsymmetry(c: CubicCurve, m: int, len: int)
    requires c.p1 == Point(0, 0) && c.p2 == Point(m, 0) && c.p3 == Point(len, 0) && c.p4 == Point(len, 0)
    requires 0 < m < len
    ensures Emitted(c, 0, ToleranceSquare(ApproximationScale)) == [Point(len, 0)]
    ensures Emitted(Reverse(c), 0, ToleranceSquare(ApproximationScale)) == [Point(m, 0)]
    ensures Emitted(Reverse(c), 0, ToleranceSquare(ApproximationScale)) !=
            SeqReverse(Emitted(c, 0, ToleranceSquare(ApproximationScale)))
    ensures Polyline(c) == [Point(0, 0), Point(len, 0), Point(len, 0)]
    ensures Polyline(Reverse(c)) == [Point(len, 0), Point(m, 0), Point(0, 0)]
  {
    var tol := ToleranceSquare(ApproximationScale);
    DefaultToleranceIsOne();
    ForwardTie(c, m, len);
    TieGoesToP3(c, tol);
    EmittedSingle(c, tol, c.p3);
    PolylineOfSingle(c, c.p3);
    var r := Reverse(c);
    BackwardTie(r, m, len);
    TieGoesToP3(r, tol);
    EmittedSingle(r, tol, r.p3);
    PolylineOfSingle(r, r.p3);
  }
}
