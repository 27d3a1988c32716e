/** The quadratic flattener: the decision one level of `recursive_bezier`
    takes for the control points P1, P2, P3, the points the whole recursion
    offers to `add_segment`, and the polyline `Bezier2Poly` returns. */
module Quadratic {
  import opened Geometry
  import opened Emitter
  import opened Settings
  import opened Recursion

  datatype Quad = Quad(p1: Point, p2: Point, p3: Point)

  /** The same curve traversed from P3 to P1. */
  function Reverse(c: Quad): Quad {
    Quad(c.p3, c.p2, c.p1)
  }

  predicate ControlsIn(c: Quad, b: Box) {
    InBox(c.p1, b) && InBox(c.p2, b) && InBox(c.p3, b)
  }

  /** P123, the curve's point at parameter 0.5 up to truncation. */
  function SplitPoint(c: Quad): Point {
    Mid(Mid(c.p1, c.p2), Mid(c.p2, c.p3))
  }

  /** De Casteljau subdivision at parameter 0.5 with truncating midpoints:
      (P1, P12, P123) and (P123, P23, P3). The halves share P123, keep the
      end points. */
  function Split(c: Quad): (halves: (Quad, Quad))
    ensures halves.0.p1 == c.p1 && halves.1.p3 == c.p3
    ensures halves.0.p3 == halves.1.p1 == SplitPoint(c)
  {
    var p12 := Mid(c.p1, c.p2);
    var p23 := Mid(c.p2, c.p3);
    var p123 := Mid(p12, p23);
    (Quad(c.p1, p12, p123), Quad(p123, p23, c.p3))
  }

  /** Both halves stay inside any box that holds the control points. */
  lemma SplitInBox(c: Quad, b: Box)
    requires ControlsIn(c, b)
    ensures ControlsIn(Split(c).0, b) && ControlsIn(Split(c).1, b)
  {
    MidInBox(c.p1, c.p2, b);
    MidInBox(c.p2, c.p3, b);
    MidInBox(Mid(c.p1, c.p2), Mid(c.p2, c.p3), b);
  }

  /** |cross(P2 - P3, P3 - P1)|: the chord length times the distance of P2
      from the chord line. */
  function Deviation(c: Quad): nat {
    Abs(Cross(Sub(c.p2, c.p3), Sub(c.p3, c.p1)))
  }

  /** `dx * dx + dy * dy` for the chord P1-P3. */
  function ChordSq(c: Quad): int {
    SqDistance(c.p1, c.p3)
  }

  /** The chord length squared times the projection parameter of P2. */
  function Projection(c: Quad): int {
    Dot(Sub(c.p2, c.p1), Sub(c.p3, c.p1))
  }

  /** Collinear case: the squared distance from P2 to the end point its
      projection is clamped to (to P1 when P1 == P3). Whenever P2 does not
      project strictly inside a real chord, that is the nearer end. */
  function EndDistance(c: Quad): (r: int)
    ensures r >= 0
    ensures !(ChordSq(c) != 0 && 0 < Projection(c) < ChordSq(c)) ==>
              r == Min(SqDistance(c.p2, c.p1), SqDistance(c.p2, c.p3))
  {
    SqDistanceSymmetric(c.p1, c.p2);
    ClampedEndIsNearer(c.p1, c.p2, c.p3);
    if ChordSq(c) == 0 then SqDistance(c.p1, c.p2)
    else if Projection(c) <= 0 then SqDistance(c.p2, c.p1)
    else SqDistance(c.p2, c.p3)
  }

  /** One level of the recursion after its depth guard, with the angle
      criterion disabled. Off the collinear case the level appends P123
      exactly when P2 is within tolerance of the chord and subdivides
      otherwise; on it, it stops silently, appends P2, or subdivides. */
  function Decide(c: Quad, tol: real): (d: Decision)
    ensures Deviation(c) != 0 ==>
              (d == AppendAndStop(SplitPoint(c)) <==> WithinTolerance(Deviation(c), ChordSq(c), tol))
    ensures Deviation(c) != 0 ==> d == AppendAndStop(SplitPoint(c)) || d == Subdivide
    ensures d.AppendAndStop? && Deviation(c) == 0 ==> d.p == c.p2 && (EndDistance(c) as real) < tol
    ensures d.Subdivide? && Deviation(c) == 0 ==> tol <= EndDistance(c) as real
    ensures d.AppendAndStop? ==> d.p == c.p2 || d.p == SplitPoint(c)
  {
    var dev := Deviation(c);
    if dev != 0 then
      if WithinTolerance(dev, ChordSq(c), tol) then AppendAndStop(SplitPoint(c)) else Subdivide
    else if ChordSq(c) != 0 && 0 < Projection(c) < ChordSq(c) then
      StopStraight
    else if (EndDistance(c) as real) < tol then
      AppendAndStop(c.p2)
    else
      Subdivide
  }

  /** The points the quadratic `recursive_bezier` called at `depth` offers
      to `add_segment`, with squared tolerance tol. */
  function Emitted(c: Quad, depth: nat, tol: real): (r: seq<Point>)
    ensures depth > RecursionLimit ==> r == []
    ensures depth <= RecursionLimit ==> |r| <= Pow2(RecursionLimit - depth)
  {
    Offered(q => Decide(q, tol), Split, c, depth)
  }

  /** What `Bezier2Poly(P1, P2, P3)` returns: P1, the de-duplicated points
      of the recursion, then P3 unconditionally. */
  function Polyline(c: Quad): (r: seq<Point>)
    ensures 2 <= |r| <= Pow2(RecursionLimit) + 2
    ensures r[0] == c.p1 && r[|r| - 1] == c.p3
  {
    AddSegments([c.p1], Emitted(c, 0, ToleranceSquare(ApproximationScale))) + [c.p3]
  }

  /** A level stops without appending exactly when P2 lies strictly between
      two distinct end points. */
  lemma DecideStraightIff(c: Quad, tol: real)
    ensures Decide(c, tol).StopStraight? <==> StrictlyInside(c.p1, c.p2, c.p3)
  {
    CrossFromEitherEnd(c.p1, c.p2, c.p3);
    StrictlyInsideIff(c.p1, c.p2, c.p3);
  }

  /** The flatness test in geometric terms: off the chord line, a level
      appends P123 exactly when P2 lies within the square root of tol of
      the line through P1 and P3. */
  lemma FlatnessIff(c: Quad, tol: real)
    requires Deviation(c) != 0
    ensures c.p1 != c.p3
    ensures Decide(c, tol) == AppendAndStop(SplitPoint(c)) <==> LineSqDistance(c.p1, c.p2, c.p3) <= tol
  {
    var u, v := Sub(c.p2, c.p1), Sub(c.p3, c.p1);
    CrossFromEitherEnd(c.p1, c.p2, c.p3);
    assert Cross(u, v) != 0;
    assert v != Point(0, 0);
    WithinToleranceMeaning(c.p1, c.p2, c.p3, tol);
    assert WithinTolerance(Deviation(c), ChordSq(c), tol) <==> LineSqDistance(c.p1, c.p2, c.p3) <= tol;
  }

  /** Every offered point is P2 or P123 of some sub-curve, so it lies in every
      box that holds the control points. */
  lemma EmittedInBox(c: Quad, depth: nat, tol: real, b: Box)
    requires ControlsIn(c, b)
    ensures forall q :: q in Emitted(c, depth, tol) ==> InBox(q, b)
  {
    forall q | ControlsIn(q, b)
      ensures ControlsIn(Split(q).0, b) && ControlsIn(Split(q).1, b)
      ensures Decide(q, tol).AppendAndStop? ==> InBox(Decide(q, tol).p, b)
    {
      SplitInBox(q, b);
    }
    OfferedSatisfy(q => Decide(q, tol), Split, q => ControlsIn(q, b), p => InBox(p, b), c, depth);
  }

  /** The quantities a level tests, read from the reversed control points. */
  lemma ReverseMeasures(c: Quad)
    ensures Deviation(Reverse(c)) == Deviation(c)
    ensures ChordSq(Reverse(c)) == ChordSq(c)
    ensures Projection(Reverse(c)) == ChordSq(c) - Projection(c)
    ensures SplitPoint(Reverse(c)) == SplitPoint(c)
  {
    var u, v := Sub(c.p2, c.p1), Sub(c.p3, c.p1);
    CrossFromEitherEnd(c.p3, c.p2, c.p1);
    assert Sub(c.p1, c.p3) == Negate(Sub(c.p3, c.p1));
    CrossNegate(Sub(c.p2, c.p3), Sub(c.p3, c.p1));
    SqDistanceSymmetric(c.p1, c.p3);
    assert Sub(c.p2, c.p3) == Sub(u, v);
    assert Sub(c.p1, c.p3) == Negate(v);
    DotReflect(u, v);
    assert ChordSq(c) == Dot(v, v);
  }

  /** The decision does not depend on the direction of traversal. */
  lemma DecideReverse(c: Quad, tol: real)
    ensures Decide(Reverse(c), tol) == Decide(c, tol)
  {
    ReverseMeasures(c);
    SqDistanceSymmetric(c.p1, c.p2);
    SqDistanceSymmetric(c.p2, c.p3);
  }

  /** Subdividing the reversed curve gives the reversed halves, swapped. */
  lemma SplitReverse(c: Quad)
    ensures Split(Reverse(c)) == (Reverse(Split(c).1), Reverse(Split(c).0))
  {
    assert Mid(c.p3, c.p2) == Mid(c.p2, c.p3);
    assert Mid(c.p2, c.p1) == Mid(c.p1, c.p2);
    assert SplitPoint(Reverse(c)) == SplitPoint(c);
  }

  /** Flattening the reversed control points offers the same points in
      reverse order. */
  lemma EmittedReverse(c: Quad, depth: nat, tol: real)
    ensures Emitted(Reverse(c), depth, tol) == SeqReverse(Emitted(c, depth, tol))
  {
    forall q ensures Decide(Reverse(q), tol) == Decide(q, tol) {
      DecideReverse(q, tol);
    }
    forall q ensures Split(Reverse(q)) == (Reverse(Split(q).1), Reverse(Split(q).0)) {
      SplitReverse(q);
    }
    OfferedReverse(q => Decide(q, tol), Split, Reverse, c, depth);
  }

  /** The shape of every result of `Bezier2Poly(P1, P2, P3)`: it starts with
      P1 and ends with P3, no two neighbouring points are equal except
      possibly the final pair, it holds at most 2^12 + 2 points, and every
      point lies in every box that holds the control points. */
  lemma PolylineShape(c: Quad)
    ensures var r := Polyline(c);
      2 <= |r| <= Pow2(RecursionLimit) + 2 && r[0] == c.p1 && r[|r| - 1] == c.p3 &&
      NoStutter(r[..|r| - 1]) &&
      forall b: Box, i :: ControlsIn(c, b) && 0 <= i < |r| ==> InBox(r[i], b)
  {
    var tol := ToleranceSquare(ApproximationScale);
    var e := Emitted(c, 0, tol);
    var body := AddSegments([c.p1], e);
    assert NoStutter([c.p1]);
    AddSegmentsNoStutter([c.p1], e);
    AddSegmentsFrom([c.p1], e);
    assert Polyline(c)[..|Polyline(c)| - 1] == body;
    forall b: Box, i | ControlsIn(c, b) && 0 <= i < |Polyline(c)|
      ensures InBox(Polyline(c)[i], b)
    {
      EmittedInBox(c, 0, tol, b);
      if i == 0 {
        assert body[..1] == [c.p1];
      } else if i < |body| {
        assert body[i] in e;
      }
    }
  }

  /** Control points that already form a straight line with P2 strictly
      inside give just the two end points. */
  lemma StraightLine(c: Quad)
    requires StrictlyInside(c.p1, c.p2, c.p3)
    ensures Polyline(c) == [c.p1, c.p3]
  {
    DecideStraightIff(c, ToleranceSquare(ApproximationScale));
  }

  lemma StraightLineExample()
    ensures Polyline(Quad(Point(0, 0), Point(5, 0), Point(10, 0))) == [Point(0, 0), Point(10, 0)]
  {
    var c := Quad(Point(0, 0), Point(5, 0), Point(10, 0));
    assert InsideByProjection(c.p1, c.p2, c.p3);
    StrictlyInsideIff(c.p1, c.p2, c.p3);
    StraightLine(c);
  }

  lemma CoincidentDeviation(c: Quad)
    requires c.p1 == c.p2 == c.p3
    ensures Deviation(c) == 0
  {
    CrossSelf(Sub(c.p1, c.p1));
  }

  lemma CoincidentEndDistance(c: Quad)
    requires c.p1 == c.p2 == c.p3 && ChordSq(c) == 0
    ensures EndDistance(c) == 0
  {
  }

  lemma DecideCoincident(c: Quad, tol: real)
    requires c.p1 == c.p2 == c.p3 && tol > 0.0
    ensures Decide(c, tol) == AppendAndStop(c.p1)
  {
    CoincidentDeviation(c);
    assert ChordSq(c) == 0;
    CoincidentEndDistance(c);
  }

  lemma EmittedCoincident(c: Quad, tol: real)
    requires c.p1 == c.p2 == c.p3 && tol > 0.0
    ensures Emitted(c, 0, tol) == [c.p1]
  {
    DecideCoincident(c, tol);
  }

  /** Three equal control points give that point twice: the recursion offers
      P2, which `add_segment` drops, and the end point is pushed anyway. */
  lemma CoincidentControlPoints(c: Quad)
    requires c.p1 == c.p2 == c.p3
    ensures Polyline(c) == [c.p1, c.p1]
  {
    EmittedCoincident(c, ToleranceSquare(ApproximationScale));
    PolylineOfSingle(c, c.p1);
  }

  lemma PolylineOfSingle(c: Quad, p: Point)
    requires Emitted(c, 0, ToleranceSquare(ApproximationScale)) == [p]
    requires c.p1 == p && c.p3 == p
    ensures Polyline(c) == [p, p]
  {
    RepeatedPointDropped(p);
    assert Polyline(c) == [p] + [p];
  }

  /** A level that appends one point at the top offers just that point. */
  lemma EmittedSingle(c: Quad, tol: real, p: Point)
    requires Decide(c, tol) == AppendAndStop(p)
    ensures Emitted(c, 0, tol) == [p]
  {
  }

  /** The polyline is not reversal-symmetric even though the offered points
      are (EmittedReverse): the end point is pushed without the `add_segment`
      check. (0, 0), (len, 0), (len, 0) offers P2 = (len, 0), which differs
      from P1 and is kept, and then P3 = (len, 0) is pushed again; the
      reversed curve offers (len, 0) too, which repeats its P1 and is
      dropped. */
  lemma PolylineNotReversed(c: Quad, len: int)
    requires c.p1 == Point(0, 0) && c.p2 == Point(len, 0) && c.p3 == Point(len, 0) && len > 0
    ensures Polyline(c) == [Point(0, 0), Point(len, 0), Point(len, 0)]
    ensures Polyline(Reverse(c)) == [Point(len, 0), Point(0, 0)]
  {
    var tol := ToleranceSquare(ApproximationScale);
    DefaultToleranceIsOne();
    ForwardEnd(c, len);
    EmittedSingle(c, tol, c.p2);
    var r := Reverse(c);
    BackwardEnd(r, len);
    EmittedSingle(r, tol, r.p2);
    assert AddSegments([r.p1], [r.p2]) == [r.p1];
  }

  /** (0, 0), (len, 0), (len, 0): collinear, P2 projects onto P3 and is at
      distance zero from it. */
  lemma ForwardEnd(c: Quad, len: int)
    requires c.p1 == Point(0, 0) && c.p2 == Point(len, 0) && c.p3 == Point(len, 0) && len > 0
    ensures Deviation(c) == 0 && ChordSq(c) == len * len && Projection(c) == len * len
    ensures EndDistance(c) == 0
  {
    assert Sub(c.p2, c.p3) == Point(0, 0);
    assert Cross(Point(0, 0), Sub(c.p3, c.p1)) == 0;
  }

  /** (len, 0), (len, 0), (0, 0): collinear, P2 projects onto P1 and is at
      distance zero from it. */
  lemma BackwardEnd(c: Quad, len: int)
    requires c.p1 == Point(len, 0) && c.p2 == Point(len, 0) && c.p3 == Point(0, 0) && len > 0
    ensures Deviation(c) == 0 && ChordSq(c) == len * len && Projection(c) == 0
    ensures EndDistance(c) == 0
  {
    assert Sub(c.p2, c.p1) == Point(0, 0);
    assert Cross(Sub(c.p2, c.p3), Sub(c.p3, c.p1)) == len * 0 - 0 * -len;
  }

  // The depth counter as the source passes it down: level + 1 to the left
  // half and -(level + 1) to the right half. A step to the right from a
  // negative level brings the magnitude back down.

  /** The `level` argument a call receives after following `path` from the
      top call (true: the right half). Its magnitude never exceeds the real
      depth. */
  function LevelAfterAsWritten(path: seq<bool>): (level: int)
    ensures Abs(level) <= |path|
  {
    if path == [] then 0
    else
      var parent := LevelAfterAsWritten(path[..|path| - 1]);
      if path[|path| - 1] then -(parent + 1) else parent + 1
  }

  /** Along the right-most path the source's level alternates 0, -1, 0, ...
      so the guard `abs(level) > 12` never stops it, at any depth. */
  lemma {:induction false} RightSpineEscapesGuard(n: nat)
    ensures LevelAfterAsWritten(seq(n, _ => true)) == if n % 2 == 0 then 0 else -1
    ensures Abs(LevelAfterAsWritten(seq(n, _ => true))) <= RecursionLimit
  {
    if n > 0 {
      assert seq(n, _ => true)[..n - 1] == seq(n - 1, _ => true);
      RightSpineEscapesGuard(n - 1);
    }
  }
}
