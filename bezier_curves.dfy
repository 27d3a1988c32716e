/** The converter itself: the output buffer `bezier_points` and the squared
    tolerance, both file-static in the source, become the fields of one
    object; `add_segment`, the two `recursive_bezier` routines and the four
    `Bezier2Poly` entry points become its methods. Each method is proved to
    leave the buffer as the functions of Quadratic and Cubic describe. */
module BezierCurves {
  import opened Geometry
  import opened Emitter
  import opened Settings
  import Quadratic
  import Cubic

  class BezierConverter {
    /** `bezier_points`. */
    var points: seq<Point>
    /** `bezier_distance_tolerance_square`; zero until a conversion sets it. */
    var distanceToleranceSquare: real

    constructor()
      ensures points == [] && distanceToleranceSquare == 0.0
    {
      points := [];
      distanceToleranceSquare := 0.0;
    }

    /** `add_segment`: push p unless it repeats the last point. */
    method AddSegment(p: Point)
      requires points != []
      modifies this`points
      ensures points == Emitter.AddSegment(old(points), p)
    {
      if points[|points| - 1] != p {
        points := points + [p];
      }
    }

    /** The tests one level of the quadratic `recursive_bezier` makes after
        its depth guard, on the control points (x1, y1), (x2, y2), (x3, y3). */
    method QuadDecision(x1: int, y1: int, x2: int, y2: int, x3: int, y3: int) returns (d: Decision)
      ensures d == Quadratic.Decide(Quadratic.Quad(Point(x1, y1), Point(x2, y2), Point(x3, y3)), distanceToleranceSquare)
    {
      ghost var c := Quadratic.Quad(Point(x1, y1), Point(x2, y2), Point(x3, y3));
      var p123 := Mid(Mid(Point(x1, y1), Point(x2, y2)), Mid(Point(x2, y2), Point(x3, y3)));
      var dx, dy := x3 - x1, y3 - y1;
      var dev := Abs((x2 - x3) * dy - (y2 - y3) * dx);
      assert dev == Quadratic.Deviation(c);
      assert dx * dx + dy * dy == Quadratic.ChordSq(c);
      if dev != 0 {
        if WithinTolerance(dev, dx * dx + dy * dy, distanceToleranceSquare) {
          return AppendAndStop(p123);
        }
        return Subdivide;
      }
      var da := dx * dx + dy * dy;
      var dist: int;
      if da == 0 {
        dist := SqDistance(Point(x1, y1), Point(x2, y2));
      } else {
        // da times the projection parameter of P2 on the chord
        var t := (x2 - x1) * dx + (y2 - y1) * dy;
        assert t == Quadratic.Projection(c);
        if 0 < t < da {
          return StopStraight;
        }
        if t <= 0 {
          dist := SqDistance(Point(x2, y2), Point(x1, y1));
        } else {
          dist := SqDistance(Point(x2, y2), Point(x3, y3));
        }
      }
      assert dist == Quadratic.EndDistance(c);
      if (dist as real) < distanceToleranceSquare {
        return AppendAndStop(Point(x2, y2));
      }
      return Subdivide;
    }

    /** The quadratic `recursive_bezier`. Both halves are visited one level
        deeper (the source passes the right half the negated level; see
        Quadratic.RightSpineEscapesGuard). */
    method RecursiveBezierQuad(x1: int, y1: int, x2: int, y2: int, x3: int, y3: int, level: nat)
      requires points != []
      modifies this`points
      ensures points == AddSegments(old(points),
        Quadratic.Emitted(Quadratic.Quad(Point(x1, y1), Point(x2, y2), Point(x3, y3)), level, distanceToleranceSquare))
      decreases RecursionLimit - level
    {
      ghost var c := Quadratic.Quad(Point(x1, y1), Point(x2, y2), Point(x3, y3));
      ghost var tol := distanceToleranceSquare;
      if level > RecursionLimit {
        return;
      }
      var p12 := Mid(Point(x1, y1), Point(x2, y2));
      var p23 := Mid(Point(x2, y2), Point(x3, y3));
      var p123 := Mid(p12, p23);
      var d := QuadDecision(x1, y1, x2, y2, x3, y3);
      match d
      case AppendAndStop(p) =>
        AddSegment(p);
      case StopStraight =>
      case Subdivide =>
        ghost var (left, right) := Quadratic.Split(c);
        assert Quadratic.Emitted(c, level, tol) ==
          Quadratic.Emitted(left, level + 1, tol) + Quadratic.Emitted(right, level + 1, tol);
        ghost var before := points;
        RecursiveBezierQuad(x1, y1, p12.x, p12.y, p123.x, p123.y, level + 1);
        RecursiveBezierQuad(p123.x, p123.y, p23.x, p23.y, x3, y3, level + 1);
        AddSegmentsConcat(before, Quadratic.Emitted(left, level + 1, tol), Quadratic.Emitted(right, level + 1, tol));
    }

    /** The tests one level of the cubic `recursive_bezier` makes after its
        depth guard, on the control points (x1, y1) ... (x4, y4): the
        `switch` on which of P2 and P3 lie off the chord line P1-P4. */
    method CubicDecision(x1: int, y1: int, x2: int, y2: int, x3: int, y3: int, x4: int, y4: int)
      returns (d: Decision)
      ensures d == Cubic.Decide(Cubic.CubicCurve(Point(x1, y1), Point(x2, y2), Point(x3, y3), Point(x4, y4)),
                                distanceToleranceSquare)
    {
      ghost var c := Cubic.CubicCurve(Point(x1, y1), Point(x2, y2), Point(x3, y3), Point(x4, y4));
      var p23 := Mid(Point(x2, y2), Point(x3, y3));
      var dx, dy := x4 - x1, y4 - y1;
      var d2 := Abs((x2 - x4) * dy - (y2 - y4) * dx);
      var d3 := Abs((x3 - x4) * dy - (y3 - y4) * dx);
      assert d2 == Cubic.Deviation2(c) && d3 == Cubic.Deviation3(c);
      assert dx * dx + dy * dy == Cubic.ChordSq(c);
      if d2 != 0 || d3 != 0 {
        // Cases 1, 2 and 3: the deviation that is zero adds nothing.
        if WithinTolerance(d2 + d3, dx * dx + dy * dy, distanceToleranceSquare) {
          return AppendAndStop(p23);
        }
        return Subdivide;
      }
      // Case 0: all collinear, or P1 == P4.
      var k := dx * dx + dy * dy;
      var dist2: int, dist3: int;
      if k == 0 {
        dist2 := SqDistance(Point(x1, y1), Point(x2, y2));
        dist3 := SqDistance(Point(x4, y4), Point(x3, y3));
      } else {
        // k times the projection parameters of P2 and P3 on the chord
        var t2 := (x2 - x1) * dx + (y2 - y1) * dy;
        var t3 := (x3 - x1) * dx + (y3 - y1) * dy;
        assert t2 == Cubic.Projection(c, c.p2) && t3 == Cubic.Projection(c, c.p3);
        if 0 < t2 < k && 0 < t3 < k {
          return StopStraight;
        }
        if t2 <= 0 {
          dist2 := SqDistance(Point(x2, y2), Point(x1, y1));
        } else if t2 >= k {
          dist2 := SqDistance(Point(x2, y2), Point(x4, y4));
        } else {
          dist2 := 0;  // the projection of P2 is P2 itself
        }
        if t3 <= 0 {
          dist3 := SqDistance(Point(x3, y3), Point(x1, y1));
        } else if t3 >= k {
          dist3 := SqDistance(Point(x3, y3), Point(x4, y4));
        } else {
          dist3 := 0;  // the projection of P3 is P3 itself
        }
      }
      assert dist2 == Cubic.Distance2(c) && dist3 == Cubic.Distance3(c);
      if dist2 > dist3 {
        if (dist2 as real) < distanceToleranceSquare {
          return AppendAndStop(Point(x2, y2));
        }
      } else {
        if (dist3 as real) < distanceToleranceSquare {
          return AppendAndStop(Point(x3, y3));
        }
      }
      return Subdivide;
    }

    /** The cubic `recursive_bezier`: both halves are visited one level
        deeper. */
    method RecursiveBezierCubic(x1: int, y1: int, x2: int, y2: int, x3: int, y3: int, x4: int, y4: int,
                                level: nat)
      requires points != []
      modifies this`points
      ensures points == AddSegments(old(points),
        Cubic.Emitted(Cubic.CubicCurve(Point(x1, y1), Point(x2, y2), Point(x3, y3), Point(x4, y4)),
                      level, distanceToleranceSquare))
      decreases RecursionLimit - level
    {
      ghost var c := Cubic.CubicCurve(Point(x1, y1), Point(x2, y2), Point(x3, y3), Point(x4, y4));
      ghost var tol := distanceToleranceSquare;
      if level > RecursionLimit {
        return;
      }
      var p12 := Mid(Point(x1, y1), Point(x2, y2));
      var p23 := Mid(Point(x2, y2), Point(x3, y3));
      var p34 := Mid(Point(x3, y3), Point(x4, y4));
      var p123 := Mid(p12, p23);
      var p234 := Mid(p23, p34);
      var p1234 := Mid(p123, p234);
      var d := CubicDecision(x1, y1, x2, y2, x3, y3, x4, y4);
      match d
      case AppendAndStop(p) =>
        AddSegment(p);
      case StopStraight =>
      case Subdivide =>
        ghost var (left, right) := Cubic.Split(c);
        assert Cubic.Emitted(c, level, tol) ==
          Cubic.Emitted(left, level + 1, tol) + Cubic.Emitted(right, level + 1, tol);
        ghost var before := points;
        RecursiveBezierCubic(x1, y1, p12.x, p12.y, p123.x, p123.y, p1234.x, p1234.y, level + 1);
        RecursiveBezierCubic(p1234.x, p1234.y, p234.x, p234.y, p34.x, p34.y, x4, y4, level + 1);
        AddSegmentsConcat(before, Cubic.Emitted(left, level + 1, tol), Cubic.Emitted(right, level + 1, tol));
    }

    /** Sets `bezier_distance_tolerance_square` from the approximation
        scale, as both entry points do before recursing. */
    method SetTolerance()
      modifies this`distanceToleranceSquare
      ensures distanceToleranceSquare == ToleranceSquare(ApproximationScale)
    {
      distanceToleranceSquare := 0.5 / ApproximationScale;
      distanceToleranceSquare := distanceToleranceSquare * distanceToleranceSquare;
    }

    /** `Bezier2Poly(x1, y1, x2, y2, x3, y3)`: clears the buffer, pushes P1,
        flattens, pushes P3, and returns a copy of the buffer. */
    method Bezier2PolyQuad(x1: int, y1: int, x2: int, y2: int, x3: int, y3: int) returns (r: seq<Point>)
      modifies this
      ensures distanceToleranceSquare == ToleranceSquare(ApproximationScale)
      ensures r == points == Quadratic.Polyline(Quadratic.Quad(Point(x1, y1), Point(x2, y2), Point(x3, y3)))
    {
      points := [];
      SetTolerance();
      points := points + [Point(x1, y1)];
      ghost var c := Quadratic.Quad(Point(x1, y1), Point(x2, y2), Point(x3, y3));
      ghost var tol := distanceToleranceSquare;
      assert points == [c.p1];
      RecursiveBezierQuad(x1, y1, x2, y2, x3, y3, 0);
      assert points == AddSegments([c.p1], Quadratic.Emitted(c, 0, tol));
      points := points + [Point(x3, y3)];
      r := points;
    }

    /** `Bezier2Poly(c1, c2, c3)`. */
    method Bezier2PolyQuadPoints(c1: Point, c2: Point, c3: Point) returns (r: seq<Point>)
      modifies this
      ensures distanceToleranceSquare == ToleranceSquare(ApproximationScale)
      ensures r == points == Quadratic.Polyline(Quadratic.Quad(c1, c2, c3))
    {
      r := Bezier2PolyQuad(c1.x, c1.y, c2.x, c2.y, c3.x, c3.y);
    }

    /** `Bezier2Poly(x1, y1, x2, y2, x3, y3, x4, y4)`: clears the buffer,
        pushes P1, flattens, pushes P4, and returns a copy of the buffer. */
    method Bezier2PolyCubic(x1: int, y1: int, x2: int, y2: int, x3: int, y3: int, x4: int, y4: int)
      returns (r: seq<Point>)
      modifies this
      ensures distanceToleranceSquare == ToleranceSquare(ApproximationScale)
      ensures r == points ==
        Cubic.Polyline(Cubic.CubicCurve(Point(x1, y1), Point(x2, y2), Point(x3, y3), Point(x4, y4)))
    {
      points := [];
      SetTolerance();
      points := points + [Point(x1, y1)];
      ghost var c := Cubic.CubicCurve(Point(x1, y1), Point(x2, y2), Point(x3, y3), Point(x4, y4));
      ghost var tol := distanceToleranceSquare;
      assert points == [c.p1];
      RecursiveBezierCubic(x1, y1, x2, y2, x3, y3, x4, y4, 0);
      assert points == AddSegments([c.p1], Cubic.Emitted(c, 0, tol));
      points := points + [Point(x4, y4)];
      r := points;
    }

    /** `Bezier2Poly(c1, c2, c3, c4)`. */
    method Bezier2PolyCubicPoints(c1: Point, c2: Point, c3: Point, c4: Point) returns (r: seq<Point>)
      modifies this
      ensures distanceToleranceSquare == ToleranceSquare(ApproximationScale)
      ensures r == points == Cubic.Polyline(Cubic.CubicCurve(c1, c2, c3, c4))
    {
      r := Bezier2PolyCubic(c1.x, c1.y, c2.x, c2.y, c3.x, c3.y, c4.x, c4.y);
    }
  }
}
