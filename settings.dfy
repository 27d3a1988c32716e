/** The file-static tuning values of the flattener and what one recursion
    level decides to do. */
module Settings {
  import opened Geometry

  /** `bezier_recursion_limit`: a call whose depth exceeds it returns at once. */
  const RecursionLimit: nat := 12

  /** `bezier_approximation_scale`. */
  const ApproximationScale: real := 0.5

  /** `bezier_distance_tolerance_square` as derived from a scale:
      `(0.5 / scale)^2`, so that `4 * scale^2 * tolerance == 1`. */
  function ToleranceSquare(scale: real): (tol: real)
    requires scale > 0.0
    ensures tol > 0.0
    ensures 4.0 * (scale * scale) * tol == 1.0
  {
    var h := 0.5 / scale;
    assert h * scale == 0.5;
    assert 4.0 * (scale * scale) * (h * h) == 4.0 * (h * scale) * (h * scale);
    h * h
  }

  /** With the file's scale of 0.5 the tolerance is exactly one square unit. */
  lemma DefaultToleranceIsOne()
    ensures ToleranceSquare(ApproximationScale) == 1.0
  {
  }

  /** What one level of either flattener does after its depth guard: append
      one point and stop, stop without appending (the control points are
      already a straight line), or recurse on both halves. */
  datatype Decision = AppendAndStop(p: Point) | StopStraight | Subdivide

  /** The flatness test `d * d <= tolerance * (dx * dx + dy * dy)`: d is the
      chord length times the distance of the inner control points from the
      chord, so the test bounds that distance by the square root of the
      tolerance (WithinToleranceMeaning). */
  predicate WithinTolerance(dev: int, chordSq: int, tol: real) {
    (dev * dev) as real <= tol * chordSq as real
  }

  /** What the flatness test means: for a real chord a-b and the deviation
      the flatteners compute for p (the cross product taken from b), the
      test passes exactly when p is within the square root of tol of the
      line through a and b. */
  lemma WithinToleranceMeaning(a: Point, p: Point, b: Point, tol: real)
    requires a != b
    ensures WithinTolerance(Abs(Cross(Sub(p, b), Sub(b, a))), SqDistance(a, b), tol) <==>
            LineSqDistance(a, p, b) <= tol
  {
    CrossFromEitherEnd(a, p, b);
    CrossBoundIff(a, p, b, Abs(Cross(Sub(p, b), Sub(b, a))), tol);
  }

  /** A smaller deviation passes whenever a larger one does. */
  lemma WithinToleranceMonotone(d: nat, e: nat, chordSq: int, tol: real)
    requires d <= e && WithinTolerance(e, chordSq, tol)
    ensures WithinTolerance(d, chordSq, tol)
  {
    assert d * d <= e * d <= e * e;
  }

  function Pow2(n: nat): (r: nat)
    ensures r >= 1
  {
    if n == 0 then 1 else 2 * Pow2(n - 1)
  }
}
