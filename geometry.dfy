/** Integer plane geometry shared by both flatteners: points, the truncating
    midpoint used for de Casteljau subdivision, squared distances, cross and
    dot products, and an exact reference notion of "strictly between". */
module Geometry {

  /** A wxPoint: two integer coordinates, compared for exact equality. */
  datatype Point = Point(x: int, y: int)

  /** An axis-aligned box, bounds included. */
  datatype Box = Box(lo: Point, hi: Point)

  predicate InBox(p: Point, b: Box) {
    b.lo.x <= p.x <= b.hi.x && b.lo.y <= p.y <= b.hi.y
  }

  function Abs(a: int): (r: nat)
    ensures r == a || r == -a
  {
    if a < 0 then -a else a
  }

  function Min(a: int, b: int): int { if a <= b then a else b }
  function Max(a: int, b: int): int { if a <= b then b else a }

  /** C++ `a / 2` on `int`: the quotient is truncated toward zero, so the
      remainder has the sign of `a` (Dafny's own `/` is Euclidean). */
  function Half(a: int): (r: int)
    ensures a >= 0 ==> 0 <= a - 2 * r <= 1
    ensures a < 0 ==> -1 <= a - 2 * r <= 0
  {
    if a >= 0 then a / 2 else -((-a) / 2)
  }

  /** The midpoint `((a.x + b.x) / 2, (a.y + b.y) / 2)` of the source,
      coordinate-wise truncated; it never leaves the box spanned by a and b. */
  function Mid(a: Point, b: Point): (m: Point)
    ensures Min(a.x, b.x) <= m.x <= Max(a.x, b.x)
    ensures Min(a.y, b.y) <= m.y <= Max(a.y, b.y)
  {
    Point(Half(a.x + b.x), Half(a.y + b.y))
  }

  lemma MidInBox(a: Point, c: Point, b: Box)
    requires InBox(a, b) && InBox(c, b)
    ensures InBox(Mid(a, c), b)
  {
  }

  /** `p - q`. */
  function Sub(p: Point, q: Point): Point {
    Point(p.x - q.x, p.y - q.y)
  }

  function Cross(u: Point, v: Point): int {
    u.x * v.y - u.y * v.x
  }

  function Dot(u: Point, v: Point): int {
    u.x * v.x + u.y * v.y
  }

  /** `calc_sq_distance`: the squared Euclidean distance, zero exactly when
      the two points coincide. */
  function SqDistance(a: Point, b: Point): (r: int)
    ensures r >= 0
    ensures r == 0 <==> a == b
  {
    var dx := b.x - a.x;
    var dy := b.y - a.y;
    assert dx * dx >= 0 && dy * dy >= 0;
    assert dx != 0 ==> dx * dx > 0;
    assert dy != 0 ==> dy * dy > 0;
    dx * dx + dy * dy
  }

  lemma SqDistanceSymmetric(a: Point, b: Point)
    ensures SqDistance(a, b) == SqDistance(b, a)
  {
    assert (b.x - a.x) * (b.x - a.x) == (a.x - b.x) * (a.x - b.x);
    assert (b.y - a.y) * (b.y - a.y) == (a.y - b.y) * (a.y - b.y);
  }

  function Negate(v: Point): Point {
    Point(-v.x, -v.y)
  }

  lemma CrossSelf(v: Point)
    ensures Cross(v, v) == 0
  {
    assert v.x * v.y == v.y * v.x;
  }

  lemma CrossNegate(u: Point, v: Point)
    ensures Cross(u, Negate(v)) == -Cross(u, v)
  {
    assert u.x * -v.y == -(u.x * v.y);
    assert u.y * -v.x == -(u.y * v.x);
  }

  /** `Dot(u - v, -v) == |v|^2 - Dot(u, v)`. */
  lemma DotReflect(u: Point, v: Point)
    ensures Dot(Sub(u, v), Negate(v)) == Dot(v, v) - Dot(u, v)
  {
    assert (u.x - v.x) * -v.x == v.x * v.x - u.x * v.x;
    assert (u.y - v.y) * -v.y == v.y * v.y - u.y * v.y;
  }

  function RealPoint(p: Point): (real, real) {
    (p.x as real, p.y as real)
  }

  /** The point at parameter t on the line through a and b, in exact
      rational arithmetic. */
  function Lerp(a: Point, b: Point, t: real): (real, real) {
    (a.x as real + t * (b.x - a.x) as real, a.y as real + t * (b.y - a.y) as real)
  }

  /** Reference definition: p lies on the open segment between the distinct
      points a and b. */
  ghost predicate StrictlyInside(a: Point, p: Point, b: Point) {
    a != b && exists t: real :: 0.0 < t < 1.0 && Lerp(a, b, t) == RealPoint(p)
  }

  /** The test the flatteners run: p is collinear with the chord a-b and its
      projection parameter Dot / |b - a|^2 lies strictly between 0 and 1. */
  predicate InsideByProjection(a: Point, p: Point, b: Point) {
    a != b && Cross(Sub(p, a), Sub(b, a)) == 0 &&
    0 < Dot(Sub(p, a), Sub(b, a)) < SqDistance(a, b)
  }

  /** The cross product against the chord a-b may be taken from either end. */
  lemma CrossFromEitherEnd(a: Point, p: Point, b: Point)
    ensures Cross(Sub(p, b), Sub(b, a)) == Cross(Sub(p, a), Sub(b, a))
  {
    var v := Sub(b, a);
    assert Sub(p, b) == Point(Sub(p, a).x - v.x, Sub(p, a).y - v.y);
    calc {
      Cross(Sub(p, b), v);
      (Sub(p, a).x - v.x) * v.y - (Sub(p, a).y - v.y) * v.x;
      Sub(p, a).x * v.y - Sub(p, a).y * v.x;
    }
  }

  /** When u is parallel to v, `Dot(u, v) * v == |v|^2 * u` coordinate-wise. */
  lemma ParallelProjection(ux: int, uy: int, vx: int, vy: int)
    requires ux * vy - uy * vx == 0
    ensures (ux * vx + uy * vy) * vx == ux * (vx * vx + vy * vy)
    ensures (ux * vx + uy * vy) * vy == uy * (vx * vx + vy * vy)
  {
    assert (ux * vx + uy * vy) * vx - ux * (vx * vx + vy * vy) == -vy * (ux * vy - uy * vx);
    assert (ux * vx + uy * vy) * vy - uy * (vx * vx + vy * vy) == vx * (ux * vy - uy * vx);
  }

  /** One coordinate of the projected point: `a + (n / d) * v == a + u` once
      `n * v == u * d`. */
  lemma ProjectedCoordinate(a: int, u: int, v: int, n: int, d: int)
    requires d > 0 && n * v == u * d
    ensures a as real + n as real / d as real * v as real == (a + u) as real
  {
    var nr, dr, vr, ur := n as real, d as real, v as real, u as real;
    assert nr * vr == ur * dr;
    calc {
      nr / dr * vr;
      (nr * vr) / dr;
      (ur * dr) / dr;
      ur;
    }
  }

  /** For a point collinear with a distinct chord, the projected point at
      parameter Dot / |b - a|^2 is the point itself, exactly. */
  lemma CollinearProjection(a: Point, p: Point, b: Point)
    requires a != b && Cross(Sub(p, a), Sub(b, a)) == 0
    ensures Lerp(a, b, Dot(Sub(p, a), Sub(b, a)) as real / SqDistance(a, b) as real) == RealPoint(p)
  {
    var u, v := Sub(p, a), Sub(b, a);
    var dot, len2 := Dot(u, v), SqDistance(a, b);
    assert len2 == v.x * v.x + v.y * v.y && len2 > 0;
    ParallelProjection(u.x, u.y, v.x, v.y);
    ProjectedCoordinate(a.x, u.x, v.x, dot, len2);
    ProjectedCoordinate(a.y, u.y, v.y, dot, len2);
    var t := dot as real / len2 as real;
    var l := Lerp(a, b, t);
    assert l.0 == a.x as real + t * v.x as real == p.x as real;
    assert l.1 == a.y as real + t * v.y as real == p.y as real;
  }

  /** u = t v over the reals makes u parallel to v with Dot(u, v) = t |v|^2. */
  lemma ScaledVector(ux: int, uy: int, vx: int, vy: int, t: real)
    requires ux as real == t * vx as real && uy as real == t * vy as real
    ensures ux * vy - uy * vx == 0
    ensures (ux * vx + uy * vy) as real == t * (vx * vx + vy * vy) as real
  {
    assert (ux * vy - uy * vx) as real == t * vx as real * vy as real - t * vy as real * vx as real;
  }

  /** A point that passes the projection test is strictly inside: the
      witness parameter is Dot / |b - a|^2. */
  lemma ProjectionWitness(a: Point, p: Point, b: Point)
    requires InsideByProjection(a, p, b)
    ensures StrictlyInside(a, p, b)
  {
    var u, v := Sub(p, a), Sub(b, a);
    CollinearProjection(a, p, b);
    var t := Dot(u, v) as real / SqDistance(a, b) as real;
    assert 0.0 < t < 1.0;
    assert Lerp(a, b, t) == RealPoint(p);
  }

  /** A point strictly inside passes the projection test. */
  lemma InsideProjects(a: Point, p: Point, b: Point)
    requires StrictlyInside(a, p, b)
    ensures InsideByProjection(a, p, b)
  {
    var u, v := Sub(p, a), Sub(b, a);
    var t: real :| 0.0 < t < 1.0 && Lerp(a, b, t) == RealPoint(p);
    LerpOffset(a, b, p, t);
    ScaledVector(u.x, u.y, v.x, v.y, t);
    var len2 := SqDistance(a, b);
    assert len2 == v.x * v.x + v.y * v.y;
    StrictFraction(t, Dot(u, v), len2);
  }

  /** Lerp(a, b, t) == p means p - a == t (b - a). */
  lemma LerpOffset(a: Point, b: Point, p: Point, t: real)
    requires Lerp(a, b, t) == RealPoint(p)
    ensures (p.x - a.x) as real == t * (b.x - a.x) as real
    ensures (p.y - a.y) as real == t * (b.y - a.y) as real
  {
  }

  /** An integer that is a fraction strictly between 0 and 1 of a positive
      integer lies strictly between 0 and that integer. */
  lemma StrictFraction(t: real, n: int, d: int)
    requires 0.0 < t < 1.0 && d > 0 && n as real == t * d as real
    ensures 0 < n < d
  {
    assert t * d as real < 1.0 * d as real;
  }

  /** `|p - b|^2 == |p - a|^2 - 2 Dot(p - a, b - a) + |b - a|^2`. */
  lemma SqDistanceExpand(a: Point, p: Point, b: Point)
    ensures SqDistance(p, b) == SqDistance(p, a) - 2 * Dot(Sub(p, a), Sub(b, a)) + SqDistance(a, b)
  {
    var u, v := Sub(p, a), Sub(b, a);
    assert (b.x - p.x) * (b.x - p.x) == u.x * u.x - 2 * (u.x * v.x) + v.x * v.x;
    assert (b.y - p.y) * (b.y - p.y) == u.y * u.y - 2 * (u.y * v.y) + v.y * v.y;
    assert SqDistance(p, a) == u.x * u.x + u.y * u.y;
  }

  /** The end a projection is clamped to is the nearer end: a projection at
      or before a puts p no farther from a than from b, and one at or beyond
      b puts p no farther from b than from a. */
  lemma ClampedEndIsNearer(a: Point, p: Point, b: Point)
    ensures Dot(Sub(p, a), Sub(b, a)) <= 0 ==> SqDistance(p, a) <= SqDistance(p, b)
    ensures Dot(Sub(p, a), Sub(b, a)) >= SqDistance(a, b) ==> SqDistance(p, b) <= SqDistance(p, a)
  {
    SqDistanceExpand(a, p, b);
  }

  /** The squared distance from p to the point at parameter t on the line
      through a and b, in exact rational arithmetic. */
  ghost function SqDistanceToLerp(a: Point, p: Point, b: Point, t: real): real {
    var f := Lerp(a, b, t);
    (p.x as real - f.0) * (p.x as real - f.0) + (p.y as real - f.1) * (p.y as real - f.1)
  }

  /** Reference definition: the squared distance from p to the line through
      the distinct points a and b, taken at the foot of the perpendicular. */
  ghost function LineSqDistance(a: Point, p: Point, b: Point): real
    requires a != b
  {
    SqDistanceToLerp(a, p, b, Dot(Sub(p, a), Sub(b, a)) as real / SqDistance(a, b) as real)
  }

  /** `|u - t v|^2` expanded. */
  lemma OffsetExpand(ux: real, uy: real, vx: real, vy: real, t: real)
    ensures (ux - t * vx) * (ux - t * vx) + (uy - t * vy) * (uy - t * vy) ==
            (ux * ux + uy * uy) - 2.0 * t * (ux * vx + uy * vy) + t * t * (vx * vx + vy * vy)
  {
  }

  /** Lagrange's identity in the plane: `|u|^2 |v|^2 == Dot(u, v)^2 + Cross(u, v)^2`. */
  lemma Lagrange(ux: real, uy: real, vx: real, vy: real)
    ensures (ux * ux + uy * uy) * (vx * vx + vy * vy) ==
            (ux * vx + uy * vy) * (ux * vx + uy * vy) + (ux * vy - uy * vx) * (ux * vy - uy * vx)
  {
  }

  /** SqDistanceToLerp as a polynomial in t. */
  lemma LerpDistanceExpand(a: Point, p: Point, b: Point, t: real)
    ensures SqDistanceToLerp(a, p, b, t) ==
            SqDistance(a, p) as real - 2.0 * t * Dot(Sub(p, a), Sub(b, a)) as real + t * t * SqDistance(a, b) as real
  {
    var ux, uy := (p.x - a.x) as real, (p.y - a.y) as real;
    var vx, vy := (b.x - a.x) as real, (b.y - a.y) as real;
    var f := Lerp(a, b, t);
    assert p.x as real - f.0 == ux - t * vx;
    assert p.y as real - f.1 == uy - t * vy;
    OffsetExpand(ux, uy, vx, vy, t);
    assert SqDistance(a, p) as real == ux * ux + uy * uy;
    assert SqDistance(a, b) as real == vx * vx + vy * vy;
    assert Dot(Sub(p, a), Sub(b, a)) as real == ux * vx + uy * vy;
  }

  /** `|v|^2 |u - t v|^2 == Cross(u, v)^2` when t is the projection
      parameter `Dot(u, v) / |v|^2`. */
  lemma FootIdentity(ux: real, uy: real, vx: real, vy: real, t: real)
    requires t * (vx * vx + vy * vy) == ux * vx + uy * vy
    ensures (vx * vx + vy * vy) * ((ux * ux + uy * uy) - 2.0 * t * (ux * vx + uy * vy) + t * t * (vx * vx + vy * vy)) ==
            (ux * vy - uy * vx) * (ux * vy - uy * vx)
  {
    var len2, dot, sq := vx * vx + vy * vy, ux * vx + uy * vy, ux * ux + uy * uy;
    calc {
      len2 * (sq - 2.0 * t * dot + t * t * len2);
      len2 * sq - 2.0 * dot * (t * len2) + (t * len2) * (t * len2);
      len2 * sq - dot * dot;
      { Lagrange(ux, uy, vx, vy); }
      (ux * vy - uy * vx) * (ux * vy - uy * vx);
    }
  }

  /** The squared lengths, dot and cross products of `p - a` and `b - a`,
      carried over to the reals. */
  lemma RealMeasures(a: Point, p: Point, b: Point)
    ensures var ux, uy, vx, vy := (p.x - a.x) as real, (p.y - a.y) as real, (b.x - a.x) as real, (b.y - a.y) as real;
      SqDistance(a, b) as real == vx * vx + vy * vy &&
      SqDistance(a, p) as real == ux * ux + uy * uy &&
      Dot(Sub(p, a), Sub(b, a)) as real == ux * vx + uy * vy &&
      (Cross(Sub(p, a), Sub(b, a)) * Cross(Sub(p, a), Sub(b, a))) as real ==
        (ux * vy - uy * vx) * (ux * vy - uy * vx)
  {
    var cr := Cross(Sub(p, a), Sub(b, a));
    assert cr as real == (p.x - a.x) as real * (b.y - a.y) as real - (p.y - a.y) as real * (b.x - a.x) as real;
    assert (cr * cr) as real == cr as real * cr as real;
  }

  /** The cross product against the chord measures the distance from the
      chord line: `Cross(p - a, b - a)^2 == |b - a|^2 * LineSqDistance`. */
  lemma CrossMeasuresLineDistance(a: Point, p: Point, b: Point)
    requires a != b
    ensures (Cross(Sub(p, a), Sub(b, a)) * Cross(Sub(p, a), Sub(b, a))) as real ==
            SqDistance(a, b) as real * LineSqDistance(a, p, b)
  {
    var ux, uy := (p.x - a.x) as real, (p.y - a.y) as real;
    var vx, vy := (b.x - a.x) as real, (b.y - a.y) as real;
    RealMeasures(a, p, b);
    var len2, dot := SqDistance(a, b) as real, Dot(Sub(p, a), Sub(b, a)) as real;
    assert len2 > 0.0;
    var t := dot / len2;
    assert t * len2 == dot;
    LerpDistanceExpand(a, p, b, t);
    FootIdentity(ux, uy, vx, vy, t);
  }

  /** The quadratic `q(t) = sq - 2 t dot + t^2 len2` with `len2 > 0` is
      least at `t = dot / len2`: `q(t) - q(s) == (t - s)^2 len2`. */
  lemma QuadraticLeast(sq: real, len2: real, dot: real, s: real, t: real)
    requires len2 > 0.0 && s * len2 == dot
    ensures sq - 2.0 * s * dot + s * s * len2 <= sq - 2.0 * t * dot + t * t * len2
  {
    calc {
      (sq - 2.0 * t * dot + t * t * len2) - (sq - 2.0 * s * dot + s * s * len2);
      t * t * len2 - 2.0 * t * (s * len2) + s * s * len2;
      (t - s) * (t - s) * len2;
    }
    assert (t - s) * (t - s) >= 0.0;
  }

  /** The foot of the perpendicular is the point of the line nearest to p. */
  lemma FootIsNearest(a: Point, p: Point, b: Point, t: real)
    requires a != b
    ensures LineSqDistance(a, p, b) <= SqDistanceToLerp(a, p, b, t)
  {
    var len2, dot := SqDistance(a, b) as real, Dot(Sub(p, a), Sub(b, a)) as real;
    var s := dot / len2;
    LerpDistanceExpand(a, p, b, t);
    LerpDistanceExpand(a, p, b, s);
    QuadraticLeast(SqDistance(a, p) as real, len2, dot, s, t);
  }

  /** The flatness measure in geometric terms: with a distinct chord a-b and
      d the absolute cross product of p against it, `d^2 <= tol * |b - a|^2`
      holds exactly when p is within the square root of tol of the chord
      line. */
  lemma CrossBoundIff(a: Point, p: Point, b: Point, d: int, tol: real)
    requires a != b && (d == Cross(Sub(p, a), Sub(b, a)) || d == -Cross(Sub(p, a), Sub(b, a)))
    ensures (d * d) as real <= tol * SqDistance(a, b) as real <==> LineSqDistance(a, p, b) <= tol
  {
    var cr := Cross(Sub(p, a), Sub(b, a));
    assert d * d == cr * cr;
    CrossMeasuresLineDistance(a, p, b);
    var len2 := SqDistance(a, b) as real;
    assert len2 > 0.0;
    assert (d * d) as real == len2 * LineSqDistance(a, p, b);
    if LineSqDistance(a, p, b) <= tol {
      assert len2 * LineSqDistance(a, p, b) <= len2 * tol;
    }
    if len2 * LineSqDistance(a, p, b) <= tol * len2 {
      assert LineSqDistance(a, p, b) <= tol;
    }
  }

  /** The projection test and the reference definition agree. */
  lemma StrictlyInsideIff(a: Point, p: Point, b: Point)
    ensures StrictlyInside(a, p, b) <==> InsideByProjection(a, p, b)
  {
    if InsideByProjection(a, p, b) {
      ProjectionWitness(a, p, b);
    }
    if StrictlyInside(a, p, b) {
      InsideProjects(a, p, b);
    }
  }
}
