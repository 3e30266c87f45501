/**
 * World and screen coordinates, the pan/zoom transform, and the distance from a point
 * to a segment (for hit-testing edges). Distances are compared squared, so no square
 * root is needed: `hypot(d) <= r` is `SqDist <= r * r` for `r >= 0`.
 */
module Geometry {

  datatype Point = Point(x: real, y: real)

  /** Pan offset in screen units and a multiplicative zoom factor. */
  datatype View = View(zoom: real, offsetX: real, offsetY: real)

  function ToScreen(v: View, w: Point): Point {
    Point(w.x * v.zoom + v.offsetX, w.y * v.zoom + v.offsetY)
  }

  function ToWorld(v: View, s: Point): Point
    requires v.zoom != 0.0
  {
    Point((s.x - v.offsetX) / v.zoom, (s.y - v.offsetY) / v.zoom)
  }

  /** The two transforms are inverse to each other whenever the zoom is not zero. */
  lemma ScreenWorldRoundTrip(v: View, p: Point)
    requires v.zoom != 0.0
    ensures ToWorld(v, ToScreen(v, p)) == p
    ensures ToScreen(v, ToWorld(v, p)) == p
  {
    assert (p.x * v.zoom + v.offsetX - v.offsetX) / v.zoom == p.x;
    assert (p.y * v.zoom + v.offsetY - v.offsetY) / v.zoom == p.y;
  }

  /** One wheel tick: a positive direction zooms in by 1.1, any other zooms out by 0.9; no clamp. */
  function ZoomFactor(direction: int): (f: real)
    ensures f > 0.0
    ensures direction > 0 <==> f > 1.0
  {
    if direction > 0 then 1.1 else 0.9
  }

  /** Zooming in and then out does not return to the old zoom: 1.1 * 0.9 is 0.99. */
  lemma ZoomInOutDrifts(z: real)
    requires z > 0.0
    ensures z * ZoomFactor(1) * ZoomFactor(-1) == z * 0.99 < z
  {
  }

  lemma SquarePositive(u: real)
    requires u != 0.0
    ensures u * u > 0.0
  {
    if u < 0.0 {
      assert u * u == (-u) * (-u);
    }
  }

  lemma SquareNonNegative(u: real)
    ensures u * u >= 0.0
  {
    if u != 0.0 {
      SquarePositive(u);
    }
  }

  lemma ProductNonNegative(a: real, b: real)
    requires a >= 0.0 && b >= 0.0
    ensures a * b >= 0.0
  {
  }

  lemma ProductOfNonPositives(a: real, b: real)
    requires a <= 0.0 && b <= 0.0
    ensures a * b >= 0.0
  {
    ProductNonNegative(-a, -b);
    assert a * b == (-a) * (-b);
  }

  /** Squared Euclidean distance: `hypot(a - b)` squared. */
  function SqDist(a: Point, b: Point): (d: real)
    ensures d >= 0.0
  {
    SqNonNegative(a.x - b.x);
    SqNonNegative(a.y - b.y);
    Sq(a.x - b.x) + Sq(a.y - b.y)
  }

  /** Whether `p` lies within distance `r` of `c` (the hit test `hypot(p - c) <= r`). */
  predicate WithinRadius(p: Point, c: Point, r: real) {
    SqDist(p, c) <= r * r
  }

  /** The point a fraction `t` of the way from `a` to `b`. */
  function Lerp(a: Point, b: Point, t: real): Point {
    Point(a.x + t * (b.x - a.x), a.y + t * (b.y - a.y))
  }

  /** `max(0, min(1, t))`. */
  function Clamp01(t: real): (r: real)
    ensures 0.0 <= r <= 1.0
    ensures 0.0 <= t <= 1.0 ==> r == t
    ensures t < 0.0 ==> r == 0.0
    ensures 1.0 < t ==> r == 1.0
  {
    if 1.0 < t then 1.0 else if t < 0.0 then 0.0 else t
  }

  predicate Degenerate(a: Point, b: Point) {
    b.x - a.x == 0.0 && b.y - a.y == 0.0
  }

  /** `u . v`, the dot product of two vectors. */
  function Dot(u: Point, v: Point): real {
    u.x * v.x + u.y * v.y
  }

  /** The vector from `a` to `b`. */
  function Sub(b: Point, a: Point): Point {
    Point(b.x - a.x, b.y - a.y)
  }

  /**
   * `a * b`, and `u * u` below, kept behind function names: the solver rewrites a bare
   * comparison of a square with zero into a weaker fact, so positivity of a squared length
   * is stated and used in terms of these names.
   */
  function Prod(a: real, b: real): real {
    a * b
  }

  function Sq(u: real): real {
    u * u
  }

  lemma ProductPositive(a: real, b: real)
    requires a > 0.0 && b > 0.0
    ensures Prod(a, b) > 0.0
  {
  }

  lemma SqPositive(u: real)
    requires u != 0.0
    ensures Sq(u) > 0.0
  {
    if u > 0.0 {
      ProductPositive(u, u);
    } else {
      ProductPositive(-u, -u);
      assert Prod(-u, -u) == Sq(u);
    }
  }

  lemma SqNonNegative(u: real)
    ensures Sq(u) >= 0.0
  {
    if u != 0.0 {
      SqPositive(u);
    }
  }

  /** The squared length `dx * dx + dy * dy` of a vector that is not zero: positive. */
  function SquaredLength(dx: real, dy: real): (l: real)
    requires !(dx == 0.0 && dy == 0.0)
    ensures l > 0.0
  {
    SqNonNegative(dx);
    SqNonNegative(dy);
    if dx != 0.0 then SqPositive(dx); Sq(dx) + Sq(dy)
    else SqPositive(dy); Sq(dx) + Sq(dy)
  }

  /** The unclamped parameter of the projection of `p` on the line through `a` and `b`. */
  function ProjectionParam(p: Point, a: Point, b: Point): real
    requires !Degenerate(a, b)
  {
    Dot(Sub(p, a), Sub(b, a)) / SquaredLength(b.x - a.x, b.y - a.y)
  }

  /**
   * Squared distance from `p` to the segment from `a` to `b`: to the projection clamped
   * to the segment, or to `a` itself when the segment has length zero.
   */
  function SqDistToSegment(p: Point, a: Point, b: Point): (d: real)
    ensures d >= 0.0
  {
    if Degenerate(a, b) then SqDist(p, a)
    else SqDist(p, Lerp(a, b, Clamp01(ProjectionParam(p, a, b))))
  }

  /** The squared distance to the point at parameter `t`, as a quadratic in `t`. */
  function Quadratic(w: real, c: real, l: real, t: real): real {
    w - 2.0 * t * c + t * t * l
  }

  /** One coordinate of the squared distance to the point at parameter `t`, as a quadratic in `t`. */
  lemma CoordinateAlongSegment(pc: real, ac: real, bc: real, t: real)
    ensures Sq(pc - (ac + t * (bc - ac)))
              == Quadratic((pc - ac) * (pc - ac), (pc - ac) * (bc - ac), (bc - ac) * (bc - ac), t)
  {
    var w, d := pc - ac, bc - ac;
    assert pc - (ac + t * (bc - ac)) == w - t * d;
  }

  /** The quadratic of a sum of two coordinates is the sum of the coordinates' quadratics. */
  lemma QuadraticOfSum(w: Point, d: Point, t: real)
    ensures Quadratic(Dot(w, w), Dot(w, d), Dot(d, d), t)
              == Quadratic(w.x * w.x, w.x * d.x, d.x * d.x, t) + Quadratic(w.y * w.y, w.y * d.y, d.y * d.y, t)
  {
    assert t * t * Dot(d, d) == t * t * (d.x * d.x) + t * t * (d.y * d.y);
    assert 2.0 * t * Dot(w, d) == 2.0 * t * (w.x * d.x) + 2.0 * t * (w.y * d.y);
  }

  lemma SqDistAlongSegment(p: Point, a: Point, b: Point, t: real)
    ensures SqDist(p, Lerp(a, b, t))
              == Quadratic(Dot(Sub(p, a), Sub(p, a)), Dot(Sub(p, a), Sub(b, a)), Dot(Sub(b, a), Sub(b, a)), t)
  {
    var w, d := Sub(p, a), Sub(b, a);
    var q := Lerp(a, b, t);
    CoordinateAlongSegment(p.x, a.x, b.x, t);
    CoordinateAlongSegment(p.y, a.y, b.y, t);
    var qx := Quadratic(w.x * w.x, w.x * d.x, d.x * d.x, t);
    var qy := Quadratic(w.y * w.y, w.y * d.y, d.y * d.y, t);
    assert Sq(p.x - q.x) == qx;
    assert Sq(p.y - q.y) == qy;
    assert SqDist(p, q) == qx + qy;
    QuadraticOfSum(w, d, t);
  }

  lemma QuadraticDifference(w: real, c: real, l: real, s: real, t: real)
    ensures Quadratic(w, c, l, s) - Quadratic(w, c, l, t) == (s - t) * (l * (s + t) - 2.0 * c)
  {
  }

  /** On [0, 1] an upward parabola is smallest at its vertex `c / l` clamped to [0, 1]. */
  lemma ClampedVertexIsMinimal(w: real, c: real, l: real, s: real)
    requires l > 0.0 && 0.0 <= s <= 1.0
    ensures Quadratic(w, c, l, Clamp01(c / l)) <= Quadratic(w, c, l, s)
  {
    var q := c / l;
    var t := Clamp01(q);
    QuadraticDifference(w, c, l, s, t);
    assert c == q * l;
    if q < 0.0 {
      assert c < 0.0 by {
        ProductNonNegative(-q, l);
        assert (-q) * l == -(q * l);
      }
      ProductNonNegative(s, l * s - 2.0 * c) by {
        ProductNonNegative(l, s);
      }
      assert (s - t) * (l * (s + t) - 2.0 * c) == s * (l * s - 2.0 * c);
    } else if 1.0 < q {
      assert c > l by {
        ProductNonNegative(q - 1.0, l);
        assert (q - 1.0) * l == q * l - l;
      }
      assert l * (s + 1.0) <= 2.0 * l by {
        ProductNonNegative(1.0 - s, l);
        assert (1.0 - s) * l == l - s * l;
      }
      ProductOfNonPositives(s - 1.0, l * (s + 1.0) - 2.0 * c);
    } else {
      assert t == q;
      ProductNonNegative((s - t) * (s - t), l) by {
        SquareNonNegative(s - t);
      }
      assert (s - t) * (l * (s + t) - 2.0 * c) == ((s - t) * (s - t)) * l;
    }
  }

  /**
   * The clamped projection is the nearest point of the segment: no point of the segment
   * is closer to `p` than the distance the edge hit test uses.
   */
  lemma {:induction false} SegmentDistanceIsMinimal(p: Point, a: Point, b: Point, s: real)
    requires 0.0 <= s <= 1.0
    ensures SqDistToSegment(p, a, b) <= SqDist(p, Lerp(a, b, s))
  {
    if Degenerate(a, b) {
      assert Lerp(a, b, s) == a;
    } else {
      var l := SquaredLength(b.x - a.x, b.y - a.y);
      assert l == Dot(Sub(b, a), Sub(b, a));
      var c := Dot(Sub(p, a), Sub(b, a));
      SqDistAlongSegment(p, a, b, Clamp01(c / l));
      SqDistAlongSegment(p, a, b, s);
      ClampedVertexIsMinimal(Dot(Sub(p, a), Sub(p, a)), c, l, s);
    }
  }

  /** A point within the hit distance of a segment is within it of some point of the segment. */
  lemma SegmentDistanceIsAttained(p: Point, a: Point, b: Point)
    ensures exists t :: 0.0 <= t <= 1.0 && SqDistToSegment(p, a, b) == SqDist(p, Lerp(a, b, t))
  {
    if Degenerate(a, b) {
      assert Lerp(a, b, 0.0) == a;
    } else {
      var t := Clamp01(ProjectionParam(p, a, b));
      assert SqDistToSegment(p, a, b) == SqDist(p, Lerp(a, b, t));
    }
  }
}
