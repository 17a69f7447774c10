/** Points, squared distances, the cross product, the extended reals that stand
    for JavaScript's Infinity, segment projection and the centroid: the
    primitives every demo shares. Every distance in this model is the SQUARE
    of the Euclidean distance the demos compute with Math.sqrt. */
module Geometry {

  datatype Point = Point(x: real, y: real)

  datatype Option<T> = None | Some(value: T)

  lemma ConcatAssoc<T>(a: seq<T>, b: seq<T>, c: seq<T>)
    ensures (a + b) + c == a + (b + c)
  {
  }

  /** Component-wise a + b. */
  function Add(a: Point, b: Point): Point {
    Point(a.x + b.x, a.y + b.y)
  }

  /** The point s + t * (e - s) on the line through s and e. */
  function Lerp(s: Point, e: Point, t: real): Point {
    Point(s.x + t * (e.x - s.x), s.y + t * (e.y - s.y))
  }

  /** The product a * b together with its sign rules. */
  function Mul(a: real, b: real): (r: real)
    ensures (a > 0.0 && b > 0.0) || (a < 0.0 && b < 0.0) ==> r > 0.0
    ensures a == 0.0 || b == 0.0 ==> r == 0.0
  {
    a * b
  }

  /** a * a, the `** 2` of the source: never negative, zero only at zero. */
  function Sq(a: real): (r: real)
    ensures r >= 0.0
    ensures r == 0.0 <==> a == 0.0
  {
    Mul(a, a)
  }

  /** Squared Euclidean distance, the square of the demos' `distance`:
      never negative, zero exactly between identical points. */
  function Dist2(p1: Point, p2: Point): (d: real)
    ensures d >= 0.0
    ensures d == 0.0 <==> p1 == p2
  {
    Sq(p1.x - p2.x) + Sq(p1.y - p2.y)
  }

  lemma Dist2Symmetric(p: Point, q: Point)
    ensures Dist2(p, q) == Dist2(q, p)
  {
    assert Sq(p.x - q.x) == Sq(q.x - p.x);
    assert Sq(p.y - q.y) == Sq(q.y - p.y);
  }

  /** The z-component of (p2 - p1) x (p3 - p1): positive for a left turn. */
  function Cross(p1: Point, p2: Point, p3: Point): real {
    (p2.x - p1.x) * (p3.y - p1.y) - (p2.y - p1.y) * (p3.x - p1.x)
  }

  lemma CrossAntisymmetric(p1: Point, p2: Point, p3: Point)
    ensures Cross(p1, p2, p3) == -Cross(p1, p3, p2)
  {
  }

  lemma CrossDegenerate(p1: Point, p2: Point, p3: Point)
    requires p1 == p2 || p2 == p3 || p1 == p3
    ensures Cross(p1, p2, p3) == 0.0
  {
    if p2 == p3 {
      assert (p2.x - p1.x) * (p2.y - p1.y) == (p2.y - p1.y) * (p2.x - p1.x);
    }
  }

  /** Reals extended with +Infinity, for the JavaScript initialiser `Infinity`. */
  datatype Ext = Fin(v: real) | Inf

  predicate Le(a: Ext, b: Ext) {
    b.Inf? || (a.Fin? && a.v <= b.v)
  }

  lemma LeTrans(a: Ext, b: Ext, c: Ext)
    requires Le(a, b) && Le(b, c)
    ensures Le(a, c)
  {
  }

  /** Math.min on extended reals. */
  function Min(a: Ext, b: Ext): (m: Ext)
    ensures Le(m, a) && Le(m, b)
    ensures m == a || m == b
  {
    match (a, b)
    case (Inf, _) => b
    case (_, Inf) => a
    case (Fin(u), Fin(w)) => if u <= w then a else b
  }

  /** Math.max on extended reals. */
  function Max(a: Ext, b: Ext): (m: Ext)
    ensures Le(a, m) && Le(b, m)
    ensures m == a || m == b
  {
    match (a, b)
    case (Inf, _) => a
    case (_, Inf) => b
    case (Fin(u), Fin(w)) => if u >= w then a else b
  }

  lemma MaxCommutative(x: Ext, y: Ext)
    ensures Max(x, y) == Max(y, x)
  {
  }

  /** `Math.sqrt(d2) <= radius` for a squared distance d2 (Infinity is never within). */
  predicate Within(d2: Ext, radius: real) {
    d2.Fin? && radius >= 0.0 && d2.v <= radius * radius
  }

  lemma WithinMonotone(d2: Ext, r1: real, r2: real)
    requires r1 <= r2
    requires Within(d2, r1)
    ensures Within(d2, r2)
  {
    assert r1 * r1 <= r1 * r2 <= r2 * r2;
  }

  /** Math.max(0, Math.min(1, t)). */
  function Clamp01(t: real): (c: real)
    ensures 0.0 <= c <= 1.0
    ensures 0.0 <= t <= 1.0 ==> c == t
    ensures t < 0.0 ==> c == 0.0
    ensures t > 1.0 ==> c == 1.0
  {
    var m := if 1.0 <= t then 1.0 else t;
    if 0.0 >= m then 0.0 else m
  }

  /** The dot product (p - s) . (e - s), the source's `dot`. */
  function Dot(p: Point, s: Point, e: Point): real {
    (p.x - s.x) * (e.x - s.x) + (p.y - s.y) * (e.y - s.y)
  }

  /** The quadratic d0 - 2 t dot + t^2 len. */
  function Quad(d0: real, dot: real, len: real, t: real): real {
    d0 - 2.0 * t * dot + t * t * len
  }

  /** The squared distance from p to the point at parameter t on the line
      through s and e is a quadratic in t; Dist2(e, s) is the source's `lenSq`. */
  lemma Dist2AlongLine(p: Point, s: Point, e: Point, t: real)
    ensures Dist2(p, Lerp(s, e, t)) == Quad(Dist2(p, s), Dot(p, s, e), Dist2(e, s), t)
  {
    var ax, ay := p.x - s.x, p.y - s.y;
    var cx, cy := e.x - s.x, e.y - s.y;
    assert p.x - (s.x + t * cx) == ax - t * cx;
    assert p.y - (s.y + t * cy) == ay - t * cy;
    assert (ax - t * cx) * (ax - t * cx) == ax * ax - 2.0 * t * (ax * cx) + t * t * (cx * cx);
    assert (ay - t * cy) * (ay - t * cy) == ay * ay - 2.0 * t * (ay * cy) + t * t * (cy * cy);
  }

  /** a / b, named so that its uses agree syntactically. */
  function Ratio(a: real, b: real): real
    requires b != 0.0
  {
    a / b
  }

  lemma ProductNonnegative(a: real, b: real)
    requires a >= 0.0 && b >= 0.0
    ensures a * b >= 0.0
  {
  }

  lemma QuadDifference(d0: real, dot: real, len: real, u: real, t: real)
    ensures Quad(d0, dot, len, u) - Quad(d0, dot, len, t) == (u - t) * (len * (u + t) - 2.0 * dot)
  {
  }

  /** On [0, 1], a quadratic with positive leading coefficient is smallest at
      its vertex dot / len clamped to [0, 1]. */
  lemma QuadMinimum(d0: real, dot: real, len: real, u: real)
    requires len > 0.0
    requires 0.0 <= u <= 1.0
    ensures Quad(d0, dot, len, Clamp01(Ratio(dot, len))) <= Quad(d0, dot, len, u)
  {
    var star := dot / len;
    var t := Clamp01(star);
    assert len * star == dot;
    QuadDifference(d0, dot, len, u, t);
    var diff := (u - t) * (len * (u + t) - 2.0 * dot);
    if star < 0.0 {
      assert t == 0.0;
      assert dot < 0.0 by { assert len * star < 0.0; }
      ProductNonnegative(len, u);
      assert diff == u * (len * u - 2.0 * dot);
      ProductNonnegative(u, len * u - 2.0 * dot);
    } else if star > 1.0 {
      assert t == 1.0;
      assert dot > len by { assert len * star > len * 1.0; }
      assert len * u <= len;
      assert diff == (1.0 - u) * (2.0 * dot - len * (u + 1.0));
      ProductNonnegative(1.0 - u, 2.0 * dot - len * (u + 1.0));
    } else {
      assert t == star;
      assert diff == len * ((u - t) * (u - t));
      ProductNonnegative(len, (u - t) * (u - t));
    }
    assert diff >= 0.0;
  }

  /** The projection parameter `param` of pointToSegmentDistance, clamped to [0, 1]. */
  function SegmentParam(p: Point, s: Point, e: Point): (t: real)
    requires Dist2(e, s) != 0.0
    ensures 0.0 <= t <= 1.0
  {
    Clamp01(Ratio(Dot(p, s, e), Dist2(e, s)))
  }

  /** pointToSegmentDistance, squared: the distance to s when the segment is
      degenerate (lenSq === 0), else the distance to the clamped projection. */
  function PointToSegmentDist2(p: Point, s: Point, e: Point): real {
    if Dist2(e, s) == 0.0 then Dist2(p, s)
    else Dist2(p, Lerp(s, e, SegmentParam(p, s, e)))
  }

  /** The result is the distance from p to some point of the segment, and no
      point of the segment is nearer. */
  lemma PointToSegmentNearest(p: Point, s: Point, e: Point)
    ensures exists t :: 0.0 <= t <= 1.0 && PointToSegmentDist2(p, s, e) == Dist2(p, Lerp(s, e, t))
    ensures forall u :: 0.0 <= u <= 1.0 ==> PointToSegmentDist2(p, s, e) <= Dist2(p, Lerp(s, e, u))
  {
    if Dist2(e, s) == 0.0 {
      assert Lerp(s, e, 0.0) == s;
      forall u | 0.0 <= u <= 1.0
        ensures Lerp(s, e, u) == s
      {
      }
    } else {
      var t := SegmentParam(p, s, e);
      assert PointToSegmentDist2(p, s, e) == Dist2(p, Lerp(s, e, t));
      forall u | 0.0 <= u <= 1.0
        ensures Dist2(p, Lerp(s, e, t)) <= Dist2(p, Lerp(s, e, u))
      {
        Dist2AlongLine(p, s, e, t);
        Dist2AlongLine(p, s, e, u);
        QuadMinimum(Dist2(p, s), Dot(p, s, e), Dist2(e, s), u);
      }
    }
  }

  /** In particular the result is at most the distance to either endpoint. */
  lemma PointToSegmentAtMostEndpoints(p: Point, s: Point, e: Point)
    ensures PointToSegmentDist2(p, s, e) <= Dist2(p, s)
    ensures PointToSegmentDist2(p, s, e) <= Dist2(p, e)
  {
    PointToSegmentNearest(p, s, e);
    assert Lerp(s, e, 0.0) == s;
    assert Lerp(s, e, 1.0) == e;
  }

  function SumX(points: seq<Point>): real {
    if |points| == 0 then 0.0 else SumX(points[..|points| - 1]) + points[|points| - 1].x
  }

  function SumY(points: seq<Point>): real {
    if |points| == 0 then 0.0 else SumY(points[..|points| - 1]) + points[|points| - 1].y
  }

  /** calculateCentroid: the component-wise mean of the points. */
  method Centroid(points: seq<Point>) returns (c: Point)
    requires |points| > 0
    ensures c == Point(SumX(points) / |points| as real, SumY(points) / |points| as real)
  {
    var x, y := 0.0, 0.0;
    for i := 0 to |points|
      invariant x == SumX(points[..i]) && y == SumY(points[..i])
    {
      assert points[..i + 1][..i] == points[..i];
      x := x + points[i].x;
      y := y + points[i].y;
    }
    assert points[..|points|] == points;
    c := Point(x / |points| as real, y / |points| as real);
  }
}
