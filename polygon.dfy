/** A shape is the sequence of its vertices, each joined to the next and the
    last to the first. This module holds the distance from a point to that
    closed boundary, the ray-casting inside test and the two-shape demo's
    "inside the shape dilated by a radius" test. */
module Polygon {
  import opened Geometry

  /** The vertex after vertex i, wrapping round from the last vertex to the
      first: the vertex at (i + 1) % n. */
  function Succ(shape: seq<Point>, i: nat): Point
    requires i < |shape|
  {
    shape[(i + 1) % |shape|]
  }

  /** The point at parameter t of edge i, the edge from vertex i to its successor. */
  function EdgePoint(shape: seq<Point>, i: nat, t: real): Point
    requires i < |shape|
  {
    Lerp(shape[i], Succ(shape, i), t)
  }

  /** The squared distance from p to edge i. */
  function EdgeDist(p: Point, shape: seq<Point>, i: nat): real
    requires i < |shape|
  {
    PointToSegmentDist2(p, shape[i], Succ(shape, i))
  }

  /** minDist after the first k iterations of distanceToShape's loop. */
  function DistUpTo(p: Point, shape: seq<Point>, k: nat): Ext
    requires k <= |shape|
  {
    if k == 0 then Inf
    else Min(Min(DistUpTo(p, shape, k - 1), Fin(Dist2(p, shape[k - 1]))), Fin(EdgeDist(p, shape, k - 1)))
  }

  /** The squared distance from p to the boundary of the shape. */
  function DistToShape(p: Point, shape: seq<Point>): Ext {
    DistUpTo(p, shape, |shape|)
  }

  /** distanceToShape: the minimum, from Infinity, over every vertex of the
      distance to the vertex and to the edge leaving it. */
  method DistanceToShape(p: Point, shape: seq<Point>) returns (minDist: Ext)
    ensures minDist == DistToShape(p, shape)
  {
    minDist := Inf;
    for i := 0 to |shape|
      invariant minDist == DistUpTo(p, shape, i)
    {
      var curr := shape[i];
      var next := shape[(i + 1) % |shape|];
      var vertexDist := Dist2(p, curr);
      minDist := Min(minDist, Fin(vertexDist));
      var edgeDist := PointToSegmentDist2(p, curr, next);
      minDist := Min(minDist, Fin(edgeDist));
    }
  }

  lemma {:induction false} DistUpToInf(p: Point, shape: seq<Point>, k: nat)
    requires k <= |shape|
    ensures DistUpTo(p, shape, k).Inf? <==> k == 0
  {
    if k > 0 {
      DistUpToInf(p, shape, k - 1);
    }
  }

  lemma {:induction false} DistUpToLowerBound(p: Point, shape: seq<Point>, k: nat)
    requires k <= |shape|
    ensures forall i :: 0 <= i < k ==>
      Le(DistUpTo(p, shape, k), Fin(Dist2(p, shape[i]))) && Le(DistUpTo(p, shape, k), Fin(EdgeDist(p, shape, i)))
  {
    if k > 0 {
      DistUpToLowerBound(p, shape, k - 1);
      var prev := DistUpTo(p, shape, k - 1);
      var mid := Min(prev, Fin(Dist2(p, shape[k - 1])));
      var d := DistUpTo(p, shape, k);
      assert d == Min(mid, Fin(EdgeDist(p, shape, k - 1)));
      forall i | 0 <= i < k
        ensures Le(d, Fin(Dist2(p, shape[i]))) && Le(d, Fin(EdgeDist(p, shape, i)))
      {
        if i < k - 1 {
          LeTrans(d, mid, prev);
          LeTrans(d, prev, Fin(Dist2(p, shape[i])));
          LeTrans(d, prev, Fin(EdgeDist(p, shape, i)));
        } else {
          LeTrans(d, mid, Fin(Dist2(p, shape[i])));
        }
      }
    }
  }

  lemma {:induction false} DistUpToAttained(p: Point, shape: seq<Point>, k: nat)
    requires 0 < k <= |shape|
    ensures exists i :: 0 <= i < k &&
                        (DistUpTo(p, shape, k) == Fin(Dist2(p, shape[i])) || DistUpTo(p, shape, k) == Fin(EdgeDist(p, shape, i)))
  {
    var prev := DistUpTo(p, shape, k - 1);
    var v, e := Fin(Dist2(p, shape[k - 1])), Fin(EdgeDist(p, shape, k - 1));
    var d := DistUpTo(p, shape, k);
    assert d == Min(Min(prev, v), e);
    if d == v || d == e {
      assert 0 <= k - 1 < k && (d == Fin(Dist2(p, shape[k - 1])) || d == Fin(EdgeDist(p, shape, k - 1)));
    } else {
      assert d == prev;
      if k == 1 {
        assert false;
      }
      DistUpToAttained(p, shape, k - 1);
      var i :| 0 <= i < k - 1 && (prev == Fin(Dist2(p, shape[i])) || prev == Fin(EdgeDist(p, shape, i)));
      assert 0 <= i < k && (d == Fin(Dist2(p, shape[i])) || d == Fin(EdgeDist(p, shape, i)));
    }
  }

  /** The distance is Infinity exactly for the empty shape. */
  lemma DistToShapeInfIffEmpty(p: Point, shape: seq<Point>)
    ensures DistToShape(p, shape).Inf? <==> |shape| == 0
  {
    DistUpToInf(p, shape, |shape|);
  }

  /** The distance is at most the distance to every vertex and to every edge,
      and for a non-empty shape it is one of those values. */
  lemma DistToShapeIsMinimum(p: Point, shape: seq<Point>)
    ensures forall i :: 0 <= i < |shape| ==>
      Le(DistToShape(p, shape), Fin(Dist2(p, shape[i]))) && Le(DistToShape(p, shape), Fin(EdgeDist(p, shape, i)))
    ensures |shape| > 0 ==>
      exists i :: 0 <= i < |shape| &&
                  (DistToShape(p, shape) == Fin(Dist2(p, shape[i])) || DistToShape(p, shape) == Fin(EdgeDist(p, shape, i)))
  {
    DistUpToLowerBound(p, shape, |shape|);
    if |shape| > 0 {
      DistUpToAttained(p, shape, |shape|);
    }
  }

  /** The squared distance to edge i is at most that to any point of the
      edge, and equals that to one of them. */
  lemma EdgeDistIsNearest(p: Point, shape: seq<Point>, i: nat)
    requires i < |shape|
    ensures forall t :: 0.0 <= t <= 1.0 ==> EdgeDist(p, shape, i) <= Dist2(p, EdgePoint(shape, i, t))
    ensures exists t :: 0.0 <= t <= 1.0 && EdgeDist(p, shape, i) == Dist2(p, EdgePoint(shape, i, t))
  {
    PointToSegmentNearest(p, shape[i], Succ(shape, i));
    var t :| 0.0 <= t <= 1.0 && EdgeDist(p, shape, i) == Dist2(p, Lerp(shape[i], Succ(shape, i), t));
    assert EdgeDist(p, shape, i) == Dist2(p, EdgePoint(shape, i, t));
  }

  /** The distance is the distance to the nearest point of the closed
      boundary: no point of any edge is nearer, and some point of some edge
      is exactly that far. */
  lemma DistToShapeIsBoundaryDistance(p: Point, shape: seq<Point>)
    ensures forall i, t :: 0 <= i < |shape| && 0.0 <= t <= 1.0 ==>
      Le(DistToShape(p, shape), Fin(Dist2(p, EdgePoint(shape, i, t))))
    ensures |shape| > 0 ==>
      exists i, t :: 0 <= i < |shape| && 0.0 <= t <= 1.0 && DistToShape(p, shape) == Fin(Dist2(p, EdgePoint(shape, i, t)))
  {
    DistToShapeIsMinimum(p, shape);
    var d := DistToShape(p, shape);
    forall i, t | 0 <= i < |shape| && 0.0 <= t <= 1.0
      ensures Le(d, Fin(Dist2(p, EdgePoint(shape, i, t))))
    {
      EdgeDistIsNearest(p, shape, i);
      LeTrans(d, Fin(EdgeDist(p, shape, i)), Fin(Dist2(p, EdgePoint(shape, i, t))));
    }
    if |shape| > 0 {
      var i :| 0 <= i < |shape| && (d == Fin(Dist2(p, shape[i])) || d == Fin(EdgeDist(p, shape, i)));
      if d == Fin(Dist2(p, shape[i])) {
        assert EdgePoint(shape, i, 0.0) == shape[i];
        assert 0 <= i < |shape| && 0.0 <= 0.0 <= 1.0 && d == Fin(Dist2(p, EdgePoint(shape, i, 0.0)));
      } else {
        EdgeDistIsNearest(p, shape, i);
        var t :| 0.0 <= t <= 1.0 && EdgeDist(p, shape, i) == Dist2(p, EdgePoint(shape, i, t));
        assert 0 <= i < |shape| && 0.0 <= t <= 1.0 && d == Fin(Dist2(p, EdgePoint(shape, i, t)));
      }
    }
  }

  /** A vertex is at distance 0 from its own shape. */
  lemma DistToShapeAtVertex(p: Point, shape: seq<Point>)
    requires p in shape
    ensures DistToShape(p, shape) == Fin(0.0)
  {
    DistToShapeIsMinimum(p, shape);
    var i :| 0 <= i < |shape| && shape[i] == p;
    assert Le(DistToShape(p, shape), Fin(Dist2(p, shape[i])));
    var j :| 0 <= j < |shape| &&
      (DistToShape(p, shape) == Fin(Dist2(p, shape[j])) || DistToShape(p, shape) == Fin(EdgeDist(p, shape, j)));
    PointToSegmentNearest(p, shape[j], Succ(shape, j));
  }

  /** The index visited together with vertex i as `j` in isPointInPolygon:
      n - 1 for the first vertex, i - 1 afterwards. */
  function Prev(n: nat, i: nat): nat
    requires i < n
  {
    if i == 0 then n - 1 else i - 1
  }

  /** The crossing test of isPointInPolygon for the edge from a (vertex i) to
      b (vertex j): the edge straddles the horizontal line through p, and
      meets it to the right of p. The second conjunct divides by b.y - a.y,
      which the first makes non-zero. */
  predicate Crosses(p: Point, a: Point, b: Point) {
    ((a.y > p.y) != (b.y > p.y)) && p.x < (b.x - a.x) * (p.y - a.y) / (b.y - a.y) + a.x
  }

  /** The number of edges among the first k the crossing test accepts. */
  function CrossingCount(p: Point, shape: seq<Point>, k: nat): nat
    requires k <= |shape|
  {
    if k == 0 then 0
    else CrossingCount(p, shape, k - 1) + (if Crosses(p, shape[k - 1], shape[Prev(|shape|, k - 1)]) then 1 else 0)
  }

  /** The indices i < k whose edge (vertex i to vertex Prev(i)) the crossing
      test accepts. */
  function CrossingEdges(p: Point, shape: seq<Point>, k: nat): set<nat>
    requires k <= |shape|
  {
    set i: nat | i < k && Crosses(p, shape[i], shape[Prev(|shape|, i)])
  }

  /** The crossing count is the number of accepted edges, whatever order the
      loop visits them in. */
  lemma {:induction false} CrossingCountIsEdgeCount(p: Point, shape: seq<Point>, k: nat)
    requires k <= |shape|
    ensures CrossingCount(p, shape, k) == |CrossingEdges(p, shape, k)|
  {
    if k == 0 {
      assert CrossingEdges(p, shape, 0) == {};
    } else {
      CrossingCountIsEdgeCount(p, shape, k - 1);
      var prev := CrossingEdges(p, shape, k - 1);
      assert k - 1 !in prev;
      if Crosses(p, shape[k - 1], shape[Prev(|shape|, k - 1)]) {
        assert CrossingEdges(p, shape, k) == prev + {k - 1};
      } else {
        assert CrossingEdges(p, shape, k) == prev;
      }
    }
  }

  /** The ray-casting verdict: an odd number of crossings. */
  predicate InPolygon(p: Point, shape: seq<Point>) {
    CrossingCount(p, shape, |shape|) % 2 == 1
  }

  /** isPointInPolygon: toggles `inside` once per accepted crossing, so the
      result is the parity of the crossing count; false for the empty shape. */
  method IsPointInPolygon(p: Point, shape: seq<Point>) returns (inside: bool)
    ensures inside <==> CrossingCount(p, shape, |shape|) % 2 == 1
    ensures inside <==> |CrossingEdges(p, shape, |shape|)| % 2 == 1
    ensures |shape| == 0 ==> !inside
  {
    CrossingCountIsEdgeCount(p, shape, |shape|);
    inside := false;
    var n := |shape|;
    if n == 0 {
      return;
    }
    var i, j := 0, n - 1;
    while i < n
      invariant 0 <= i <= n
      invariant i < n ==> j == Prev(n, i)
      invariant inside <==> CrossingCount(p, shape, i) % 2 == 1
    {
      var intersect := Crosses(p, shape[i], shape[j]);
      if intersect {
        inside := !inside;
      }
      j := i;
      i := i + 1;
    }
  }

  /** A horizontal edge never counts as a crossing. */
  lemma HorizontalEdgeNeverCrosses(p: Point, a: Point, b: Point)
    requires a.y == b.y
    ensures !Crosses(p, a, b)
  {
  }

  /** n / d lies in [0, 1] when n lies between 0 and d. */
  lemma QuotientInUnit(n: real, d: real)
    requires (0.0 < d && 0.0 <= n <= d) || (d < 0.0 && d <= n <= 0.0)
    ensures 0.0 <= n / d <= 1.0
  {
  }

  /** The crossing point of a straddling edge lies within the edge's
      x-range: between its leftmost and its rightmost endpoint. */
  lemma CrossingBetween(py: real, x0: real, y0: real, x1: real, y1: real)
    requires (y0 > py) != (y1 > py)
    ensures (x1 - x0) * (py - y0) / (y1 - y0) + x0 <= if x0 <= x1 then x1 else x0
    ensures (if x0 <= x1 then x0 else x1) <= (x1 - x0) * (py - y0) / (y1 - y0) + x0
  {
    var t := (py - y0) / (y1 - y0);
    QuotientInUnit(py - y0, y1 - y0);
    assert (x1 - x0) * (py - y0) / (y1 - y0) == (x1 - x0) * t;
    ScaleInUnit(x1 - x0, t);
  }

  /** c * t lies between 0 and c when t lies in [0, 1]. */
  lemma ScaleInUnit(c: real, t: real)
    requires 0.0 <= t <= 1.0
    ensures c >= 0.0 ==> 0.0 <= c * t <= c
    ensures c < 0.0 ==> c <= c * t <= 0.0
  {
    if c >= 0.0 {
      ProductNonnegative(c, t);
      ProductNonnegative(c, 1.0 - t);
      assert c - c * t == c * (1.0 - t);
    } else {
      ProductNonnegative(-c, t);
      ProductNonnegative(-c, 1.0 - t);
      assert c * t - c == (-c) * (1.0 - t);
      assert -(c * t) == (-c) * t;
    }
  }

  /** An edge whose endpoints are both left of p, or both not above p, is
      never a crossing of p's ray. */
  lemma NoCrossingBeyond(p: Point, a: Point, b: Point)
    requires (a.x <= p.x && b.x <= p.x) || (a.y <= p.y && b.y <= p.y)
    ensures !Crosses(p, a, b)
  {
    if (a.y > p.y) != (b.y > p.y) {
      CrossingBetween(p.y, a.x, a.y, b.x, b.y);
    }
  }

  lemma {:induction false} CrossingCountZero(p: Point, shape: seq<Point>, k: nat)
    requires k <= |shape|
    requires (forall v :: v in shape ==> v.x <= p.x) || (forall v :: v in shape ==> v.y <= p.y)
    ensures CrossingCount(p, shape, k) == 0
  {
    if k > 0 {
      CrossingCountZero(p, shape, k - 1);
      var a, b := shape[k - 1], shape[Prev(|shape|, k - 1)];
      assert a in shape && b in shape;
      NoCrossingBeyond(p, a, b);
    }
  }

  /** A point whose x is at least every vertex's x, or whose y is at least
      every vertex's y, is outside: no edge can cross to its right. */
  lemma OutsideBeyondVertices(p: Point, shape: seq<Point>)
    requires (forall v :: v in shape ==> v.x <= p.x) || (forall v :: v in shape ==> v.y <= p.y)
    ensures !InPolygon(p, shape)
  {
    CrossingCountZero(p, shape, |shape|);
  }

  /** The axis-aligned square with corners (0, 0) and (10, 10). */
  function UnitSquare(): seq<Point> {
    [Point(0.0, 0.0), Point(10.0, 0.0), Point(10.0, 10.0), Point(0.0, 10.0)]
  }

  /** Its centre is inside; a point to its left at mid height crosses both
      vertical edges and is outside. */
  lemma SquareExample()
    ensures InPolygon(Point(5.0, 5.0), UnitSquare())
    ensures !InPolygon(Point(-5.0, 5.0), UnitSquare())
  {
    var s := UnitSquare();
    var c, w := Point(5.0, 5.0), Point(-5.0, 5.0);
    assert !Crosses(c, s[0], s[3]) && !Crosses(c, s[1], s[0]) && Crosses(c, s[2], s[1]) && !Crosses(c, s[3], s[2]);
    assert CrossingCount(c, s, 2) == 0;
    assert CrossingCount(c, s, 4) == 1;
    assert Crosses(w, s[0], s[3]) && !Crosses(w, s[1], s[0]) && Crosses(w, s[2], s[1]) && !Crosses(w, s[3], s[2]);
    assert CrossingCount(w, s, 2) == 1;
    assert CrossingCount(w, s, 4) == 2;
  }

  /** The two-shape demo's dilation test: inside the polygon, or within
      radius of its boundary. */
  predicate InDilatedShape(p: Point, shape: seq<Point>, radius: real) {
    InPolygon(p, shape) || Within(DistToShape(p, shape), radius)
  }

  /** isPointInDilatedShape of the two-shape demo: the polygon test first,
      then the boundary distance. */
  method IsPointInDilatedShape(p: Point, shape: seq<Point>, radius: real) returns (b: bool)
    ensures b <==> InDilatedShape(p, shape, radius)
  {
    var inside := IsPointInPolygon(p, shape);
    if inside {
      return true;
    }
    var d := DistanceToShape(p, shape);
    b := Within(d, radius);
  }

  /** Some point of the boundary is within radius of p. */
  ghost predicate NearBoundary(p: Point, shape: seq<Point>, radius: real) {
    radius >= 0.0 &&
    exists i, t :: 0 <= i < |shape| && 0.0 <= t <= 1.0 && Dist2(p, EdgePoint(shape, i, t)) <= radius * radius
  }

  /** The dilation holds every point within radius of a point of the boundary,
      and a point outside the polygon is in it only if some boundary point is
      within radius. */
  lemma InDilatedShapeMeaning(p: Point, shape: seq<Point>, radius: real)
    ensures NearBoundary(p, shape, radius) ==> InDilatedShape(p, shape, radius)
    ensures InDilatedShape(p, shape, radius) && !InPolygon(p, shape) ==> NearBoundary(p, shape, radius)
  {
    DistToShapeIsBoundaryDistance(p, shape);
    DistToShapeInfIffEmpty(p, shape);
  }

  /** Growing the radius never removes a point. */
  lemma InDilatedShapeMonotone(p: Point, shape: seq<Point>, r1: real, r2: real)
    requires r1 <= r2
    requires InDilatedShape(p, shape, r1)
    ensures InDilatedShape(p, shape, r2)
  {
    if !InPolygon(p, shape) {
      WithinMonotone(DistToShape(p, shape), r1, r2);
    }
  }

  /** Every vertex lies in the dilation by any radius >= 0. */
  lemma VertexInDilatedShape(v: Point, shape: seq<Point>, radius: real)
    requires v in shape
    requires radius >= 0.0
    ensures InDilatedShape(v, shape, radius)
  {
    DistToShapeAtVertex(v, shape);
  }
}
