/** The barycentric triangle slider: a cursor in normalised coordinates kept
    inside the triangle (0.5, 0), (0, 1), (1, 1), the conversions between its
    position and the three weights a, b, c it displays, and the clamping of
    an outside position to the nearest edge. */
module TriangularSlider {
  import opened Geometry

  /** The three weights of a position, in the order of the vertices. */
  datatype Bary = Bary(a: real, b: real, c: real)

  function Total(t: Bary): real {
    t.a + t.b + t.c
  }

  /** The vertices every conversion of the slider uses: A at the top, B at the
      bottom left, C at the bottom right. */
  const V0: Point := Point(0.5, 0.0)
  const V1: Point := Point(0.0, 1.0)
  const V2: Point := Point(1.0, 1.0)

  lemma RatioByOne(a: real, b: real)
    requires b != 0.0
    ensures b == 1.0 ==> Ratio(a, b) == a
  {
  }

  /** The barycentric coordinates before clamping, as isInsideTriangle and
      cartesianToBarycentric compute them: the source's formulas with the
      coordinates of V0, V1 and V2 written out, and c := 1 - a - b. For this
      triangle the denominator is -1 and they are a = 1 - y,
      b = 1/2 - x + y/2, c = x + y/2 - 1/2. */
  function Raw(p: Point): (t: Bary)
    ensures t == Bary(1.0 - p.y, 0.5 - p.x + 0.5 * p.y, p.x + 0.5 * p.y - 0.5)
  {
    var denom := (1.0 - 1.0) * (0.5 - 1.0) + (1.0 - 0.0) * (0.0 - 1.0);
    var a := ((1.0 - 1.0) * (p.x - 1.0) + (1.0 - 0.0) * (p.y - 1.0)) / denom;
    var b := ((1.0 - 0.0) * (p.x - 1.0) + (0.5 - 1.0) * (p.y - 1.0)) / denom;
    Bary(a, b, 1.0 - a - b)
  }

  /** The three raw weights always add up to 1. */
  lemma RawSumsToOne(p: Point)
    ensures Total(Raw(p)) == 1.0
  {
  }

  /** isInsideTriangle for the slider's triangle: all three raw weights are
      non-negative. */
  predicate IsInsideTriangle(p: Point) {
    var t := Raw(p);
    t.a >= 0.0 && t.b >= 0.0 && t.c >= 0.0
  }

  /** Math.max(0, v). */
  function NonNegative(v: real): (r: real)
    ensures r >= 0.0
    ensures v >= 0.0 ==> r == v
    ensures v < 0.0 ==> r == 0.0
  {
    if 0.0 >= v then 0.0 else v
  }

  /** Each weight divided by sum; dividing by a sum of 1 changes nothing. */
  function Divided(t: Bary, sum: real): (d: Bary)
    requires sum != 0.0
    ensures sum == 1.0 ==> d == t
  {
    RatioByOne(t.a, sum);
    RatioByOne(t.b, sum);
    RatioByOne(t.c, sum);
    Bary(Ratio(t.a, sum), Ratio(t.b, sum), Ratio(t.c, sum))
  }

  /** Each weight clamped at 0 from below. */
  function Clamped(t: Bary): (c: Bary)
    ensures c.a >= 0.0 && c.b >= 0.0 && c.c >= 0.0
    ensures t.a >= 0.0 && t.b >= 0.0 && t.c >= 0.0 ==> c == t
  {
    Bary(NonNegative(t.a), NonNegative(t.b), NonNegative(t.c))
  }

  /** cartesianToBarycentric: the raw weights divided by their sum, each
      clamped at 0 from below. The sum is 1, so the division changes nothing. */
  function CartesianToBarycentric(p: Point): (t: Bary)
    ensures t == Clamped(Raw(p))
  {
    Clamped(Divided(Raw(p), Total(Raw(p))))
  }

  /** Inside the triangle the displayed weights are the raw ones and add up to 1. */
  lemma InsideWeights(p: Point)
    requires IsInsideTriangle(p)
    ensures CartesianToBarycentric(p) == Raw(p)
    ensures Total(CartesianToBarycentric(p)) == 1.0
  {
  }

  /** The clamp comes after the division and nothing renormalises, so outside
      the triangle the weights can add up to more than 1: at the corner (0, 0)
      they are (1, 1/2, 0). */
  lemma OutsideWeightsExceedOne()
    ensures !IsInsideTriangle(Point(0.0, 0.0))
    ensures CartesianToBarycentric(Point(0.0, 0.0)) == Bary(1.0, 0.5, 0.0)
    ensures Total(CartesianToBarycentric(Point(0.0, 0.0))) > 1.0
  {
  }

  /** barycentricToCartesian: the affine combination a V0 + b V1 + c V2,
      coordinates written out. */
  function BarycentricToCartesian(t: Bary): Point {
    Point(t.a * 0.5 + t.b * 0.0 + t.c * 1.0, t.a * 0.0 + t.b * 1.0 + t.c * 1.0)
  }

  /** Non-negative weights adding up to 1. */
  predicate IsWeighting(t: Bary) {
    t.a >= 0.0 && t.b >= 0.0 && t.c >= 0.0 && Total(t) == 1.0
  }

  /** A position whose raw weights are t, all non-negative, is inside and
      displays t. */
  lemma WeightsAt(v: Point, t: Bary)
    requires Raw(v) == t && t.a >= 0.0 && t.b >= 0.0 && t.c >= 0.0
    ensures IsInsideTriangle(v) && CartesianToBarycentric(v) == t
  {
  }

  /** Weights -> position -> weights gives back the weights. */
  lemma BarycentricRoundTrip(t: Bary)
    requires IsWeighting(t)
    ensures IsInsideTriangle(BarycentricToCartesian(t))
    ensures CartesianToBarycentric(BarycentricToCartesian(t)) == t
  {
    var p := BarycentricToCartesian(t);
    assert Raw(p) == t;
    WeightsAt(p, t);
  }

  /** Position -> weights -> position gives back every position inside the
      triangle. */
  lemma CartesianRoundTrip(p: Point)
    requires IsInsideTriangle(p)
    ensures IsWeighting(CartesianToBarycentric(p))
    ensures BarycentricToCartesian(CartesianToBarycentric(p)) == p
  {
  }

  /** The inside test holds exactly at the convex combinations of the three
      vertices. */
  lemma InsideIsConvexCombination(p: Point)
    ensures IsInsideTriangle(p) <==> exists t :: IsWeighting(t) && BarycentricToCartesian(t) == p
  {
    if IsInsideTriangle(p) {
      CartesianRoundTrip(p);
    }
    if exists t :: IsWeighting(t) && BarycentricToCartesian(t) == p {
      var t :| IsWeighting(t) && BarycentricToCartesian(t) == p;
      BarycentricRoundTrip(t);
    }
  }

  /** Each vertex is inside, with all the weight on itself. */
  lemma VertexAInside()
    ensures IsInsideTriangle(V0) && CartesianToBarycentric(V0) == Bary(1.0, 0.0, 0.0)
  {
    WeightsAt(V0, Bary(1.0, 0.0, 0.0));
  }

  lemma VertexBInside()
    ensures IsInsideTriangle(V1) && CartesianToBarycentric(V1) == Bary(0.0, 1.0, 0.0)
  {
    WeightsAt(V1, Bary(0.0, 1.0, 0.0));
  }

  lemma VertexCInside()
    ensures IsInsideTriangle(V2) && CartesianToBarycentric(V2) == Bary(0.0, 0.0, 1.0)
  {
    WeightsAt(V2, Bary(0.0, 0.0, 1.0));
  }

  // ---------------------------------------------------------------------
  // Clamping to the triangle

  /** projectPointToSegment: p1 itself when the segment is a single point,
      else the point at the projection parameter clamped to [0, 1]. */
  function ProjectPointToSegment(p: Point, p1: Point, p2: Point): Point {
    var dx := p2.x - p1.x;
    var dy := p2.y - p1.y;
    if dx == 0.0 && dy == 0.0 then p1
    else
      var t := Clamp01(Ratio(Dot(p, p1, p2), Sq(dx) + Sq(dy)));
      Point(p1.x + t * dx, p1.y + t * dy)
  }

  /** The projection lies on the segment and no point of the segment is
      nearer to p; a degenerate segment gives p1. */
  lemma ProjectionIsNearest(p: Point, p1: Point, p2: Point)
    ensures p1 == p2 ==> ProjectPointToSegment(p, p1, p2) == p1
    ensures exists t :: 0.0 <= t <= 1.0 && ProjectPointToSegment(p, p1, p2) == Lerp(p1, p2, t)
    ensures forall u :: 0.0 <= u <= 1.0 ==> Dist2(p, ProjectPointToSegment(p, p1, p2)) <= Dist2(p, Lerp(p1, p2, u))
  {
    var q := ProjectPointToSegment(p, p1, p2);
    PointToSegmentNearest(p, p1, p2);
    if p1 == p2 {
      assert q == Lerp(p1, p2, 0.0);
    } else {
      assert q == Lerp(p1, p2, SegmentParam(p, p1, p2));
    }
  }

  /** The edges in the order projectToTriangle visits them. */
  function Edges(): seq<(Point, Point)> {
    [(V0, V1), (V1, V2), (V2, V0)]
  }

  /** The projection of p on edge k. */
  function Projection(p: Point, k: nat): Point
    requires k < 3
  {
    ProjectPointToSegment(p, Edges()[k].0, Edges()[k].1)
  }

  /** The index of closestPoint after the first k edges: an edge replaces it
      only when its projection is strictly nearer. */
  function BestEdge(p: Point, k: nat): (best: nat)
    requires 1 <= k <= 3
    ensures best < k
  {
    if k == 1 then 0
    else
      var best := BestEdge(p, k - 1);
      if Dist2(Projection(p, k - 1), p) < Dist2(Projection(p, best), p) then k - 1 else best
  }

  /** The chosen edge is the first whose projection is nearest. */
  lemma {:induction false} BestEdgeIsFirstNearest(p: Point, k: nat)
    requires 1 <= k <= 3
    ensures forall j :: 0 <= j < k ==> Dist2(Projection(p, BestEdge(p, k)), p) <= Dist2(Projection(p, j), p)
    ensures forall j :: 0 <= j < BestEdge(p, k) ==> Dist2(Projection(p, j), p) > Dist2(Projection(p, BestEdge(p, k)), p)
  {
    if k > 1 {
      BestEdgeIsFirstNearest(p, k - 1);
    }
  }

  /** projectToTriangle: the three edge projections with minDist starting at
      Infinity, closestPoint replaced on a strictly smaller squared distance. */
  method ProjectToTriangle(p: Point) returns (closestPoint: Point)
    ensures closestPoint == Projection(p, BestEdge(p, 3))
  {
    var edges := Edges();
    var minDist := Inf;
    closestPoint := p;
    for k := 0 to |edges|
      invariant k == 0 ==> minDist == Inf
      invariant k > 0 ==> minDist == Fin(Dist2(Projection(p, BestEdge(p, k)), p)) && closestPoint == Projection(p, BestEdge(p, k))
    {
      var (p1, p2) := edges[k];
      var projected := ProjectPointToSegment(p, p1, p2);
      var dist := Sq(projected.x - p.x) + Sq(projected.y - p.y);
      if minDist.Inf? || dist < minDist.v {
        minDist := Fin(dist);
        closestPoint := projected;
      }
    }
  }

  /** The point of the triangle's boundary nearest to p, on the first edge
      that attains it: nearer than or as near as any point of any edge. */
  lemma ProjectToTriangleIsNearest(p: Point, k: nat, u: real)
    requires k < 3 && 0.0 <= u <= 1.0
    ensures Dist2(Projection(p, BestEdge(p, 3)), p) <= Dist2(Lerp(Edges()[k].0, Edges()[k].1, u), p)
  {
    BestEdgeIsFirstNearest(p, 3);
    var e := Edges()[k];
    ProjectionIsNearest(p, e.0, e.1);
    Dist2Symmetric(p, Projection(p, k));
    Dist2Symmetric(p, Lerp(e.0, e.1, u));
  }

  /** Every point of an edge is inside the triangle. */
  lemma EdgeInside(k: nat, t: real)
    requires k < 3 && 0.0 <= t <= 1.0
    ensures IsInsideTriangle(Lerp(Edges()[k].0, Edges()[k].1, t))
  {
  }

  /** constrainToTriangle as a function: inside points stay, the others go to
      the nearest edge projection. */
  function Constrained(p: Point): Point {
    if IsInsideTriangle(p) then p else Projection(p, BestEdge(p, 3))
  }

  /** The constrained position is always inside, inside positions are left
      alone, and constraining twice is constraining once. */
  lemma ConstrainedFacts(p: Point)
    ensures IsInsideTriangle(Constrained(p))
    ensures IsInsideTriangle(p) ==> Constrained(p) == p
    ensures Constrained(Constrained(p)) == Constrained(p)
  {
    if !IsInsideTriangle(p) {
      var k := BestEdge(p, 3);
      var e := Edges()[k];
      ProjectionIsNearest(p, e.0, e.1);
      var t :| 0.0 <= t <= 1.0 && Projection(p, k) == Lerp(e.0, e.1, t);
      EdgeInside(k, t);
    }
  }

  /** constrainToTriangle. */
  method ConstrainToTriangle(p: Point) returns (q: Point)
    ensures q == Constrained(p)
  {
    if IsInsideTriangle(p) {
      q := p;
    } else {
      q := ProjectToTriangle(p);
    }
  }

  /** setValues' normalisation: each weight divided by their sum. */
  function Normalize(t: Bary): (n: Bary)
    requires Total(t) != 0.0
    ensures Total(n) == 1.0
  {
    var sum := t.a + t.b + t.c;
    QuotientsSumToOne(t.a, t.b, t.c, sum);
    Bary(Ratio(t.a, sum), Ratio(t.b, sum), Ratio(t.c, sum))
  }

  lemma QuotientsSumToOne(a: real, b: real, c: real, sum: real)
    requires sum == a + b + c && sum != 0.0
    ensures Ratio(a, sum) + Ratio(b, sum) + Ratio(c, sum) == 1.0
  {
    assert Ratio(a, sum) + Ratio(b, sum) + Ratio(c, sum) == (a + b + c) / sum;
  }

  /** Normalised non-negative weights placed with setValues read back
      unchanged through getValues. */
  lemma SetThenGet(t: Bary)
    requires t.a >= 0.0 && t.b >= 0.0 && t.c >= 0.0 && Total(t) > 0.0
    ensures CartesianToBarycentric(BarycentricToCartesian(Normalize(t))) == Normalize(t)
  {
    var n := Normalize(t);
    var sum := Total(t);
    assert n.a >= 0.0 && n.b >= 0.0 && n.c >= 0.0 by {
      assert n.a == t.a / sum && n.b == t.b / sum && n.c == t.c / sum;
    }
    BarycentricRoundTrip(n);
  }

  /** The initial cursor (1/2, 2/3) is the centroid of the triangle: equal
      weights. */
  lemma InitialCursorIsCentroid()
    ensures IsInsideTriangle(Point(0.5, 2.0 / 3.0))
    ensures CartesianToBarycentric(Point(0.5, 2.0 / 3.0)) == Bary(1.0 / 3.0, 1.0 / 3.0, 1.0 / 3.0)
  {
  }

  /** The slider's state: the cursor position in normalised coordinates. */
  class Slider {
    var cursorX: real
    var cursorY: real

    function Cursor(): Point
      reads this
    {
      Point(cursorX, cursorY)
    }

    constructor ()
      ensures Cursor() == Point(0.5, 2.0 / 3.0)
    {
      cursorX := 0.5;
      cursorY := 2.0 / 3.0;
    }

    /** updateCursorFromEvent, from the normalised position on: the cursor
        moves to the constrained position. */
    method UpdateCursor(x: real, y: real)
      modifies this
      ensures Cursor() == Constrained(Point(x, y))
      ensures IsInsideTriangle(Cursor())
    {
      var constrainedPos := ConstrainToTriangle(Point(x, y));
      ConstrainedFacts(Point(x, y));
      cursorX := constrainedPos.x;
      cursorY := constrainedPos.y;
    }

    /** setValues: the weights, normalised when asked, become the displayed
        values and place the cursor at their affine combination. */
    method SetValues(a: real, b: real, c: real, normalize: bool) returns (values: Bary)
      requires normalize ==> a + b + c != 0.0
      modifies this
      ensures values == (if normalize then Normalize(Bary(a, b, c)) else Bary(a, b, c))
      ensures normalize ==> Total(values) == 1.0
      ensures Cursor() == BarycentricToCartesian(values)
    {
      var a, b, c := a, b, c;
      if normalize {
        var sum := a + b + c;
        a := a / sum;
        b := b / sum;
        c := c / sum;
      }
      var cartesian := BarycentricToCartesian(Bary(a, b, c));
      cursorX := cartesian.x;
      cursorY := cartesian.y;
      values := Bary(a, b, c);
    }

    /** getValues: the weights of the current cursor. */
    method GetValues() returns (values: Bary)
      ensures values == CartesianToBarycentric(Cursor())
      ensures values.a >= 0.0 && values.b >= 0.0 && values.c >= 0.0
    {
      values := CartesianToBarycentric(Point(cursorX, cursorY));
    }
  }
}
