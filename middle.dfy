/** The two-shape demo (the "middle" S_alpha of two shapes): the pairwise-sum
    Minkowski candidates with their Graham boundary, and the grid-sampled
    intersection of shape A dilated by alpha * 60 with shape B dilated by
    (1 - alpha) * 60. */
module HausdorffMiddle {
  import opened Geometry
  import opened Polygon
  import opened Hull
  import opened Grid
  import opened Pairwise

  /** computeMinkowskiSum: the sums a + b over all pairs, then their Graham
      boundary. The boundary holds only pairwise sums, at most |A| * |B| of
      them; fewer than three candidates come back as they are. */
  method ComputeMinkowskiSum(pointsA: seq<Point>, pointsB: seq<Point>) returns (hull: seq<Point>)
    ensures |Pairs(pointsA, pointsB, Add)| == |pointsA| * |pointsB|
    ensures |Pairs(pointsA, pointsB, Add)| < 3 ==> hull == Pairs(pointsA, pointsB, Add)
    ensures |Pairs(pointsA, pointsB, Add)| >= 3 ==>
      |hull| > 0 && hull[0] == Lowest(Pairs(pointsA, pointsB, Add)) && LeftTurns(hull)
    ensures |hull| <= |pointsA| * |pointsB|
    ensures forall q :: q in hull ==> exists a, b :: a in pointsA && b in pointsB && q == Add(a, b)
  {
    var sumPoints: seq<Point> := [];
    for i := 0 to |pointsA|
      invariant sumPoints == Pairs(pointsA[..i], pointsB, Add)
    {
      var a := pointsA[i];
      for j := 0 to |pointsB|
        invariant sumPoints == Pairs(pointsA[..i], pointsB, Add) + Row(a, pointsB[..j], Add)
      {
        var b := pointsB[j];
        assert pointsB[..j + 1][..j] == pointsB[..j];
        sumPoints := sumPoints + [Point(a.x + b.x, a.y + b.y)];
      }
      assert pointsB[..|pointsB|] == pointsB;
      assert pointsA[..i + 1][..i] == pointsA[..i];
    }
    assert pointsA[..|pointsA|] == pointsA;
    PairsLength(pointsA, pointsB, Add);
    hull := CalculateBoundary(sumPoints);
    forall q | q in hull
      ensures exists a, b :: a in pointsA && b in pointsB && q == Add(a, b)
    {
      PairsMembership(q, pointsA, pointsB, Add);
    }
  }

  /** A grid point of the intersection: in A dilated by radiusA and in B
      dilated by radiusB. */
  predicate InBothAt(shapeA: seq<Point>, shapeB: seq<Point>, radiusA: real, radiusB: real, p: Point) {
    InDilatedShape(p, shapeA, radiusA) && InDilatedShape(p, shapeB, radiusB)
  }

  /** The same test as a function value, the one the grid sample is taken with. */
  function InBoth(shapeA: seq<Point>, shapeB: seq<Point>, radiusA: real, radiusB: real): Point -> bool {
    p => InBothAt(shapeA, shapeB, radiusA, radiusB, p)
  }

  /** The body of drawIntersection's inner loop: the two dilation tests of one
      grid point and their conjunction. */
  method IsPointInBoth(point: Point, shapeA: seq<Point>, shapeB: seq<Point>, radiusA: real, radiusB: real) returns (both: bool)
    ensures both == InBothAt(shapeA, shapeB, radiusA, radiusB, point)
  {
    var inA := IsPointInDilatedShape(point, shapeA, radiusA);
    var inB := IsPointInDilatedShape(point, shapeB, radiusB);
    both := inA && inB;
  }

  /** Every sampled point of the intersection lies in both dilations. */
  lemma SampleInBoth(width: nat, height: nat, shapeA: seq<Point>, shapeB: seq<Point>, radiusA: real, radiusB: real)
    ensures forall p :: p in Sample(IntersectionStep, width, height, InBoth(shapeA, shapeB, radiusA, radiusB)) ==>
      InDilatedShape(p, shapeA, radiusA) && InDilatedShape(p, shapeB, radiusB)
  {
    forall p | p in Sample(IntersectionStep, width, height, InBoth(shapeA, shapeB, radiusA, radiusB))
      ensures InDilatedShape(p, shapeA, radiusA) && InDilatedShape(p, shapeB, radiusB)
    {
      SampleMembership(p, IntersectionStep, width, height, InBoth(shapeA, shapeB, radiusA, radiusB));
    }
  }

  /** The grid of drawIntersection has a step of 4 pixels. */
  const IntersectionStep: nat := 4

  /** The sampling loops of drawIntersection: every IntersectionStep pixels
      in x, and within each column every IntersectionStep pixels in y, the
      point is kept when it lies in both dilations. The test is passed in as `keep`, a function that agrees with the
      dilation test at every point. */
  method SampleIntersection(width: nat, height: nat, shapeA: seq<Point>, shapeB: seq<Point>, radiusA: real, radiusB: real,
                            ghost keep: Point -> bool)
    returns (intersection: seq<Point>)
    requires forall p {:trigger InBothAt(shapeA, shapeB, radiusA, radiusB, p)} :: keep(p) == InBothAt(shapeA, shapeB, radiusA, radiusB, p)
    ensures intersection == Sample(IntersectionStep, width, height, keep)
  {
    var step := IntersectionStep;
    ghost var total := Sample(step, width, height, keep);
    intersection := [];
    var x: nat := 0;
    while x < width
      invariant intersection + GridFrom(x, step, width, height, keep) == total
      decreases width - x
    {
      var y: nat := 0;
      RemainingColumn(x, y, step, width, height, keep);
      while y < height
        invariant intersection + Remaining(x, y, step, width, height, keep) == total
        decreases height - y
      {
        var point := Pt(x, y);
        var both := IsPointInBoth(point, shapeA, shapeB, radiusA, radiusB);
        CollectStep(intersection, x, y, step, width, height, keep, total);
        if both {
          intersection := intersection + [point];
        }
        y := y + step;
      }
      RemainingColumn(x, y, step, width, height, keep);
      x := x + step;
    }
  }

  /** drawIntersection without the drawing: the grid points in both
      dilations, and, when there are any, their Graham boundary and its
      centroid. */
  method DrawIntersection(width: nat, height: nat, shapeA: seq<Point>, shapeB: seq<Point>, radiusA: real, radiusB: real)
    returns (intersection: seq<Point>, boundary: seq<Point>, centroid: Option<Point>)
    ensures intersection == Sample(IntersectionStep, width, height, InBoth(shapeA, shapeB, radiusA, radiusB))
    ensures forall p :: p in intersection ==> InDilatedShape(p, shapeA, radiusA) && InDilatedShape(p, shapeB, radiusB)
    ensures forall q :: q in boundary ==> q in intersection
    ensures centroid.Some? <==> |intersection| > 0
    ensures centroid.Some? ==>
      |boundary| > 0 && centroid.value == Point(SumX(boundary) / |boundary| as real, SumY(boundary) / |boundary| as real)
  {
    intersection := SampleIntersection(width, height, shapeA, shapeB, radiusA, radiusB, InBoth(shapeA, shapeB, radiusA, radiusB));
    SampleInBoth(width, height, shapeA, shapeB, radiusA, radiusB);
    if |intersection| > 0 {
      boundary := CalculateBoundary(intersection);
      var c := Centroid(boundary);
      centroid := Some(c);
    } else {
      boundary := [];
      centroid := None;
    }
  }

  /** renderWithMiddle without the drawing: radius alpha * 60 for A and
      (1 - alpha) * 60 for B, so that the two radii always add up to 60,
      and the intersection they give. */
  method RenderWithMiddle(alpha: real, width: nat, height: nat, shapeA: seq<Point>, shapeB: seq<Point>)
    returns (radiusA: real, radiusB: real, intersection: seq<Point>, centroid: Option<Point>)
    ensures radiusA == alpha * 60.0 && radiusA + radiusB == 60.0
    ensures intersection == Sample(IntersectionStep, width, height, InBoth(shapeA, shapeB, radiusA, radiusB))
    ensures centroid.Some? <==> |intersection| > 0
  {
    var normalizedScale := 60.0;
    radiusA := alpha * normalizedScale;
    radiusB := (1.0 - alpha) * normalizedScale;
    var boundary;
    intersection, boundary, centroid := DrawIntersection(width, height, shapeA, shapeB, radiusA, radiusB);
  }
}
