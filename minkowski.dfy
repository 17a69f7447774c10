/** The Minkowski-sum demo: both shapes are taken relative to the centre of
    shape A, every pair of relative points is added and the centre added back
    once, and the candidates are wrapped by gift wrapping. Each candidate is
    therefore a + b - center: the sum A + B translated by -center. */
module Minkowski {
  import opened Geometry
  import opened Hull
  import opened Pairwise

  /** p - center. */
  function Shift(p: Point, center: Point): Point {
    Point(p.x - center.x, p.y - center.y)
  }

  /** The `map(p => p - center)` of relA and relB: every point shifted, in order. */
  function Relative(points: seq<Point>, center: Point): (rel: seq<Point>)
    ensures |rel| == |points|
  {
    if |points| == 0 then []
    else Relative(points[..|points| - 1], center) + [Shift(points[|points| - 1], center)]
  }

  /** The k-th relative point is the k-th point shifted. */
  lemma {:induction false} RelativeAt(points: seq<Point>, center: Point)
    ensures forall k :: 0 <= k < |points| ==> Relative(points, center)[k] == Shift(points[k], center)
  {
    if |points| > 0 {
      RelativeAt(points[..|points| - 1], center);
    }
  }

  /** The candidate of a pair of relative points: center + pa + pb. */
  function Recentre(center: Point): (Point, Point) -> Point {
    (pa: Point, pb: Point) => Point(center.x + pa.x + pb.x, center.y + pa.y + pb.y)
  }

  /** sumPoints of computeMinkowskiSum, before the hull. */
  function Candidates(pointsA: seq<Point>, pointsB: seq<Point>, center: Point): seq<Point> {
    Pairs(Relative(pointsA, center), Relative(pointsB, center), Recentre(center))
  }

  lemma RecentrePair(a: Point, b: Point, center: Point)
    ensures Recentre(center)(Shift(a, center), Shift(b, center)) == Shift(Add(a, b), center)
  {
  }

  lemma RelativeAppend(xs: seq<Point>, ys: seq<Point>, center: Point)
    ensures Relative(xs + ys, center) == Relative(xs, center) + Relative(ys, center)
  {
    RelativeAt(xs + ys, center);
    RelativeAt(xs, center);
    RelativeAt(ys, center);
  }

  /** One row of relative candidates is the row of plain sums, shifted. */
  lemma {:induction false} RowRecentred(a: Point, ys: seq<Point>, center: Point)
    ensures Row(Shift(a, center), Relative(ys, center), Recentre(center)) == Relative(Row(a, ys, Add), center)
  {
    if |ys| > 0 {
      var init, last := ys[..|ys| - 1], ys[|ys| - 1];
      RowRecentred(a, init, center);
      assert Relative(ys, center)[..|ys| - 1] == Relative(init, center);
      RecentrePair(a, last, center);
      RelativeAppend(Row(a, init, Add), [Add(a, last)], center);
    }
  }

  /** The whole candidate sequence is the sequence of pairwise sums a + b,
      in the same order, translated by -center. */
  lemma {:induction false} CandidatesAreShiftedSums(pointsA: seq<Point>, pointsB: seq<Point>, center: Point)
    ensures Candidates(pointsA, pointsB, center) == Relative(Pairs(pointsA, pointsB, Add), center)
  {
    if |pointsA| > 0 {
      var init, last := pointsA[..|pointsA| - 1], pointsA[|pointsA| - 1];
      CandidatesAreShiftedSums(init, pointsB, center);
      assert Relative(pointsA, center)[..|pointsA| - 1] == Relative(init, center);
      RowRecentred(last, pointsB, center);
      RelativeAppend(Pairs(init, pointsB, Add), Row(last, pointsB, Add), center);
    }
  }

  /** There are exactly |A| * |B| candidates, and the one of the pair
      (A[i], B[j]) sits at Slot(i, j, |B|) and is A[i] + B[j] - center. */
  lemma CandidatesAt(pointsA: seq<Point>, pointsB: seq<Point>, center: Point, i: nat, j: nat)
    requires i < |pointsA| && j < |pointsB|
    ensures |Candidates(pointsA, pointsB, center)| == |pointsA| * |pointsB|
    ensures 0 <= Slot(i, j, |pointsB|) < |Candidates(pointsA, pointsB, center)|
    ensures Candidates(pointsA, pointsB, center)[Slot(i, j, |pointsB|)] == Shift(Add(pointsA[i], pointsB[j]), center)
  {
    var sums, k := Pairs(pointsA, pointsB, Add), Slot(i, j, |pointsB|);
    CandidatesAreShiftedSums(pointsA, pointsB, center);
    PairsAt(pointsA, pointsB, Add, i, j);
    RelativeAt(sums, center);
    assert Relative(sums, center)[k] == Shift(sums[k], center);
  }

  /** A point is a candidate exactly when it is a + b - center for some a of
      A and b of B. */
  lemma CandidatesMembership(q: Point, pointsA: seq<Point>, pointsB: seq<Point>, center: Point)
    ensures q in Candidates(pointsA, pointsB, center) <==>
      exists a, b :: a in pointsA && b in pointsB && q == Shift(Add(a, b), center)
  {
    var sums := Pairs(pointsA, pointsB, Add);
    CandidatesAreShiftedSums(pointsA, pointsB, center);
    RelativeAt(sums, center);
    if q in Candidates(pointsA, pointsB, center) {
      var k :| 0 <= k < |sums| && Relative(sums, center)[k] == q;
      PairsMembership(sums[k], pointsA, pointsB, Add);
    }
    if exists a, b :: a in pointsA && b in pointsB && q == Shift(Add(a, b), center) {
      var a, b :| a in pointsA && b in pointsB && q == Shift(Add(a, b), center);
      PairsMembership(Add(a, b), pointsA, pointsB, Add);
      var k :| 0 <= k < |sums| && sums[k] == Add(a, b);
      assert Relative(sums, center)[k] == q;
    }
  }

  /** The gift-wrapping boundary of the candidates holds at most |A| * |B|
      points, each of them a + b - center for some a of A and b of B. */
  lemma BoundaryOfCandidates(pointsA: seq<Point>, pointsB: seq<Point>, center: Point)
    ensures |GiftWrapHull(Candidates(pointsA, pointsB, center))| <= |pointsA| * |pointsB|
    ensures forall q :: q in GiftWrapHull(Candidates(pointsA, pointsB, center)) ==>
      exists a, b :: a in pointsA && b in pointsB && q == Shift(Add(a, b), center)
  {
    var candidates := Candidates(pointsA, pointsB, center);
    PairsLength(Relative(pointsA, center), Relative(pointsB, center), Recentre(center));
    GiftWrapHullFacts(candidates);
    forall q | q in GiftWrapHull(candidates)
      ensures exists a, b :: a in pointsA && b in pointsB && q == Shift(Add(a, b), center)
    {
      CandidatesMembership(q, pointsA, pointsB, center);
    }
  }

  /** computeMinkowskiSum, with the centre of shape A passed in: the |A| * |B|
      candidates a + b - center, then their gift-wrapping boundary, which is
      the candidates themselves when there are fewer than three. */
  method ComputeMinkowskiSum(pointsA: seq<Point>, pointsB: seq<Point>, center: Point) returns (hull: seq<Point>)
    ensures |Candidates(pointsA, pointsB, center)| == |pointsA| * |pointsB|
    ensures hull == GiftWrapHull(Candidates(pointsA, pointsB, center))
    ensures |pointsA| * |pointsB| < 3 ==> hull == Candidates(pointsA, pointsB, center)
    ensures |hull| <= |pointsA| * |pointsB|
    ensures forall q :: q in hull ==> exists a, b :: a in pointsA && b in pointsB && q == Shift(Add(a, b), center)
  {
    var relA := Relative(pointsA, center);
    var relB := Relative(pointsB, center);
    var f := Recentre(center);
    var sumPoints: seq<Point> := [];
    for i := 0 to |relA|
      invariant sumPoints == Pairs(relA[..i], relB, f)
    {
      var pa := relA[i];
      for j := 0 to |relB|
        invariant sumPoints == Pairs(relA[..i], relB, f) + Row(pa, relB[..j], f)
      {
        var pb := relB[j];
        assert relB[..j + 1][..j] == relB[..j];
        assert f(pa, pb) == Point(center.x + pa.x + pb.x, center.y + pa.y + pb.y);
        sumPoints := sumPoints + [Point(center.x + pa.x + pb.x, center.y + pa.y + pb.y)];
      }
      assert relB[..|relB|] == relB;
      assert relA[..i + 1][..i] == relA[..i];
    }
    assert relA[..|relA|] == relA;
    PairsLength(relA, relB, f);
    hull := GiftWrap(sumPoints);
    BoundaryOfCandidates(pointsA, pointsB, center);
  }

  /** renderWithSum without the drawing: the boundary, and its centroid only
      when the boundary has more than two points, so the mean never divides
      by zero. */
  method RenderWithSum(pointsA: seq<Point>, pointsB: seq<Point>, center: Point)
    returns (minkowskiPoints: seq<Point>, centroid: Option<Point>)
    ensures minkowskiPoints == GiftWrapHull(Candidates(pointsA, pointsB, center))
    ensures centroid.Some? <==> |minkowskiPoints| > 2
    ensures centroid.Some? ==>
      centroid.value == Point(SumX(minkowskiPoints) / |minkowskiPoints| as real, SumY(minkowskiPoints) / |minkowskiPoints| as real)
  {
    minkowskiPoints := ComputeMinkowskiSum(pointsA, pointsB, center);
    if |minkowskiPoints| > 2 {
      var c := Centroid(minkowskiPoints);
      centroid := Some(c);
    } else {
      centroid := None;
    }
  }
}
