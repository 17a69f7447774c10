/** The three-shape demo: the intersection T_alpha of three shapes, each
    dilated by the same radius, sampled on a grid; a bisection over alpha for
    the smallest radius at which that intersection is non-empty; and the
    gift-wrapping boundary of the sampled points. */
module ThreeShape {
  import opened Geometry
  import opened Polygon
  import opened Hull
  import opened Grid
  import opened Hausdorff

  // ---------------------------------------------------------------------
  // The dilation test of this demo

  /** isPointInDilatedShape of the three-shape demo: the distance to the
      boundary is at most radius. Unlike the two-shape demo there is no
      interior test, so the dilation is a band around the boundary. */
  predicate InDilatedShape3(p: Point, shape: seq<Point>, radius: real) {
    Within(DistToShape(p, shape), radius)
  }

  method IsPointInDilatedShape3(p: Point, shape: seq<Point>, radius: real) returns (b: bool)
    ensures b <==> InDilatedShape3(p, shape, radius)
  {
    var d := DistanceToShape(p, shape);
    b := Within(d, radius);
  }

  /** A larger radius accepts every point a smaller one does. */
  lemma InDilatedShape3Monotone(p: Point, shape: seq<Point>, r1: real, r2: real)
    requires r1 <= r2
    requires InDilatedShape3(p, shape, r1)
    ensures InDilatedShape3(p, shape, r2)
  {
    WithinMonotone(DistToShape(p, shape), r1, r2);
  }

  /** Exactly the points within radius of some point of the boundary. */
  lemma InDilatedShape3Meaning(p: Point, shape: seq<Point>, radius: real)
    ensures InDilatedShape3(p, shape, radius) <==>
      radius >= 0.0 && exists i, t :: 0 <= i < |shape| && 0.0 <= t <= 1.0 && Dist2(p, EdgePoint(shape, i, t)) <= radius * radius
  {
    DistToShapeIsBoundaryDistance(p, shape);
    if radius >= 0.0 && exists i, t :: 0 <= i < |shape| && 0.0 <= t <= 1.0 && Dist2(p, EdgePoint(shape, i, t)) <= radius * radius {
      var i, t :| 0 <= i < |shape| && 0.0 <= t <= 1.0 && Dist2(p, EdgePoint(shape, i, t)) <= radius * radius;
      assert Le(DistToShape(p, shape), Fin(Dist2(p, EdgePoint(shape, i, t))));
    }
  }

  /** This test implies the two-shape demo's test ... */
  lemma InDilatedShape3Stronger(p: Point, shape: seq<Point>, radius: real)
    requires InDilatedShape3(p, shape, radius)
    ensures InDilatedShape(p, shape, radius)
  {
  }

  /** A squared distance with one coordinate difference of 5 is at least 25. */
  lemma OffsetFive(d: real, e: real)
    requires e == 5.0 || e == -5.0
    ensures Sq(d) + Sq(e) >= 25.0
  {
    assert Sq(e) == e * e;
  }

  /** Along an edge parallel to an axis, that coordinate stays fixed. */
  lemma LerpFixedCoordinate(a: Point, b: Point, t: real)
    ensures a.x == b.x ==> Lerp(a, b, t).x == a.x
    ensures a.y == b.y ==> Lerp(a, b, t).y == a.y
  {
  }

  /** Every edge point of the 10 x 10 square is at squared distance at least
      25 from its centre. */
  lemma SquareEdgeFar(i: nat, t: real)
    requires i < 4 && 0.0 <= t <= 1.0
    ensures Dist2(Point(5.0, 5.0), EdgePoint(UnitSquare(), i, t)) >= 25.0
  {
    var c, s := Point(5.0, 5.0), UnitSquare();
    var q := EdgePoint(s, i, t);
    if i == 0 {
      LerpFixedCoordinate(Point(0.0, 0.0), Point(10.0, 0.0), t);
      OffsetFive(c.x - q.x, c.y - q.y);
    } else if i == 1 {
      LerpFixedCoordinate(Point(10.0, 0.0), Point(10.0, 10.0), t);
      OffsetFive(c.y - q.y, c.x - q.x);
    } else if i == 2 {
      LerpFixedCoordinate(Point(10.0, 10.0), Point(0.0, 10.0), t);
      OffsetFive(c.x - q.x, c.y - q.y);
    } else {
      LerpFixedCoordinate(Point(0.0, 10.0), Point(0.0, 0.0), t);
      OffsetFive(c.y - q.y, c.x - q.x);
    }
    assert Dist2(c, q) == Sq(c.x - q.x) + Sq(c.y - q.y);
  }

  /** ... but not the other way round: the centre of the 10 x 10 square is
      inside it, so the two-shape test accepts it for radius 1, while it is
      5 away from the boundary, so this demo's test rejects it. */
  lemma InteriorIsNotInBand()
    ensures InDilatedShape(Point(5.0, 5.0), UnitSquare(), 1.0)
    ensures !InDilatedShape3(Point(5.0, 5.0), UnitSquare(), 1.0)
  {
    var c, s := Point(5.0, 5.0), UnitSquare();
    SquareExample();
    DistToShapeIsBoundaryDistance(c, s);
    var i, t :| 0 <= i < |s| && 0.0 <= t <= 1.0 && DistToShape(c, s) == Fin(Dist2(c, EdgePoint(s, i, t)));
    SquareEdgeFar(i, t);
  }

  /** A grid point of T_alpha: in all three dilations. */
  predicate InAllAt(shapeA: seq<Point>, shapeB: seq<Point>, shapeC: seq<Point>, radius: real, p: Point) {
    InDilatedShape3(p, shapeA, radius) && InDilatedShape3(p, shapeB, radius) && InDilatedShape3(p, shapeC, radius)
  }

  /** The same test as a function value, the one the grid samples are taken with. */
  function InAll(shapeA: seq<Point>, shapeB: seq<Point>, shapeC: seq<Point>, radius: real): Point -> bool {
    p => InAllAt(shapeA, shapeB, shapeC, radius, p)
  }

  /** The body of the two grid scans: the three dilation tests of one point
      and their conjunction. */
  method IsPointInAll(point: Point, shapeA: seq<Point>, shapeB: seq<Point>, shapeC: seq<Point>, radius: real) returns (all: bool)
    ensures all == InAllAt(shapeA, shapeB, shapeC, radius, point)
  {
    var inA := IsPointInDilatedShape3(point, shapeA, radius);
    var inB := IsPointInDilatedShape3(point, shapeB, radius);
    var inC := IsPointInDilatedShape3(point, shapeC, radius);
    all := inA && inB && inC;
  }

  /** A larger radius keeps every point of T_alpha. */
  lemma InAllMonotone(shapeA: seq<Point>, shapeB: seq<Point>, shapeC: seq<Point>, r1: real, r2: real)
    requires r1 <= r2
    ensures forall p :: InAll(shapeA, shapeB, shapeC, r1)(p) ==> InAll(shapeA, shapeB, shapeC, r2)(p)
  {
    forall p | InAll(shapeA, shapeB, shapeC, r1)(p)
      ensures InAll(shapeA, shapeB, shapeC, r2)(p)
    {
      InDilatedShape3Monotone(p, shapeA, r1, r2);
      InDilatedShape3Monotone(p, shapeB, r1, r2);
      InDilatedShape3Monotone(p, shapeC, r1, r2);
    }
  }

  // ---------------------------------------------------------------------
  // hasNonEmptyIntersection

  /** The grid of hasNonEmptyIntersection has a step of 8 pixels. */
  const SearchStep: nat := 8

  /** Some point of the 8-pixel grid lies in all three dilations. */
  predicate IntersectionNonEmpty(width: nat, height: nat, shapeA: seq<Point>, shapeB: seq<Point>, shapeC: seq<Point>, radius: real) {
    Sample(SearchStep, width, height, InAll(shapeA, shapeB, shapeC, radius)) != []
  }

  /** The scan of hasNonEmptyIntersection over a test `keep` that agrees with
      the three dilations at every point. Both loops stop as soon as the flag
      is set; the result says whether the grid sample is non-empty. */
  method ScanForIntersection(width: nat, height: nat, shapeA: seq<Point>, shapeB: seq<Point>, shapeC: seq<Point>, radius: real,
                             ghost keep: Point -> bool)
    returns (hasIntersection: bool)
    requires forall p {:trigger InAllAt(shapeA, shapeB, shapeC, radius, p)} :: keep(p) == InAllAt(shapeA, shapeB, shapeC, radius, p)
    ensures hasIntersection <==> Sample(SearchStep, width, height, keep) != []
  {
    var step := SearchStep;
    ghost var total := Sample(step, width, height, keep);
    hasIntersection := false;
    var x: nat := 0;
    while x < width && !hasIntersection
      invariant !hasIntersection ==> GridFrom(x, step, width, height, keep) == total
      invariant hasIntersection ==> total != []
      decreases width - x
    {
      var y: nat := 0;
      RemainingColumn(x, y, step, width, height, keep);
      while y < height && !hasIntersection
        invariant !hasIntersection ==> Remaining(x, y, step, width, height, keep) == total
        invariant hasIntersection ==> total != []
        decreases height - y
      {
        var point := Pt(x, y);
        var all := IsPointInAll(point, shapeA, shapeB, shapeC, radius);
        RemainingStep(x, y, step, width, height, keep);
        if all {
          hasIntersection := true;
        } else {
          assert Remaining(x, y, step, width, height, keep) == [] + Remaining(x, y + step, step, width, height, keep);
        }
        y := y + step;
      }
      RemainingColumn(x, y, step, width, height, keep);
      x := x + step;
    }
  }

  /** hasNonEmptyIntersection(radius). */
  method HasNonEmptyIntersection(width: nat, height: nat, shapeA: seq<Point>, shapeB: seq<Point>, shapeC: seq<Point>, radius: real)
    returns (hasIntersection: bool)
    ensures hasIntersection == IntersectionNonEmpty(width, height, shapeA, shapeB, shapeC, radius)
  {
    hasIntersection := ScanForIntersection(width, height, shapeA, shapeB, shapeC, radius, InAll(shapeA, shapeB, shapeC, radius));
  }

  /** Growing the radius never empties the intersection. */
  lemma IntersectionNonEmptyMonotone(width: nat, height: nat, shapeA: seq<Point>, shapeB: seq<Point>, shapeC: seq<Point>, r1: real, r2: real)
    requires r1 <= r2
    requires IntersectionNonEmpty(width, height, shapeA, shapeB, shapeC, r1)
    ensures IntersectionNonEmpty(width, height, shapeA, shapeB, shapeC, r2)
  {
    InAllMonotone(shapeA, shapeB, shapeC, r1, r2);
    SampleMonotone(SearchStep, width, height, InAll(shapeA, shapeB, shapeC, r1), InAll(shapeA, shapeB, shapeC, r2));
  }

  /** The search succeeds exactly when some grid point, both coordinates
      multiples of 8 inside the canvas, is in all three dilations. */
  lemma IntersectionNonEmptyMeaning(width: nat, height: nat, shapeA: seq<Point>, shapeB: seq<Point>, shapeC: seq<Point>, radius: real)
    ensures IntersectionNonEmpty(width, height, shapeA, shapeB, shapeC, radius) <==>
      exists p :: InAllAt(shapeA, shapeB, shapeC, radius, p) &&
                  OnProgression(p.x, 0, SearchStep, width) && OnProgression(p.y, 0, SearchStep, height)
  {
    var keep := InAll(shapeA, shapeB, shapeC, radius);
    var s := Sample(SearchStep, width, height, keep);
    if s != [] {
      SampleMembership(s[0], SearchStep, width, height, keep);
    }
    if exists p :: InAllAt(shapeA, shapeB, shapeC, radius, p) &&
                   OnProgression(p.x, 0, SearchStep, width) && OnProgression(p.y, 0, SearchStep, height) {
      var p :| InAllAt(shapeA, shapeB, shapeC, radius, p) &&
               OnProgression(p.x, 0, SearchStep, width) && OnProgression(p.y, 0, SearchStep, height);
      SampleMembership(p, SearchStep, width, height, keep);
    }
  }

  // ---------------------------------------------------------------------
  // The maximal pairwise Hausdorff distance

  /** The table of pairwise Hausdorff distances the loop ranges over:
      d(i, j) is the distance between shapes i and j. */
  function PairDist(shapes: seq<seq<Point>>): (nat, nat) -> Ext {
    (i: nat, j: nat) => if i < |shapes| && j < |shapes| then HausdorffDist(shapes[i], shapes[j]) else Fin(0.0)
  }

  lemma PairDistAt(shapes: seq<seq<Point>>, i: nat, j: nat)
    requires i < |shapes| && j < |shapes|
    ensures PairDist(shapes)(i, j) == HausdorffDist(shapes[i], shapes[j])
  {
  }

  /** maxPairwiseDistance during the inner loop of row i, after the pairs
      (i, i + 1) .. (i, j - 1), starting from acc. */
  function RowMax(d: (nat, nat) -> Ext, i: nat, j: nat, acc: Ext): Ext
    requires i < j
    decreases j
  {
    if j == i + 1 then acc
    else Max(RowMax(d, i, j - 1, acc), d(i, j - 1))
  }

  /** maxPairwiseDistance after the outer loop over n shapes has done rows
      0 .. k - 1. */
  function PairwiseUpTo(d: (nat, nat) -> Ext, n: nat, k: nat): Ext
    requires k <= n
  {
    if k == 0 then Fin(0.0) else RowMax(d, k - 1, n, PairwiseUpTo(d, n, k - 1))
  }

  /** The largest Hausdorff distance over the pairs i < j, from 0. */
  function MaxPairwise(shapes: seq<seq<Point>>): Ext {
    PairwiseUpTo(PairDist(shapes), |shapes|, |shapes|)
  }

  /** The pairwise loop of computeOptimalAlpha (distances squared). */
  method MaxPairwiseHausdorff(shapes: seq<seq<Point>>) returns (maxPairwiseDistance: Ext)
    ensures maxPairwiseDistance == MaxPairwise(shapes)
  {
    forall i: nat, j: nat | i < |shapes| && j < |shapes|
      ensures PairDist(shapes)(i, j) == HausdorffDist(shapes[i], shapes[j])
    {
      PairDistAt(shapes, i, j);
    }
    maxPairwiseDistance := PairwiseLoop(shapes, PairDist(shapes));
  }

  /** The nested loops themselves, over any table d that agrees with the
      Hausdorff distances of the shapes. */
  method PairwiseLoop(shapes: seq<seq<Point>>, ghost d: (nat, nat) -> Ext) returns (maxPairwiseDistance: Ext)
    requires forall i: nat, j: nat {:trigger HausdorffDist(shapes[i], shapes[j])} :: i < |shapes| && j < |shapes| ==> d(i, j) == HausdorffDist(shapes[i], shapes[j])
    ensures maxPairwiseDistance == PairwiseUpTo(d, |shapes|, |shapes|)
  {
    maxPairwiseDistance := Fin(0.0);
    for i := 0 to |shapes|
      invariant maxPairwiseDistance == PairwiseUpTo(d, |shapes|, i)
    {
      ghost var start := maxPairwiseDistance;
      for j := i + 1 to |shapes|
        invariant maxPairwiseDistance == RowMax(d, i, j, start)
      {
        var dist := CalculateHausdorffDistance(shapes[i], shapes[j]);
        assert d(i, j) == dist;
        assert RowMax(d, i, j + 1, start) == Max(RowMax(d, i, j, start), dist);
        maxPairwiseDistance := Max(maxPairwiseDistance, dist);
      }
    }
  }

  /** The running maximum of row i never drops below its start ... */
  lemma {:induction false} RowMaxAtLeastStart(d: (nat, nat) -> Ext, i: nat, j: nat, acc: Ext)
    requires i < j
    ensures Le(acc, RowMax(d, i, j, acc))
    decreases j
  {
    if j > i + 1 {
      RowMaxAtLeastStart(d, i, j - 1, acc);
      LeTrans(acc, RowMax(d, i, j - 1, acc), RowMax(d, i, j, acc));
    }
  }

  /** Whatever bounds the start from below bounds the row's maximum too. */
  lemma {:induction false} RowMaxAbove(d: (nat, nat) -> Ext, i: nat, j: nat, acc: Ext, x: Ext)
    requires i < j
    requires Le(x, acc)
    ensures Le(x, RowMax(d, i, j, acc))
    decreases j
  {
    if j > i + 1 {
      RowMaxAbove(d, i, j - 1, acc, x);
      LeTrans(x, RowMax(d, i, j - 1, acc), RowMax(d, i, j, acc));
    }
  }

  /** ... nor below any pair it has visited ... */
  lemma {:induction false} RowMaxAtLeastPair(d: (nat, nat) -> Ext, i: nat, j: nat, acc: Ext, k: nat)
    requires i < k < j
    ensures Le(d(i, k), RowMax(d, i, j, acc))
    decreases j
  {
    if k < j - 1 {
      RowMaxAtLeastPair(d, i, j - 1, acc, k);
      LeTrans(d(i, k), RowMax(d, i, j - 1, acc), RowMax(d, i, j, acc));
    }
  }

  /** ... and it is its start or one of those pairs. */
  lemma {:induction false} RowMaxAttained(d: (nat, nat) -> Ext, i: nat, j: nat, acc: Ext)
    requires i < j
    ensures RowMax(d, i, j, acc) == acc || exists k :: i < k < j && RowMax(d, i, j, acc) == d(i, k)
    decreases j
  {
    if j > i + 1 {
      RowMaxAttained(d, i, j - 1, acc);
      var prev, m := RowMax(d, i, j - 1, acc), RowMax(d, i, j, acc);
      if m != acc && m != d(i, j - 1) {
        var k :| i < k < j - 1 && prev == d(i, k);
        assert i < k < j && m == d(i, k);
      }
    }
  }

  /** After n rows, maxPairwiseDistance is at least 0 ... */
  lemma {:induction false} PairwiseUpToNonnegative(d: (nat, nat) -> Ext, n: nat, k: nat)
    requires k <= n
    ensures Le(Fin(0.0), PairwiseUpTo(d, n, k))
  {
    if k > 0 {
      PairwiseUpToNonnegative(d, n, k - 1);
      RowMaxAbove(d, k - 1, n, PairwiseUpTo(d, n, k - 1), Fin(0.0));
    }
  }

  /** ... at least every pair (i, j) with i among the rows done ... */
  lemma {:induction false} PairwiseUpToAtLeastPair(d: (nat, nat) -> Ext, n: nat, k: nat, i: nat, j: nat)
    requires i < k <= n && i < j < n
    ensures Le(d(i, j), PairwiseUpTo(d, n, k))
  {
    var prev := PairwiseUpTo(d, n, k - 1);
    if i < k - 1 {
      PairwiseUpToAtLeastPair(d, n, k - 1, i, j);
      RowMaxAbove(d, k - 1, n, prev, d(i, j));
    } else {
      RowMaxAtLeastPair(d, k - 1, n, prev, j);
    }
  }

  /** ... and 0 or one of those pairs. */
  lemma {:induction false} PairwiseUpToAttained(d: (nat, nat) -> Ext, n: nat, k: nat)
    requires k <= n
    ensures PairwiseUpTo(d, n, k) == Fin(0.0) ||
            exists i, j :: 0 <= i < k && i < j < n && PairwiseUpTo(d, n, k) == d(i, j)
  {
    if k > 0 {
      PairwiseUpToAttained(d, n, k - 1);
      var prev, m := PairwiseUpTo(d, n, k - 1), PairwiseUpTo(d, n, k);
      RowMaxAttained(d, k - 1, n, prev);
      if m != Fin(0.0) {
        if m == prev {
          var i, j :| 0 <= i < k - 1 && i < j < n && prev == d(i, j);
          assert 0 <= i < k && m == d(i, j);
        } else {
          var j :| k - 1 < j < n && m == d(k - 1, j);
          assert 0 <= k - 1 < k && m == d(k - 1, j);
        }
      }
    }
  }

  /** maxPairwiseDistance is at least 0 and at least every pairwise distance,
      and it is 0 or one of them. */
  lemma MaxPairwiseIsMaximum(shapes: seq<seq<Point>>)
    ensures Le(Fin(0.0), MaxPairwise(shapes))
    ensures forall i, j :: 0 <= i < j < |shapes| ==> Le(HausdorffDist(shapes[i], shapes[j]), MaxPairwise(shapes))
    ensures MaxPairwise(shapes) == Fin(0.0) ||
            exists i, j :: 0 <= i < j < |shapes| && MaxPairwise(shapes) == HausdorffDist(shapes[i], shapes[j])
  {
    var d, n := PairDist(shapes), |shapes|;
    PairwiseUpToNonnegative(d, n, n);
    forall i, j | 0 <= i < j < n
      ensures Le(HausdorffDist(shapes[i], shapes[j]), MaxPairwise(shapes))
    {
      PairwiseUpToAtLeastPair(d, n, n, i, j);
      PairDistAt(shapes, i, j);
    }
    PairwiseUpToAttained(d, n, n);
    if MaxPairwise(shapes) != Fin(0.0) {
      var i, j :| 0 <= i < n && i < j < n && MaxPairwise(shapes) == d(i, j);
      PairDistAt(shapes, i, j);
    }
  }

  // ---------------------------------------------------------------------
  // computeOptimalAlpha

  /** The state of the bisection: low, high and optimalAlpha. */
  datatype Search = Search(low: real, high: real, optimal: real)

  function Mid(s: Search): real {
    (s.low + s.high) / 2.0
  }

  /** The radius hasNonEmptyIntersection is asked about inside the loop. */
  function SearchRadius(alpha: real): real {
    alpha * 50.0
  }

  /** One iteration: on a hit mid becomes both optimalAlpha and high,
      otherwise it becomes low. */
  function BisectStep(s: Search, hit: bool): Search {
    if hit then Search(s.low, Mid(s), Mid(s)) else Search(Mid(s), s.high, s.optimal)
  }

  /** The state after k iterations from s0, for the given canvas and shapes. */
  function Bisect(s0: Search, k: nat, width: nat, height: nat, shapeA: seq<Point>, shapeB: seq<Point>, shapeC: seq<Point>): Search {
    if k == 0 then s0
    else
      var s := Bisect(s0, k - 1, width, height, shapeA, shapeB, shapeC);
      BisectStep(s, IntersectionNonEmpty(width, height, shapeA, shapeB, shapeC, SearchRadius(Mid(s))))
  }

  /** 2^k. */
  function Pow2(k: nat): (r: real)
    ensures r >= 1.0
  {
    if k == 0 then 1.0 else 2.0 * Pow2(k - 1)
  }

  /** high = Math.min(0.6068, maxPairwiseDistance / 2), where an infinite
      distance leaves 0.6068. */
  function InitialHigh(maxPairwiseDistance: Ext): real {
    if maxPairwiseDistance.Fin? && maxPairwiseDistance.v / 2.0 < 0.6068 then maxPairwiseDistance.v / 2.0 else 0.6068
  }

  const Iterations: nat := 20

  /** The squared form of a distance, for relating a true distance to the
      squared ones of the model. */
  predicate IsRootOf(d: Ext, d2: Ext) {
    match d
    case Inf => d2.Inf?
    case Fin(v) => v >= 0.0 && d2 == Fin(v * v)
  }

  /** computeOptimalAlpha. The loop over pairs gives the squared distance;
      the true distance the bisection starts from is its square root,
      passed in as maxPairwiseDistance. */
  method ComputeOptimalAlpha(width: nat, height: nat, shapeA: seq<Point>, shapeB: seq<Point>, shapeC: seq<Point>, maxPairwiseDistance: Ext)
    returns (alpha: real)
    requires IsRootOf(maxPairwiseDistance, MaxPairwise([shapeA, shapeB, shapeC]))
    ensures alpha >= 0.2
    ensures alpha == RealMax(Bisect(Search(0.1, InitialHigh(maxPairwiseDistance), InitialHigh(maxPairwiseDistance)),
                                    Iterations, width, height, shapeA, shapeB, shapeC).optimal, 0.2)
  {
    var shapes := [shapeA, shapeB, shapeC];
    var squared := MaxPairwiseHausdorff(shapes);
    assert IsRootOf(maxPairwiseDistance, squared);
    var low := 0.1;
    var high := InitialHigh(maxPairwiseDistance);
    var optimalAlpha := high;
    ghost var s0 := Search(low, high, optimalAlpha);
    for iter := 0 to Iterations
      invariant Search(low, high, optimalAlpha) == Bisect(s0, iter, width, height, shapeA, shapeB, shapeC)
    {
      var mid := (low + high) / 2.0;
      var radius := mid * 50.0;
      var hit := HasNonEmptyIntersection(width, height, shapeA, shapeB, shapeC, radius);
      if hit {
        optimalAlpha := mid;
        high := mid;
      } else {
        low := mid;
      }
    }
    alpha := RealMax(optimalAlpha, 0.2);
  }

  /** Math.max on two reals. */
  function RealMax(a: real, b: real): (m: real)
    ensures m >= a && m >= b && (m == a || m == b)
  {
    if a >= b then a else b
  }

  /** d halved k times. */
  function Halved(d: real, k: nat): real {
    if k == 0 then d else Halved(d, k - 1) / 2.0
  }

  lemma HalvedDivision(a: real, d: real, p: real)
    requires p >= 1.0 && a == d / p
    ensures a / 2.0 == d / (2.0 * p)
  {
  }

  /** Halving k times is dividing by 2^k. */
  lemma {:induction false} HalvedIsQuotient(d: real, k: nat)
    ensures Halved(d, k) == d / Pow2(k)
  {
    if k > 0 {
      HalvedIsQuotient(d, k - 1);
      HalvedDivision(Halved(d, k - 1), d, Pow2(k - 1));
    }
  }

  /** Every iteration halves high - low, whatever the test answers, so after
      k iterations the interval is 2^k times narrower. */
  lemma {:induction false} BisectHalves(s0: Search, k: nat, width: nat, height: nat, shapeA: seq<Point>, shapeB: seq<Point>, shapeC: seq<Point>)
    ensures var s := Bisect(s0, k, width, height, shapeA, shapeB, shapeC);
      s.high - s.low == (s0.high - s0.low) / Pow2(k)
  {
    HalvedIsQuotient(s0.high - s0.low, k);
    BisectHalvedSteps(s0, k, width, height, shapeA, shapeB, shapeC);
  }

  lemma {:induction false} BisectHalvedSteps(s0: Search, k: nat, width: nat, height: nat, shapeA: seq<Point>, shapeB: seq<Point>, shapeC: seq<Point>)
    ensures var s := Bisect(s0, k, width, height, shapeA, shapeB, shapeC);
      s.high - s.low == Halved(s0.high - s0.low, k)
  {
    if k > 0 {
      BisectHalvedSteps(s0, k - 1, width, height, shapeA, shapeB, shapeC);
      var s := Bisect(s0, k - 1, width, height, shapeA, shapeB, shapeC);
      var hit := IntersectionNonEmpty(width, height, shapeA, shapeB, shapeC, SearchRadius(Mid(s)));
      assert Bisect(s0, k, width, height, shapeA, shapeB, shapeC) == BisectStep(s, hit);
    }
  }

  /** From low <= high the interval only shrinks: low never decreases, high
      never increases and low <= high stays. */
  lemma {:induction false} BisectNarrows(s0: Search, k: nat, width: nat, height: nat, shapeA: seq<Point>, shapeB: seq<Point>, shapeC: seq<Point>)
    requires s0.low <= s0.high
    ensures var s := Bisect(s0, k, width, height, shapeA, shapeB, shapeC);
      s0.low <= s.low <= s.high <= s0.high
  {
    if k > 0 {
      BisectNarrows(s0, k - 1, width, height, shapeA, shapeB, shapeC);
    }
  }

  /** optimalAlpha always equals high, and high is the initial high or a
      value whose test succeeded; low is the initial low or a value whose
      test failed. */
  lemma {:induction false} BisectWitnesses(s0: Search, k: nat, width: nat, height: nat, shapeA: seq<Point>, shapeB: seq<Point>, shapeC: seq<Point>)
    requires s0.optimal == s0.high
    ensures var s := Bisect(s0, k, width, height, shapeA, shapeB, shapeC);
      s.optimal == s.high &&
      (s.high == s0.high || IntersectionNonEmpty(width, height, shapeA, shapeB, shapeC, SearchRadius(s.high))) &&
      (s.low == s0.low || !IntersectionNonEmpty(width, height, shapeA, shapeB, shapeC, SearchRadius(s.low)))
  {
    if k > 0 {
      BisectWitnesses(s0, k - 1, width, height, shapeA, shapeB, shapeC);
    }
  }

  /** The result of computeOptimalAlpha before the clamp to 0.2 is the
      initial high or an alpha at whose radius alpha * 50 the intersection is
      non-empty. */
  lemma OptimalAlphaWitness(width: nat, height: nat, shapeA: seq<Point>, shapeB: seq<Point>, shapeC: seq<Point>, high0: real)
    ensures var s := Bisect(Search(0.1, high0, high0), Iterations, width, height, shapeA, shapeB, shapeC);
      s.optimal == high0 || IntersectionNonEmpty(width, height, shapeA, shapeB, shapeC, SearchRadius(s.optimal))
  {
    BisectWitnesses(Search(0.1, high0, high0), Iterations, width, height, shapeA, shapeB, shapeC);
  }

  // ---------------------------------------------------------------------
  // drawThreeShapeIntersection and renderWithMiddle

  /** The grid of drawThreeShapeIntersection has a step of 4 pixels. */
  const DrawStep: nat := 4

  /** The boundary is drawn only for more than this many points. */
  const BoundaryThreshold: nat := 10

  /** The sampling loops of drawThreeShapeIntersection over a test `keep`
      that agrees with the three dilations at every point. */
  method SampleThree(width: nat, height: nat, shapeA: seq<Point>, shapeB: seq<Point>, shapeC: seq<Point>, radius: real,
                     ghost keep: Point -> bool)
    returns (intersection: seq<Point>)
    requires forall p {:trigger InAllAt(shapeA, shapeB, shapeC, radius, p)} :: keep(p) == InAllAt(shapeA, shapeB, shapeC, radius, p)
    ensures intersection == Sample(DrawStep, width, height, keep)
  {
    var step := DrawStep;
    ghost var total := Sample(step, width, height, keep);
    intersection := [];
    var x: nat := 0;
    while x < width
      invariant intersection + GridFrom(x, step, width, height, keep) == total
      decreases width - x
    {
      var y: nat := 0;
      RemainingColumn(x, y, step, width, height, keep);
      while y < height
        invariant intersection + Remaining(x, y, step, width, height, keep) == total
        decreases height - y
      {
        var point := Pt(x, y);
        var all := IsPointInAll(point, shapeA, shapeB, shapeC, radius);
        CollectStep(intersection, x, y, step, width, height, keep, total);
        if all {
          intersection := intersection + [point];
        }
        y := y + step;
      }
      RemainingColumn(x, y, step, width, height, keep);
      x := x + step;
    }
  }

  /** Every sampled point lies in all three dilations. */
  lemma SampleInAll(width: nat, height: nat, shapeA: seq<Point>, shapeB: seq<Point>, shapeC: seq<Point>, radius: real)
    ensures forall p :: p in Sample(DrawStep, width, height, InAll(shapeA, shapeB, shapeC, radius)) ==>
      InDilatedShape3(p, shapeA, radius) && InDilatedShape3(p, shapeB, radius) && InDilatedShape3(p, shapeC, radius)
  {
    forall p | p in Sample(DrawStep, width, height, InAll(shapeA, shapeB, shapeC, radius))
      ensures InDilatedShape3(p, shapeA, radius) && InDilatedShape3(p, shapeB, radius) && InDilatedShape3(p, shapeC, radius)
    {
      SampleMembership(p, DrawStep, width, height, InAll(shapeA, shapeB, shapeC, radius));
    }
  }

  /** drawThreeShapeIntersection without the drawing: the grid points of
      T_alpha; for more than 10 of them their gift-wrapping boundary, and for
      a boundary of more than 2 points its centroid. */
  method DrawThreeShapeIntersection(width: nat, height: nat, shapeA: seq<Point>, shapeB: seq<Point>, shapeC: seq<Point>, radius: real)
    returns (intersection: seq<Point>, boundary: Option<seq<Point>>, centroid: Option<Point>)
    ensures intersection == Sample(DrawStep, width, height, InAll(shapeA, shapeB, shapeC, radius))
    ensures forall p :: p in intersection ==>
      InDilatedShape3(p, shapeA, radius) && InDilatedShape3(p, shapeB, radius) && InDilatedShape3(p, shapeC, radius)
    ensures boundary.Some? <==> |intersection| > BoundaryThreshold
    ensures boundary.Some? ==> boundary.value == GiftWrapHull(intersection)
    ensures centroid.Some? <==> boundary.Some? && |boundary.value| > 2
    ensures centroid.Some? ==>
      centroid.value == Point(SumX(boundary.value) / |boundary.value| as real, SumY(boundary.value) / |boundary.value| as real)
  {
    intersection := SampleThree(width, height, shapeA, shapeB, shapeC, radius, InAll(shapeA, shapeB, shapeC, radius));
    SampleInAll(width, height, shapeA, shapeB, shapeC, radius);
    boundary, centroid := None, None;
    if |intersection| > BoundaryThreshold {
      var hull := GiftWrap(intersection);
      boundary := Some(hull);
      if |hull| > 2 {
        var center := Centroid(hull);
        centroid := Some(center);
      }
    }
  }

  /** renderWithMiddle of the three-shape demo without the drawing: the
      optimal alpha and the displayed radius alpha * 100 (twice the radius
      the search tested), and T_alpha at that radius. */
  method RenderWithMiddle3(width: nat, height: nat, shapeA: seq<Point>, shapeB: seq<Point>, shapeC: seq<Point>, maxPairwiseDistance: Ext)
    returns (alpha: real, radius: real, intersection: seq<Point>)
    requires IsRootOf(maxPairwiseDistance, MaxPairwise([shapeA, shapeB, shapeC]))
    ensures alpha >= 0.2 && radius == alpha * 100.0 && radius >= 20.0
    ensures intersection == Sample(DrawStep, width, height, InAll(shapeA, shapeB, shapeC, radius))
  {
    alpha := ComputeOptimalAlpha(width, height, shapeA, shapeB, shapeC, maxPairwiseDistance);
    radius := alpha * 100.0;
    var boundary, centroid;
    intersection, boundary, centroid := DrawThreeShapeIntersection(width, height, shapeA, shapeB, shapeC, radius);
  }
}
