/** The two convex-boundary routines of the demos: the Graham scan of the
    two-shape demo (pivot, angular sort, stack of left turns) and the gift
    wrapping of the three-shape and Minkowski demos (leftmost start, then a
    walk bounded by the number of points). */
module Hull {
  import opened Geometry

  // ---------------------------------------------------------------------
  // Graham scan

  /** The reduce step of the pivot search: pt replaces res when it is lower,
      or exactly as low and further left. */
  predicate Below(pt: Point, res: Point) {
    pt.y < res.y || (pt.y == res.y && pt.x < res.x)
  }

  /** points.reduce over the first k points, starting from points[0]. */
  function LowestOf(points: seq<Point>, k: nat): Point
    requires 1 <= k <= |points|
  {
    if k == 1 then points[0]
    else
      var res := LowestOf(points, k - 1);
      if Below(points[k - 1], res) then points[k - 1] else res
  }

  /** The pivot: a point with minimal y, ties broken by minimal x. */
  function Lowest(points: seq<Point>): Point
    requires |points| > 0
  {
    LowestOf(points, |points|)
  }

  lemma {:induction false} LowestOfIsLowest(points: seq<Point>, k: nat)
    requires 1 <= k <= |points|
    ensures LowestOf(points, k) in points[..k]
    ensures forall i :: 0 <= i < k ==> !Below(points[i], LowestOf(points, k))
  {
    if k > 1 {
      LowestOfIsLowest(points, k - 1);
      assert points[..k - 1] <= points[..k];
      assert points[k - 1] in points[..k];
    }
  }

  /** The pivot is one of the points, and no point is lower or, at the same
      height, further left. */
  lemma LowestIsLowest(points: seq<Point>)
    requires |points| > 0
    ensures Lowest(points) in points
    ensures forall q :: q in points ==> q.y > Lowest(points).y || (q.y == Lowest(points).y && q.x >= Lowest(points).x)
  {
    LowestOfIsLowest(points, |points|);
    assert points[..|points|] == points;
  }

  /** The comparator of the angular sort about the pivot: by the cross
      product, and for collinear points by the squared distance to the pivot. */
  function AngleCompare(pivot: Point, a: Point, b: Point): real {
    var cp := Cross(pivot, a, b);
    if cp == 0.0 then Dist2(a, pivot) - Dist2(b, pivot) else -cp
  }

  /** Swapping the operands negates the comparison. */
  lemma AngleCompareAntisymmetric(pivot: Point, a: Point, b: Point)
    ensures AngleCompare(pivot, a, b) == -AngleCompare(pivot, b, a)
  {
    CrossAntisymmetric(pivot, a, b);
  }

  /** The pivot compares below every other point and equal to itself. */
  lemma PivotComparesFirst(pivot: Point, b: Point)
    ensures b != pivot ==> AngleCompare(pivot, pivot, b) < 0.0 && AngleCompare(pivot, b, pivot) > 0.0
    ensures AngleCompare(pivot, pivot, pivot) == 0.0
  {
    CrossDegenerate(pivot, pivot, b);
    CrossDegenerate(pivot, b, pivot);
  }

  /** Stable insertion of x into a sorted sequence: x goes in front of the
      first element it compares strictly below. */
  function Insert(pivot: Point, x: Point, s: seq<Point>): seq<Point> {
    if |s| == 0 then [x]
    else if AngleCompare(pivot, x, s[0]) < 0.0 then [x] + s
    else [s[0]] + Insert(pivot, x, s[1..])
  }

  /** The sort of calculateBoundary, as a stable insertion sort with the
      source's comparator, taking the points in input order. */
  function SortByAngle(pivot: Point, s: seq<Point>): seq<Point> {
    if |s| == 0 then []
    else Insert(pivot, s[|s| - 1], SortByAngle(pivot, s[..|s| - 1]))
  }

  predicate SortedByAngle(pivot: Point, s: seq<Point>) {
    forall i :: 0 <= i < |s| - 1 ==> AngleCompare(pivot, s[i], s[i + 1]) <= 0.0
  }

  lemma {:induction false} InsertFacts(pivot: Point, x: Point, s: seq<Point>)
    ensures multiset(Insert(pivot, x, s)) == multiset(s) + multiset{x}
    ensures |Insert(pivot, x, s)| == |s| + 1
    ensures Insert(pivot, x, s)[0] == x || (|s| > 0 && Insert(pivot, x, s)[0] == s[0])
  {
    if |s| > 0 && AngleCompare(pivot, x, s[0]) >= 0.0 {
      InsertFacts(pivot, x, s[1..]);
      assert s == [s[0]] + s[1..];
    }
  }

  lemma {:induction false} InsertSorted(pivot: Point, x: Point, s: seq<Point>)
    requires SortedByAngle(pivot, s)
    ensures SortedByAngle(pivot, Insert(pivot, x, s))
  {
    if |s| > 0 && AngleCompare(pivot, x, s[0]) >= 0.0 {
      var t := Insert(pivot, x, s[1..]);
      assert SortedByAngle(pivot, s[1..]) by {
        forall i | 0 <= i < |s[1..]| - 1
          ensures AngleCompare(pivot, s[1..][i], s[1..][i + 1]) <= 0.0
        {
          assert s[1..][i] == s[i + 1] && s[1..][i + 1] == s[i + 2];
        }
      }
      InsertSorted(pivot, x, s[1..]);
      InsertFacts(pivot, x, s[1..]);
      AngleCompareAntisymmetric(pivot, x, s[0]);
      var r := [s[0]] + t;
      forall i | 0 <= i < |r| - 1
        ensures AngleCompare(pivot, r[i], r[i + 1]) <= 0.0
      {
        if i > 0 {
          assert r[i] == t[i - 1] && r[i + 1] == t[i];
        }
      }
    }
  }

  /** Sorting rearranges the points and nothing else. */
  lemma {:induction false} SortByAnglePermutation(pivot: Point, s: seq<Point>)
    ensures multiset(SortByAngle(pivot, s)) == multiset(s)
    ensures |SortByAngle(pivot, s)| == |s|
  {
    if |s| > 0 {
      SortByAnglePermutation(pivot, s[..|s| - 1]);
      InsertFacts(pivot, s[|s| - 1], SortByAngle(pivot, s[..|s| - 1]));
      assert s == s[..|s| - 1] + [s[|s| - 1]];
    }
  }

  /** Every neighbouring pair of the result is in comparator order. */
  lemma {:induction false} SortByAngleSorted(pivot: Point, s: seq<Point>)
    ensures SortedByAngle(pivot, SortByAngle(pivot, s))
  {
    if |s| > 0 {
      SortByAngleSorted(pivot, s[..|s| - 1]);
      InsertSorted(pivot, s[|s| - 1], SortByAngle(pivot, s[..|s| - 1]));
    }
  }

  /** When the pivot is among the points, it comes first. */
  lemma {:induction false} SortByAnglePivotFirst(pivot: Point, s: seq<Point>)
    requires pivot in s
    ensures |SortByAngle(pivot, s)| > 0 && SortByAngle(pivot, s)[0] == pivot
  {
    var init, x := s[..|s| - 1], s[|s| - 1];
    assert s == init + [x];
    var t := SortByAngle(pivot, init);
    SortByAnglePermutation(pivot, init);
    InsertFacts(pivot, x, t);
    if pivot in init {
      SortByAnglePivotFirst(pivot, init);
      PivotComparesFirst(pivot, x);
    } else {
      assert x == pivot;
      if |t| > 0 {
        assert t[0] in multiset(init);
        PivotComparesFirst(pivot, t[0]);
      }
    }
  }

  /** Every three consecutive points turn left. */
  predicate LeftTurns(s: seq<Point>) {
    forall i :: 0 <= i < |s| - 2 ==> Cross(s[i], s[i + 1], s[i + 2]) > 0.0
  }

  /** Popping the top of the stack keeps its left turns and adds no point. */
  lemma PopKeepsLeftTurns(s: seq<Point>)
    requires |s| > 0 && LeftTurns(s)
    ensures LeftTurns(s[..|s| - 1])
    ensures forall q :: q in s[..|s| - 1] ==> q in s
  {
  }

  /** Pushing a point that turns left from the top two keeps the left turns. */
  lemma PushKeepsLeftTurns(s: seq<Point>, pt: Point)
    requires LeftTurns(s)
    requires |s| < 2 || Cross(s[|s| - 2], s[|s| - 1], pt) > 0.0
    ensures LeftTurns(s + [pt])
  {
    var t := s + [pt];
    forall i | 0 <= i < |t| - 2
      ensures Cross(t[i], t[i + 1], t[i + 2]) > 0.0
    {
      if i + 2 < |s| {
        assert t[i] == s[i] && t[i + 1] == s[i + 1] && t[i + 2] == s[i + 2];
      } else {
        assert t[i] == s[|s| - 2] && t[i + 1] == s[|s| - 1] && t[i + 2] == pt;
      }
    }
  }

  /** calculateBoundary of the two-shape demo (Graham scan). Fewer than three
      points come back as a copy. Otherwise the result starts at the pivot,
      is no longer than the input, holds only input points, and every three
      consecutive points turn left. */
  method CalculateBoundary(points: seq<Point>) returns (hull: seq<Point>)
    ensures |points| < 3 ==> hull == points
    ensures |points| > 0 ==> |hull| > 0
    ensures |points| >= 3 ==> hull[0] == Lowest(points) && LeftTurns(hull)
    ensures |hull| <= |points|
    ensures forall q :: q in hull ==> q in points
  {
    if |points| < 3 {
      return points;
    }
    var lowest := Lowest(points);
    var sorted := SortByAngle(lowest, points);
    LowestIsLowest(points);
    SortByAnglePermutation(lowest, points);
    SortByAnglePivotFirst(lowest, points);
    var stack: seq<Point> := [];
    for k := 0 to |sorted|
      invariant |stack| <= k
      invariant k > 0 ==> |stack| > 0 && stack[0] == sorted[0]
      invariant forall q :: q in stack ==> q in sorted
      invariant LeftTurns(stack)
    {
      var pt := sorted[k];
      while |stack| >= 2 && Cross(stack[|stack| - 2], stack[|stack| - 1], pt) <= 0.0
        invariant |stack| <= k
        invariant k > 0 ==> |stack| > 0 && stack[0] == sorted[0]
        invariant forall q :: q in stack ==> q in sorted
        invariant LeftTurns(stack)
        decreases |stack|
      {
        PopKeepsLeftTurns(stack);
        stack := stack[..|stack| - 1];
      }
      PushKeepsLeftTurns(stack, pt);
      stack := stack + [pt];
    }
    hull := stack;
    forall q | q in hull
      ensures q in points
    {
      assert q in multiset(sorted);
    }
  }

  // ---------------------------------------------------------------------
  // Gift wrapping

  /** `leftmost` after the scan has looked at the first k points: an index
      replaces it only when its x is strictly smaller. */
  function LeftmostOf(points: seq<Point>, k: nat): (l: nat)
    requires 1 <= k <= |points|
    ensures l < k
  {
    if k == 1 then 0
    else
      var l := LeftmostOf(points, k - 1);
      if points[k - 1].x < points[l].x then k - 1 else l
  }

  /** The first index whose x is minimal. */
  lemma {:induction false} LeftmostOfIsFirstMinimal(points: seq<Point>, k: nat)
    requires 1 <= k <= |points|
    ensures forall j :: 0 <= j < k ==> points[LeftmostOf(points, k)].x <= points[j].x
    ensures forall j :: 0 <= j < LeftmostOf(points, k) ==> points[j].x > points[LeftmostOf(points, k)].x
  {
    if k > 1 {
      LeftmostOfIsFirstMinimal(points, k - 1);
    }
  }

  /** The value of `next` once the inner loop has looked at indices 1 .. k-1:
      an index replaces the candidate when the candidate is the current point
      or the index lies strictly to the left of the ray from the current point
      to the candidate (crossProduct > 0). */
  function NextIndex(points: seq<Point>, current: nat, k: nat): (next: nat)
    requires current < |points|
    requires 1 <= k <= |points|
    ensures next < k
  {
    if k == 1 then 0
    else
      var next := NextIndex(points, current, k - 1);
      if next == current || Cross(points[current], points[k - 1], points[next]) > 0.0 then k - 1 else next
  }

  /** With two or more points the walk never stays on the current index. */
  lemma {:induction false} NextIndexMoves(points: seq<Point>, current: nat, k: nat)
    requires current < |points|
    requires 2 <= k <= |points|
    ensures NextIndex(points, current, k) != current
  {
    if k > 2 {
      NextIndexMoves(points, current, k - 1);
      var next := NextIndex(points, current, k - 1);
      CrossDegenerate(points[current], points[current], points[next]);
    }
  }

  /** The do-while of the gift wrap from a given state: push the current
      point, move to the next index, and go on while the walk has not come
      back to the start and fewer than |points| points were pushed. */
  function Wrap(points: seq<Point>, start: nat, current: nat, hull: seq<Point>): seq<Point>
    requires current < |points|
    requires |hull| < |points|
    decreases |points| - |hull|
  {
    var pushed := hull + [points[current]];
    var next := NextIndex(points, current, |points|);
    if next != start && |pushed| < |points| then Wrap(points, start, next, pushed) else pushed
  }

  /** The result of the gift-wrapping calculateBoundary. */
  function GiftWrapHull(points: seq<Point>): seq<Point> {
    if |points| < 3 then points
    else
      var start := LeftmostOf(points, |points|);
      Wrap(points, start, start, [])
  }

  lemma {:induction false} WrapFacts(points: seq<Point>, start: nat, current: nat, hull: seq<Point>)
    requires current < |points|
    requires |hull| < |points|
    ensures |hull| < |Wrap(points, start, current, hull)| <= |points|
    ensures Wrap(points, start, current, hull)[..|hull| + 1] == hull + [points[current]]
    ensures forall q :: q in Wrap(points, start, current, hull) ==> q in hull || q in points
    decreases |points| - |hull|
  {
    var pushed := hull + [points[current]];
    var next := NextIndex(points, current, |points|);
    if next != start && |pushed| < |points| {
      WrapFacts(points, start, next, pushed);
      var w := Wrap(points, start, next, pushed);
      assert w[..|hull| + 1] == w[..|pushed|][..|hull| + 1];
    }
  }

  /** Fewer than three points come back unchanged; otherwise the hull starts
      at the first leftmost point, has between 1 and |points| elements, and
      holds only input points. */
  lemma GiftWrapHullFacts(points: seq<Point>)
    ensures |points| < 3 ==> GiftWrapHull(points) == points
    ensures |points| >= 3 ==> 1 <= |GiftWrapHull(points)| <= |points|
    ensures |points| >= 3 ==> GiftWrapHull(points)[0] == points[LeftmostOf(points, |points|)]
    ensures forall q :: q in GiftWrapHull(points) ==> q in points
  {
    if |points| >= 3 {
      var start := LeftmostOf(points, |points|);
      WrapFacts(points, start, start, []);
      assert GiftWrapHull(points)[..1] == [points[start]];
    }
  }

  /** The gift-wrapping calculateBoundary of the three-shape and Minkowski
      demos. */
  method GiftWrap(points: seq<Point>) returns (hull: seq<Point>)
    ensures hull == GiftWrapHull(points)
  {
    var n := |points|;
    if n < 3 {
      return points;
    }
    var leftmost := 0;
    for i := 1 to n
      invariant leftmost == LeftmostOf(points, i)
    {
      if points[i].x < points[leftmost].x {
        leftmost := i;
      }
    }
    hull := [];
    var current := leftmost;
    while true
      invariant current < n && |hull| < n
      invariant Wrap(points, leftmost, current, hull) == GiftWrapHull(points)
      decreases n - |hull|
    {
      hull := hull + [points[current]];
      var next := 0;
      for i := 1 to n
        invariant next == NextIndex(points, current, i)
      {
        if next == current || Cross(points[current], points[i], points[next]) > 0.0 {
          next := i;
        }
      }
      current := next;
      if !(current != leftmost && |hull| < n) {
        break;
      }
    }
  }
}
