/** The candidate points of a Minkowski sum: one point per pair (a, b), in
    the order of nested loops over A (outer) and B (inner). The combination
    of a and b is a parameter, because the two demos that build these
    candidates combine them differently. */
module Pairwise {
  import opened Geometry

  /** The candidates of one outer iteration: f(a, b) for each b, in order. */
  function Row(a: Point, ys: seq<Point>, f: (Point, Point) -> Point): seq<Point> {
    if |ys| == 0 then [] else Row(a, ys[..|ys| - 1], f) + [f(a, ys[|ys| - 1])]
  }

  /** The candidates of the whole nested loop. */
  function Pairs(xs: seq<Point>, ys: seq<Point>, f: (Point, Point) -> Point): seq<Point> {
    if |xs| == 0 then [] else Pairs(xs[..|xs| - 1], ys, f) + Row(xs[|xs| - 1], ys, f)
  }

  lemma {:induction false} RowShape(a: Point, ys: seq<Point>, f: (Point, Point) -> Point)
    ensures |Row(a, ys, f)| == |ys|
    ensures forall j :: 0 <= j < |ys| ==> Row(a, ys, f)[j] == f(a, ys[j])
  {
    if |ys| > 0 {
      RowShape(a, ys[..|ys| - 1], f);
    }
  }

  lemma {:induction false} NatProductNonnegative(i: nat, m: nat)
    ensures i * m >= 0
  {
    if i > 0 {
      NatProductNonnegative(i - 1, m);
      assert i * m == (i - 1) * m + m;
    }
  }

  lemma {:induction false} IndexBound(i: nat, j: nat, m: nat, k: nat)
    requires i < k && j < m
    ensures 0 <= i * m + j < k * m
    decreases k - i
  {
    NatProductNonnegative(i, m);
    assert (i + 1) * m == i * m + m;
    if i + 1 < k {
      IndexBound(i + 1, j, m, k);
    }
  }

  lemma {:induction false} PairsLength(xs: seq<Point>, ys: seq<Point>, f: (Point, Point) -> Point)
    ensures |Pairs(xs, ys, f)| == |xs| * |ys|
  {
    if |xs| > 0 {
      PairsLength(xs[..|xs| - 1], ys, f);
      RowShape(xs[|xs| - 1], ys, f);
      assert (|xs| - 1) * |ys| + |ys| == |xs| * |ys|;
    }
  }

  lemma ConcatIndex(front: seq<Point>, row: seq<Point>, k: nat)
    requires k < |front| + |row|
    ensures k < |front| ==> (front + row)[k] == front[k]
    ensures k >= |front| ==> (front + row)[k] == row[k - |front|]
  {
  }

  /** The position i * m + j of the pair (i, j) in nested loops whose inner
      loop has m iterations. */
  function Slot(i: int, j: int, m: int): int {
    i * m + j
  }

  /** There are |A| * |B| candidates, and the candidate of the pair
      (A[i], B[j]) sits at position Slot(i, j, |B|). */
  lemma {:induction false} PairsAt(xs: seq<Point>, ys: seq<Point>, f: (Point, Point) -> Point, i: nat, j: nat)
    requires i < |xs| && j < |ys|
    ensures |Pairs(xs, ys, f)| == |xs| * |ys|
    ensures 0 <= Slot(i, j, |ys|) < |Pairs(xs, ys, f)|
    ensures Pairs(xs, ys, f)[Slot(i, j, |ys|)] == f(xs[i], ys[j])
  {
    var n, m := |xs|, |ys|;
    var init := xs[..n - 1];
    var front, row := Pairs(init, ys, f), Row(xs[n - 1], ys, f);
    PairsLength(init, ys, f);
    PairsLength(xs, ys, f);
    RowShape(xs[n - 1], ys, f);
    IndexBound(i, j, m, n);
    assert Pairs(xs, ys, f) == front + row;
    var k := Slot(i, j, m);
    ConcatIndex(front, row, k);
    if i < n - 1 {
      IndexBound(i, j, m, n - 1);
      PairsAt(init, ys, f, i, j);
      assert init[i] == xs[i];
    } else {
      assert k - |front| == j;
    }
  }

  /** A point is a candidate exactly when it combines some a of A with some
      b of B. */
  lemma {:induction false} PairsMembership(p: Point, xs: seq<Point>, ys: seq<Point>, f: (Point, Point) -> Point)
    ensures p in Pairs(xs, ys, f) <==> exists a, b :: a in xs && b in ys && p == f(a, b)
  {
    if |xs| > 0 {
      var init, last := xs[..|xs| - 1], xs[|xs| - 1];
      PairsMembership(p, init, ys, f);
      RowShape(last, ys, f);
      assert xs == init + [last];
      if p in Row(last, ys, f) {
        var j :| 0 <= j < |ys| && Row(last, ys, f)[j] == p;
        assert last in xs && ys[j] in ys && p == f(last, ys[j]);
      }
      if exists a, b :: a in xs && b in ys && p == f(a, b) {
        var a, b :| a in xs && b in ys && p == f(a, b);
        if a !in init {
          assert a == last;
          var j :| 0 <= j < |ys| && ys[j] == b;
          assert Row(last, ys, f)[j] == p;
        }
      }
    }
  }
}
