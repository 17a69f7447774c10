/** The sampling grid of the intersection demos: x runs over 0, step, 2 step,
    ... below the canvas width, and for each x, y runs over the same below
    the canvas height; the points that pass a test are collected in that
    order. */
module Grid {
  import opened Geometry

  /** The grid point (x, y). */
  function Pt(x: nat, y: nat): Point {
    Point(x as real, y as real)
  }

  /** The collected points of column x from row y on. */
  function ColumnFrom(x: nat, y: nat, step: nat, height: nat, keep: Point -> bool): seq<Point>
    requires step > 0
    decreases if y < height then height - y else 0
  {
    if y >= height then []
    else (if keep(Pt(x, y)) then [Pt(x, y)] else []) + ColumnFrom(x, y + step, step, height, keep)
  }

  /** The collected points of the columns from x on. */
  function GridFrom(x: nat, step: nat, width: nat, height: nat, keep: Point -> bool): seq<Point>
    requires step > 0
    decreases if x < width then width - x else 0
  {
    if x >= width then []
    else ColumnFrom(x, 0, step, height, keep) + GridFrom(x + step, step, width, height, keep)
  }

  /** Every grid point that passes `keep`, in the order the loops visit them. */
  function Sample(step: nat, width: nat, height: nat, keep: Point -> bool): seq<Point>
    requires step > 0
  {
    GridFrom(0, step, width, height, keep)
  }

  /** The points still to be collected when the loops stand at column x, row y. */
  function Remaining(x: nat, y: nat, step: nat, width: nat, height: nat, keep: Point -> bool): seq<Point>
    requires step > 0
  {
    ColumnFrom(x, y, step, height, keep) + GridFrom(x + step, step, width, height, keep)
  }

  /** One step of the inner loop: the point (x, y) is collected if it passes,
      and the loops move on to row y + step. */
  lemma RemainingStep(x: nat, y: nat, step: nat, width: nat, height: nat, keep: Point -> bool)
    requires step > 0 && y < height
    ensures Remaining(x, y, step, width, height, keep) ==
      (if keep(Pt(x, y)) then [Pt(x, y)] else []) + Remaining(x, y + step, step, width, height, keep)
  {
    var head := if keep(Pt(x, y)) then [Pt(x, y)] else [];
    var c, g := ColumnFrom(x, y + step, step, height, keep), GridFrom(x + step, step, width, height, keep);
    assert (head + c) + g == head + (c + g);
  }

  /** The inner loop's invariant survives one step: acc holds the points
      collected so far, and the point (x, y) is appended exactly when it passes. */
  lemma CollectStep(acc: seq<Point>, x: nat, y: nat, step: nat, width: nat, height: nat, keep: Point -> bool, total: seq<Point>)
    requires step > 0 && y < height
    requires acc + Remaining(x, y, step, width, height, keep) == total
    ensures (if keep(Pt(x, y)) then acc + [Pt(x, y)] else acc) + Remaining(x, y + step, step, width, height, keep) == total
  {
    RemainingStep(x, y, step, width, height, keep);
    var rest := Remaining(x, y + step, step, width, height, keep);
    if keep(Pt(x, y)) {
      ConcatAssoc(acc, [Pt(x, y)], rest);
    } else {
      assert [] + rest == rest;
    }
  }

  /** An inner loop starts on a column the outer loop has not finished, and
      ends on the next column. */
  lemma RemainingColumn(x: nat, y: nat, step: nat, width: nat, height: nat, keep: Point -> bool)
    requires step > 0
    ensures x < width ==> GridFrom(x, step, width, height, keep) == Remaining(x, 0, step, width, height, keep)
    ensures y >= height ==> Remaining(x, y, step, width, height, keep) == GridFrom(x + step, step, width, height, keep)
  {
  }

  /** c is one of start, start + step, start + 2 step, ... below bound. */
  ghost predicate OnProgression(c: real, start: nat, step: nat, bound: nat)
    requires step > 0
  {
    exists k: nat :: start + k * step < bound && c == (start + k * step) as real
  }

  /** The progression from start is start followed by the progression from
      start + step. */
  lemma OnProgressionStep(c: real, start: nat, step: nat, bound: nat)
    requires step > 0
    ensures OnProgression(c, start, step, bound) <==>
      (c == start as real && start < bound) || OnProgression(c, start + step, step, bound)
  {
    if OnProgression(c, start, step, bound) && c != start as real {
      var k: nat :| start + k * step < bound && c == (start + k * step) as real;
      assert k != 0;
      assert (k - 1) * step + step == k * step;
      assert start + step + (k - 1) * step == start + k * step;
    }
    if OnProgression(c, start + step, step, bound) {
      var k: nat :| start + step + k * step < bound && c == (start + step + k * step) as real;
      assert (k + 1) * step == k * step + step;
      assert start + (k + 1) * step == start + step + k * step;
    }
    if c == start as real && start < bound {
      assert start + 0 * step == start;
    }
  }

  lemma {:induction false} ColumnFromMembership(p: Point, x: nat, y: nat, step: nat, height: nat, keep: Point -> bool)
    requires step > 0
    ensures p in ColumnFrom(x, y, step, height, keep) <==>
      keep(p) && p.x == x as real && OnProgression(p.y, y, step, height)
    decreases if y < height then height - y else 0
  {
    OnProgressionStep(p.y, y, step, height);
    if y < height {
      ColumnFromMembership(p, x, y + step, step, height, keep);
    }
  }

  lemma {:induction false} GridFromMembership(p: Point, x: nat, step: nat, width: nat, height: nat, keep: Point -> bool)
    requires step > 0
    ensures p in GridFrom(x, step, width, height, keep) <==>
      keep(p) && OnProgression(p.x, x, step, width) && OnProgression(p.y, 0, step, height)
    decreases if x < width then width - x else 0
  {
    OnProgressionStep(p.x, x, step, width);
    if x < width {
      GridFromMembership(p, x + step, step, width, height, keep);
      ColumnFromMembership(p, x, 0, step, height, keep);
    }
  }

  /** A point is collected exactly when it passes the test and both of its
      coordinates are grid coordinates. */
  lemma SampleMembership(p: Point, step: nat, width: nat, height: nat, keep: Point -> bool)
    requires step > 0
    ensures p in Sample(step, width, height, keep) <==>
      keep(p) && OnProgression(p.x, 0, step, width) && OnProgression(p.y, 0, step, height)
  {
    GridFromMembership(p, 0, step, width, height, keep);
  }

  /** A weaker test collects every point a stronger one does; in particular
      its sample is non-empty whenever the stronger one's is. */
  lemma SampleMonotone(step: nat, width: nat, height: nat, keep1: Point -> bool, keep2: Point -> bool)
    requires step > 0
    requires forall p :: keep1(p) ==> keep2(p)
    ensures forall p :: p in Sample(step, width, height, keep1) ==> p in Sample(step, width, height, keep2)
    ensures Sample(step, width, height, keep1) != [] ==> Sample(step, width, height, keep2) != []
  {
    forall p | p in Sample(step, width, height, keep1)
      ensures p in Sample(step, width, height, keep2)
    {
      SampleMembership(p, step, width, height, keep1);
      SampleMembership(p, step, width, height, keep2);
    }
    if Sample(step, width, height, keep1) != [] {
      assert Sample(step, width, height, keep1)[0] in Sample(step, width, height, keep1);
    }
  }
}
