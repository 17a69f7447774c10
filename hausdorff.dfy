/** The Hausdorff distance between two point sets, as calculateHausdorffDistance
    of the two- and three-shape demos computes it: the larger of the two
    directed distances, each the largest over one set of the distance to the
    nearest point of the other. Distances are squared, which leaves every
    max and min where it is. */
module Hausdorff {
  import opened Geometry

  /** minDist after the inner loop has looked at the first k points of B. */
  function MinDistUpTo(p: Point, b: seq<Point>, k: nat): Ext
    requires k <= |b|
  {
    if k == 0 then Inf else Min(MinDistUpTo(p, b, k - 1), Fin(Dist2(p, b[k - 1])))
  }

  /** The squared distance from p to the nearest point of B; Infinity for an empty B. */
  function MinDist(p: Point, b: seq<Point>): Ext {
    MinDistUpTo(p, b, |b|)
  }

  /** maxDist after the outer loop has looked at the first k points of A. */
  function DirectedUpTo(a: seq<Point>, b: seq<Point>, k: nat): Ext
    requires k <= |a|
  {
    if k == 0 then Fin(0.0) else Max(DirectedUpTo(a, b, k - 1), MinDist(a[k - 1], b))
  }

  /** The directed distance from A to B, starting from 0. */
  function Directed(a: seq<Point>, b: seq<Point>): Ext {
    DirectedUpTo(a, b, |a|)
  }

  function HausdorffDist(a: seq<Point>, b: seq<Point>): Ext {
    Max(Directed(a, b), Directed(b, a))
  }

  /** calculateHausdorffDistance. The second pass calls distance(pointA,
      pointB), in that order, which is the same value by symmetry. */
  method CalculateHausdorffDistance(pointsA: seq<Point>, pointsB: seq<Point>) returns (h: Ext)
    ensures h == HausdorffDist(pointsA, pointsB)
  {
    var maxDistAB := Fin(0.0);
    var maxDistBA := Fin(0.0);
    for i := 0 to |pointsA|
      invariant maxDistAB == DirectedUpTo(pointsA, pointsB, i)
    {
      var pointA := pointsA[i];
      var minDist := Inf;
      for j := 0 to |pointsB|
        invariant minDist == MinDistUpTo(pointA, pointsB, j)
      {
        minDist := Min(minDist, Fin(Dist2(pointA, pointsB[j])));
      }
      maxDistAB := Max(maxDistAB, minDist);
    }
    for j := 0 to |pointsB|
      invariant maxDistBA == DirectedUpTo(pointsB, pointsA, j)
    {
      var pointB := pointsB[j];
      var minDist := Inf;
      for i := 0 to |pointsA|
        invariant minDist == MinDistUpTo(pointB, pointsA, i)
      {
        var pointA := pointsA[i];
        Dist2Symmetric(pointA, pointB);
        minDist := Min(minDist, Fin(Dist2(pointA, pointB)));
      }
      maxDistBA := Max(maxDistBA, minDist);
    }
    h := Max(maxDistAB, maxDistBA);
  }

  lemma {:induction false} MinDistUpToIsMinimum(p: Point, b: seq<Point>, k: nat)
    requires k <= |b|
    ensures MinDistUpTo(p, b, k).Inf? <==> k == 0
    ensures forall j :: 0 <= j < k ==> Le(MinDistUpTo(p, b, k), Fin(Dist2(p, b[j])))
    ensures k > 0 ==> exists j :: 0 <= j < k && MinDistUpTo(p, b, k) == Fin(Dist2(p, b[j]))
  {
    if k > 0 {
      MinDistUpToIsMinimum(p, b, k - 1);
      var prev := MinDistUpTo(p, b, k - 1);
      var d := MinDistUpTo(p, b, k);
      forall j | 0 <= j < k - 1
        ensures Le(d, Fin(Dist2(p, b[j])))
      {
        LeTrans(d, prev, Fin(Dist2(p, b[j])));
      }
      if d != Fin(Dist2(p, b[k - 1])) {
        var j :| 0 <= j < k - 1 && prev == Fin(Dist2(p, b[j]));
        assert 0 <= j < k && d == Fin(Dist2(p, b[j]));
      }
    }
  }

  /** MinDist is Infinity exactly for an empty B, at most the distance to
      every point of B, and for a non-empty B the distance to one of them. */
  lemma MinDistIsMinimum(p: Point, b: seq<Point>)
    ensures MinDist(p, b).Inf? <==> |b| == 0
    ensures forall q :: q in b ==> Le(MinDist(p, b), Fin(Dist2(p, q)))
    ensures |b| > 0 ==> exists q :: q in b && MinDist(p, b) == Fin(Dist2(p, q))
  {
    MinDistUpToIsMinimum(p, b, |b|);
    if |b| > 0 {
      var j :| 0 <= j < |b| && MinDist(p, b) == Fin(Dist2(p, b[j]));
      assert b[j] in b;
    }
  }

  lemma {:induction false} DirectedUpToIsMaximum(a: seq<Point>, b: seq<Point>, k: nat)
    requires k <= |a|
    ensures Le(Fin(0.0), DirectedUpTo(a, b, k))
    ensures forall i :: 0 <= i < k ==> Le(MinDist(a[i], b), DirectedUpTo(a, b, k))
    ensures DirectedUpTo(a, b, k) == Fin(0.0) || exists i :: 0 <= i < k && DirectedUpTo(a, b, k) == MinDist(a[i], b)
  {
    if k > 0 {
      DirectedUpToIsMaximum(a, b, k - 1);
      var prev := DirectedUpTo(a, b, k - 1);
      var d := DirectedUpTo(a, b, k);
      LeTrans(Fin(0.0), prev, d);
      forall i | 0 <= i < k - 1
        ensures Le(MinDist(a[i], b), d)
      {
        LeTrans(MinDist(a[i], b), prev, d);
      }
      if d != MinDist(a[k - 1], b) && d != Fin(0.0) {
        var i :| 0 <= i < k - 1 && prev == MinDist(a[i], b);
        assert 0 <= i < k && d == MinDist(a[i], b);
      }
    }
  }

  /** The directed distance is at least 0, at least the nearest-point distance
      of every point of A, and either 0 or the nearest-point distance of one
      of them. */
  lemma DirectedIsMaximum(a: seq<Point>, b: seq<Point>)
    ensures Le(Fin(0.0), Directed(a, b))
    ensures forall p :: p in a ==> Le(MinDist(p, b), Directed(a, b))
    ensures Directed(a, b) == Fin(0.0) || exists p :: p in a && Directed(a, b) == MinDist(p, b)
  {
    DirectedUpToIsMaximum(a, b, |a|);
    if Directed(a, b) != Fin(0.0) {
      var i :| 0 <= i < |a| && Directed(a, b) == MinDist(a[i], b);
      assert a[i] in a;
    }
  }

  /** The Hausdorff distance is at least 0 and at least each directed distance. */
  lemma HausdorffNonnegative(a: seq<Point>, b: seq<Point>)
    ensures Le(Fin(0.0), HausdorffDist(a, b))
    ensures Le(Directed(a, b), HausdorffDist(a, b)) && Le(Directed(b, a), HausdorffDist(a, b))
  {
    DirectedIsMaximum(a, b);
    LeTrans(Fin(0.0), Directed(a, b), HausdorffDist(a, b));
  }

  /** Swapping the two sets does not change the distance. */
  lemma HausdorffSymmetric(a: seq<Point>, b: seq<Point>)
    ensures HausdorffDist(a, b) == HausdorffDist(b, a)
  {
    MaxCommutative(Directed(a, b), Directed(b, a));
  }

  lemma {:induction false} DirectedUpToSelf(a: seq<Point>, k: nat)
    requires k <= |a|
    ensures DirectedUpTo(a, a, k) == Fin(0.0)
  {
    if k > 0 {
      DirectedUpToSelf(a, k - 1);
      MinDistIsMinimum(a[k - 1], a);
      assert Le(MinDist(a[k - 1], a), Fin(Dist2(a[k - 1], a[k - 1])));
    }
  }

  /** Every set is at distance 0 from itself. */
  lemma HausdorffSelf(a: seq<Point>)
    ensures HausdorffDist(a, a) == Fin(0.0)
  {
    DirectedUpToSelf(a, |a|);
  }

  lemma {:induction false} DirectedUpToFinite(a: seq<Point>, b: seq<Point>, k: nat)
    requires k <= |a|
    ensures DirectedUpTo(a, b, k).Inf? <==> k > 0 && |b| == 0
  {
    if k > 0 {
      DirectedUpToFinite(a, b, k - 1);
      MinDistIsMinimum(a[k - 1], b);
    }
  }

  /** The distance is Infinity exactly when one set is empty and the other is
      not; two empty sets are at distance 0. */
  lemma HausdorffInfinite(a: seq<Point>, b: seq<Point>)
    ensures HausdorffDist(a, b).Inf? <==> (|a| == 0) != (|b| == 0)
    ensures |a| == 0 && |b| == 0 ==> HausdorffDist(a, b) == Fin(0.0)
  {
    DirectedUpToFinite(a, b, |a|);
    DirectedUpToFinite(b, a, |b|);
  }

  /** The distance bounds how far every point of either set is from the other
      set: for a finite h, Le(HausdorffDist(A, B), Fin(h)) holds exactly when
      every point of A has a point of B within squared distance h, and every
      point of B one of A. */
  lemma HausdorffBound(a: seq<Point>, b: seq<Point>, h: real)
    requires |a| > 0 && |b| > 0 && h >= 0.0
    ensures Le(HausdorffDist(a, b), Fin(h)) <==>
      (forall p :: p in a ==> exists q :: q in b && Dist2(p, q) <= h) &&
      (forall q :: q in b ==> exists p :: p in a && Dist2(q, p) <= h)
  {
    DirectedIsMaximum(a, b);
    DirectedIsMaximum(b, a);
    var H := HausdorffDist(a, b);
    if Le(H, Fin(h)) {
      forall p | p in a
        ensures exists q :: q in b && Dist2(p, q) <= h
      {
        MinDistIsMinimum(p, b);
        LeTrans(MinDist(p, b), Directed(a, b), H);
      }
      forall q | q in b
        ensures exists p :: p in a && Dist2(q, p) <= h
      {
        MinDistIsMinimum(q, a);
        LeTrans(MinDist(q, a), Directed(b, a), H);
      }
    } else {
      if Directed(a, b) == H {
        DirectedBoundFails(a, b, h);
      } else {
        DirectedBoundFails(b, a, h);
      }
    }
  }

  lemma DirectedBoundFails(a: seq<Point>, b: seq<Point>, h: real)
    requires |a| > 0 && h >= 0.0
    requires !Le(Directed(a, b), Fin(h))
    ensures exists p :: p in a && forall q :: q in b ==> Dist2(p, q) > h
  {
    DirectedIsMaximum(a, b);
    var p :| p in a && Directed(a, b) == MinDist(p, b);
    MinDistIsMinimum(p, b);
    forall q | q in b
      ensures Dist2(p, q) > h
    {
    }
  }
}
