/** The step-by-step Hausdorff demo: findClosestPoint, and the animation that
    visits the points of A, then those of B, one timer tick at a time, keeping
    the two running maxima, and finally reports their larger one. Run to the
    end from a reset, it reports exactly the batch Hausdorff distance. */
module DistanceDemo {
  import opened Geometry
  import opened Hausdorff

  // ---------------------------------------------------------------------
  // findClosestPoint

  /** The index of closestPoint after the first k points of setB: the first
      point is always taken (its distance is below Infinity), a later one
      only when it is strictly nearer. */
  function ClosestUpTo(p: Point, setB: seq<Point>, k: nat): (c: Option<nat>)
    requires k <= |setB|
    ensures c.Some? <==> k > 0
    ensures c.Some? ==> c.value < k
  {
    if k == 0 then None
    else
      var c := ClosestUpTo(p, setB, k - 1);
      if c.None? || Dist2(p, setB[k - 1]) < Dist2(p, setB[c.value]) then Some(k - 1) else c
  }

  /** The chosen index is the first nearest one among the first k points, and
      its distance is the running minimum minDist. */
  lemma {:induction false} ClosestUpToIsFirstNearest(p: Point, setB: seq<Point>, k: nat)
    requires 0 < k <= |setB|
    ensures var c := ClosestUpTo(p, setB, k).value;
      MinDistUpTo(p, setB, k) == Fin(Dist2(p, setB[c])) &&
      (forall j :: 0 <= j < k ==> Dist2(p, setB[c]) <= Dist2(p, setB[j])) &&
      (forall j :: 0 <= j < c ==> Dist2(p, setB[j]) > Dist2(p, setB[c]))
  {
    if k > 1 {
      ClosestUpToIsFirstNearest(p, setB, k - 1);
    }
  }

  /** The point findClosestPoint returns: null for an empty set. */
  function Closest(p: Point, setB: seq<Point>): Option<Point> {
    var c := ClosestUpTo(p, setB, |setB|);
    if c.None? then None else Some(setB[c.value])
  }

  /** findClosestPoint: the first nearest point of setB and its distance, or
      null and Infinity when setB is empty. */
  method FindClosestPoint(p: Point, setB: seq<Point>) returns (point: Option<Point>, minDist: Ext)
    ensures point == Closest(p, setB)
    ensures minDist == MinDist(p, setB)
  {
    minDist := Inf;
    point := None;
    ghost var c: Option<nat> := None;
    for k := 0 to |setB|
      invariant c == ClosestUpTo(p, setB, k)
      invariant point == (if c.None? then None else Some(setB[c.value]))
      invariant minDist == MinDistUpTo(p, setB, k)
    {
      if k > 0 {
        ClosestUpToIsFirstNearest(p, setB, k);
      }
      var dist := Dist2(p, setB[k]);
      if minDist.Inf? || dist < minDist.v {
        minDist := Fin(dist);
        point := Some(setB[k]);
        c := Some(k);
      }
    }
  }

  /** The returned distance is the distance to the returned point, no point
      of setB is nearer, and no earlier point is as near. */
  lemma FindClosestPointFacts(p: Point, setB: seq<Point>)
    ensures Closest(p, setB).None? <==> |setB| == 0
    ensures |setB| == 0 ==> MinDist(p, setB) == Inf
    ensures |setB| > 0 ==>
      exists i ::
        && 0 <= i < |setB|
        && Closest(p, setB) == Some(setB[i])
        && MinDist(p, setB) == Fin(Dist2(p, setB[i]))
        && (forall j :: 0 <= j < |setB| ==> Dist2(p, setB[i]) <= Dist2(p, setB[j]))
        && (forall j :: 0 <= j < i ==> Dist2(p, setB[j]) > Dist2(p, setB[i]))
  {
    if |setB| > 0 {
      ClosestUpToIsFirstNearest(p, setB, |setB|);
      var i := ClosestUpTo(p, setB, |setB|).value;
      assert Closest(p, setB) == Some(setB[i]);
    }
  }

  // ---------------------------------------------------------------------
  // The animation

  datatype Direction = AtoB | BtoA

  /** animationState without the `distances` list, which nothing fills. */
  datatype Animation = Animation(
    isRunning: bool,
    currentPoint: nat,
    direction: Direction,
    maxDistanceAtoB: Ext,
    maxDistanceBtoA: Ext,
    hausdorffDistance: Ext)

  /** The state resetAnimation installs. */
  function Reset(): Animation {
    Animation(false, 0, AtoB, Fin(0.0), Fin(0.0), Fin(0.0))
  }

  /** One call of animate: nothing while paused; else the next point of the
      current shape updates the running maximum of its direction, or the
      direction switches to B -> A, or the result is taken and the run stops. */
  function Step(s: Animation, shapeA: seq<Point>, shapeB: seq<Point>): Animation {
    if !s.isRunning then s
    else
      var currentShape := if s.direction == AtoB then shapeA else shapeB;
      var targetShape := if s.direction == AtoB then shapeB else shapeA;
      if s.currentPoint < |currentShape| then
        var d := MinDist(currentShape[s.currentPoint], targetShape);
        if s.direction == AtoB then
          s.(maxDistanceAtoB := Max(s.maxDistanceAtoB, d), currentPoint := s.currentPoint + 1)
        else
          s.(maxDistanceBtoA := Max(s.maxDistanceBtoA, d), currentPoint := s.currentPoint + 1)
      else if s.direction == AtoB then
        s.(direction := BtoA, currentPoint := 0)
      else
        s.(hausdorffDistance := Max(s.maxDistanceAtoB, s.maxDistanceBtoA), isRunning := false)
  }

  /** startAnimation: when stopped, run, and take the first step at once. */
  function Start(s: Animation, shapeA: seq<Point>, shapeB: seq<Point>): Animation {
    if !s.isRunning then Step(s.(isRunning := true), shapeA, shapeB) else s
  }

  /** pauseAnimation. */
  function Pause(s: Animation): Animation {
    s.(isRunning := false)
  }

  /** n further timer ticks. */
  function Run(s: Animation, shapeA: seq<Point>, shapeB: seq<Point>, n: nat): Animation
    decreases n
  {
    if n == 0 then s else Run(Step(s, shapeA, shapeB), shapeA, shapeB, n - 1)
  }

  /** The state is what the ticks so far have computed: in the A -> B pass
      the running maximum over the visited points of A, in the B -> A pass
      the full directed distance from A and the running maximum over the
      visited points of B; the result is 0 or the Hausdorff distance. */
  predicate Consistent(s: Animation, shapeA: seq<Point>, shapeB: seq<Point>) {
    (s.direction == AtoB ==>
      s.currentPoint <= |shapeA| &&
      s.maxDistanceAtoB == DirectedUpTo(shapeA, shapeB, s.currentPoint) &&
      s.maxDistanceBtoA == Fin(0.0)) &&
    (s.direction == BtoA ==>
      s.currentPoint <= |shapeB| &&
      s.maxDistanceAtoB == Directed(shapeA, shapeB) &&
      s.maxDistanceBtoA == DirectedUpTo(shapeB, shapeA, s.currentPoint)) &&
    (s.hausdorffDistance == Fin(0.0) || s.hausdorffDistance == HausdorffDist(shapeA, shapeB))
  }

  /** Every operation keeps the state consistent, and the step that stops a
      run reports the Hausdorff distance. The running maxima never decrease. */
  lemma ConsistentPreserved(s: Animation, shapeA: seq<Point>, shapeB: seq<Point>)
    requires Consistent(s, shapeA, shapeB)
    ensures Consistent(Step(s, shapeA, shapeB), shapeA, shapeB)
    ensures Consistent(Start(s, shapeA, shapeB), shapeA, shapeB)
    ensures Consistent(Pause(s), shapeA, shapeB)
    ensures s.isRunning && !Step(s, shapeA, shapeB).isRunning ==>
      Step(s, shapeA, shapeB).hausdorffDistance == HausdorffDist(shapeA, shapeB)
    ensures Le(s.maxDistanceAtoB, Step(s, shapeA, shapeB).maxDistanceAtoB)
    ensures Le(s.maxDistanceBtoA, Step(s, shapeA, shapeB).maxDistanceBtoA)
  {
    StepConsistent(s, shapeA, shapeB);
    if !s.isRunning {
      StepConsistent(s.(isRunning := true), shapeA, shapeB);
    }
  }

  lemma StepConsistent(s: Animation, shapeA: seq<Point>, shapeB: seq<Point>)
    requires Consistent(s, shapeA, shapeB)
    ensures Consistent(Step(s, shapeA, shapeB), shapeA, shapeB)
    ensures s.isRunning && !Step(s, shapeA, shapeB).isRunning ==>
      Step(s, shapeA, shapeB).hausdorffDistance == HausdorffDist(shapeA, shapeB)
    ensures Le(s.maxDistanceAtoB, Step(s, shapeA, shapeB).maxDistanceAtoB)
    ensures Le(s.maxDistanceBtoA, Step(s, shapeA, shapeB).maxDistanceBtoA)
  {
    var t := Step(s, shapeA, shapeB);
    if s.isRunning && s.direction == AtoB && s.currentPoint == |shapeA| {
      assert t.maxDistanceBtoA == DirectedUpTo(shapeB, shapeA, 0);
    }
  }

  lemma ResetConsistent(shapeA: seq<Point>, shapeB: seq<Point>)
    ensures Consistent(Reset(), shapeA, shapeB)
  {
  }

  lemma {:induction false} RunAdditive(s: Animation, shapeA: seq<Point>, shapeB: seq<Point>, m: nat, n: nat)
    ensures Run(s, shapeA, shapeB, m + n) == Run(Run(s, shapeA, shapeB, m), shapeA, shapeB, n)
    decreases m
  {
    if m > 0 {
      RunAdditive(Step(s, shapeA, shapeB), shapeA, shapeB, m - 1, n);
    }
  }

  /** The rest of the A -> B pass, from point k on, ends on the full directed
      distance from A to B. */
  lemma {:induction false} PassAtoB(s: Animation, shapeA: seq<Point>, shapeB: seq<Point>)
    requires s.isRunning && s.direction == AtoB && s.currentPoint <= |shapeA|
    requires s.maxDistanceAtoB == DirectedUpTo(shapeA, shapeB, s.currentPoint)
    ensures Run(s, shapeA, shapeB, |shapeA| - s.currentPoint) ==
      s.(currentPoint := |shapeA|, maxDistanceAtoB := Directed(shapeA, shapeB))
    decreases |shapeA| - s.currentPoint
  {
    if s.currentPoint < |shapeA| {
      PassAtoB(Step(s, shapeA, shapeB), shapeA, shapeB);
    }
  }

  /** The rest of the B -> A pass likewise ends on the directed distance from
      B to A. */
  lemma {:induction false} PassBtoA(s: Animation, shapeA: seq<Point>, shapeB: seq<Point>)
    requires s.isRunning && s.direction == BtoA && s.currentPoint <= |shapeB|
    requires s.maxDistanceBtoA == DirectedUpTo(shapeB, shapeA, s.currentPoint)
    ensures Run(s, shapeA, shapeB, |shapeB| - s.currentPoint) ==
      s.(currentPoint := |shapeB|, maxDistanceBtoA := Directed(shapeB, shapeA))
    decreases |shapeB| - s.currentPoint
  {
    if s.currentPoint < |shapeB| {
      PassBtoA(Step(s, shapeA, shapeB), shapeA, shapeB);
    }
  }

  /** The A -> B pass from its first point, and the switch of direction. */
  lemma FirstPass(shapeA: seq<Point>, shapeB: seq<Point>)
    ensures Run(Reset().(isRunning := true), shapeA, shapeB, |shapeA| + 1) ==
      Animation(true, 0, BtoA, Directed(shapeA, shapeB), Fin(0.0), Fin(0.0))
  {
    var s0 := Reset().(isRunning := true);
    var s1 := s0.(currentPoint := |shapeA|, maxDistanceAtoB := Directed(shapeA, shapeB));
    PassAtoB(s0, shapeA, shapeB);
    RunAdditive(s0, shapeA, shapeB, |shapeA|, 1);
    assert Run(s1, shapeA, shapeB, 1) == Step(s1, shapeA, shapeB);
  }

  /** The B -> A pass from its first point, and the step that stops the run. */
  lemma SecondPass(shapeA: seq<Point>, shapeB: seq<Point>)
    ensures Run(Animation(true, 0, BtoA, Directed(shapeA, shapeB), Fin(0.0), Fin(0.0)), shapeA, shapeB, |shapeB| + 1) ==
      Animation(false, |shapeB|, BtoA, Directed(shapeA, shapeB), Directed(shapeB, shapeA), HausdorffDist(shapeA, shapeB))
  {
    var s2 := Animation(true, 0, BtoA, Directed(shapeA, shapeB), Fin(0.0), Fin(0.0));
    var s3 := s2.(currentPoint := |shapeB|, maxDistanceBtoA := Directed(shapeB, shapeA));
    assert s2.maxDistanceBtoA == DirectedUpTo(shapeB, shapeA, 0);
    PassBtoA(s2, shapeA, shapeB);
    RunAdditive(s2, shapeA, shapeB, |shapeB|, 1);
    assert Run(s3, shapeA, shapeB, 1) == Step(s3, shapeA, shapeB);
  }

  /** Started from a reset, the animation stops after |A| + |B| + 1 further
      ticks with both directed distances and the Hausdorff distance the batch
      computation gives. */
  lemma RunToCompletion(shapeA: seq<Point>, shapeB: seq<Point>)
    ensures Run(Start(Reset(), shapeA, shapeB), shapeA, shapeB, |shapeA| + |shapeB| + 1) ==
      Animation(false, |shapeB|, BtoA, Directed(shapeA, shapeB), Directed(shapeB, shapeA), HausdorffDist(shapeA, shapeB))
  {
    var s0 := Reset().(isRunning := true);
    var n := |shapeA| + |shapeB| + 1;
    assert Run(s0, shapeA, shapeB, n + 1) == Run(Start(Reset(), shapeA, shapeB), shapeA, shapeB, n);
    FirstPass(shapeA, shapeB);
    SecondPass(shapeA, shapeB);
    RunAdditive(s0, shapeA, shapeB, |shapeA| + 1, |shapeB| + 1);
  }

  /** The page's state: the two shapes and animationState. */
  class Demo {
    var shapeA: seq<Point>
    var shapeB: seq<Point>
    var isRunning: bool
    var currentPoint: nat
    var direction: Direction
    var maxDistanceAtoB: Ext
    var maxDistanceBtoA: Ext
    var hausdorffDistance: Ext

    function State(): Animation
      reads this
    {
      Animation(isRunning, currentPoint, direction, maxDistanceAtoB, maxDistanceBtoA, hausdorffDistance)
    }

    /** The animation is consistent, and both shapes have points: the page
        only ever builds shapes of 5 and 7 points. */
    predicate Valid()
      reads this
    {
      |shapeA| > 0 && |shapeB| > 0 && Consistent(State(), shapeA, shapeB)
    }

    /** generateShapes with the two shapes given instead of drawn at random
        (with 5 and 7 points there, so never empty), followed by
        resetAnimation. */
    constructor (a: seq<Point>, b: seq<Point>)
      requires |a| > 0 && |b| > 0
      ensures shapeA == a && shapeB == b
      ensures State() == Reset()
      ensures Valid()
    {
      shapeA, shapeB := a, b;
      isRunning, currentPoint, direction := false, 0, AtoB;
      maxDistanceAtoB, maxDistanceBtoA, hausdorffDistance := Fin(0.0), Fin(0.0), Fin(0.0);
    }

    method ResetAnimation()
      modifies this
      ensures shapeA == old(shapeA) && shapeB == old(shapeB)
      ensures State() == Reset()
      ensures Consistent(State(), shapeA, shapeB)
      ensures old(Valid()) ==> Valid()
    {
      isRunning, currentPoint, direction := false, 0, AtoB;
      maxDistanceAtoB, maxDistanceBtoA, hausdorffDistance := Fin(0.0), Fin(0.0), Fin(0.0);
    }

    method PauseAnimation()
      modifies this
      ensures shapeA == old(shapeA) && shapeB == old(shapeB)
      ensures State() == Pause(old(State()))
      ensures old(Valid()) ==> Valid()
    {
      isRunning := false;
    }

    /** animate without the drawing and the setTimeout that schedules the
        next call. */
    method Animate()
      modifies this
      ensures shapeA == old(shapeA) && shapeB == old(shapeB)
      ensures State() == Step(old(State()), shapeA, shapeB)
      ensures old(Valid()) ==> Valid()
    {
      if old(Valid()) {
        StepConsistent(State(), shapeA, shapeB);
      }
      if !isRunning {
        return;
      }
      var currentShape := if direction == AtoB then shapeA else shapeB;
      var targetShape := if direction == AtoB then shapeB else shapeA;
      if currentPoint < |currentShape| {
        var currentP := currentShape[currentPoint];
        var closestPoint, closestDistance := FindClosestPoint(currentP, targetShape);
        if direction == AtoB {
          maxDistanceAtoB := Max(maxDistanceAtoB, closestDistance);
        } else {
          maxDistanceBtoA := Max(maxDistanceBtoA, closestDistance);
        }
        currentPoint := currentPoint + 1;
      } else if direction == AtoB {
        direction := BtoA;
        currentPoint := 0;
      } else {
        hausdorffDistance := Max(maxDistanceAtoB, maxDistanceBtoA);
        isRunning := false;
      }
    }

    method StartAnimation()
      modifies this
      ensures shapeA == old(shapeA) && shapeB == old(shapeB)
      ensures State() == Start(old(State()), shapeA, shapeB)
      ensures old(Valid()) ==> Valid()
    {
      if !isRunning {
        isRunning := true;
        Animate();
      }
    }
  }
}
