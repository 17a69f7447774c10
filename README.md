# Geometry kernel of the Hausdorff / Minkowski browser demos

The repository is five browser demos. Each wraps a small computational-geometry
kernel in canvas and DOM code. This Dafny project models that kernel:

- **Distance and containment** (`Geometry`, `Polygon`):
  - point-to-segment distance with the projection parameter clamped to [0, 1];
  - point-to-boundary distance of a polygon, as the minimum over its vertices and edges;
  - ray-casting point-in-polygon;
  - the two "inside the dilated shape" tests: interior-or-near in the
    two-shape demo, and near-the-boundary-only in the three-shape demo.
- **Convex hulls** (`Hull`):
  - the Graham scan of the two-shape demo: lowest pivot, angular sort, then a stack
    that pops while the turn is not a left turn;
  - the gift wrapping of the three-shape and Minkowski demos: leftmost start, then a
    do-while bounded by the input length.
- **Minkowski sums** (`Pairwise`, `HausdorffMiddle`, `Minkowski`):
  - in the two-shape demo, the hull of all pairwise sums;
  - in the Minkowski demo, both operands are shifted by the centre of shape A but
    the centre is added back only once, so every candidate is a + b − center.
- **Hausdorff distance** (`Hausdorff`, `DistanceDemo`):
  - the batch max of the two directed max-min distances;
  - the distance demo's step-by-step animation, which visits the points of A, then
    those of B, one timer tick at a time. Run to the end from a reset, it reaches
    exactly the batch result (for the non-empty shapes the page builds).
- **Grid-sampled intersections and the radius search** (`Grid`, `HausdorffMiddle`,
  `ThreeShape`):
  - the intersection of dilated shapes, sampled on a canvas grid of step 4 or 8;
  - the 20-step bisection of `computeOptimalAlpha`. Inside the loop it tests the
    radius mid·50, and the drawing then uses optimalAlpha·100. The model keeps both
    scales as written.
- **The triangular slider** (`TriangularSlider`), over the fixed triangle
  (0.5, 0), (0, 1), (1, 1):
  - cartesian ↔ barycentric conversion;
  - the inside test, projection onto a segment and nearest-edge clamping;
  - the cursor updates of `setValues` and of the pointer handler.

Coordinates are `real`. Distances are squared: `Math.sqrt` is monotone, so every
min, max and `<` carries over, and `d <= r` becomes `Within(d², r)`, meaning d² ≤ r·r
with r ≥ 0. JavaScript's `Infinity` is the `Inf` case of `Geometry.Ext`. Pure
expressions of the source are functions. Its loops are methods, each proved equal
to a prefix-recursive specification function about which the properties are
proved. The mutable slider and `animationState` are classes whose methods are
tied to pure functions of the old state.

## Model

| member | source | states |
|---|---|---|
| Geometry.Dist2 | js/distance.js:38-40 | the squared distance is ≥ 0 and is 0 exactly when the two points coincide |
| Geometry.Dist2Symmetric | js/hausdorff_middle.js:501-503 | the distance is symmetric in its two points |
| Geometry.CrossAntisymmetric | js/minkowski.js:240-242 | crossProduct changes sign when its last two arguments are swapped |
| Geometry.CrossDegenerate | js/hausdorff_middle.js:463-465 | crossProduct is 0 when any two of its three points coincide |
| Geometry.Min | js/hausdorff_middle.js:398-402 | Math.min over distances or Infinity is ≤ both arguments and is one of them |
| Geometry.Max | js/hausdorff_middle.js:486-498 | Math.max is ≥ both arguments and is one of them |
| Geometry.MaxCommutative | js/hausdorff_middle.js:498 | Math.max of the two directed distances does not depend on their order |
| Geometry.Clamp01 | js/hausdorff_middle.js:420 | Math.max(0, Math.min(1, t)) lies in [0, 1], keeps t inside it, and gives 0 below and 1 above |
| Geometry.SegmentParam | js/hausdorff_middle.js:414-420 | for a segment of non-zero length, the clamped projection parameter lies in [0, 1] |
| Geometry.PointToSegmentNearest | js/hausdorff_middle.js:408-428 | pointToSegmentDistance is the distance to a point of the segment (the segment start when it has zero length) and is ≤ the distance to every point of the segment |
| Geometry.PointToSegmentAtMostEndpoints | js/hausdorff_middle.js:408-428 | pointToSegmentDistance never exceeds the distance to either endpoint |
| Geometry.QuadMinimum | js/hausdorff_middle.js:414-427 | along the segment line, the clamped parameter dot/lenSq minimises the squared distance over [0, 1] |
| Geometry.Centroid | js/hausdorff_middle.js:467-474 | calculateCentroid of a non-empty sequence is the component-wise mean |
| Polygon.DistanceToShape | js/hausdorff_middle.js:389-406 | the loop's running minimum over vertices and edges is DistToShape; Infinity only for an empty shape |
| Polygon.DistToShapeInfIffEmpty | js/hausdorff_middle.js:390 | distanceToShape is Infinity exactly when the shape has no points |
| Polygon.DistToShapeIsMinimum | js/hausdorff_middle.js:389-406 | distanceToShape is ≤ the distance to every vertex and every edge, and equals one of those values for a non-empty shape |
| Polygon.EdgeDistIsNearest | js/hausdorff_middle.js:394-402 | the distance to edge i (closing edge included) is that to the nearest point of the edge |
| Polygon.DistToShapeIsBoundaryDistance | js/hausdorff_middle.js:389-428 | distanceToShape is the distance to the nearest point of the closed boundary |
| Polygon.DistToShapeAtVertex | js/hausdorff_middle.js:397-398 | a point equal to a vertex is at distance 0 |
| Polygon.IsPointInPolygon | js/hausdorff_middle.js:372-386 | the toggled flag is the parity of the number of edges whose strict crossing test holds, both as the loop's count and as the size of the set of crossing edges; an empty polygon gives false |
| Polygon.HorizontalEdgeNeverCrosses | js/hausdorff_middle.js:380-381 | an edge with yi == yj never toggles, so the quotient is never taken with a zero divisor |
| Polygon.CrossingCountIsEdgeCount | js/hausdorff_middle.js:376-384 | the loop's crossing count is the number of edge indices whose crossing test holds, independent of visiting order |
| Polygon.CrossingBetween | js/hausdorff_middle.js:380-381 | when the edge straddles the ray's y, the crossing abscissa lies within the edge's x-range |
| Polygon.OutsideBeyondVertices | js/hausdorff_middle.js:372-386 | a point right of or above every vertex is outside |
| Polygon.SquareExample | js/hausdorff_middle.js:372-386 | the centre of a square is inside and a point left of it is outside |
| Polygon.IsPointInDilatedShape | js/hausdorff_middle.js:363-371 | the test is "inside the polygon, or within radius of its boundary" |
| Polygon.InDilatedShapeMeaning | js/hausdorff_middle.js:363-371 | every point within radius of some boundary point passes; a passing point outside the polygon is within radius of the boundary |
| Polygon.InDilatedShapeMonotone | js/hausdorff_middle.js:363-371 | the test is monotone in the radius |
| Polygon.VertexInDilatedShape | js/hausdorff_middle.js:363-371 | every vertex passes for any radius ≥ 0 |
| Hull.LowestIsLowest | js/hausdorff_middle.js:434-437 | the reduce finds an input point of minimal y, ties broken by minimal x |
| Hull.AngleCompareAntisymmetric | js/hausdorff_middle.js:440-448 | the sort comparator is antisymmetric |
| Hull.PivotComparesFirst | js/hausdorff_middle.js:440-448 | the pivot compares before every other point |
| Hull.SortByAnglePermutation | js/hausdorff_middle.js:440 | the sorted copy is a permutation of the input |
| Hull.SortByAngleSorted | js/hausdorff_middle.js:440-448 | adjacent sorted points are in comparator order |
| Hull.SortByAnglePivotFirst | js/hausdorff_middle.js:440-448 | the pivot comes first in the sorted copy |
| Hull.PopKeepsLeftTurns | js/hausdorff_middle.js:453-456 | popping keeps every three consecutive stack entries turning left |
| Hull.PushKeepsLeftTurns | js/hausdorff_middle.js:453-457 | pushing after the pop loop keeps every three consecutive stack entries turning left |
| Hull.CalculateBoundary | js/hausdorff_middle.js:430-461 | Graham scan: fewer than 3 points give a copy; otherwise a non-empty stack, no longer than the input, that starts at the lowest point, turns left at every triple and holds only input points |
| Hull.LeftmostOfIsFirstMinimal | js/hausdorff_middle_three_shape.js:476-480 | the start is the first index of minimal x |
| Hull.NextIndexMoves | js/hausdorff_middle_three_shape.js:485-491 | with at least two points the next index differs from the current one |
| Hull.WrapFacts | js/hausdorff_middle_three_shape.js:484-493 | each do-while round pushes the current point and the loop stops by the input length, adding only input points |
| Hull.GiftWrapHullFacts | js/hausdorff_middle_three_shape.js:474-502 | gift wrapping returns the input itself below 3 points; otherwise a non-empty hull no longer than the input, starting at the first leftmost point, holding only input points |
| Hull.GiftWrap | js/minkowski.js:218-238 | the do-while with its scan for the next index computes GiftWrapHull (the same code as the three-shape demo) |
| Pairwise.PairsLength | js/hausdorff_middle.js:317-324 | the nested loops push exactly \|A\|·\|B\| points |
| Pairwise.PairsAt | js/hausdorff_middle.js:317-324 | the point for (A[i], B[j]) is at index i·\|B\| + j |
| Pairwise.PairsMembership | js/hausdorff_middle.js:317-324 | a point is pushed exactly when it is f(a, b) for some a of A and b of B |
| HausdorffMiddle.ComputeMinkowskiSum | js/hausdorff_middle.js:314-327 | exactly \|A\|·\|B\| candidates a + b; their Graham boundary (the candidates themselves below 3), no longer than \|A\|·\|B\|, of sums a + b only |
| HausdorffMiddle.IsPointInBoth | js/hausdorff_middle.js:338-341 | the grid test is membership in both dilations |
| HausdorffMiddle.SampleInBoth | js/hausdorff_middle.js:334-345 | every collected grid point is in both dilated shapes |
| HausdorffMiddle.SampleIntersection | js/hausdorff_middle.js:331-345 | the grid loop collects exactly the kept grid points of step 4, in column order |
| HausdorffMiddle.DrawIntersection | js/hausdorff_middle.js:329-361 | the collected points are the sample and lie in both dilations; the boundary holds only sample points; a centroid exists exactly when points were collected |
| HausdorffMiddle.RenderWithMiddle | js/hausdorff_middle.js:226-255 | the radii are alpha·60 and (1 − alpha)·60, and the intersection drawn is the sample for those radii |
| Hausdorff.CalculateHausdorffDistance | js/hausdorff_middle.js:476-499 | the nested loops compute the max of the two directed max-min distances (identical code at js/hausdorff_middle_three_shape.js:517-540) |
| Hausdorff.MinDistIsMinimum | js/hausdorff_middle.js:482-485 | the inner minimum is ≤ the distance to every point and is one of them; Infinity only for an empty set |
| Hausdorff.DirectedIsMaximum | js/hausdorff_middle.js:481-487 | the directed distance is ≥ 0, ≥ every point's minimum, and is 0 or one of them |
| Hausdorff.HausdorffNonnegative | js/hausdorff_middle.js:476-499 | the Hausdorff distance is ≥ 0 and ≥ both directed distances |
| Hausdorff.HausdorffSymmetric | js/hausdorff_middle.js:476-499 | swapping the shapes does not change the result |
| Hausdorff.HausdorffSelf | js/hausdorff_middle_three_shape.js:517-540 | a shape is at distance 0 from itself |
| Hausdorff.HausdorffInfinite | js/hausdorff_middle.js:476-499 | the result is Infinity exactly when one shape is empty and the other is not; 0 when both are empty |
| Hausdorff.HausdorffBound | js/hausdorff_middle.js:476-499 | for non-empty shapes, the distance is ≤ h exactly when every point of each shape has a point of the other within h |
| Hausdorff.DirectedBoundFails | js/hausdorff_middle.js:481-487 | a directed distance above h has a witness point farther than h from all of the other shape |
| Grid.SampleMembership | js/hausdorff_middle_three_shape.js:313-325 | a point is sampled exactly when its coordinates are multiples of the step inside the canvas and it passes the test |
| Grid.SampleMonotone | js/hausdorff_middle_three_shape.js:291-303 | a weaker test samples a superset, so a non-empty sample stays non-empty |
| ThreeShape.IsPointInDilatedShape3 | js/hausdorff_middle_three_shape.js:429-431 | the three-shape test is the boundary distance within radius, with no interior test |
| ThreeShape.InDilatedShape3Monotone | js/hausdorff_middle_three_shape.js:429-431 | the test is monotone in the radius |
| ThreeShape.InDilatedShape3Meaning | js/hausdorff_middle_three_shape.js:429-450 | a point passes exactly when some boundary point is within radius |
| ThreeShape.InDilatedShape3Stronger | js/hausdorff_middle_three_shape.js:429-431 | passing the three-shape test implies passing the two-shape test |
| ThreeShape.InteriorIsNotInBand | js/hausdorff_middle_three_shape.js:429-431 | a deep interior point passes the two-shape test but not the three-shape one |
| ThreeShape.IsPointInAll | js/hausdorff_middle_three_shape.js:295-299 | the grid test is membership in all three dilations |
| ThreeShape.InAllMonotone | js/hausdorff_middle_three_shape.js:295-299 | the three-way test is monotone in the radius |
| ThreeShape.ScanForIntersection | js/hausdorff_middle_three_shape.js:288-305 | the scan with early exit reports a hit exactly when the step-8 sample is non-empty |
| ThreeShape.HasNonEmptyIntersection | js/hausdorff_middle_three_shape.js:286-306 | hasNonEmptyIntersection is IntersectionNonEmpty |
| ThreeShape.IntersectionNonEmptyMeaning | js/hausdorff_middle_three_shape.js:286-306 | true exactly when some grid point with coordinates multiples of 8 in [0, width) × [0, height) is in all three dilations |
| ThreeShape.IntersectionNonEmptyMonotone | js/hausdorff_middle_three_shape.js:286-306 | a hit for a radius stays a hit for every larger radius |
| ThreeShape.MaxPairwiseHausdorff | js/hausdorff_middle_three_shape.js:254-263 | the double loop computes MaxPairwise |
| ThreeShape.PairwiseLoop | js/hausdorff_middle_three_shape.js:255-263 | over any table agreeing with the pairwise Hausdorff distances, the loops end with the running maximum of all rows, starting from 0 |
| ThreeShape.MaxPairwiseIsMaximum | js/hausdorff_middle_three_shape.js:254-263 | the maximum is ≥ 0, ≥ the Hausdorff distance of every pair i < j, and is 0 or one of them |
| ThreeShape.ComputeOptimalAlpha | js/hausdorff_middle_three_shape.js:249-284 | the result is ≥ 0.2 and is RealMax of the 20-step bisection from (0.1, min(0.6068, d/2)) and 0.2 |
| ThreeShape.BisectHalves | js/hausdorff_middle_three_shape.js:271-281 | each of k iterations halves high − low: after k it is the initial width over 2^k |
| ThreeShape.BisectNarrows | js/hausdorff_middle_three_shape.js:267-281 | from low ≤ high, every iteration keeps low ≤ high |
| ThreeShape.BisectWitnesses | js/hausdorff_middle_three_shape.js:269-281 | the optimum is the initial high or a mid whose test at radius mid·50 succeeded |
| ThreeShape.OptimalAlphaWitness | js/hausdorff_middle_three_shape.js:267-283 | before the clamp, the value is the initial high or a successful mid |
| ThreeShape.SampleThree | js/hausdorff_middle_three_shape.js:310-325 | the grid loop collects exactly the kept grid points of step 4 |
| ThreeShape.SampleInAll | js/hausdorff_middle_three_shape.js:313-325 | every collected point is in all three dilations |
| ThreeShape.DrawThreeShapeIntersection | js/hausdorff_middle_three_shape.js:308-344 | the collected points lie in all three dilations; the boundary exists exactly when more than 10 were collected, the centroid exactly when that boundary has more than 2 points |
| ThreeShape.RenderWithMiddle3 | js/hausdorff_middle_three_shape.js:218-247 | the drawing radius is optimalAlpha·100 ≥ 20, and the intersection drawn is the sample for that radius |
| Minkowski.Relative | js/minkowski.js:187-188 | the map keeps the length |
| Minkowski.RelativeAt | js/minkowski.js:187-188 | the k-th relative point is the k-th point minus the centre |
| Minkowski.CandidatesAreShiftedSums | js/minkowski.js:185-196 | the candidates are the pairwise sums a + b in the same order, each translated by −center |
| Minkowski.CandidatesAt | js/minkowski.js:190-196 | there are \|A\|·\|B\| candidates; the one for (A[i], B[j]) is at index i·\|B\| + j and equals A[i] + B[j] − center |
| Minkowski.CandidatesMembership | js/minkowski.js:185-196 | a point is a candidate exactly when it is a + b − center for some a of A and b of B |
| Minkowski.BoundaryOfCandidates | js/minkowski.js:218-238 | the wrapped boundary has at most \|A\|·\|B\| points, each of the form a + b − center |
| Minkowski.ComputeMinkowskiSum | js/minkowski.js:183-199 | exactly \|A\|·\|B\| candidates; the result is their gift-wrapping boundary (the candidates themselves below 3), of length at most \|A\|·\|B\|, of points a + b − center only |
| Minkowski.RenderWithSum | js/minkowski.js:169-181 | the centroid is taken exactly when the boundary has more than 2 points, so the mean never divides by zero, and is the component-wise mean |
| TriangularSlider.Raw | js/triangular_slider.js:196-199 | with the fixed vertices, the raw coordinates are (1 − y, 0.5 − x + y/2, x + y/2 − 0.5) |
| TriangularSlider.RawSumsToOne | js/triangular_slider.js:199-202 | the raw coordinates sum to 1, so the division by sum changes nothing |
| TriangularSlider.Divided | js/triangular_slider.js:202-206 | dividing by a sum of 1 leaves the triple unchanged |
| TriangularSlider.Clamped | js/triangular_slider.js:204-206 | Math.max(0, ·) makes every component ≥ 0 and keeps a non-negative triple |
| TriangularSlider.CartesianToBarycentric | js/triangular_slider.js:189-208 | the result is the clamp of the raw coordinates |
| TriangularSlider.InsideWeights | js/triangular_slider.js:189-208 | inside the triangle the weights are the raw coordinates and sum to 1 |
| TriangularSlider.OutsideWeightsExceedOne | js/triangular_slider.js:202-206 | outside, the clamp comes after the division, so at (0, 0) the weights (1, 0.5, 0) sum to more than 1 |
| TriangularSlider.BarycentricRoundTrip | js/triangular_slider.js:239-249 | a non-negative triple summing to 1 maps to an inside point whose weights are that triple |
| TriangularSlider.CartesianRoundTrip | js/triangular_slider.js:189-249 | an inside point's weights are a weighting that maps back to the point |
| TriangularSlider.InsideIsConvexCombination | js/triangular_slider.js:112-121 | a point is inside exactly when it is a·v0 + b·v1 + c·v2 for some non-negative weights summing to 1 |
| TriangularSlider.VertexAInside | js/triangular_slider.js:112-121 | vertex (0.5, 0) is inside with weights (1, 0, 0) |
| TriangularSlider.VertexBInside | js/triangular_slider.js:112-121 | vertex (0, 1) is inside with weights (0, 1, 0) |
| TriangularSlider.VertexCInside | js/triangular_slider.js:112-121 | vertex (1, 1) is inside with weights (0, 0, 1) |
| TriangularSlider.ProjectionIsNearest | js/triangular_slider.js:145-157 | a degenerate segment gives p1; otherwise the result is a point of the segment nearest to p |
| TriangularSlider.BestEdgeIsFirstNearest | js/triangular_slider.js:132-140 | the chosen projection is nearest, and the strict < keeps the earliest edge on ties |
| TriangularSlider.ProjectToTriangle | js/triangular_slider.js:123-143 | the forEach loop returns the projection on BestEdge |
| TriangularSlider.ProjectToTriangleIsNearest | js/triangular_slider.js:123-143 | the result is no farther from p than any point of any edge |
| TriangularSlider.EdgeInside | js/triangular_slider.js:123-127 | every point of every edge passes the inside test |
| TriangularSlider.ConstrainedFacts | js/triangular_slider.js:95-110 | the result is inside, inside points are unchanged, and constraining is idempotent |
| TriangularSlider.ConstrainToTriangle | js/triangular_slider.js:95-110 | constrainToTriangle computes Constrained |
| TriangularSlider.Normalize | js/triangular_slider.js:212-218 | with a non-zero sum, the normalised triple sums to 1 |
| TriangularSlider.SetThenGet | js/triangular_slider.js:211-259 | after setValues with non-negative values of positive sum, getValues returns the normalised triple |
| TriangularSlider.InitialCursorIsCentroid | js/triangular_slider.js:14-15 | the initial cursor (0.5, 2/3) is inside with weights (1/3, 1/3, 1/3) |
| TriangularSlider.Slider.constructor | js/triangular_slider.js:2-18 | the cursor starts at (0.5, 2/3) |
| TriangularSlider.Slider.UpdateCursor | js/triangular_slider.js:81-93 | the cursor becomes the constrained point, which is inside the triangle |
| TriangularSlider.Slider.SetValues | js/triangular_slider.js:211-237 | the values are normalised when asked (then they sum to 1), and the cursor becomes their cartesian point |
| TriangularSlider.Slider.GetValues | js/triangular_slider.js:252-259 | the values are the clamped weights of the cursor, all ≥ 0 |
| DistanceDemo.ClosestUpToIsFirstNearest | js/distance.js:43-56 | after k points the chosen index is nearest among them, every earlier index is strictly farther, and its distance is the running minimum |
| DistanceDemo.FindClosestPoint | js/distance.js:43-56 | the loop returns Closest and the minimum distance |
| DistanceDemo.FindClosestPointFacts | js/distance.js:43-56 | an empty set gives null and Infinity; otherwise the point is the first nearest point of the set and the distance is its distance |
| DistanceDemo.ConsistentPreserved | js/distance.js:170-227 | animate, startAnimation and pauseAnimation keep the state consistent; the step that stops a run sets the Hausdorff distance; neither running maximum ever decreases |
| DistanceDemo.ResetConsistent | js/distance.js:181-190 | the reset state is consistent |
| DistanceDemo.PassAtoB | js/distance.js:201-214 | from point k, the remaining ticks of the A → B pass end with currentPoint \|A\| and the directed distance from A to B |
| DistanceDemo.PassBtoA | js/distance.js:201-214 | the B → A pass likewise ends with the directed distance from B to A |
| DistanceDemo.FirstPass | js/distance.js:201-221 | \|A\| + 1 ticks from the start complete A → B and switch to B → A with currentPoint 0 |
| DistanceDemo.SecondPass | js/distance.js:201-226 | \|B\| + 1 more ticks complete B → A and stop with the Hausdorff distance |
| DistanceDemo.RunToCompletion | js/distance.js:170-227 | started from a reset, the animation stops after \|A\| + \|B\| + 1 further ticks with the batch directed distances and Hausdorff distance |
| DistanceDemo.Demo.constructor | js/distance.js:18-22 | the shapes are the given ones, both non-empty as generateShapes makes them, and the state is the consistent reset state |
| DistanceDemo.Demo.ResetAnimation | js/distance.js:181-193 | the state becomes the reset state, which is consistent whatever the state before; the shapes are unchanged |
| DistanceDemo.Demo.PauseAnimation | js/distance.js:177-179 | only isRunning changes, to false |
| DistanceDemo.Demo.Animate | js/distance.js:195-227 | the new state is Step of the old one, and consistency is kept |
| DistanceDemo.Demo.StartAnimation | js/distance.js:170-175 | when stopped, the run starts and one step is taken at once; consistency is kept |

## Left out

- Canvas drawing and DOM work are not modelled. This covers drawShape, drawDilatedShape,
  drawLabel, render*, drawAnimationState, updateInfo, updatePosition, the text and
  CustomEvent part of updateValues and setValues, the event wiring and the alerts.
  These are display only.
- setTimeout in animate and requestAnimationFrame are not modelled. One call of animate
  is one `DistanceDemo.Step`. The timer chains that can overlap after a quick
  pause/start are concurrency, which the model does not have.
- generateRandomShape uses Math.random, so the demo's shapes are parameters of
  `DistanceDemo.Demo.constructor`.
- DistanceDemo.Step, DistanceDemo.Run and DistanceDemo.RunToCompletion are stated for any
  shapes, but an empty shape never arises on the page: generateShapes builds 5 and 7
  points, and `DistanceDemo.Demo.constructor` requires both shapes non-empty. With
  one shape empty, the page's drawing code would throw on the missing closest point
  before currentPoint advances; the model instead carries on with Infinity.
- createShape and createCirclePoints use cos/sin, so shapes are given as point sequences.
- The normal-offset dilation drawn by drawDilatedShape is left out. It uses sqrt and
  normalize, and its output is only drawn.
- IEEE-754 rounding is not modelled: coordinates are exact reals, and the NaN that a
  zero divisor gives in the source does not occur.
- Math.sqrt is replaced by squared distances.
  - ThreeShape.ComputeOptimalAlpha: the only place that needs a real distance. It
    halves the largest pairwise Hausdorff distance, so that distance is a parameter,
    and a precondition ties its square to `MaxPairwise`.
- Hull.CalculateBoundary and Hull.GiftWrap: convexity of the output and the
  consistency of the sort comparator are not proved; the contracts state the
  properties listed in the table.
- Hull.CalculateBoundary: JavaScript's Array.prototype.sort is modelled by an
  insertion sort with the same comparator, and the `slice()` copies are values.
- Geometry.Centroid requires a non-empty sequence. The source would divide by zero,
  and every caller guards the call.
- TriangularSlider.Slider.SetValues requires a non-zero sum when normalize is set. The
  source would produce NaN coordinates there.
- TriangularSlider.IsInsideTriangle takes no vertices parameter. Every caller passes
  the slider's fixed triangle, which is written into the formula.
- TriangularSlider.Slider.UpdateCursor takes the normalised pointer position. The
  rectangle arithmetic of updateCursorFromEvent (getBoundingClientRect) is browser
  geometry.
- HausdorffMiddle.RenderWithMiddle does not model the hausdorffDist that the source
  computes and never uses.
- The `distances` field of animationState is left out: it is only ever set to `[]`.
- HausdorffMiddle.SampleIntersection, ThreeShape.ScanForIntersection and
  ThreeShape.SampleThree take a ghost copy of the per-point test. That copy names the
  test the loop applies, and the grid loop is the source's.
- Minkowski.Relative: the `map` over the points is a function, not a loop.
