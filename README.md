# react-lit-charts utilities in Dafny

This project models the numeric and spatial helpers that the chart
components of react-lit-charts rely on (`src/utils.js`):

- `linearScale` and its `inverse`: the affine map between two intervals;
- `increment` and `getTicks`: "nice" axis ticks, a step of 1, 2, 5 or 10
  times a power of ten and every multiple of it between the two ends;
- the quadtree behind hover detection: the `Node` class and its `add`,
  `buildTree`, and the `Quadtree` class with `update` and `find`;
- the default accessors `defaultX` and `defaultY`.

Numbers are exact reals. A value that is non-finite in the source (an
infinity or NaN) is `None` (`Option`) for scales and steps. A projected
coordinate is `Coord`, either `NaN` or a number. The search radius and the
best distance so far are `Extended`, a real or `Infinity`.

The modules follow the source:

- `LinearScale`: `linearScale` and `inverse`.
- `Ticks`: `increment` as a pure function, and `getTicks` as a method.
  `getTicks` runs its `push` loops and is proved equal to the function
  `Ticks`. `Ticks` is shown to hold every multiple of the tick spacing in
  the interval, evenly spaced, in the direction of the interval.
- `QuadNode`: the quadtree node. Its box and midpoints are a `Box`. A node
  is `Empty`, a `Leaf` with one point, or `Internal` with four children.
  `add` is the function `Add`. Its invariant `Valid` says every point lies
  in its node's box and in the quadrant the source would route it to.
- `SpatialIndex`: the projection of the data through accessors and scales,
  and the bounds loop and insertion loop of `buildTree` (methods
  `BoundingBox` and `InsertPoints`, called by `BuildTree`). It also holds the stack search of `find`
  (method `Nearest`) and the class `Quadtree`. `Nearest` is proved to
  return the closest datum within the radius (`IsNearest`).
- `QuadtreeExamples`: the quadtree scenario of `tests/utils.test.js`,
  proved through the class's own methods.

## Model

| member | source | states |
|---|---|---|
| SpatialIndex.DefaultX | src/utils.js:6-8 | `defaultX` always yields a number, the datum's `x` field, whatever the index |
| SpatialIndex.DefaultY | src/utils.js:17-19 | `defaultY` always yields a number, the datum's `y` field, whatever the index |
| SpatialIndex.DefaultAccessors | src/utils.js:6-19 | `defaultX` reads the `x` field and `defaultY` the `y` field (the example of tests/utils.test.js:14-18) |
| LinearScale.Apply | src/utils.js:100-106 | the result exists exactly when the domain has non-zero length; it lies on the line through (domain[0], range[0]) and (domain[1], range[1]) |
| LinearScale.Inverse | src/utils.js:108 | the inverse is the scale with domain and range swapped |
| LinearScale.Endpoints | src/utils.js:100-106 | domain[0] goes to range[0] and domain[1] to range[1] |
| LinearScale.InverseRoundTrip | src/utils.js:100-108 | when neither interval is degenerate, the inverse undoes the scale |
| LinearScale.ConstantOntoPoint | src/utils.js:100-108 | a zero-length range sends every number to range[0], and then the inverse is not finite |
| LinearScale.ScaleExamples | tests/utils.test.js:43-54 | `linearScale([10, 20], [50, 100])` maps 15 to 75 and 5 to 25; its inverse maps 75 to 15 and 25 to 5 |
| Ticks.Power | src/utils.js:74 | `power` is the one integer with 10^power <= raw step < 10^(power+1); it is >= 0 exactly when the raw step is >= 1 |
| Ticks.PowerUnique | src/utils.js:74 | any integer bracketing the raw step that way equals `power` |
| Ticks.RawStep | src/utils.js:73 | for a count > 0 the raw step times the count is stop - start, so it is positive exactly when start < stop |
| Ticks.Encoded | src/utils.js:85-88 | the encoded step is never zero, and it is positive exactly when power >= 0 (a negative step encodes a sub-unit spacing) |
| Ticks.Step | src/utils.js:73-88 | the step of a positive raw step is never zero, and it is positive exactly when the raw step is >= 1 |
| Ticks.Multiplier | src/utils.js:76-83 | the multiplier is 1, 2, 5 or 10 |
| Ticks.Increment | src/utils.js:72-89 | the step is finite exactly when start < stop and count > 0, and then it is non-zero |
| Ticks.NiceSpacing | src/utils.js:72-89 | the spacing a step encodes is multiplier * 10^power, between 0.6 and 1.6 times the raw step |
| Ticks.SpacingOfStep | src/utils.js:85-88 | both step encodings, `m * 10^p` and `-10^(-p) / m`, denote spacing m * 10^p |
| Ticks.IncrementExamples | tests/utils.test.js:34-36 | `increment(1, 10, 5)` is 2, `increment(1, 10, 2)` is 5, `increment(1, 100, 5)` is 20 |
| Ticks.Reversed | src/utils.js:59 | the result has the same length and holds the elements in reverse order |
| Ticks.Ticks | src/utils.js:31-43 | `count` defaults to 5; a count <= 0 gives no ticks (even when start equals stop); equal ends with a count > 0 give the single tick [start] |
| Ticks.GetTicks | src/utils.js:31-62 | `count` defaults to 5; the method's ticks equal `Ticks(start, stop, count)` |
| Ticks.PushMultiples | src/utils.js:45-50 | the loop for a positive step pushes exactly the ascending multiples of the step in [start, stop] |
| Ticks.PushFractions | src/utils.js:51-56 | the loop for a negative step pushes exactly the ascending fractions k / abs(step) in [start, stop] |
| Ticks.NegativeLoop | src/utils.js:52-55 | the source's `(start - i) / step` ticks, from `floor(start * step)` down, are the ascending fractions |
| Ticks.MultipleWithin | src/utils.js:46-47 | k * step lies in [lo, hi] exactly when ceil(lo / step) <= k <= floor(hi / step) |
| Ticks.FractionWithin | src/utils.js:52-53 | k / d lies in [lo, hi] exactly when ceil(lo * d) <= k <= floor(hi * d) |
| Ticks.MultiplesExact | src/utils.js:45-50 | the multiples lie on the grid in [lo, hi], include every grid point there, and are spaced by the step |
| Ticks.FractionsExact | src/utils.js:51-56 | the same three facts for the fractions, with spacing 1 / d |
| Ticks.AscendingExact | src/utils.js:45-57 | for either sign of step, the ticks are exactly the grid points of the spacing in [lo, hi], ascending |
| Ticks.TicksDownward | src/utils.js:34-38 | a downward interval gives the upward ticks reversed |
| Ticks.TicksUpExact | src/utils.js:31-62 | for start < stop and count > 0, the ticks are every multiple of the spacing in [start, stop], ascending and evenly spaced |
| Ticks.TicksDownExact | src/utils.js:31-62 | for stop < start and count > 0, the ticks are every multiple of the spacing in [stop, start], descending and evenly spaced |
| Ticks.ReversedMembers | src/utils.js:59 | reversing keeps the same elements |
| Ticks.TicksExample | tests/utils.test.js:26 | `getTicks(0, 1000)`, with the default count of 5, is [0, 200, 400, 600, 800, 1000] |
| QuadNode.SubBox | src/utils.js:143-148 | a child of a well formed box is well formed and lies inside it; each child is half as wide and half as tall |
| QuadNode.QuadrantOf | src/utils.js:154-161 | a point of the box lies in the child it is routed to |
| QuadNode.Partition | src/utils.js:143-161 | a point in a box lies in the quadrant `add` routes it to, a point of any quadrant lies in the box, and the four quadrants are well formed |
| QuadNode.SubBoxHalves | src/utils.js:143-148 | each quadrant is half as wide as its box |
| QuadNode.Subdivide | src/utils.js:143-148 | subdivision creates four empty children and holds no points |
| QuadNode.ValidContains | src/utils.js:129-164 | every stored point lies in its node's box |
| QuadNode.ValidDistinct | src/utils.js:140 | no two stored points share a spot |
| QuadNode.Seeded | src/utils.js:142-151 | subdividing a leaf and re-adding its point gives a valid node holding just that point |
| QuadNode.SeededIsReinsertion | src/utils.js:150-151 | that node is `add` of the old leaf's point to the fresh subdivision |
| QuadNode.Add | src/utils.js:129-164 | `add` keeps the tree valid and its box; a point at an occupied spot changes nothing, any other point is added to the stored points |
| QuadNode.AddBelow | src/utils.js:154-163 | adding below an internal node: the same promise, through the child the point is routed to |
| QuadNode.RoutedSpot | src/utils.js:154-163 | a spot is occupied below an internal node exactly when it is occupied in the routed child |
| QuadNode.Replace | src/utils.js:163 | replacing one child changes that child and leaves the box and the other three as they were |
| QuadNode.ReplaceChild | src/utils.js:163 | replacing the routed child by its grown version keeps the node valid and adds the point |
| SpatialIndex.Project | src/utils.js:170-174 | one projected point per datum, in order, carrying the datum and its accessor values passed through the scales |
| SpatialIndex.Lower | src/utils.js:176-188 | `x0`/`y0` is Infinity when no coordinate is a number, else the least number among them |
| SpatialIndex.Upper | src/utils.js:176-188 | `x1`/`y1` is -Infinity when no coordinate is a number, else the greatest number among them |
| SpatialIndex.BoundsStep | src/utils.js:184-187 | one loop iteration updates the bounds by one comparison each |
| SpatialIndex.RootBox | src/utils.js:190 | the root box is well formed and contains every point that is inserted |
| SpatialIndex.BoundingBox | src/utils.js:176-190 | the bounds loop computes the root box |
| SpatialIndex.InsertAll | src/utils.js:192-197 | inserting the non-NaN points in order gives a valid tree over the root box |
| SpatialIndex.InsertStep | src/utils.js:192-197 | one more iteration of the insertion loop adds the point unless a coordinate is NaN |
| SpatialIndex.InsertAllPoints | src/utils.js:192-197 | the tree stores exactly the first non-NaN point at each spot, and every non-NaN point's spot is occupied |
| SpatialIndex.AllStored | src/utils.js:192-197 | with no NaN and no coincident points, every point is stored |
| SpatialIndex.InsertPoints | src/utils.js:192-197 | the insertion loop returns `InsertAll` of the projected points over the root box |
| SpatialIndex.BuildTree | src/utils.js:169-200 | the method returns `Built(data, ...)`, the valid tree of the points above |
| SpatialIndex.PxMonotone | src/utils.js:237-238 | on a plot of size >= 0, pixels grow with the percentage |
| SpatialIndex.PxNegate | src/utils.js:237-238 | a plot of negative size mirrors the pixels |
| SpatialIndex.DistSqAtPointer | src/utils.js:257-260 | the squared distance is never negative, and it is zero exactly when the point is at the pointer |
| SpatialIndex.OutOfBounds | src/utils.js:248-252 | an infinite radius never prunes; when a radius r >= 0 prunes a box, every spot of the box is farther than r from the pointer |
| SpatialIndex.BoxBeyond | src/utils.js:248-252 | a box that misses the pointer by more than r >= 0 on one axis has all its spots beyond r |
| SpatialIndex.IsNearest | src/utils.js:240-276 | with an infinite radius and some stored point, an answer exists; for a radius >= 0 and no stored points, the answer is none |
| SpatialIndex.PruneSound | src/utils.js:248-254 | for a radius >= 0, every point below an out-of-bounds node is farther than the radius |
| SpatialIndex.PrunedSkippable | src/utils.js:248-254 | skipping an out-of-bounds node loses no point within the radius |
| SpatialIndex.PushChildren | src/utils.js:267-272 | pushing the four children replaces a node by its subtrees in the pending work |
| SpatialIndex.CoveredPop | src/utils.js:240-254 | popping a node whose points are all settled keeps every point accounted for |
| SpatialIndex.CoveredLower | src/utils.js:262-265 | lowering the best distance keeps every point accounted for |
| SpatialIndex.SearchDone | src/utils.js:276 | once the stack is empty, the best point is a closest one, and it is returned exactly when it is within the radius |
| SpatialIndex.Nearest | src/utils.js:231-276 | the stack search returns a datum within the radius; for a radius >= 0 it is a closest one, and nothing is returned exactly when no point is within the radius |
| SpatialIndex.NearestDetermined | src/utils.js:256-276 | for a radius >= 0, a point within the radius that is strictly closest determines the answer |
| SpatialIndex.Quadtree.constructor | src/utils.js:205-211 | the data are kept, the accessors and scales are unset, and no tree is cached |
| SpatialIndex.Quadtree.Update | src/utils.js:213-219 | the accessors and scales are installed and the cached tree is dropped |
| SpatialIndex.Quadtree.Find | src/utils.js:221-277 | the tree is built when none is cached and is the one the settings determine; the answer is the nearest datum of that tree |
| QuadtreeExamples.IdentityScale | tests/utils.test.js:70-71 | `linearScale([0, 100], [0, 100])` maps every number to itself |
| QuadtreeExamples.ProjectDatum | tests/utils.test.js:68-71 | the default accessors and identity scales project a datum onto its own coordinates |
| QuadtreeExamples.TestPoints | tests/utils.test.js:59-71 | the tree built for the five test data stores all five points |
| QuadtreeExamples.TopLeftQuery | tests/utils.test.js:90 | from (0, 0), (20, 25) is strictly the closest test point |
| QuadtreeExamples.BottomRightQuery | tests/utils.test.js:91 | from (100, 100), (100, 100) is strictly the closest test point |
| QuadtreeExamples.CentreQuery | tests/utils.test.js:92 | from (50, 50), (60, 50) is strictly the closest test point |
| QuadtreeExamples.Answer | src/utils.js:221-277 | with an infinite radius, `find` returns the strictly closest test datum |
| QuadtreeExamples.TopLeftAnswer | tests/utils.test.js:90 | whatever answer meets `find`'s promise from (0, 0) on the test points is (20, 25) |
| QuadtreeExamples.BottomRightAnswer | tests/utils.test.js:91 | whatever answer meets `find`'s promise from (100, 100) on the test points is (100, 100) |
| QuadtreeExamples.CentreAnswer | tests/utils.test.js:92 | whatever answer meets `find`'s promise from (50, 50) on the test points is (60, 50) |
| QuadtreeExamples.FindScenario | tests/utils.test.js:86-92 | after `new Quadtree(data)` and `update`, the three finds return (20, 25), (100, 100) and (60, 50) |

## Left out

- IEEE 754 doubles: rounding, overflow, -0 and the exact results of
  `Math.log`, `Math.sqrt` and `Math.pow` are not modelled. Numbers are
  exact reals. `power` is the exact floor of the base-10 logarithm, and
  the sqrt thresholds are compared through squares.
- Infinities as values: a degenerate `linearScale` gives `None`. As a
  quadtree scale it yields `NaN`, so such points are skipped. In the
  source, a non-zero offset gives ±Infinity, and that point is inserted.
  More generally a coordinate (`Coord`) is a number or NaN, never
  ±Infinity, so an accessor or scale returning an infinity has no
  counterpart. The radius (`Extended`) is a number or +Infinity: a radius
  of -Infinity (which prunes every node, so `find` returns null) or NaN is
  not modelled.
- Ticks.Increment: an infinite `count` is not modelled, since counts are
  reals. In the source it makes the raw step 0, its logarithm -Infinity,
  and `increment` returns -Infinity, so `getTicks` returns no ticks.
- QuadNode.Add: `Node.add` updates nodes in place. It is modelled as a
  function on an immutable tree of values, so aliasing of nodes is not
  captured. The tree is owned by its root and never shared.
- SpatialIndex.RootBox: a bound still infinite because no coordinate on
  that axis is a number is taken as 0. Nothing is inserted then, so the
  box is never used.
- SpatialIndex.Nearest: for a negative radius only soundness is promised.
  A returned datum is within the radius, but not necessarily the closest.
  The source's pruning is not sound then.
- SpatialIndex.Nearest: among points at the same smallest distance, the
  contract does not say which datum is returned. The body follows the
  source's visiting order and strict `<`.
- SpatialIndex.Quadtree.Find: requires that `update` has been called. In
  the source, without it, `find` on non-empty data calls the null
  accessors and throws; on empty data it calls none and returns null.
  `src/index.js` calls `update` right after constructing the quadtree.
- Accessors and scales are total functions, passed as parameters. Their
  side effects and exceptions are not modelled, and neither is object
  identity (`toBe`) of the data and functions.
- The React components, `src/index.js` and the example applications are
  not part of this model.
