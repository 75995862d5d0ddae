# NearestPoints in Dafny

NearestPoints answers one question: given a polyline in three dimensions and a query
point, which segments contain a point nearest to the query, and where is that point?
It walks the segments in order. It skips a segment whose two nodes are equal within
the tolerance `eps = 1e-9`. For every other segment it projects the query onto the line
through the segment. When the projection lies in the segment's bounding box, it
offers the projection. Otherwise it offers the end of the segment nearer to the query.

Each offered point goes into a `std::map` keyed by a tolerant lexicographic order on
points. The map keeps the first entry for a key. The loop also tracks the least
distance seen. Afterwards, every map entry whose distance is within `eps` of that
minimum is reported as (segment index, point), and the report is sorted by segment
index.

The model has five modules:

- `RealArithmetic`: small facts about products and quotients of reals that the other
  proofs call one at a time.
- `GeometryObjects`: the value types `Primitive3D` (with the synonyms `Point3D` and
  `Vector3D`) and `Segment3D`, and the class `Polyline3D`, whose node list is updated
  in place.
- `MathOperations`: the vector operations of `src/3DMathOperations.cpp`, as functions
  with lemmas about what they compute.
- `NearestPointsAlgorithm`: the search.
  - `FindNearestPointsToPolyline` is a method with the loops of the source and an
    in-place sort of the answer array.
  - It is proved equal to the specification function `NearestPoints`.
  - The lemmas about `NearestPoints` state what the answer is: membership,
    ascending order, nearest points, and the empty answer.
- `NearestPointsExamples`: two test scenarios of
  `test/NearestPointsAlgorithmTests.cpp`, replayed on the segments' candidates, and
  a three-node polyline whose answer is empty, derived from its nodes.

Doubles are modelled as `real`. `std::sqrt` is a parameter `sqrt: real -> real`. Every
lemma that needs its meaning requires `IsSqrt(sqrt)`: for each `a >= 0`, `sqrt(a)` is
non-negative and squares back to `a`. That `sqrt(0) = 0`, `sqrt(1) = 1` and that `sqrt` is
monotone are proved from this, not assumed.

The default constructors of `Primitive3D` (src/GeometryObjects.cpp:9) and `Segment3D`
(src/GeometryObjects.cpp:69) are the constants `Origin` and `DefaultSegment`. The vector
from a point to itself is `Origin` (`VectorBetweenRoundTrip`), and `Origin` is the only
vector of length zero (`LengthZeroIffZeroVector`).

Three places where the code is easy to misread, and what the model does:

- The map is filled with `insert`, so a later segment whose point is equivalent to a
  stored key is dropped rather than overwriting it. Its distance still lowers the
  minimum (src/NearestPointsAlgorithm.cpp:37-38, 44-45 and 49-50). So a polyline whose
  segments are all proper can get an empty answer: the stored entry may be more than
  `eps` farther than the refused one's distance, and then no entry passes the filter.
  `RefusedKeyOnPolyline` shows this for the nodes (-1,-1,-1), (0,0,0), (eps,eps,eps)
  and the query (1,1,1). The second segment is proper, because its nodes differ by
  exactly `eps`. Its end is map-equivalent to the origin stored by the first segment,
  so its insert is refused. The minimum still drops to (1 - eps) times the root of 3,
  and the origin, at the root of 3, is filtered out.
- The endpoint fallback picks the start only when it is strictly nearer. On a tie it
  picks the end.
- A segment is degenerate when its nodes are tolerantly equal (every coordinate
  differs by strictly less than `eps`). Two keys are equivalent for the map when every
  coordinate differs by at most `eps`. The two tolerances therefore differ at exactly
  `eps` (`EqualImpliesUnordered`). The model keeps both as written.

## Model

| member | source | states |
|---|---|---|
| RealArithmetic.Abs | src/GeometryObjects.cpp:21-37 | the magnitude is non-negative and is the number or its negation |
| GeometryObjects.Origin | src/GeometryObjects.cpp:9 | the default point (0,0,0); VectorBetweenRoundTrip and LengthZeroIffZeroVector state its role as the zero vector |
| GeometryObjects.DefaultSegment | src/GeometryObjects.cpp:69 | the default segment, from Origin to Origin |
| GeometryObjects.Primitive3D.SetX | src/GeometryObjects.cpp:17 | the result has x replaced by the new value and y, z unchanged |
| GeometryObjects.Primitive3D.SetY | src/GeometryObjects.cpp:18 | the result has y replaced and x, z unchanged |
| GeometryObjects.Primitive3D.SetZ | src/GeometryObjects.cpp:19 | the result has z replaced and x, y unchanged |
| GeometryObjects.Primitive3D.Less | src/GeometryObjects.cpp:21-32 | the tolerant order; its meaning is stated by LessLexicographic, LessIrreflexive, LessAsymmetric and UnorderedIffClose |
| GeometryObjects.Primitive3D.Equal | src/GeometryObjects.cpp:34-38 | tolerant equality; its meaning is stated by EqualReflexiveSymmetric and EqualImpliesUnordered |
| GeometryObjects.VectorBetween | src/GeometryObjects.cpp:47-51 | the vector from A to B; its meaning is stated by VectorBetweenRoundTrip and VectorBetweenZero |
| GeometryObjects.VectorBetweenRoundTrip | src/GeometryObjects.cpp:47-51 | moving A by the vector from A to B lands on B; the vector from a point to itself is zero |
| GeometryObjects.VectorBetweenZero | src/GeometryObjects.cpp:47-51 | the vector between two points is zero exactly when the points coincide |
| GeometryObjects.LessIrreflexive | src/GeometryObjects.cpp:21-32 | no point is less than itself under the tolerant order |
| GeometryObjects.LessAsymmetric | src/GeometryObjects.cpp:21-32 | two points are never each less than the other |
| GeometryObjects.UnorderedIffClose | src/GeometryObjects.cpp:21-32 | two points are unordered (map-equivalent) exactly when every coordinate differs by at most eps |
| GeometryObjects.LessLexicographic | src/GeometryObjects.cpp:21-32 | the order is decided by x when x differs by more than eps, else by y, else by z, and is false when all three are close |
| GeometryObjects.LessExamples | src/GeometryObjects.cpp:21-32 | the orderings checked by the LessThanOperator test in both directions |
| GeometryObjects.EqualReflexiveSymmetric | src/GeometryObjects.cpp:34-38 | tolerant equality is reflexive and symmetric |
| GeometryObjects.EqualImpliesUnordered | src/GeometryObjects.cpp:21-38 | tolerantly equal points are map-equivalent, and points exactly eps apart are map-equivalent without being equal |
| GeometryObjects.EqualExamples | src/GeometryObjects.cpp:34-38 | the equal and unequal pairs of the EqualityOperator test |
| GeometryObjects.Segment3D.SetStart | src/GeometryObjects.cpp:74 | the result has the new start and the old end |
| GeometryObjects.Segment3D.SetEnd | src/GeometryObjects.cpp:75 | the result has the old start and the new end |
| GeometryObjects.SegmentCount | src/NearestPointsAlgorithm.cpp:25-28 | node j starts a segment exactly when node j + 1 exists; so fewer than two nodes give no segment, and otherwise there is one fewer segment than nodes |
| GeometryObjects.Polyline3D.GetNodesCount | include/static/GeometryObjects.h:204 | the number of nodes; AddPoint and SetNodes state how it changes, SegmentCount how it decides the segments |
| GeometryObjects.Polyline3D.GetNodes | src/GeometryObjects.cpp:64 | the node list; Polyline3D.FromPoints, SetNodes and AddPoint state what it holds after each |
| GeometryObjects.Polyline3D.constructor | src/GeometryObjects.cpp:54 | a default polyline has no nodes |
| GeometryObjects.Polyline3D.FromPoints | src/GeometryObjects.cpp:55-57 | a polyline built from points holds exactly those points |
| GeometryObjects.Polyline3D.SetNodes | src/GeometryObjects.cpp:60-62 | the node list becomes the given points |
| GeometryObjects.Polyline3D.AddPoint | src/GeometryObjects.cpp:66 | the point is appended: the count grows by one, the last node is the point and the earlier nodes are unchanged |
| MathOperations.SqrtSpec | src/3DMathOperations.cpp:12-16 | the square root of a non-negative number is non-negative and squares back to it |
| MathOperations.SqrtUnique | src/3DMathOperations.cpp:12-16 | any non-negative number whose square is a is the square root of a |
| MathOperations.SqrtZeroOne | src/3DMathOperations.cpp:12-16 | the square roots of 0 and 1 are 0 and 1 |
| MathOperations.SqrtMonotone | src/3DMathOperations.cpp:12-16 | the square root preserves both the weak and the strict order of non-negative numbers |
| MathOperations.ScalarProduct | src/3DMathOperations.cpp:6-10 | the scalar product; its meaning is stated by ScalarProductSymmetric, ScalarProductSelf and ScalarProductAdditive |
| MathOperations.ScalarProductAdditive | src/3DMathOperations.cpp:6-10 | the scalar product distributes over vector addition in either argument |
| MathOperations.ScalarProductSymmetric | src/3DMathOperations.cpp:6-10 | the scalar product is symmetric and vanishes with the zero vector |
| MathOperations.ScalarProductSelf | src/3DMathOperations.cpp:6-10 | a vector's product with itself is non-negative and zero only for the zero vector |
| MathOperations.ScalarProductExamples | src/3DMathOperations.cpp:6-10 | the values 14, 0 and 32 of the ScalarProduct tests |
| MathOperations.LengthOfVector | src/3DMathOperations.cpp:12-16 | the length; its meaning is stated by LengthSquared and LengthZeroIffZeroVector |
| MathOperations.LengthSquared | src/3DMathOperations.cpp:12-16 | a length is non-negative and its square is the vector's product with itself |
| MathOperations.LengthZeroIffZeroVector | src/3DMathOperations.cpp:12-16 | the length is zero exactly for the zero vector |
| MathOperations.LengthExamples | src/3DMathOperations.cpp:12-16 | the LengthOfVector tests' lengths 0, 1 and 5, plus (-3,-4,0) at 5 |
| MathOperations.DistanceBetweenPoints | src/3DMathOperations.cpp:18-22 | the distance; its meaning is stated by DistanceIsLengthOfDifference and DistanceProperties |
| MathOperations.DistanceIsLengthOfDifference | src/3DMathOperations.cpp:18-22 | the distance between two points is the length of the vector between them |
| MathOperations.DistanceProperties | src/3DMathOperations.cpp:18-22 | distance is non-negative, symmetric, and zero exactly for the same point |
| MathOperations.DistanceExamples | src/3DMathOperations.cpp:18-22 | the DistanceBetweenPoints tests' root 50, root 56 and same-point 0, plus (0,0,0) to (3,4,0) at 5 |
| MathOperations.NormalizedVector | src/3DMathOperations.cpp:24-30 | the normalised vector; its meaning is stated by NormalizedComponents and NormalizedHasUnitLength |
| MathOperations.NormalizedComponents | src/3DMathOperations.cpp:24-30 | a vector shorter than eps is returned as it is; any other vector has each component divided by its length |
| MathOperations.NormalizedHasUnitLength | src/3DMathOperations.cpp:24-30 | a vector of length at least eps normalises to length exactly 1 |
| MathOperations.NormalizedExamples | src/3DMathOperations.cpp:24-30 | the zero, (3,4,0), (-3,-4,0) and unit vectors of the NormalizedVector tests |
| MathOperations.VectorMultipliedByScalar | src/3DMathOperations.cpp:32-36 | scaling; its meaning is stated by ScalingLaws and LengthOfScaledVector |
| MathOperations.ScalingLaws | src/3DMathOperations.cpp:32-36 | scaling by 1 is the identity, by 0 gives zero, two scalings compose by multiplying, and the scalar product is linear in the scale |
| MathOperations.LengthOfScaledVector | src/3DMathOperations.cpp:32-36 | scaling by a multiplies the length by the magnitude of a |
| MathOperations.ScalingExamples | src/3DMathOperations.cpp:32-36 | the four VectorMultipliedByScalar tests |
| MathOperations.PointProjectionOnLineThroughSegment | src/3DMathOperations.cpp:39-47 | the projection; its meaning is stated by ProjectionFormula, ProjectionIsOrthogonal, ProjectionOnDegenerateSegment, ProjectionOfPointOnLine and ProjectionOnShortSegment |
| MathOperations.ProjectionIsStartPlusOffset | src/3DMathOperations.cpp:39-47 | the projection is the segment start moved by the unit direction scaled by the query's component along it |
| MathOperations.DirectionNonZero | src/3DMathOperations.cpp:39-47 | a segment's direction has a positive square exactly when its ends differ |
| MathOperations.ProjectionFormula | src/3DMathOperations.cpp:39-47 | on a segment at least eps long, the projection is the point of the line at parameter (d.w)/(d.d) |
| MathOperations.ParameterIsQuotient | src/3DMathOperations.cpp:39-47 | on a segment with distinct ends, d . d is non-zero and the projection parameter is (d . w) / (d . d) |
| MathOperations.UnitDirectionOf | src/3DMathOperations.cpp:24-30 | a vector at least eps long is non-zero, its length is non-zero and squares to d . d, and it normalises to each component divided by that length |
| MathOperations.UnitOffset | src/3DMathOperations.cpp:39-47 | the unit direction scaled by its product with w is d scaled by (d . w) / (d . d) |
| MathOperations.ResidualVector | src/3DMathOperations.cpp:39-47 | the vector from the line's point at t to a point p is w - t d |
| MathOperations.ProjectionIsOrthogonal | src/3DMathOperations.cpp:39-47 | on such a segment, the vector from the projection to the query is orthogonal to the segment |
| MathOperations.ProjectionOnDegenerateSegment | src/3DMathOperations.cpp:24-30 | on a segment with identical ends, the projection falls back to the start, because the zero direction is not normalised |
| MathOperations.ProjectionOfPointOnLine | src/3DMathOperations.cpp:39-47 | on a segment at least eps long, projecting a point already on the line returns that point, so the projection is idempotent there |
| MathOperations.ProjectionOnShortSegment | src/3DMathOperations.cpp:24-47 | on a segment of length h with 0 < h < eps the direction is not normalised: the point (p,0,0) of the line through (0,0,0) and (h,0,0) goes to (h·h·p,0,0), which for p ≠ 0 is neither the point nor the start |
| MathOperations.LongComponentGivesLength | src/3DMathOperations.cpp:12-16 | a vector with a component of magnitude at least eps is at least eps long |
| MathOperations.LengthAtLeastEps | src/3DMathOperations.cpp:24-30 | the segment between two tolerantly unequal points is long enough to be normalised |
| MathOperations.ExampleParameterOnLine | src/3DMathOperations.cpp:39-47 | the query (1,0,0) has parameter 1/3 on the diagonal from the origin to (1,1,1) |
| MathOperations.ExamplePointOnLine | src/3DMathOperations.cpp:39-47 | the diagonal's point at 1/3 is (1/3,1/3,1/3) |
| MathOperations.ExamplePointBeyondEnd | src/3DMathOperations.cpp:39-47 | a parameter beyond 1 lies past the end of the segment |
| MathOperations.ExamplePointBeforeStart | src/3DMathOperations.cpp:39-47 | a negative parameter lies before the start |
| MathOperations.ProjectionExampleOnLine | src/3DMathOperations.cpp:39-47 | the ProjectionOnLine test: (1,0,0) projects to (1/3,1/3,1/3) |
| MathOperations.ProjectionExampleBeyondEnd | src/3DMathOperations.cpp:39-47 | the ProjectionOnSegmentEnd test: a point on the line past the end projects to itself |
| MathOperations.ProjectionExampleBeforeStart | src/3DMathOperations.cpp:39-47 | the ProjectionOnSegmentStart test: a point on the line before the start projects to itself |
| NearestPointsAlgorithm.Min | src/NearestPointsAlgorithm.cpp:9-14 | std::min gives a lower bound of both arguments that is one of them |
| NearestPointsAlgorithm.Max | src/NearestPointsAlgorithm.cpp:9-14 | std::max gives an upper bound of both arguments that is one of them |
| NearestPointsAlgorithm.IsProjectionInSegment | src/NearestPointsAlgorithm.cpp:8-15 | the bounding-box test; its meaning is stated by InSegmentIffBetween and InSegmentOnLine |
| NearestPointsAlgorithm.InSegmentIffBetween | src/NearestPointsAlgorithm.cpp:8-15 | the box test holds exactly when every coordinate lies between those of the two ends; both ends pass it |
| NearestPointsAlgorithm.BetweenAlongLine | src/NearestPointsAlgorithm.cpp:8-15 | on one axis, the point at parameter t lies between the ends for t in [0, 1], and only then when the ends differ on that axis |
| NearestPointsAlgorithm.InSegmentOnLine | src/NearestPointsAlgorithm.cpp:8-15 | for a point on the line through a proper segment, the box test holds if and only if the point lies on the segment |
| NearestPointsAlgorithm.Clamp | src/NearestPointsAlgorithm.cpp:35-53 | the cut-back parameter lies in [0, 1]: 0 below the segment, 1 beyond it, t on it |
| NearestPointsAlgorithm.ClampIsNearest | src/NearestPointsAlgorithm.cpp:35-53 | the cut-back parameter is no farther from t than any parameter of the segment |
| NearestPointsAlgorithm.DistancesCompare | src/3DMathOperations.cpp:18-22 | distances from the query compare, weakly and strictly, as their squares do |
| NearestPointsAlgorithm.SplitAt | src/3DMathOperations.cpp:18-22 | when the residual at t is orthogonal to the direction, the squared distance at s is the one at t plus (s - t)^2 d . d |
| NearestPointsAlgorithm.SquaredDistanceAlongLine | src/NearestPointsAlgorithm.cpp:40-53 | on a proper segment, the squared distance at s is the one at the projection parameter t plus (s - t)^2 d . d |
| NearestPointsAlgorithm.NearestAlongLine | src/NearestPointsAlgorithm.cpp:40-53 | along the line, the cut-back parameter minimises the squared distance over the segment, and outside the segment the end on the query's side is strictly nearer |
| NearestPointsAlgorithm.SegmentCandidate | src/NearestPointsAlgorithm.cpp:29-53 | the point segment i offers; its meaning is stated by CandidateIsNearestPointOfSegment and DegenerateSegmentNotReported |
| NearestPointsAlgorithm.CandidateIsNearestPointOfSegment | src/NearestPointsAlgorithm.cpp:29-53 | a proper segment always offers a point; it is the segment's point at the cut-back projection parameter, its stored distance is its true distance, and no point of the segment is nearer to the query |
| NearestPointsAlgorithm.Insert | src/NearestPointsAlgorithm.cpp:37 | after insert an equivalent key is present; the old entries are kept as a prefix; the map grows by exactly the new entry if and only if no equivalent key was present |
| NearestPointsAlgorithm.CandidatesOf | src/NearestPointsAlgorithm.cpp:28-53 | segment j offers nothing exactly when its two nodes are tolerantly equal; there is one candidate per segment, at position j for segment j |
| NearestPointsAlgorithm.DistancesOf | src/NearestPointsAlgorithm.cpp:28-53 | the map the loop fills; its meaning is stated by DistancesOfInvariant, DistancesGrow and KeepsFirstEntry |
| NearestPointsAlgorithm.MinDistanceOf | src/NearestPointsAlgorithm.cpp:21-53 | the minimum the loop tracks; its meaning is stated by MinDistanceIsMinimum and EmptyMapIffNoMinimum |
| NearestPointsAlgorithm.FoldStep | src/NearestPointsAlgorithm.cpp:28-53 | the map and minimum after segment i follow from those before it and segment i's candidate alone: nothing changes when it offers nothing, otherwise the entry is inserted and a strictly smaller distance becomes the minimum |
| NearestPointsAlgorithm.Survivors | src/NearestPointsAlgorithm.cpp:55-61 | the filtered answer; its meaning is stated by SurvivorsMembership and SurvivorsAscending |
| NearestPointsAlgorithm.SurvivorsPrefixStep | src/NearestPointsAlgorithm.cpp:55-61 | one more entry adds its (index, point) to the answer exactly when its distance is within eps of the minimum |
| NearestPointsAlgorithm.NearestPoints | src/NearestPointsAlgorithm.cpp:17-69 | the answer; its meaning is stated by NearestPointsCharacterized, NearestPointsAscending, ReportedPointsAreNearest and NoProperSegmentNoAnswer |
| NearestPointsAlgorithm.ScanSegments | src/NearestPointsAlgorithm.cpp:28-54 | the loop over the segments leaves the map DistancesOf and the minimum MinDistanceOf of the candidates, with the map's indices strictly ascending |
| NearestPointsAlgorithm.FilterAtMinimum | src/NearestPointsAlgorithm.cpp:55-61 | the loop over the map returns Survivors of the map at the minimum |
| NearestPointsAlgorithm.SortByIndex | src/NearestPointsAlgorithm.cpp:63-66 | the array ends up sorted by segment index and is a permutation of its old contents |
| NearestPointsAlgorithm.InsertIntoSorted | src/NearestPointsAlgorithm.cpp:63-66 | with a sorted prefix of length i, the prefix of length i + 1 becomes sorted and a permutation of what it was, and the elements after it are unchanged |
| NearestPointsAlgorithm.InsertStep | src/NearestPointsAlgorithm.cpp:63-66 | one exchange of the moving element with a larger left neighbour keeps the rest of the prefix sorted, keeps the element below everything after it, permutes the prefix and leaves the suffix alone |
| NearestPointsAlgorithm.InsertDone | src/NearestPointsAlgorithm.cpp:63-66 | once the moving element reaches the front or a neighbour that is not larger, the whole prefix is sorted |
| NearestPointsAlgorithm.SwapAdjacent | src/NearestPointsAlgorithm.cpp:63-66 | two neighbouring elements are exchanged and nothing else changes |
| NearestPointsAlgorithm.FindNearestPointsToPolyline | src/NearestPointsAlgorithm.cpp:17-69 | the method returns exactly NearestPoints: the map filled by the loop, filtered at the minimum and sorted by index |
| NearestPointsAlgorithm.InvariantExtends | src/NearestPointsAlgorithm.cpp:29-53 | offering a segment that stores nothing keeps the map invariant: every entry is its segment's candidate, the indices ascend, and the keys are pairwise non-equivalent |
| NearestPointsAlgorithm.InvariantAfterAppend | src/NearestPointsAlgorithm.cpp:35-53 | appending a fresh candidate as the last segment's entry keeps that invariant |
| NearestPointsAlgorithm.DistancesOfInvariant | src/NearestPointsAlgorithm.cpp:28-53 | the map after the loop satisfies the invariant |
| NearestPointsAlgorithm.DistancesGrow | src/NearestPointsAlgorithm.cpp:28-53 | the map only grows: the map after j segments is a prefix of the final one, and every later entry comes from segment j or later |
| NearestPointsAlgorithm.KeepsFirstEntry | src/NearestPointsAlgorithm.cpp:35-53 | segment j has an entry if and only if it offered a point and no earlier segment stored an equivalent key; either way an equivalent key is stored |
| NearestPointsAlgorithm.MinDistanceIsMinimum | src/NearestPointsAlgorithm.cpp:21-53 | the tracked minimum is at most every candidate's distance, including refused ones, and equals one of them; it keeps its initial value exactly when no segment offered a point |
| NearestPointsAlgorithm.EmptyMapIffNoMinimum | src/NearestPointsAlgorithm.cpp:21-53 | the map is empty exactly when the minimum keeps its initial value |
| NearestPointsAlgorithm.SurvivorsMembership | src/NearestPointsAlgorithm.cpp:55-61 | an (index, point) pair is in the filtered answer exactly when some entry with that index and key has a distance within eps of the minimum |
| NearestPointsAlgorithm.SurvivorsAscending | src/NearestPointsAlgorithm.cpp:55-61 | entries in strictly ascending index order give an answer in strictly ascending index order |
| NearestPointsAlgorithm.LeastIndexFirst | src/NearestPointsAlgorithm.cpp:63-66 | in a sequence strictly sorted by index, only the first element has an index as small as the first one's |
| NearestPointsAlgorithm.FirstElementsAgree | src/NearestPointsAlgorithm.cpp:63-66 | two index-sorted permutations of each other, one of them strictly sorted, start with the same element |
| NearestPointsAlgorithm.TailsPermuted | src/NearestPointsAlgorithm.cpp:63-66 | removing equal first elements keeps two permutations permutations |
| NearestPointsAlgorithm.SortedPermutationUnique | src/NearestPointsAlgorithm.cpp:63-66 | a sorted permutation of a strictly sorted sequence is that sequence, so the unstable std::sort has a single possible result |
| NearestPointsAlgorithm.SurvivorsCharacterized | src/NearestPointsAlgorithm.cpp:28-61 | the filtered map holds (j, pt) if and only if segment j offered pt, at a distance within eps of the minimum, and no earlier segment stored a key equivalent to pt |
| NearestPointsAlgorithm.NearestPointsCharacterized | src/NearestPointsAlgorithm.cpp:17-69 | the answer holds (j, pt) if and only if segment j is reported with pt in that sense |
| NearestPointsAlgorithm.NearestPointsAscending | src/NearestPointsAlgorithm.cpp:63-66 | the answer is strictly ascending by segment index, so no segment is reported twice |
| NearestPointsAlgorithm.NoProperSegmentNoAnswer | src/NearestPointsAlgorithm.cpp:25-30 | fewer than two nodes, or only degenerate segments, give an empty answer |
| NearestPointsAlgorithm.DegenerateSegmentNotReported | src/NearestPointsAlgorithm.cpp:29-30 | a segment with tolerantly equal nodes is never reported |
| NearestPointsAlgorithm.MinimumIsDistanceToPolyline | src/NearestPointsAlgorithm.cpp:28-53 | the tracked minimum is the distance from the query to the polyline: no point of any proper segment is nearer |
| NearestPointsAlgorithm.ReportedPointsAreNearest | src/NearestPointsAlgorithm.cpp:17-69 | every reported pair names a proper segment and that segment's nearest point to the query, whose distance is within eps of the minimum |
| NearestPointsExamples.DistancesStep | src/NearestPointsAlgorithm.cpp:35-53 | offering one more segment leaves the map unchanged when nothing is offered, and otherwise inserts the offered entry |
| NearestPointsExamples.MinimumStep | src/NearestPointsAlgorithm.cpp:38-51 | one more candidate lowers the minimum only when its distance is strictly smaller |
| NearestPointsExamples.SurvivorsStep | src/NearestPointsAlgorithm.cpp:55-61 | one more map entry adds its pair to the answer exactly when its distance is close to the minimum |
| NearestPointsExamples.InsertFresh | src/NearestPointsAlgorithm.cpp:37 | a key equivalent to no stored key is appended |
| NearestPointsExamples.InsertRefused | src/NearestPointsAlgorithm.cpp:37 | a key equivalent to a stored key leaves the map unchanged |
| NearestPointsExamples.AllStored | src/NearestPointsAlgorithm.cpp:28-53 | when every segment offers a point and no two are equivalent, the map holds every candidate under its own index, in order |
| NearestPointsExamples.CentreOfSquare | test/NearestPointsAlgorithmTests.cpp:31-65 | given the candidates the square's segments offer, the query above the centre gets the four side midpoints at one distance, and all four are reported with indices 0 to 3 |
| NearestPointsExamples.SharedVertexReported | src/NearestPointsAlgorithm.cpp:35-61 | a vertex offered by two consecutive segments at the minimum is reported once, under the first of them, when the other distances exceed the minimum by at least eps |
| NearestPointsExamples.CornerDistancesApart | test/NearestPointsAlgorithmTests.cpp:67-86 | the corner's distance, root 11, is below the far ends' distance, root 19, by more than eps |
| NearestPointsExamples.BeyondCorner | test/NearestPointsAlgorithmTests.cpp:67-86 | given the candidates the square's segments offer, for the query (3,3,3) sides 1 and 2 both offer the corner (2,2,0), and the answer is that corner once, under index 1 |
| NearestPointsExamples.OffersClamped | src/NearestPointsAlgorithm.cpp:33-52 | a proper segment offers the point of its line at the cut-back projection parameter, at that point's distance from the query |
| NearestPointsExamples.OffersEnd | src/NearestPointsAlgorithm.cpp:33-52 | a proper segment whose projection parameter is at least 1 offers its end, at the end's distance from the query |
| NearestPointsExamples.DiagonalProper | src/NearestPointsAlgorithm.cpp:29-30 | two points (l,l,l) at least eps apart along the diagonal form a proper segment |
| NearestPointsExamples.DiagonalBeyond | src/3DMathOperations.cpp:39-47 | a query on the diagonal at or beyond a segment's end projects at or beyond that end |
| NearestPointsExamples.DiagonalDistance | src/3DMathOperations.cpp:18-22 | two diagonal points are Abs(m - l) times the root of 3 apart |
| NearestPointsExamples.DiagonalOffersEnd | src/NearestPointsAlgorithm.cpp:29-52 | a diagonal segment at least eps long with the query beyond its end offers its end at (m - l1) times the root of 3 |
| NearestPointsExamples.DiagonalCandidates | src/NearestPointsAlgorithm.cpp:28-53 | three diagonal nodes at least eps apart and a query beyond the last: both segments offer their ends |
| NearestPointsExamples.RefusedKeyStored | src/NearestPointsAlgorithm.cpp:35-53 | the second segment's point, equivalent to the first one's, is refused: the map keeps only the first entry |
| NearestPointsExamples.RefusedKeyMinimum | src/NearestPointsAlgorithm.cpp:37-50 | the refused candidate's smaller distance still becomes the minimum |
| NearestPointsExamples.RefusedKeyEmptiesAnswer | src/NearestPointsAlgorithm.cpp:35-61 | when the refused distance is at least eps below the stored one, the answer is empty |
| NearestPointsExamples.RefusedKeyAnswer | src/NearestPointsAlgorithm.cpp:17-69 | the same for a polyline whose two segments offer such candidates: its answer is empty |
| NearestPointsExamples.RefusedKeyOnPolyline | src/NearestPointsAlgorithm.cpp:17-69 | the polyline (-1,-1,-1), (0,0,0), (eps,eps,eps) with the query (1,1,1) has two proper segments, keeps only the origin in the map, has the minimum (1 - eps) times the root of 3, and gets an empty answer |

## Left out

- `operator<<` (src/GeometryObjects.cpp:41-44) and the program in `src/main.cpp` do input and output only; they are not part of this model.
- The getters of `Primitive3D` and `Segment3D` are the datatype fields. The copy-from-vector and move constructors of `Polyline3D` are both `FromPoints`: moving is not distinguished from copying.
- Floating point: doubles are exact reals. Rounding, NaN and infinities are not modelled. The `std::numeric_limits<double>::max()` start value of the minimum is `None`.
- `std::sqrt` is a parameter characterised by `IsSqrt`; its rounding is not modelled.
- MathOperations.ProjectionOfPointOnLine: holds only on segments at least eps long. For a segment with 0 < |end - start| < eps, `NormalizedVector` returns the direction d unscaled (src/3DMathOperations.cpp:26), so the result is start + (d . w) d, which is neither the projection nor the start (`ProjectionOnShortSegment`). The search never projects onto such a segment: a segment that is not tolerantly degenerate is at least eps long (`LengthAtLeastEps`).
- `std::map` is a sequence of entries in insertion order, with insert-if-absent under the tolerant equivalence. The map's key-order iteration and its tree structure are not modelled. The answer is the same either way: entries are filtered one by one, the result is sorted by segment index, and segment indices in the map are distinct (`SortedPermutationUnique`).
- The tolerant order is not a strict weak ordering: equivalence within eps is not transitive. On such keys `std::map` does not define which key an insert finds. The model checks a candidate against every stored key.
- `std::sort` is an insertion sort on an array. It has the same result, because that result is unique.
- NearestPointsExamples: the two test scenarios start from the candidates of the square's segments, stated as premises. The projections, box tests and square roots that produce them from the nodes are not evaluated on literals, because products and quotients of literal reals inside these unfoldings exceed the verifier's resource limit. The general lemmas `CandidateIsNearestPointOfSegment` and `ReportedPointsAreNearest` cover that step for all inputs.
- Examples 1 and 4 to 8 of `test/NearestPointsAlgorithmTests.cpp` have no lemma of their own, for the same reason.
- NearestPointsExamples.CentreOfSquare: the candidates of the four sides are premises, not computed from the nodes (see above).
- NearestPointsExamples.BeyondCorner: the candidates are premises as above. The test accepts index 1 or 2; the model shows that the code as written reports index 1, the first segment to store the corner.
