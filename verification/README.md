# RTI1W ray–scene intersection core in Dafny

This project models the geometric core of RTI1W, a C# port of "Ray Tracing in One Weekend". It covers:

- the `Vec3` value type;
- the `Ray` with its time stamp;
- the axis-aligned box `Box3`;
- the vector helpers and the slab test `IntersectRayBox`;
- the hittables: `Sphere`, `MovingSphere`, the linear `HittableList` and the box-pruned `BvhHittable` node;
- the builder `BvhHelper.CreateBvh`.

The main theorem is `Equivalence.BvhMatchesList`. A BVH built by `CreateBvh` over shapes and lists of shapes answers every ray query like the `HittableList` of the same items: it reports a hit exactly when the list does, at the same ray parameter. The premise is that each item's box passes the slab test in every window holding one of the item's hits (`BoxSound`). This holds over every window with tMin < tMax, whatever order the sort leaves the items in. A window with tMin == tMax is excluded because there the two really differ (`Equivalence.DegenerateWindowDiverges`).

Doubles are modelled as reals. The upper end of a query window is a `Bound`: either `Finite(t)` or `Infinity`, the latter standing for `double.PositiveInfinity`. A hit query `Hit(h, ray, tMin, tMax, sqrt)` answers `Option<HitRecord>`. Candidate ray parameters come back through `Candidates(h, ray, sqrt)`.

Two things the source calls are passed in as parameters:

- the square root `Math.Sqrt`, as `sqrt`, only known to satisfy `IsSquareRoot`;
- the in-place `Span.Sort`, as `order`, only known to return a reordering (`IsReordering`).

`Hittables.Primitive` stands for any shape whose hits are a given finite set of parameters. It shows that the box-soundness premise of the main theorem can be met.

Modules follow the source files:

| module | contents |
|---|---|
| `Vectors` | `Vec3` |
| `Rays` | `Ray` and window bounds |
| `Helpers` | vector helpers |
| `Boxes` | `Box3` |
| `SlabTest` | `IntersectRayBox` |
| `Hittables` | the hittables and their `Hit` |
| `Nearest` | "least candidate in the window" |
| `Queries` | facts about list queries |
| `BvhQueries` | facts about BVH-node queries |
| `Bvh` | `CreateBvh` |
| `Equivalence` | BVH against list |
| `Sorting` and `Ordering` | the sort inside `CreateBvh` |
| `ListBuilding` | `HittableList.Add` |
| `RealArith`, `Sequences` and `Wrappers` | general helpers |

Notes on what the code does:

- `HelpersTests.cs` rows 4 and 5 start on a face of the box and run along it. The code reports a hit for both (`SlabTest.TestRow4Hits`, `SlabTest.TestRow5Hits`): the zero direction component leaves that axis unconstrained, because the origin lies within the slab.
- `Box3.Intersect` builds its result through the two-point constructor, so the result is always a valid box (`Boxes.Intersect`).
- The split axis is X only when its size is strictly the largest, and Y when it strictly exceeds Z. So ties go to the later axis (`Bvh.ChooseSplitAxis`).
- The builder halves a span as `n / 2` items, then the rest. The first half is the smaller one when `n` is odd (`Bvh.SplitSpan`).

## Model

| member | source | states |
|---|---|---|
| Vectors.Plus | RTI1W/Vec3.cs:28-31 | unary `+` returns its operand unchanged |
| Vectors.Add | RTI1W/Vec3.cs:33-36 | each axis of the sum is the sum of the operands on that axis |
| Vectors.Neg | RTI1W/Vec3.cs:38-41 | each axis of the negation is the negated component |
| Vectors.Sub | RTI1W/Vec3.cs:43-46 | each axis of the difference is the difference of the components |
| Vectors.Mul | RTI1W/Vec3.cs:48-51 | the componentwise product, axis by axis |
| Vectors.Scale | RTI1W/Vec3.cs:53-56 | vector times scalar scales every axis |
| Vectors.ScaleLeft | RTI1W/Vec3.cs:58-61 | scalar times vector scales every axis |
| Vectors.Div | RTI1W/Vec3.cs:63-66 | the componentwise quotient times the divisor gives back the dividend on every axis (divisor without zero components) |
| Vectors.DivScalar | RTI1W/Vec3.cs:68-71 | the quotient by a non-zero scalar, multiplied back, gives the vector |
| Vectors.ScalarDiv | RTI1W/Vec3.cs:73-76 | each axis of `s / b` times `b`'s component gives `s` |
| Vectors.LengthSquared | RTI1W/Vec3.cs:18 | the squared length is non-negative and positive exactly for non-zero vectors |
| Vectors.EqualsIsIdentity | RTI1W/Vec3.cs:83-86 | `Equals` and `==` hold exactly for identical vectors, and `!=` exactly for different ones |
| Vectors.NearZeroIsShort | RTI1W/Vec3.cs:22-26 | a vector whose components are all below 1e-8 in size has squared length below 3e-16 |
| Vectors.AddCommutes | RTI1W/Vec3.cs:33-36 | vector addition commutes |
| Vectors.AddAssociates | RTI1W/Vec3.cs:33-36 | vector addition associates |
| Vectors.ScaleCommutes | RTI1W/Vec3.cs:53-61 | `v * s` and `s * v` are the same vector |
| Vectors.NegInvolution | RTI1W/Vec3.cs:38-41 | negating twice gives the vector back |
| Vectors.SubIsAddNeg | RTI1W/Vec3.cs:43-46 | subtracting is adding the negation |
| Vectors.SubUndoesAdd | RTI1W/Vec3.cs:33-46 | subtraction and addition of the same vector undo each other |
| Vectors.DivUndoesMul | RTI1W/Vec3.cs:48-71 | dividing by what was multiplied in gives the vector back, componentwise and by a scalar |
| Rays.NewRay | RTI1W/Ray.cs:8-12 | a new ray is at its origin at parameter 0 and one direction further at parameter 1; its time is 0 |
| Rays.At | RTI1W/Ray.cs:14-17 | the point at `t` lies `t` directions away from the origin |
| Rays.AtDifference | RTI1W/Ray.cs:14-17 | two points on the ray differ by the parameter difference times the direction |
| Rays.AtInjective | RTI1W/Ray.cs:14-17 | on a ray with non-zero direction, distinct parameters give distinct points, and back |
| Helpers.DotSymmetric | RTI1W/Helpers.cs:20-23 | the dot product is symmetric |
| Helpers.DotSelf | RTI1W/Helpers.cs:20-23 | a vector's dot product with itself is its squared length, never negative |
| Helpers.CrossOrthogonal | RTI1W/Helpers.cs:25-31 | the cross product is orthogonal to both factors |
| Helpers.CrossAntiCommutes | RTI1W/Helpers.cs:25-31 | swapping the factors negates the cross product |
| Helpers.ReflectFlipsNormalComponent | RTI1W/Helpers.cs:102-105 | about a unit normal, reflection negates the component along the normal |
| Helpers.ReflectPreservesLength | RTI1W/Helpers.cs:102-105 | about a unit normal, reflection keeps the squared length |
| Helpers.ReflectInvolution | RTI1W/Helpers.cs:102-105 | reflecting twice about a unit normal gives the vector back |
| Helpers.LerpEnds | RTI1W/Helpers.cs:120-123 | interpolation gives `v1` at 0 and `v2` at 1 |
| Helpers.LerpBetween | RTI1W/Helpers.cs:120-123 | for `t` in [0, 1], the interpolated value lies between the ends |
| Helpers.NearZeroPerAxis | RTI1W/Helpers.cs:125-129 | a vector is near zero exactly when each of its components is near zero by the scalar test |
| Boxes.EmptyBox | RTI1W/Box3.cs:8-14 | the parameterless box has min at +MaxValue and max at -MaxValue on every axis and contains no point |
| Boxes.PointBox | RTI1W/Box3.cs:16-19 | the one-point box is valid and contains exactly that point |
| Boxes.FromPoints | RTI1W/Box3.cs:21-25 | the two-point box is valid, contains both points, and has the per-axis min and max as corners |
| Boxes.FromPointsSymmetric | RTI1W/Box3.cs:21-25 | the order of the two points does not matter |
| Boxes.FromPointsTightest | RTI1W/Box3.cs:21-25 | every box containing both points encloses the two-point box |
| Boxes.FromPointsOfValid | RTI1W/Box3.cs:21-25 | rebuilding a valid box from its corners gives the same box |
| Boxes.EqualsIsIdentity | RTI1W/Box3.cs:27-45 | `Equals`, `==` and `!=` agree with identity of corners |
| Boxes.ContainsPerAxis | RTI1W/Box3.cs:52-56 | a point is contained exactly when each of its components lies between the corners |
| Boxes.EnclosesMeansContainsAll | RTI1W/Box3.cs:52-56 | enclosure implies containment of every point; for a valid inner box, containment of every point implies enclosure |
| Boxes.EnclosesTransitive | RTI1W/Box3.cs:52-56 | enclosure is transitive |
| Boxes.EnclosesAntisymmetric | RTI1W/Box3.cs:52-56 | two boxes enclosing each other are equal |
| Boxes.GetSize | RTI1W/Box3.cs:58-61 | the size is max minus min per axis, and non-negative for a valid box |
| Boxes.GetMiddle | RTI1W/Box3.cs:63-66 | the middle is the per-axis mean of the corners and lies inside a valid box |
| Boxes.GetVolume | RTI1W/Box3.cs:68-72 | a valid box has non-negative volume |
| Boxes.LerpCorners | RTI1W/Box3.cs:74-80 | interpolating at (0,0,0) gives min and at (1,1,1) gives max |
| Boxes.LerpInside | RTI1W/Box3.cs:74-80 | interpolating a valid box with weights in [0, 1] stays inside it |
| Boxes.Union | RTI1W/Box3.cs:82-87 | the union is valid and encloses both boxes |
| Boxes.UnionIsLeast | RTI1W/Box3.cs:82-87 | when one operand is valid, every box enclosing both encloses their union |
| Boxes.UnionOfValid | RTI1W/Box3.cs:82-87 | when one operand is valid, the union's corners are the componentwise min and max |
| Boxes.UnionCommutes | RTI1W/Box3.cs:82-87 | union commutes |
| Boxes.UnionAssociates | RTI1W/Box3.cs:82-87 | union of valid boxes associates |
| Boxes.UnionWithEmpty | RTI1W/Box3.cs:82-87 | the parameterless box is a unit of union on valid finite boxes |
| Boxes.OverlapsPerAxis | RTI1W/Box3.cs:96-102 | overlap is the per-axis interval test |
| Boxes.OverlapsSymmetric | RTI1W/Box3.cs:96-102 | overlap is symmetric |
| Boxes.OverlapsReflexive | RTI1W/Box3.cs:96-102 | a valid box overlaps itself |
| Boxes.OverlapsIffCommonPoint | RTI1W/Box3.cs:96-102 | two valid boxes overlap exactly when some point lies in both |
| Boxes.Intersect | RTI1W/Box3.cs:89-94 | the intersection is always a valid box |
| Boxes.IntersectCommutes | RTI1W/Box3.cs:89-94 | intersection commutes |
| Boxes.IntersectOfOverlapping | RTI1W/Box3.cs:89-94 | for valid boxes, the intersection has corners max-of-mins and min-of-maxes exactly when they overlap |
| Boxes.IntersectHoldsCommonPoints | RTI1W/Box3.cs:89-94 | for overlapping valid boxes, the intersection lies in both and contains exactly their common points |
| SlabTest.AxisSlab | RTI1W/Helpers.cs:138-152 | with a zero direction component, the axis is unconstrained when the origin lies in the slab and excludes the ray otherwise; with a non-zero component it is an entry–exit span |
| SlabTest.Narrow | RTI1W/Helpers.cs:154-173 | narrowing fails only on an excluded axis; it never lowers the lower end nor raises the upper end, and it cuts at the axis's entry and exit |
| SlabTest.Step | RTI1W/Helpers.cs:154-173 | a round of the loop continues exactly when the narrowed window is still open |
| SlabTest.IntersectRayBox | RTI1W/Helpers.cs:136-176 | the test answers true exactly when no axis excludes the ray and every lower end (tMin or an entry) lies strictly below every upper end (tMax or an exit) |
| SlabTest.IntersectRayBoxDefault | RTI1W/Helpers.cs:131-134 | the two-argument overload is the reference condition over [0, +infinity) |
| SlabTest.EarlyExitsIrrelevant | RTI1W/Helpers.cs:154-175 | returning at the first empty window gives the same answer as testing once after all three axes |
| SlabTest.IntersectMatchesReference | RTI1W/Helpers.cs:136-176 | the loop without early exits agrees with the pairwise reference condition |
| SlabTest.EntryBeforeExit | RTI1W/Helpers.cs:150-152 | after the swap, every axis's entry is at most its exit |
| SlabTest.EmptyWindowMisses | RTI1W/Helpers.cs:154-159 | a window with tMax at or below tMin never hits |
| SlabTest.NarrowerWindowMisses | RTI1W/Helpers.cs:136-176 | a hit in a window is a hit in every window containing it |
| SlabTest.EnclosingBoxHit | RTI1W/Helpers.cs:136-176 | a ray hitting a box hits every box enclosing it |
| SlabTest.SpanMeaning | RTI1W/Helpers.cs:142-152 | on an axis with a non-zero component, a parameter lies in the axis span exactly when the ray's point lies in the box's slab, both closed and open |
| SlabTest.HitPassesThrough | RTI1W/Helpers.cs:136-176 | when the test passes, the ray meets the box at a parameter strictly inside the window |
| SlabTest.WitnessHits | RTI1W/Helpers.cs:136-176 | a ray meeting the box at a parameter strictly inside the window, strictly within every non-degenerate slab, passes the test |
| SlabTest.InteriorPointHits | RTI1W/Helpers.cs:136-176 | a ray strictly inside the box at a parameter of a non-empty window, ends included, passes the test |
| SlabTest.TestRow1Hits | RTI1W.Tests/HelpersTests.cs:9 | the ray from (0,0,3) along (1,1,0) hits the box (3,3,3)-(5,5,5) |
| SlabTest.TestRow2Hits | RTI1W.Tests/HelpersTests.cs:10 | the ray from (0,0,3.1) along (1,1,0) hits the box |
| SlabTest.TestRow3Hits | RTI1W.Tests/HelpersTests.cs:11 | the ray from (0,0,4) along (1,1,0) hits the box |
| SlabTest.TestRow4Hits | RTI1W.Tests/HelpersTests.cs:12 | the ray from (3,0,3) along (0,1,0), on the box's faces, hits the box |
| SlabTest.TestRow5Hits | RTI1W.Tests/HelpersTests.cs:13 | the ray from (3,6,3) along (0,-1,0), on the box's faces, hits the box |
| Hittables.SetFaceNormal | RTI1W/Hittable.cs:17-21 | front face exactly when the ray runs against the outward normal; the stored normal is the outward one or its negation and never points along the ray; the rest of the record is kept |
| Hittables.NewRecord | RTI1W/Hittable.cs:141-149 | the record holds the ray's point at `t`, the parameter and the material |
| Hittables.SphereQuadratic | RTI1W/Hittable.cs:118-121 | for a non-zero direction, the leading coefficient `a` is positive |
| Hittables.AxisDistance | RTI1W/Hittable.cs:118-121 | on one axis, the square of the ray's offset from the centre at `t` is `offset² + 2 (offset · direction) t + direction² t²`, the per-axis part of the quadratic `a t² + 2 halfB t + c` |
| Hittables.Roots | RTI1W/Hittable.cs:123-134 | there are no roots exactly when the discriminant is negative, otherwise two in ascending order |
| Hittables.RootsOnSphere | RTI1W/Hittable.cs:118-134 | at each root the ray's point lies on the sphere |
| Hittables.SelectRoot | RTI1W/Hittable.cs:123-139 | no root is selected when the discriminant is negative; a selected root lies in the closed window |
| Hittables.SelectRootIsNearest | RTI1W/Hittable.cs:130-139 | the root selected is the least root in the closed window |
| Hittables.SphereHit | RTI1W/Hittable.cs:114-152 | a sphere hit is at the selected root, at the ray's point for it, carrying the sphere's material; its normal is the outward normal `(p - center) / radius` or its negation, opposing the ray, and the hit is on the front face exactly when the ray runs against the outward normal |
| Hittables.SphereBox | RTI1W/Hittable.cs:108-112 | the sphere's box is valid and contains the centre |
| Hittables.SphereBoxHoldsBall | RTI1W/Hittable.cs:108-112 | every point of the closed ball lies in the sphere's box |
| Hittables.GetCenterAtKeyTimes | RTI1W/Hittable.cs:172-175 | the moving centre is `center0` at `time0` and `center1` at `time1` |
| Hittables.CenterInMovingBox | RTI1W/Hittable.cs:172-183 | between the key times the moving centre lies in the moving sphere's box |
| Hittables.Hit | RTI1W/Hittable.cs:42-55 | every hit that any hittable reports lies in the closed query window |
| Hittables.Scan | RTI1W/Hittable.cs:71-87 | the list loop's result lies in the window, and once a hit is recorded the loop keeps one that is no later |
| Queries.HitIsNearest | RTI1W/Hittable.cs:71-87 | a query on a shape or list of shapes reports exactly the least candidate parameter in the closed window |
| Queries.ScanIsNearest | RTI1W/Hittable.cs:76-84 | for items with no BVH node inside, the list loop, started from the least candidate of the earlier items, ends at the least candidate of all items |
| Queries.ListMissesIff | RTI1W/Hittable.cs:71-87 | the list misses exactly when every item misses over the whole window |
| Queries.ListBeatsEveryItem | RTI1W/Hittable.cs:71-87 | for items with no BVH node inside, when some item hits, the list hits no later than that item |
| Queries.ListPick | RTI1W/Hittable.cs:71-87 | for items with no BVH node inside, the list's hit is the record of the last item whose nearest hit is the list's parameter; no item is earlier |
| Queries.ListPicksLastNearest | RTI1W/Hittable.cs:71-87 | for items with no BVH node inside, the list answers with the record of the last item attaining the nearest parameter |
| Queries.HitCut | RTI1W/Hittable.cs:78 | for a hittable with no BVH node inside, cutting the window at or above the hit leaves the answer unchanged |
| Queries.CandidatesUpToMembers | RTI1W/Hittable.cs:76-84 | a parameter is a candidate of the first `i` items exactly when it is a candidate of one of them |
| BvhQueries.SeenByEnclosing | RTI1W/Hittable.cs:46-49 | when every window holding a parameter passes the slab test for a box, every such window also passes it for each enclosing box |
| BvhQueries.PrimitiveBoxSound | RTI1W/Hittable.cs:46-49 | a primitive whose candidate points lie strictly inside its box passes its box's slab test in every non-empty window holding a candidate |
| BvhQueries.BvhPrunes | RTI1W/Hittable.cs:46-49 | when the slab test fails, a node misses whatever its children are |
| BvhQueries.NearestSeen | RTI1W/Hittable.cs:46-49 | when the slab test on a node's bounds passes in every window holding a candidate, it passes whenever the window's nearest candidate exists |
| BvhQueries.NodeIsNearest | RTI1W/Hittable.cs:42-55 | a node over sound children reports the least candidate of both children in the window |
| BvhQueries.CombineIsNearest | RTI1W/Hittable.cs:51-54 | the right child asked below the left hit, with the right hit preferred, gives the least candidate of both |
| BvhQueries.BvhIsNearest | RTI1W/Hittable.cs:42-55 | a sound tree reports exactly the least candidate parameter in the window |
| Bvh.ToNodeInfos | RTI1W/BvhHelper.cs:7-13 | one info per item, in order, holding the item, its box and the box's middle |
| Bvh.UnionBounds | RTI1W/BvhHelper.cs:28-32 | the bounds loop's box encloses every item's box |
| Bvh.UnionBoundsIsLeast | RTI1W/BvhHelper.cs:28-32 | every box enclosing all the items' valid boxes encloses the bounds loop's box |
| Bvh.ChooseSplitAxis | RTI1W/BvhHelper.cs:44-56 | the split axis has the largest size, and every axis after it in X, Y, Z order is strictly smaller |
| Bvh.SplitAxisUnique | RTI1W/BvhHelper.cs:44-56 | only one axis has those two properties |
| Bvh.CreateBvhSpan | RTI1W/BvhHelper.cs:21-64 | the builder fails with "span is empty" exactly on an empty span, otherwise returns a node whose bounds are the union of the span's boxes |
| Bvh.CreateBvh | RTI1W/BvhHelper.cs:5-17 | the public builder fails exactly on an empty list, otherwise returns a node whose bounds enclose every item's box |
| Bvh.SplitSpan | RTI1W/BvhHelper.cs:58-63 | a span of more than two is split into `n / 2` and `n - n / 2` items, together a reordering of the span, built into the two children |
| Bvh.HalvesItems | RTI1W/BvhHelper.cs:58-63 | the halves hold the span's hittables between them, each as often, and nothing else |
| Bvh.OneItemLeaves | RTI1W/BvhHelper.cs:34-37 | a single item sits on both sides of its node |
| Bvh.TwoItemLeaves | RTI1W/BvhHelper.cs:39-42 | two items sit one on each side |
| Bvh.BuiltLeaves | RTI1W/BvhHelper.cs:21-64 | the tree's leaves hold every item, nothing else, and exactly one extra copy per one-item span |
| Equivalence.BuiltCandidates | RTI1W/BvhHelper.cs:21-64 | the built tree's candidates are exactly the candidates of the span's hittables |
| Equivalence.BuiltSound | RTI1W/BvhHelper.cs:21-64 | built from items whose boxes are seen at their candidates, every node's bounds are seen at each of the node's candidates |
| Equivalence.BvhMatchesList | RTI1W/BvhHelper.cs:21-64 | for any reordering sort, the built BVH hits exactly when the list of the same items hits, at the same parameter, over every window with tMin < tMax |
| Equivalence.DegenerateWindowDiverges | RTI1W/Helpers.cs:154-159 | over a window with tMin == tMax, a list holding one box-sound shape hit at tMin reports the hit, while the BVH built over the same shape misses it |
| Equivalence.SameCandidates | RTI1W/BvhHelper.cs:7-13 | a parameter is a candidate of one of the infos exactly when it is a candidate of one of the items |
| Sorting.SortBy | RTI1W/BvhHelper.cs:44-56 | the sort returns a permutation of its input ordered by key |
| Sorting.Insert | RTI1W/BvhHelper.cs:44-56 | inserting into a sorted sequence adds the element and keeps it sorted |
| Ordering.Truncate | RTI1W/BvhHelper.cs:47 | the `(int)` cast truncates toward zero |
| Ordering.CompareAsWrittenAntisymmetric | RTI1W/BvhHelper.cs:47-55 | swapping the arguments negates the written comparator |
| Ordering.CompareAsWrittenTieIff | RTI1W/BvhHelper.cs:47-55 | the written comparator reports a tie exactly when the centres are less than 0.001 apart |
| Ordering.AsWrittenAgreesApart | RTI1W/BvhHelper.cs:47-55 | when the centres are at least 0.001 apart, the written comparator has the sign of their difference |
| Ordering.CompareAsWrittenNotTransitive | RTI1W/BvhHelper.cs:47 | centres 0, 0.0009 and 0.0018 tie pairwise along the chain but not at the ends |
| Ordering.CompareMiddlesIsOrder | RTI1W/BvhHelper.cs:47-55 | the corrected comparator is antisymmetric and transitive, and ties exactly on equal centres |
| Ordering.SortByMiddle | RTI1W/BvhHelper.cs:44-56 | the corrected sort permutes the span and orders it by centre on the axis |
| Ordering.MiddleOrder | RTI1W/BvhHelper.cs:44-56 | the corrected sort is a reordering, as the builder requires |
| Ordering.SortedBvhMatchesList | RTI1W/BvhHelper.cs:21-64 | usage example of the main theorem: with the corrected sort plugged in as the builder's order, the built BVH answers every query like the list |
| ListBuilding.AddItem | RTI1W/Hittable.cs:63-69 | `Add` appends the item, and the new box encloses the old box and the item's box |
| ListBuilding.AddAll | RTI1W/Hittable.cs:63-69 | adding items in turn appends them all, and the box encloses the old box and every item's box |
| ListBuilding.AddAllLeast | RTI1W/Hittable.cs:63-69 | any box enclosing the old box and all the items' boxes encloses the box after adding |
| ListBuilding.NewListAsWritten | RTI1W/Hittable.cs:60-61 | a new list's box, never assigned, is the all-zero box: it contains the origin |
| ListBuilding.AsWrittenBoxHoldsOrigin | RTI1W/Hittable.cs:60-69 | however many items are added, the list's box contains the origin |
| ListBuilding.AsWrittenBoxTooLarge | RTI1W/Hittable.cs:60-69 | a list holding one unit sphere at (10,10,10) has a box other than the sphere's, since that box does not contain the origin |
| ListBuilding.NewList | RTI1W/Box3.cs:8-14 | the corrected new list starts from the parameterless box, which contains no point |
| ListBuilding.ListBoxIsUnion | RTI1W/Hittable.cs:63-69 | from the corrected start, the list's box is the least box enclosing every item's box and equals the builder's bounds over the same items |

## Left out

- Material.cs, Camera.cs, Program.cs, Metrics and the scene set-up: they are shading, image output and counters, not intersection. `Metrics.EventRayBox` and `Metrics.EventRaySphere` calls are dropped.
- `Vec3.Length`, `UnitVector`, `Refract`, `DegreesToRadians`, the random helpers and the colour constants: each needs a square root or randomness and none is part of intersection.
- `Vec3.ToString` and `GetHashCode`: formatting and hashing only.
- IEEE-754 behaviour is not modelled. That covers rounding, NaN and infinite intermediate values. The one exception is the slab test's division by a zero direction component. There, the outcome of the IEEE infinities is modelled directly: the axis is unconstrained when the origin lies within the slab and excludes the ray otherwise.
- Ordering.CompareAsWritten: does not model the `int` overflow of the cast for centres more than about 2.1e6 apart, because reals have no range.
- `Math.Sqrt` is the parameter `sqrt`, constrained only by `IsSquareRoot`. `Span.Sort` is the parameter `order`, constrained only by `IsReordering`. The concrete insertion sort `Ordering.MiddleOrder` is one such order.
- Hittables.Hit: requires a non-zero ray direction and non-zero radii and distinct key times. Otherwise the source divides by zero and produces IEEE infinities or NaN, which the model does not represent.
- Equivalence.BvhMatchesList: assumes items with no BVH node inside (`NoBvh`) and boxes seen at every candidate (`BoxSound`). It also requires a window with tMin < tMax. It is weaker than "the BVH always equals the list" for three reasons:
  - A nested BVH can prune a hit that lies exactly on its window bound.
  - The strict `<` of the slab test can reject a sphere hit that lies exactly on its box's face at the window's end.
  - Over a window with tMin == tMax, the list accepts a hit at t = tMin, while the slab test returns false at its `tMax <= tMin` exit, so the BVH misses it (`Equivalence.DegenerateWindowDiverges`).
- `Hittables.Sphere` is not proved `BoxSound`. Its tangent and face-touching hits are the boundary cases above. `BvhQueries.PrimitiveBoxSound` shows the premise for shapes whose hits lie strictly inside their box.
- The `Ray` of the source has no `Time` field although `MovingSphere.Hit` reads `r.Time`. The model adds `time`, set to 0 by the two-argument constructor.
- Bvh.BuiltLeaves: counts leaves only for spans whose items are not themselves BVH nodes, because a node item's own children would be counted in its place.
- Boxes.UnionWithEmpty: the unit law is proved for boxes with finite corners only. The parameterless `Box3()` uses `double.MaxValue` and `double.MinValue`, not the infinities, so a box with an infinite corner is not left unchanged by a union with it.
- Vectors.Div: requires divisor components that are all non-zero. With a zero component the source yields an IEEE infinity or NaN, which reals do not represent.
- Vectors.DivScalar: requires a non-zero scalar, for the same reason.
- Vectors.ScalarDiv: requires the components of the divisor vector to be non-zero, for the same reason.
- Queries.ScanIsNearest: requires items with no BVH node inside (`NoBvh`). A nested BVH node is asked only up to the hit found so far and can prune its own earlier hit when its bounds meet the ray only beyond that window, so the scan need not end at the least candidate.
- Queries.ListBeatsEveryItem: requires `NoBvh`, for the reason given for `Queries.ScanIsNearest`.
- Queries.ListPick: requires `NoBvh`, for the reason given for `Queries.ScanIsNearest`.
- Queries.ListPicksLastNearest: requires `NoBvh`, for the reason given for `Queries.ScanIsNearest`.
- Queries.HitCut: requires `NoBvh`, for the reason given for `Queries.ScanIsNearest`.

## Findings

| source | as written | input that shows it | evidently intended | confidence | as-written member | corrected member |
|---|---|---|---|---|---|---|
| RTI1W/Hittable.cs:60-69 | `BoundingBox` has no initialiser, so a new list starts from the all-zero struct, not from the empty box, and `Add` unions every item into it | one unit sphere at (10,10,10): the list's box is (0,0,0)-(11,11,11) instead of (9,9,9)-(11,11,11) | start from `new Box3()`, the empty box, so the list's box is the union of the items' boxes | not executed | ListBuilding.AsWrittenBoxTooLarge | ListBuilding.ListBoxIsUnion |
| RTI1W/BvhHelper.cs:47-55 | the comparator truncates `(a - b) * 1000` to an int, so centres closer than 0.001 compare equal and "equal" is not transitive, which `Span.Sort` requires | centres 0, 0.0009 and 0.0018 on X compare 0, 0 and -1 | compare the centres themselves | not executed | Ordering.CompareAsWrittenNotTransitive | Ordering.CompareMiddlesIsOrder |
