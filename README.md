# bitray geometric core in Dafny

A model of the geometric-query skeleton of the bitray path tracer. Each Rust
file of the core is one Dafny module:

- `interval.dfy` (`Intervals`): the closed interval `[min, max]` of `src/interval.rs`,
  with the empty interval `{MAX, MIN}`. Also `contains`, `surrounds`, `universe`,
  `expand`, `overlaps`, `to_contain`, and the `stretch_min`/`stretch_max` that
  `from_points` calls.
- `aabb.dfy` (`Aabb`): the box of three intervals of `src/aabb.rs`. Also
  `from_extrema`, `to_contain`, the corners, `get_points`, the `from_points` loop,
  and the ray–slab test `hit`. The slab test runs over an IEEE-like extended real
  (`Ext`: finite, ±infinity, NaN), so a direction component of `+0.0` gives the
  infinite and NaN slab times it gives in `f32`.
- `hittable.dfy` (`Hittable`): `HitRecord` with `set_face_normal`,
  `HittableList::new` (the box fold) and `HittableList::hit` (the closest-so-far loop).
- `bvh.dfy` (`Bvh`): `BVH::build` (random-axis sort, median split, one- and
  two-object leaves) and the tree query `hit`. `build` sorts as written, by
  `z.min` whatever axis is drawn. The sort its comparator names promise is
  proved alongside. The query's correctness does not depend on the order.
- `quad.dfy` (`Quads`): the parallelogram of `src/quad.rs`: its construction,
  `build_aabb`, `is_interior`, `hit`, `pdf_value` and `random_vector_to_surface`.
- `mesh.dfy` (`Meshes`): the triangle loop of `Mesh::hit`.
- `pdf.dfy` (`Pdfs`): `CosinePDF`, `HittablePDF` and `MixturePDF`.

`Float` is `real`; `MAX` is the exact value of `f32::MAX` and `MIN` is `-MAX`.
A scene object (`dyn Hittable`) is a value of a type parameter. Its `hit`,
`bounding_box`, `pdf_value` and `random_vector_to_surface` are passed in as
functions. Randomness is a stream read at a cursor that each operation returns
advanced:

- `draws: nat -> Axis` for the BVH axis;
- `rng: nat -> real` for the PDF and quad draws.

`sqrt` enters as a `length` function constrained by `IsLength`. Trigonometry
enters as a parameter.

The headline theorem is `Bvh.HitFindsClosest`. Assume every object's hit lies
inside its interval and strictly inside its own box. Then the tree query misses
exactly when no object is hit; otherwise it returns an object's own hit that no
object beats. `Bvh.BvhAgreesWithList` ties this to the list loop `Hittable.Scan`
for objects that are also narrowing-consistent (`NarrowingConsistent`: asking about
a shorter interval gives the same hit, cut at the new bound). Quads are
(`Quads.QuadHitNarrowingConsistent`); the as-written mesh is not
(`Meshes.FirstHitBreaksNarrowing`).

The source files come from slightly different revisions. Where they disagree,
the model follows the calling code:

- `HitRecord::new` takes the surface coordinates as an `Option` because
  `src/quad.rs` passes them.
- `stretch_min`/`stretch_max` are only called, at `src/aabb.rs:112-117`; `src/interval.rs` has no definition of them. They are defined from those call sites.
- The target of `HittablePDF` brings its own `pdf_value` and
  `random_vector_to_surface`.

## Model

| member | source | states |
|---|---|---|
| Intervals.Surrounds | src/interval.rs:25-27 | strict membership implies closed membership |
| Intervals.Empty | src/interval.rs:7-14 | the default interval `{MAX, MIN}` contains no value and overlaps no interval, in either order |
| Intervals.Universe | src/interval.rs:33-35 | contains exactly the finite `f32` range and encloses every interval with finite ends |
| Intervals.Expand | src/interval.rs:37-41 | the width grows by exactly `delta` and the centre is unchanged |
| Intervals.ExpandWidens | src/interval.rs:37-41 | a non-negative pad encloses the original; a positive pad makes every contained value strictly inside |
| Intervals.Overlaps | src/interval.rs:43-47 | true iff some value lies strictly inside both intervals |
| Intervals.OverlapsSymmetric | src/interval.rs:43-47 | `overlaps` is symmetric |
| Intervals.ToContain | src/interval.rs:49-54 | the least interval enclosing both operands; it contains every value either contains |
| Intervals.ToContainCommutative | src/interval.rs:49-54 | union is commutative |
| Intervals.ToContainAssociative | src/interval.rs:49-54 | union is associative |
| Intervals.ToContainIdempotent | src/interval.rs:49-54 | union with itself is the identity |
| Intervals.EmptyIsIdentity | src/interval.rs:49-54 | the empty interval is a unit of union on both sides for intervals with finite ends |
| Intervals.StretchMin | src/aabb.rs:112-117 | lowers `min` to `x` when `x` is smaller and leaves `max` alone |
| Intervals.StretchMax | src/aabb.rs:112-117 | raises `max` to `x` when `x` is larger and leaves `min` alone |
| Aabb.Default | src/aabb.rs:4-9 | the default box contains no point |
| Aabb.FromExtrema | src/aabb.rs:16-34 | well-formed on every axis, contains both points, and is enclosed by every box containing both |
| Aabb.FromExtremaSymmetric | src/aabb.rs:16-34 | the order of the two corners does not matter |
| Aabb.ToContain | src/aabb.rs:72-78 | the least box enclosing both boxes; it contains every point of either |
| Aabb.ToContainCommutative | src/aabb.rs:72-78 | box union is commutative |
| Aabb.ToContainAssociative | src/aabb.rs:72-78 | box union is associative |
| Aabb.ToContainIdempotent | src/aabb.rs:72-78 | box union with itself is the identity |
| Aabb.MinCorner | src/aabb.rs:80-86 | lies in a well-formed box and is at or below every point of the box on each axis |
| Aabb.MaxCorner | src/aabb.rs:88-94 | lies in a well-formed box and is at or above every point of the box on each axis |
| Aabb.GetPoints | src/aabb.rs:96-107 | eight points, the low corner first and the high corner last, all inside a well-formed box |
| Aabb.GetPointsMissesCorner | src/aabb.rs:96-107 | the unit cube's corner `(1, 1, 0)` is not among the points |
| Aabb.Corners | src/aabb.rs:96-107 | all eight corners: every point listed is a corner and every corner is listed |
| Aabb.BoundsOf | src/aabb.rs:109-120 | the box after the stretching loop: the default box for no points, a well-formed box once any point is taken in |
| Aabb.BoundsOfContains | src/aabb.rs:109-120 | the stretched box contains every point taken in |
| Aabb.BoundsOfLeast | src/aabb.rs:109-120 | every box holding all (finite) points encloses the stretched box |
| Aabb.FromPoints | src/aabb.rs:109-120 | the stretching loop from the default box yields `BoundsOf` of the points; it contains each point and, when the points are finite, every box holding them encloses it |
| Aabb.FromPointsGetPointsRoundTrip | src/aabb.rs:96-120 | rebuilding a well-formed finite box from `get_points` gives the box back |
| Aabb.FromPointsCornersRoundTrip | src/aabb.rs:96-120 | the same round trip through the full corner list |
| Aabb.Window | src/aabb.rs:37-64 | the working interval after each axis never holds NaN and stays within the starting interval |
| Aabb.WindowNarrows | src/aabb.rs:50-64 | per axis, `ray_t.min` never decreases and `ray_t.max` never increases |
| Aabb.EmptyWindowStaysEmpty | src/aabb.rs:65-67 | once the window is empty it stays empty on later axes |
| Aabb.SlabHitIffFinalWindowNonEmpty | src/aabb.rs:65-69 | the test passes iff the final window is non-empty; it fails when the input interval is already empty |
| Aabb.Hit | src/aabb.rs:36-70 | the narrowing loop with early exit returns exactly the slab-test verdict |
| Aabb.SlabStraddles | src/aabb.rs:45-64 | a point strictly between an axis' planes has its `t` strictly between the slab's two times |
| Aabb.WindowKeepsInteriorPoint | src/aabb.rs:37-68 | while the ray is strictly inside the box at `t`, `t` stays strictly inside a non-empty window |
| Aabb.SlabHitSound | src/aabb.rs:36-70 | a ray strictly inside the box at some `t` of a non-degenerate interval passes the test |
| Hittable.SetFaceNormal | src/hittable.rs:37-44 | front face iff the ray opposes the outward normal; the stored normal is the outward one or its negation and never faces along the ray; other fields kept |
| Hittable.NewHitRecord | src/hittable.rs:18-44 | stores `p`, `t`, material and coordinates unchanged; front face iff the ray opposes the outward normal; the normal is the outward one on the front face and its negation otherwise (a grazing ray included), so it never faces along the ray |
| Hittable.BoxOfAllEncloses | src/hittable.rs:60-64 | the folded box encloses every member's box |
| Hittable.NewHittableList | src/hittable.rs:60-77 | the fold loop's box encloses every member's box and is the default box for an empty list |
| Hittable.Scan | src/hittable.rs:81-98 | the loop state `(rec, closest_so_far)`: `closest_so_far` is the interval's end while nothing is found and the record's `t` after; `rec` is `None` iff no object reports a hit for the original interval |
| Hittable.ListHit | src/hittable.rs:81-98 | the closest-so-far loop; `None` iff no object reports a hit for the original interval |
| Hittable.ScanClosestNeverIncreases | src/hittable.rs:83-95 | `closest_so_far` never grows from one object to the next |
| Hittable.FoundNonIncreasing | src/hittable.rs:93-98 | the records found have non-increasing `t`, so the one returned is at or below all earlier ones |
| Hittable.ScanFindsClosest | src/hittable.rs:81-98 | for objects that respect the interval and are narrowing-consistent (`NarrowingConsistent`), the loop returns `None` iff nothing is hit, and otherwise a hit no object beats |
| Bvh.BoxXCompare | src/bvh.rs:34-39 | as written it is the `z` comparator |
| Bvh.BoxYCompare | src/bvh.rs:41-46 | as written it is the `z` comparator |
| Bvh.BoxZCompare | src/bvh.rs:48-53 | orders two objects by their boxes' `z.min`, as the keyed comparator on the `z` axis does |
| Bvh.CompareAsWritten | src/bvh.rs:62-67 | whichever axis is drawn, the comparator passed to `sort_by` orders by `z.min` |
| Bvh.SortAsWritten | src/bvh.rs:34-67 | the sort is a permutation ordered by `z.min`, whatever axis was drawn |
| Bvh.AsWrittenSortIgnoresAxis | src/bvh.rs:34-67 | the drawn axis never changes the sorted order |
| Bvh.AsWrittenXSortIsNotByX | src/bvh.rs:34-39 | two concrete boxes that the `x` sort leaves in decreasing `x.min` order |
| Bvh.InsertSorted | src/bvh.rs:61-67 | inserting into a sorted sequence keeps it sorted and adds exactly that element |
| Bvh.SortBySorted | src/bvh.rs:61-67 | sorting with a comparator keyed by `key` gives a permutation sorted by `key` |
| Bvh.SortObjects | src/bvh.rs:58-67 | the corrected sort is a permutation ordered by the drawn axis' `min` |
| Bvh.Split | src/bvh.rs:87-97 | the partition loop puts the first `mid` objects (all of them if there are fewer) left and the rest right, in order |
| Bvh.SplitSizesProgress | src/bvh.rs:86-100 | for three or more objects both halves are non-empty and smaller; for none, both halves are empty again |
| Bvh.Build | src/bvh.rs:57-110 | a non-empty list gives a tree whose node boxes are the unions of their children's boxes (or the object's box), whose leaves are the list's objects, and whose leaf multiset is the list for distinct objects; its shape (`BuildShape`): one object gives two copies of its leaf, two give two leaves in `z.min` order, more give two sub-trees with every left object at or below every right object in `z.min` |
| Bvh.New | src/bvh.rs:54-56 | no tree exactly for the empty list; otherwise a consistent tree over the list's objects |
| Bvh.BoundingBox | src/bvh.rs:142-144 | the node's stored box, which for a consistent tree encloses every object's box below it |
| Bvh.BoxEnclosesLeaves | src/bvh.rs:69-108 | a built tree's box encloses every leaf's box |
| Bvh.NodeBoxEnclosesLeaves | src/bvh.rs:69-108 | the same for a child node |
| Bvh.Hit | src/bvh.rs:113-140 | `None` when the box fails the slab test; otherwise a hit iff either child hits, namely one of the children's hits, at or below each child's `t`, and the left child's on equal `t`; whatever it returns is some leaf's own hit |
| Bvh.NodeHit | src/bvh.rs:122-130 | a child's hit is some leaf's own hit |
| Bvh.SingleLeafHit | src/bvh.rs:113-140 | a one-object node answers as its object when the box test passes and misses when it fails |
| Bvh.HitFindsClosest | src/bvh.rs:113-140 | under box-hit soundness, `None` iff no leaf is hit, otherwise a leaf's hit that no leaf beats |
| Bvh.NodeHitFindsClosest | src/bvh.rs:122-130 | the same for a child node |
| Bvh.BvhAgreesWithList | src/bvh.rs:113-140 | for narrowing-consistent objects (`NarrowingConsistent`) that hit inside their boxes, the tree query and the list loop over the same objects both miss, or both hit at the same `t` |
| Quads.BuildAabb | src/quad.rs:45-47 | a well-formed box holding all four corners |
| Quads.BuildAabbIsSmallest | src/quad.rs:45-47 | every box holding the four corners encloses it |
| Quads.PadAxis | src/quad.rs:45-47 | the result encloses the input; a well-formed axis comes back at least `PadDelta` wide or unchanged, and non-degenerate unless it was already `PadDelta` wide |
| Quads.PaddedAabb | src/quad.rs:45-47 | encloses `build_aabb`'s box, holds the corners, and is at least `PadDelta` wide on every axis |
| Quads.NewQuad | src/quad.rs:27-43 | `w·(u×v) = 1`, the normal has unit length and `normal × area = u×v` (so it is `u×v` normalised), the area is the positive length of `u×v`, `q` lies on the plane `normal·p = d` |
| Quads.NewQuadOfUnitCross | src/quad.rs:27-43 | when `u×v` already has unit length it is both the normal and `w`, and the area is one |
| Quads.FloorSquareFields | src/quad.rs:27-43 | the unit floor square built by `new` is the quad used in the flat-box lemmas |
| Quads.QuadCoordsOfPoint | src/quad.rs:77-82 | the plane coordinates of the point `q + a u + b v` are `(a, b)` |
| Quads.IsInterior | src/quad.rs:49-57 | `Some((alpha, beta))` iff both lie in the closed `[0, 1]`, else `None` |
| Quads.PlaneTOnPlane | src/quad.rs:66-77 | off the parallel guard, the point at the computed `t` lies on the quad's plane |
| Quads.QuadHit | src/quad.rs:61-95 | `None` when `abs(normal·direction) < 1e-8`, or `t` is outside the interval, or the point is outside the quad; otherwise the record at that `t` and point, with the quad's coordinates and material |
| Quads.QuadHitNarrowingConsistent | src/quad.rs:61-95 | a hit lies in its interval, and asking about a shorter interval gives the same hit cut at the new bound |
| Quads.PdfValue | src/quad.rs:105-117 | zero when the ray misses the quad, positive when it hits |
| Quads.PdfPositive | src/quad.rs:105-117 | on a hit the direction's length, the cosine, the squared distance and the quotient are all positive |
| Quads.RandomVectorToSurface | src/quad.rs:119-122 | the vector from `origin` to the quad point at the next two draws, taken in order |
| Quads.SampledPointIsInterior | src/quad.rs:119-122 | for draws in `[0, 1]` the sampled point passes the interior test with exactly those coordinates |
| Quads.FloorSquareHit | src/quad.rs:61-95 | the downward ray onto the floor square's centre hits it at `t = 1` |
| Quads.FloorSquareFlatBox | src/quad.rs:45-47 | the floor square's `build_aabb` box is flat in `y` |
| Quads.FlatBoxRejectsDownRay | src/aabb.rs:50-67 | the slab test rejects the downward ray against the flat box |
| Quads.FlatBoxHidesQuad | src/quad.rs:45-47 | with the flat box, a one-object tree misses a quad that is hit |
| Quads.FloorSquarePaddedBox | src/quad.rs:45-47 | the padded box of the floor square, axis by axis |
| Quads.PaddedBoxAcceptsDownRay | src/aabb.rs:36-70 | the slab test accepts the downward ray against the padded box |
| Quads.PaddedBoxShowsQuad | src/quad.rs:45-47 | with the padded box, the one-object tree returns the quad's hit |
| Meshes.FirstMatch | src/mesh.rs:71-83 | the index of the first triangle that reports an intersection; `None` iff none does |
| Meshes.FirstHit | src/mesh.rs:71-83 | `None` iff every triangle misses; otherwise the record of the first triangle that hits, with the mesh's material |
| Meshes.Hit | src/mesh.rs:66-83 | the loop with early return answers exactly the first-match result |
| Meshes.FirstMatchIgnoresLater | src/mesh.rs:71-81 | no triangle after the first match is consulted: later triangles do not change the answer |
| Meshes.FirstMatchIsNotClosest | src/mesh.rs:71-81 | triangles crossed at `t = 5` then `t = 2` give `t = 5`; the closest search gives `t = 2` |
| Meshes.ClosestHit | src/mesh.rs:71-83 | the corrected search misses iff every triangle misses |
| Meshes.FirstHitBreaksNarrowing | src/mesh.rs:71-81 | the mesh crossed at `t = 5` then `t = 2` answers `t = 5` on `[0.001, 10]` and `t = 2` on `[0.001, 3]`, so as written it is not narrowing-consistent |
| Meshes.ClosestHitIsClosest | src/mesh.rs:71-83 | the corrected search misses iff every triangle misses, otherwise returns a triangle's record that no triangle beats, with the mesh's material |
| Pdfs.CosineValue | src/pdf.rs:26-29 | never negative, zero iff the cosine is not positive, otherwise the cosine over pi |
| Pdfs.Value | src/pdf.rs:47-50 | the object density delegates to its target's `pdf_value` from the stored origin |
| Pdfs.Generate | src/pdf.rs:71-78 | the mixture returns `a`'s sample iff the draw is below one half and `b`'s otherwise; the object density delegates to its target's sampler |
| Pdfs.MixtureSymmetric | src/pdf.rs:80-86 | the mixture value does not depend on the order of its components |
| Pdfs.MixtureBetween | src/pdf.rs:80-86 | the mixture value lies between its components' values |
| Pdfs.ValueNonNegative | src/pdf.rs:80-86 | every density is non-negative when the objects' `pdf_value` is |
| Pdfs.SampleFromLeaf | src/pdf.rs:71-78 | every sample is a sample of one leaf density at a later point of the stream |
| Pdfs.QuadLightSample | src/pdf.rs:52-54 | sampling towards a quad gives the vector to the quad point at the two draws, inside the quad |

## Left out

- Floating point: `f32` rounding, overflow and `-0.0` are not modelled. Only the slab test works over an extended real, and there only for a `+0.0` direction component. `f32::max`/`min` with NaN operands are not modelled.
- Aabb.Hit: `-0.0` direction components and reciprocal overflow in the slab test are not modelled. Every zero component is taken as `+0.0`, and `1 / d` of a subnormal `d` stays finite. With `-0.0`, `f32` gives the opposite infinities, so a ray whose origin lies on a box's low face and runs parallel to it passes that axis in `f32` and fails it in the model.
- `Interval::new`, `AABB::new`, `Mesh::new` and the PDF constructors are datatype constructors.
- In-place updates become value updates. `expand`, `stretch_min`/`stretch_max` and `set_face_normal` mutate through `&mut self`. `Interval` and `AABB` are `Copy` values. `HitRecord::new` owns the record that `set_face_normal` updates, so a value update loses nothing.
- `name` fields, `get_name` and the `Debug` implementations are not modelled.
- `AABB::transform` is not modelled: it multiplies by a `glam` matrix.
- `MeshOptions::from_file` is not modelled: it loads assets through `russimp`.
- Ray is a datatype in `vectors.dfy` with `at` as a function; `src/ray.rs` is not part of this model.
- Bvh.SortAsWritten: `sort_by` becomes an insertion sort with the same contract (a permutation ordered by key). Rust's sorting algorithm and its tie order are not modelled. The comparators never return `Equal`, so equal keys are not a total order, and what the standard sort does then is not modelled.
- Bvh.Build: the tree's multiset of leaves is claimed equal to the input only for lists without repeated objects. A node holding the same object twice looks like the one-object node, which holds its object on both sides.
- Hittable.ScanFindsClosest, Bvh.BvhAgreesWithList: both require every object to be narrowing-consistent. The as-written `Mesh::hit` is not (`Meshes.FirstHitBreaksNarrowing`), and `src/main.rs:96-105` puts six meshes into the tree. So neither lemma covers the scene the program builds. The tree theorem `Bvh.HitFindsClosest` does not need this assumption.
- Bvh.HitFindsClosest, Bvh.NodeHitFindsClosest, Bvh.BvhAgreesWithList: box-hit soundness is required with the hit point strictly inside its box and a non-degenerate interval. The slab test can reject a ray that only grazes a box face.
- Quads.NewQuad: requires edges that are not parallel. For parallel edges the source divides by zero and every derived field is NaN. The box is the padded one, not `build_aabb`'s (see Findings).
- Quads.PdfValue: requires a `length` function that is a square root and a positive area. The source divides by both.
- Quads.QuadHit: the vector arithmetic is exact. `normalize`, `length` and the `1e-8` parallel guard are modelled over reals.
- Meshes: the triangle's own ray test (Möller–Trumbore, `src/triangle.rs`) is a function parameter.
- Pdfs: `ONB::new` (normalisation and a cross product) is not modelled; the basis is given. `random_cosine_direction` (trigonometry) is a parameter fed two draws. `normalize` in `CosinePDF::value` is a parameter.
- Randomness: `rand::thread_rng` and `rand::random` are draws from a stream parameter.

## Findings

| source | as written | input that shows it | evidently intended | confidence | as-written member | corrected member |
|---|---|---|---|---|---|---|
| src/bvh.rs:34-46 | `box_x_compare` and `box_y_compare` compare `z.min`, like `box_z_compare` | boxes with x = [0,1], z = [5,6] and x = [2,3], z = [0,1], sorted on the x axis, come out with decreasing `x.min` | each comparator keys on its own axis; `Bvh.Build` keeps the as-written sort, and `Bvh.HitFindsClosest` holds for any order, so only the tree's quality suffers | high, not executed | Bvh.AsWrittenXSortIsNotByX | Bvh.SortObjects |
| src/quad.rs:45-47 | `build_aabb` is flat on an axis the quad does not extend along, so the slab test narrows the window to a single point and rejects the ray | the unit square in the plane y = 0, a ray from (0.5, 1, 0.5) straight down, interval [0.001, MAX]: the quad is hit at t = 1, but a tree node over it misses | pad thin axes so that a ray through the quad passes the box | medium, not executed | Quads.FlatBoxHidesQuad | Quads.PaddedAabb |
| src/bvh.rs:54-110 | `BVH::new` of an empty list takes the split branch with `mid = 0` and recurses on two empty lists without end | an empty object list | reject the empty list | high, not executed | Bvh.SplitSizesProgress | Bvh.New |
| src/aabb.rs:96-107 | `get_points` lists the high corner twice and never lists `(x.max, y.max, z.min)` | the unit cube: (1, 1, 0) is not among the points | list each of the eight corners once | high, not executed | Aabb.GetPointsMissesCorner | Aabb.Corners |
| src/mesh.rs:71-81 | `Mesh::hit` returns the first triangle in list order that is hit, not the nearest | triangles crossed at t = 5 and then t = 2 give t = 5 | the closest hit, as `HittableList::hit` finds it | medium, not executed | Meshes.FirstMatchIsNotClosest | Meshes.ClosestHitIsClosest |
