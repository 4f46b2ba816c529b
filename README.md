# Ray tracer core: spatial index, closest hit, ray casting and test utilities

This project models, in Dafny, the core of a small C++ ray tracer. It then
proves properties of that model.

- **Vector algebra** (`Vector3Math`). The vector value type, over the reals.
- **Bounding boxes** (`Bounds`). An AABB is a pair of corners, and `subsume` is the componentwise hull.
- **The BSP tree** (`BSP`).
  - It is built recursively over scene objects. A node stops at a leaf on few objects or at maximum depth. Otherwise it splits along the longest axis, at the median of the objects sorted by box centre.
  - A query walks it depth first, pruning every subtree whose box the ray misses.
  - `BSPTree` is a class whose `root` the build replaces. Its nodes form an inductive tree.
- **The nearest-hit search** (`ClosestHit`). The running-minimum loop shared by the scene and by meshes. It starts from the `-1` sentinel and keeps the earliest object on ties.
- **The scene** (`SceneModel`).
  - `Scene` holds the object and light lists and the BSP.
  - `prepare` transforms each object, recomputes its box, then builds the tree.
  - `closestIntersection` finds the nearest hit, and `raycast` recursively follows reflections up to a cast limit.
- **Meshes** (`MeshModel`).
  - `Mesh` loads one triangle per index triple and hands its material and transform to the triangles.
  - It recomputes its box and triangle BSP, and finds the nearest triangle hit.
- **The camera** (`CameraModel`). The row-band pixel loop and `render`, which prepares the scene and traces one ray per pixel.
- **Test utilities**:
  - `ImageHasher`: 64-bit FNV-1a over image bytes, as in section 2 of draft-eastlake-fnv, rendered as 16 hexadecimal digits.
  - `ImageComparator`: the byte-wise comparison of two images within a tolerance.
  - `SceneRegistry`: the list of test scenes and lookup by name.
- **Digit strings** (`Numerals`). Decimal and fixed-width hexadecimal digit strings, as `std::to_string` and a `hex`/`setw`/`setfill('0')` stream write them.

The `USE_AABB` and `USE_BSPTREE` build switches become the per-object flags `useAabb` and `useBsp`.

Everything the core only calls is a parameter:
- the ray-versus-box slab test;
- the exact per-object intersection test;
- the per-object transform and box steps;
- material shading, `sqrt`, and `COMPARE_ERROR_CONSTANT`;
- the OBJ reader's output and the PNG decoder.

Where the model shows a behaviour of the code that a reader might not expect, it keeps that behaviour:
- With the BSP on, an empty candidate list ends `closestIntersection` with a default record. There is no fallback to a full scan.
- `Camera::render` passes the pixel ray as the camera ray, so the camera's own position never enters the image.
- The comparator's pixel count is a product of two `unsigned` values, so it wraps modulo 2^32.
- A negative `minObjects` wraps through `static_cast<size_t>`.
- With `USE_BSPTREE` on and `USE_AABB` off, `Scene::prepare` (src/rayscene/Scene.cpp:41-44) never recomputes object boxes. The tree is then built over stale boxes, and `Mesh::calculateBoundingBox`, the only place a mesh's triangle tree is built, is never called. `BspScanAgreesWithFullScan` therefore requires boxes to be tested.

One lemma, `BspScanAgreesWithFullScan`, shows that the BSP loses nothing. With boxes tested and a box test monotone under containment, scanning the candidates finds a hit exactly when scanning all objects does, at the same squared distance.

## Model

| member | source | states |
|---|---|---|
| Vector3Math.Div | src/raymath/Vector3.cpp:61-69 | for a non-zero divisor, scaling the quotient back by the divisor gives the vector |
| Vector3Math.LengthSquared | src/raymath/Vector3.cpp:84-87 | the squared length is never negative |
| Vector3Math.Normalize | src/raymath/Vector3.cpp:104-114 | the zero vector normalises to the zero vector; any other vector normalises to squared length 1, pointing the same way (a positive multiple of the input) |
| Vector3Math.Inverse | src/raymath/Vector3.cpp:139-143 | for non-zero components, each component of the result times the original component is 1 |
| Vector3Math.InverseInvolutive | src/raymath/Vector3.cpp:139-143 | inverting twice gives the vector back |
| Vector3Math.AddSubInverse | src/raymath/Vector3.cpp:17-33 | componentwise + and - undo each other |
| Vector3Math.DotSymmetric | src/raymath/Vector3.cpp:116-119 | the dot product is symmetric |
| Vector3Math.DotSelfIsLengthSquared | src/raymath/Vector3.cpp:84-87 | a vector dotted with itself is its squared length |
| Vector3Math.ProjectOnUnit | src/raymath/Vector3.cpp:121-124 | onto a unit vector the projection keeps the component along it and leaves an orthogonal remainder |
| Vector3Math.ReflectComponents | src/raymath/Vector3.cpp:126-131 | reflect(d, n) = d - 2 (d.n) n |
| Vector3Math.ReflectFlipsNormalComponent | src/raymath/Vector3.cpp:126-131 | for a unit normal, reflect(d, n).n = -(d.n) |
| Vector3Math.ReflectInvolutive | src/raymath/Vector3.cpp:126-131 | reflecting twice about the same unit normal gives the direction back |
| Vector3Math.ReflectKeepsLength | src/raymath/Vector3.cpp:126-131 | reflection about a unit normal keeps the squared length |
| Vector3Math.CrossOrthogonal | src/raymath/Vector3.cpp:133-137 | a.(a x b) = 0, b.(a x b) = 0, and b x a = -(a x b) |
| Bounds.SubsumeIsLeastUpperBound | src/rayscene/BSPTree.cpp:105-107 | a subsumed box holds both boxes and lies inside any box that holds both |
| Bounds.SubsumeAllContainsEach | src/rayscene/BSPTree.cpp:101-109 | the first box subsumed with every later one holds each of them |
| Bounds.SubsumeAllIsLeast | src/rayscene/BSPTree.cpp:101-109 | any box holding every box holds their fold |
| Bounds.SubsumeAllOrderIndependent | src/rayscene/BSPTree.cpp:101-109 | folding the same boxes in any order gives the same box |
| BSP.BoundsOfContainsEach | src/rayscene/BSPTree.cpp:96-110 | the enclosing box of a list holds every object's box |
| BSP.ComputeBoundingBox | src/rayscene/BSPTree.cpp:96-110 | an empty list gives the default box; otherwise the first box subsumed with each later one in order, holding every object's box |
| BSP.SplitAxis | src/rayscene/BSPTree.cpp:112-125 | returns 0, 1 or 2, an axis of maximal extent, with ties going to X and then Y |
| BSP.SortByKey | src/rayscene/BSPTree.cpp:73-81 | the sort by box centre is a permutation of its input, in ascending key order |
| BSP.BuildNode | src/rayscene/BSPTree.cpp:54-94 | the leaves together hold exactly the input multiset; the tree is at most maxDepth - depth + 1 levels high |
| BSP.ReorderedByBuild | src/rayscene/BSPTree.cpp:54-81 | the caller's list after a build is a permutation of itself, and is untouched when the node stops or the list is empty |
| BSP.BuildRecursive | src/rayscene/BSPTree.cpp:54-94 | returns the node BuildNode describes, and leaves the caller's list reordered as ReorderedByBuild says |
| BSP.SplitByCentre | src/rayscene/BSPTree.cpp:69-91 | an interior node's left child holds size/2 objects, and every object on the left has a centre on the split axis no greater than every object on the right |
| BSP.BuildFollowsStoppingRule | src/rayscene/BSPTree.cpp:62-67 | a node is a leaf holding exactly its input iff the input is non-empty and count <= size_t(minObjects) or depth >= maxDepth, at every node; interior nodes hold no objects |
| BSP.BuildEncloses | src/rayscene/BSPTree.hpp:21-27 | every node's box holds the box of every object beneath it |
| BSP.DefaultBuildShape | src/rayscene/BSPTree.hpp:44 | with the defaults maxDepth 10 and minObjects 2, the tree is at most 11 levels high, follows the stopping rule and keeps every object |
| BSP.CandidatesWithinElements | src/rayscene/BSPTree.cpp:146-166 | the candidates are a sub-multiset of the stored objects: nothing is duplicated or invented |
| BSP.CandidatesAreVisibleLeaves | src/rayscene/BSPTree.cpp:146-166 | the candidates are the left-to-right concatenation of the objects of leaves whose own box and every ancestor box the ray hits |
| BSP.NoFalseNegatives | src/rayscene/BSPTree.cpp:150-154 | with boxes that enclose their objects and a box test monotone under containment, an object whose own box is hit is among the candidates |
| BSP.TraverseRecursive | src/rayscene/BSPTree.cpp:146-166 | appends exactly the candidates of the subtree to the output list |
| BSP.BSPTree.constructor | src/rayscene/BSPTree.cpp:20 | a new tree has no root |
| BSP.BSPTree.Build | src/rayscene/BSPTree.cpp:45-52 | an empty list leaves no root; otherwise the root is the built tree and the caller's list is reordered as the build sorts it |
| BSP.BSPTree.Intersects | src/rayscene/BSPTree.cpp:135-144 | the output list is cleared and then holds exactly the candidates; the result is true iff there is one, and false for an empty tree |
| ClosestHit.Recorded | src/rayscene/Scene.cpp:110-118 | a hit's distance field holds its squared distance from the ray origin, which is never negative and so never the sentinel |
| ClosestHit.NearestIsFirstClosest | src/rayscene/Scene.cpp:100-119 | the reference search finds nothing iff no object passes its box test and hits; otherwise it finds the first object at minimum squared distance |
| ClosestHit.SameHitsSameDistance | src/rayscene/Scene.cpp:100-142 | two lists holding the same hitting objects give a hit together, at the same squared distance |
| ClosestHit.Scan | src/rayscene/Scene.cpp:100-119 | the sentinel loop reports a hit iff the reference search finds one and returns its record; otherwise it returns the default record |
| SceneModel.Scene.constructor | src/rayscene/Scene.cpp:5-7 | a new scene has no objects, no lights and an empty tree |
| SceneModel.Scene.Add | src/rayscene/Scene.cpp:25-28 | appends the object at the end, and the lights are unchanged |
| SceneModel.Scene.AddLight | src/rayscene/Scene.cpp:30-33 | appends the light at the end, and the objects are unchanged |
| SceneModel.Scene.PreparedAll | src/rayscene/Scene.cpp:38-45 | each object is transformed and, with boxes on, re-boxed, position by position |
| SceneModel.Scene.Prepare | src/rayscene/Scene.cpp:35-52 | the prepared objects are a permutation of the transformed ones; with the BSP on, the tree is built from them with the defaults and the list is reordered as the build sorts it; the lights are unchanged |
| SceneModel.Scene.ClosestIntersection | src/rayscene/Scene.cpp:84-147 | reports a hit iff the search over the scope finds one and returns its record, otherwise the default record; with the BSP on and no candidates it reports none |
| SceneModel.Scene.Raycast | src/rayscene/Scene.cpp:149-178 | at any cast count the colour is black when nothing is hit or the nearest hit has no material |
| SceneModel.Scene.Bounces | src/rayscene/Scene.cpp:149-178 | the number of nested reflected casts is at most maxCastCount - castCount |
| SceneModel.Scene.RaycastNeedsOnlyBounces | src/rayscene/Scene.cpp:166-173 | the colour depends only on the reflected casts actually made: capping the limit at castCount plus that number gives the same colour |
| SceneModel.Scene.RaycastDependsOnCastsLeft | src/rayscene/Scene.cpp:166-172 | only the number of casts left matters: shifting castCount and maxCastCount together gives the same colour |
| SceneModel.Scene.RaycastAtLimit | src/rayscene/Scene.cpp:152-177 | at the cast limit no reflected ray is cast: the colour is black without a hit, and otherwise the shading of the nearest hit alone |
| SceneModel.BspScanAgreesWithFullScan | src/rayscene/Scene.cpp:91-143 | with boxes tested and a monotone box test, scanning the BSP candidates and scanning every object agree on whether there is a hit and at what squared distance |
| Numerals.Decimal | src/rayscene/Mesh.cpp:51 | the decimal rendering is non-empty and made of digits |
| Numerals.DecimalRoundTrip | src/rayscene/Mesh.cpp:51 | reading a decimal rendering back gives the number |
| Numerals.DecimalInjective | src/rayscene/Mesh.cpp:51 | distinct numbers have distinct decimal renderings |
| Numerals.FixedHex | tests/utils/ImageHasher.cpp:22-26 | the rendering has exactly the requested width and uses only lowercase hexadecimal digits |
| Numerals.FixedHexRoundTrip | tests/utils/ImageHasher.cpp:22-26 | a number that fits the width reads back from its zero-padded hexadecimal rendering |
| MeshModel.FaceAt | src/rayscene/Mesh.cpp:34-52 | the triangle of the triple starting at index j has ID j and name "T:" followed by j in decimal |
| MeshModel.Faces | src/rayscene/Mesh.cpp:32-54 | one face per consecutive index triple, in order |
| MeshModel.FaceNamesDistinct | src/rayscene/Mesh.cpp:51-52 | within one loaded sub-mesh no two triangles share an ID or a name |
| MeshModel.Mesh.constructor | src/rayscene/Mesh.cpp:7-9 | a new mesh has no triangles and an empty triangle tree |
| MeshModel.Mesh.ApplyTransform | src/rayscene/Mesh.cpp:62-71 | every triangle is given the mesh's material and transform and applies it, in place; the mesh box, material and transform are unchanged |
| MeshModel.Mesh.AppendFaces | src/rayscene/Mesh.cpp:32-54 | appends one triangle per index triple of one sub-mesh, in order |
| MeshModel.Mesh.LoadFromObj | src/rayscene/Mesh.cpp:20-60 | appends the triangles of every loaded sub-mesh in order (none when the file did not load), then every triangle takes the mesh's material and transform; the mesh box, material and transform are unchanged |
| MeshModel.Mesh.CalculateBoundingBox | src/rayscene/Mesh.cpp:73-103 | an empty mesh gets both corners at the origin and no tree rebuild; otherwise every triangle is re-boxed, the mesh box is the ordered fold of their boxes and holds each, and with the BSP on the triangle tree is built with maxDepth 15 and minObjects 4 |
| MeshModel.Mesh.Intersects | src/rayscene/Mesh.cpp:105-182 | a missed mesh box gives no hit; otherwise a hit iff the search over the scope finds one and returns its record; with no hit the caller's record is returned unchanged |
| CameraModel.PixelRay | src/rayscene/Camera.cpp:76-84 | the pixel ray starts at (0, 0, -1), and origin plus direction is (-0.5 + x intervalX, halfHeight - y intervalY, 0) |
| CameraModel.RenderSegment | src/rayscene/Camera.cpp:70-90 | every pixel with rowMin <= y < rowMax and 0 <= x < width is set to the raycast colour of its pixel ray, and no other pixel changes |
| CameraModel.Camera.constructor | src/rayscene/Camera.cpp:25-27 | the camera starts at the given position |
| CameraModel.Camera.AtOrigin | src/rayscene/Camera.cpp:21-23 | the default camera starts at the origin |
| CameraModel.Camera.GetPosition | src/rayscene/Camera.cpp:33-36 | returns the position, so it returns the value the last SetPosition set |
| CameraModel.Camera.SetPosition | src/rayscene/Camera.cpp:38-41 | sets the position and nothing else |
| CameraModel.Camera.Render | src/rayscene/Camera.cpp:104-127 | prepares the scene, then sets every pixel of the image to the raycast colour of its ray, with both intervals 1/width and half height (height/width)/2; the scene's objects, tree and lights afterwards are exactly as Prepare leaves them |
| CameraModel.ViewportIntervals | src/rayscene/Camera.cpp:107-112 | for positive dimensions intervalY equals intervalX = 1/width and halfHeight = (height/width)/2 |
| ImageHasher.FnvFoldAppend | tests/utils/ImageHasher.cpp:14-18 | hashing a + b is hashing a, then continuing with b from that state |
| ImageHasher.Fnv1aIncremental | tests/utils/ImageHasher.cpp:15-18 | hash(s + [b]) = (hash(s) xor b) * prime modulo 2^64 |
| ImageHasher.Fnv1aEmpty | tests/utils/ImageHasher.cpp:12-19 | the empty buffer hashes to the offset basis 0xcbf29ce484222325 |
| ImageHasher.Fnv1aOfA | tests/utils/ImageHasher.cpp:10-20 | the hash of the single byte "a" is the published FNV-1a 64-bit test vector 0xaf63dc4c8601ec8c |
| ImageHasher.SimpleHash | tests/utils/ImageHasher.cpp:10-20 | the loop computes the FNV-1a hash of the buffer |
| ImageHasher.HashToHex | tests/utils/ImageHasher.cpp:22-26 | exactly 16 lowercase hexadecimal digits, which read back as the hash |
| ImageHasher.HashToHexInjective | tests/utils/ImageHasher.cpp:22-26 | distinct hashes are written differently |
| ImageHasher.ComputeImageHash | tests/utils/ImageHasher.cpp:28-43 | empty iff the image did not decode; otherwise the hexadecimal digits of the hash of the decoded bytes |
| ImageHasher.CompareByHash | tests/utils/ImageHasher.cpp:45-64 | a match needs both images to decode, and a decodable image matches itself |
| ImageHasher.CompareByHashMeansEqualHashes | tests/utils/ImageHasher.cpp:45-64 | a match iff both images decode and their byte buffers have equal hashes |
| ImageHasher.HashPathFor | tests/utils/ImageHasher.cpp:72 | an empty hash path defaults to the image path with ".hash" appended; otherwise the given path |
| ImageHasher.SaveHash | tests/utils/ImageHasher.cpp:66-85 | saves iff the image decodes and the output file opens, and saves to the default or the given path |
| ImageHasher.LoadHash | tests/utils/ImageHasher.cpp:87-98 | the text of the file up to its first line end (or all of it when there is none), or empty when the file does not open |
| ImageHasher.SaveThenLoad | tests/utils/ImageHasher.cpp:66-98 | loading a saved hash file gives back the saved hash |
| ImageComparator.ReferenceImagePath | tests/utils/ImageComparator.cpp:8-10 | the test name between "../../tests/references/" and ".png" |
| ImageComparator.ReferenceImagePathInjective | tests/utils/ImageComparator.cpp:8-10 | different tests have different reference paths |
| ImageComparator.NumValues | tests/utils/ImageComparator.cpp:46-47 | at most four bytes per pixel are compared, and all of them when the pixel count fits 32 bits |
| ImageComparator.Diff | tests/utils/ImageComparator.cpp:52 | the absolute difference is below 256 and zero iff the bytes are equal |
| ImageComparator.DiffCountZeroIff | tests/utils/ImageComparator.cpp:54-62 | the count of bytes beyond the tolerance is zero iff every compared byte is within it |
| ImageComparator.MaxDiffIsLargestExcess | tests/utils/ImageComparator.cpp:48-60 | max_diff is 0 when nothing exceeds the tolerance; otherwise it is the largest exceeding difference, attained by some byte |
| ImageComparator.DiffSymmetric | tests/utils/ImageComparator.cpp:52 | swapping the images changes neither diff_count nor max_diff |
| ImageComparator.CountDifferences | tests/utils/ImageComparator.cpp:48-60 | the loop's diff_count and max_diff are the count and running maximum of the differences beyond the tolerance |
| ImageComparator.MatchesMeansWithinTolerance | tests/utils/ImageComparator.cpp:12-72 | a match iff both images decode, the dimensions agree and every compared byte is within the tolerance |
| ImageComparator.MatchesSymmetric | tests/utils/ImageComparator.cpp:52 | the verdict does not depend on argument order |
| ImageComparator.Compare | tests/utils/ImageComparator.cpp:12-72 | false on a decode error or a dimension mismatch; otherwise true iff no compared byte exceeds the tolerance |
| ImageComparator.CompareWithReference | tests/utils/ImageComparator.cpp:74-80 | compares the test's reference image, as the first argument, with the generated image; the tolerance defaults to 2 |
| SceneRegistry.AllScenes | tests/utils/SceneRegistry.cpp:3-41 | five configurations, each with a reference image and run at least once |
| SceneRegistry.AllScenesContents | tests/utils/SceneRegistry.cpp:3-41 | five scenes in the order two_spheres, triangles, iso_sphere_mesh, monkey_mesh, galaxy, with distinct names, all with a reference, run 3, 2, 2, 2 and 1 times |
| SceneRegistry.FirstNamed | tests/utils/SceneRegistry.cpp:45-49 | the position of the first configuration with the name, or the length when there is none |
| SceneRegistry.GetScene | tests/utils/SceneRegistry.cpp:43-52 | always a registered scene, and one with the given name whenever one exists |
| SceneRegistry.GetSceneUnknown | tests/utils/SceneRegistry.cpp:50-51 | an unknown name gives the first scene, two_spheres |
| SceneRegistry.GetSceneRegistered | tests/utils/SceneRegistry.cpp:43-49 | every registered scene is found under its own name |
| SceneRegistry.GetReferencePathForMode | tests/utils/SceneRegistry.cpp:54-56 | the reference name between "tests/references/" and ".png" |
| SceneRegistry.ReferencePathSharedAndInjective | tests/utils/SceneRegistry.cpp:54-56 | the threading mode is ignored, and different reference names give different paths |

## Left out

- Floating point: doubles are reals, so rounding, infinities and NaN are not modelled.
- Square root: `sqrt` is a parameter assumed to be a square root on the non-negative reals. `length` is left out.
- Other Vector3 members: the copy assignment and the stream output are not modelled.
- The AABB class:
  - its source is not part of this model;
  - `subsume` is assumed to be the componentwise min/max;
  - the slab test against a ray is an uninterpreted predicate.
  - the default box, `DefaultBox`, is assumed to have both corners at the origin, as the default `AABB` constructor is not part of this model.
- `BSP.BuildNode`: `std::sort` is not stable, and objects with equal centre keys may come out in any order. The model fixes one order, that of a stable insertion sort. The permutation, sortedness, split and enclosure results hold for any order, but the exact tree shape is tied to that choice.
- `SceneTypes.Black`, `SceneTypes.NoIntersection`, `SceneTypes.AddColor` and `SceneTypes.ScaleColor` are assumptions about the `Color` and `Intersection` classes, whose sources are not part of this model. A default-constructed colour or record is taken to be all zeros with no material, and colour `+` and `*` are taken to be componentwise and unclamped.
- Per-object geometry: exact intersection, transforms and per-object box computation are parameters. Sphere, Triangle, Ray, Transform, Material, Light and Image sources are not part of this model.
- The hit record: the exact per-object test yields a fresh record, or none. In the source, one `Intersection` is reused across objects, so fields a failed test leaves behind could carry over into a later record; that is not modelled.
- The ray direction: the `Ray` constructor normalises its direction (noted at src/rayscene/Scene.cpp:158). The model keeps the direction as given: the pixel ray's direction is `coord - origin`, and the reflected ray's is the raw reflection.
- `SceneModel.Optics`: material shading receives the ray, the camera ray and the hit record, but not the scene. Its use of lights and shadow rays is inside the parameter. The culling mode is part of the exact test.
- `castCount < maxCastCount & reflection > 0` uses a bitwise `&` on two booleans. It is modelled as logical and, which gives the same value.
- `MeshModel.Mesh.LoadFromObj`:
  - requires the indices to come in whole triples naming existing vertices; otherwise the source reads out of bounds;
  - the OBJ reader is not part of this model, and its output is the input;
  - the reader's own allocation is left out.
- `ImageComparator.Compare` requires the decoder's guarantee: 32-bit dimensions and four bytes per pixel. PNG decoding is a parameter.
- Console output: the comparison's diff percentage, and every message to standard output or error, are left out.
- Hash files: `SaveHash` and `LoadHash` take the file system as parameters. They take whether the output file opens, and the text of the file to read.
- Object identity: the trees and lists hold object values where the source holds pointers to live objects. In the call order the program uses, the difference does not show: `Scene::prepare` rebuilds the tree right after transforming the objects (src/rayscene/Scene.cpp:38-51).
- `MeshModel.Mesh.ApplyTransform` after `MeshModel.Mesh.CalculateBoundingBox` with the BSP on: this is where the difference shows. The source's triangle tree points at the triangles (src/rayscene/Mesh.cpp:92-101), so a later `applyTransform` (src/rayscene/Mesh.cpp:62-71), or a `loadFromObj`, which ends by applying the transform, updates what `intersects` then tests. In the model the tree keeps the triangle values it was built from until the next `CalculateBoundingBox`.
- Memory management: destructors, `new`/`delete` of nodes and triangles, and the leak of a previous tree when `build` replaces the root are left out.
- Concurrency: `render` runs a single segment. The `thread_local` candidate buffer of `Mesh::intersects` is a plain local list.
- `CameraModel.Camera.Render`: with a zero image dimension, the source computes a ratio by dividing by zero but writes no pixel. The model writes no pixel and skips the ratio.
- Camera fields: the camera's `Reflections` count is declared in a header that is not part of this model. It is a field of `Camera`, set at construction.
- `Scene::getLights` is a plain accessor of `lights` and is not modelled separately.
