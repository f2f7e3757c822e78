# Graphics course exercises in Dafny

A model of three exercises of an introductory computer-graphics course (a
ray tracer, seam carving with bilinear resizing, and a spaceship game),
with proofs about what they compute:

- **The recursive ray tracer** (`hw3/helper_classes.py`, `hw3/hw3.py`).
  - Vectors, `normalize` and `reflected`.
  - Directional, point and spot lights.
  - Rays, and the nearest-hit selection `nearest_intersected_object`.
  - Plane, triangle, sphere and mesh intersections, including the
    triangle's vertex-reordering normal heuristic and `remove_array`.
  - The shading recursion `get_current_color`.
  - `render_scene`: the pixel grid, the primary rays and the clipping.
  - Modules: `Vectors`, `Rays`, `Lights`, `TriangleNormal`, `Roots`,
    `Objects`, `Shading`, `Render`.
- **Seam carving and resizing** (`hw1/ex1.py`).
  - Greyscale conversion and the wrap-around gradient.
  - The cost matrix with its back-pointers, and seam tracing and removal.
  - Vertical and horizontal seams: a horizontal seam is a vertical seam of
    the picture turned by 90 degrees.
  - Seam colouring and the three carving schemes.
  - The index logic of bilinear resizing.
  - Modules: `Images`, `Greyscale`, `Seams`, `Carving`, `Bilinear`.
- **The spaceship game** (`hw6/src/hw6.js`).
  - The key handler, which chooses the curve and the speed.
  - The star collision rule, which scores.
  - The per-frame advance of the curve parameter `t`, which ends the game
    once `t` passes 1.
  - Module: `Starship`.

Arithmetic is over `real`.

- Square roots (`np.linalg.norm`, `np.sqrt`) and `np.power` cannot be
  computed exactly. They travel as a `Numerics` value that every caller
  passes in; its square root is never negative.
- Results that need `sqrt(x)·sqrt(x) = x` carry the precondition
  `ExactSqrt`.
- `np.roots` is written out as the quadratic formula on that square root.
- `np.inf` is the `Inf` case of `Basics.Ext`.
- Python's `None` results and exceptions are `Option` values.

The triangle normal is modelled exactly as the source computes it:

- the first vertex with the largest `x`, then, of the other two, the first
  with the largest `y`;
- the normal is the cross product in that order, so its sign does not
  follow the order `a, b, c`.

`Objects.HeuristicFlipsWinding` shows vertices for which the normal is
opposite to the winding of `a, b, c`. The edge tests of `__onTriangle` use
the winding `a → b → c` against this normal, so for such vertices
no ray hits the triangle at all (`Objects.FlippedTriangleIsNeverHit`).
`TriangleNormal.RawNormalIsWindingUpToSign` shows that the normal always
agrees with the winding up to sign.

## Model

| member | source | states |
|---|---|---|
| Basics.PyIndex | hw1/ex1.py:52-65 | A Python index into a list succeeds exactly for `-len <= i < len`; a non-negative index reads element `i`, a negative one element `len + i` |
| Basics.LessIsStrictTotal | hw3/helper_classes.py:95-99 | The `<` used against `np.inf` is a strict total order on distances extended with +∞, and `not a < b` is `b <= a` |
| Vectors.NormalizeIsUnit | hw3/helper_classes.py:6-7 | With an exact square root, `normalize` of a vector of non-zero length has length 1 |
| Vectors.NormalizeSameDirection | hw3/helper_classes.py:6-7 | `normalize(v)` is parallel to `v` and points the same way |
| Vectors.MirrorFlipsNormalComponent | hw3/helper_classes.py:12-14 | The reflection inside `reflected` negates the component along a unit normal |
| Vectors.MirrorPreservesLength | hw3/helper_classes.py:12-14 | That reflection keeps the vector's length |
| Vectors.MirrorInvolution | hw3/helper_classes.py:12-14 | Reflecting twice about the same unit normal gives back the vector |
| Rays.MakeRayUnitDirection | hw3/helper_classes.py:86-89 | A ray keeps its origin, and its stored direction is a unit vector pointing the way it was given |
| Rays.GetNewPoint | hw3/helper_classes.py:106-110 | `get_new_point(t)` gives a point exactly when `t > 0`, and that point lies `t` directions from the origin |
| Rays.NearestOf | hw3/helper_classes.py:93-103 | The selection returns nothing exactly when no answer is a finite hit; otherwise it returns one of the answers, at a finite distance no larger than any other hit's |
| Rays.NearestOfFirstWins | hw3/helper_classes.py:98-101 | On ties the first answer wins: every earlier hit is strictly farther |
| Lights.GetLightRay | hw3/helper_classes.py:29-75 | The ray toward a light starts at the given point |
| Lights.LightRayAimsAtLight | hw3/helper_classes.py:29-75 | That ray points along the light's direction (directional light) or toward its position (point and spot lights) |
| Lights.GetDistanceFromLight | hw3/helper_classes.py:33-78 | The distance is +∞ exactly for a directional light, and never negative otherwise |
| Lights.DistanceSquared | hw3/helper_classes.py:54-55 | With an exact square root, the squared distance is the squared length of `p − position` |
| Lights.AttenuationPositiveAndGrowing | hw3/helper_classes.py:58-60 | With non-negative coefficients and a positive constant term, the attenuation `kc + kl·d + kq·d²` is positive and grows with `d` |
| Lights.ValidLightIntensityDefined | hw3/helper_classes.py:58-83 | For such coefficients the intensity is defined, since the divisor is never 0 |
| Lights.GetIntensity | hw3/helper_classes.py:36-83 | A point light's intensity times the attenuation is `I`; a spot light's is `I` weighted by the cosine between its reversed direction and the direction to the point |
| Lights.DirectionalIsUniform | hw3/helper_classes.py:37-38 | A directional light has the same intensity `I` everywhere |
| Lights.SpotIsWeightedPoint | hw3/helper_classes.py:80-83 | A spot light is the point light at the same place, weighted by that cosine |
| Lights.PointLightFades | hw3/helper_classes.py:58-60 | A point light with non-negative intensity is no brighter at a farther point |
| TriangleNormal.FirstMax | hw3/helper_classes.py:153-155 | `max(ls, key=…)` picks an element with the largest coordinate, and the first such element |
| TriangleNormal.FirstIndexOf | hw3/helper_classes.py:235-239 | The search loop of `remove_array` stops at the first equal element, or at the end |
| TriangleNormal.RemoveArray | hw3/helper_classes.py:235-241 | `remove_array` removes the first element equal to its argument and keeps the others in order (one copy fewer in the multiset); a list without it is left unchanged |
| TriangleNormal.Reorder | hw3/helper_classes.py:152-157 | The first reordered vertex has the largest `x` |
| TriangleNormal.ReorderList | hw3/helper_classes.py:152-157 | The same for the list `[a, b, c]` |
| TriangleNormal.ReorderIsPermutation | hw3/helper_classes.py:152-157 | The reordering is a permutation of the three vertices, and the second has a `y` no smaller than the third |
| TriangleNormal.ReorderListIsPermutation | hw3/helper_classes.py:152-157 | The same for the list form |
| TriangleNormal.RawNormalIsWindingUpToSign | hw3/helper_classes.py:152-158 | The heuristic normal equals the normal of the winding `a, b, c`, or its negation |
| TriangleNormal.RawNormalOrthogonalToEdges | hw3/helper_classes.py:158 | The heuristic normal is orthogonal to every edge of the triangle |
| Roots.SortedRealRoots | hw3/helper_classes.py:193-195 | The roots are real exactly when the discriminant is non-negative, and they come sorted |
| Roots.SortedRealRootsAreTheRoots | hw3/helper_classes.py:193-195 | With an exact square root both values are roots, and every root is one of them |
| Roots.NoRealRootsNoZero | hw3/helper_classes.py:193-194 | When the roots are complex the polynomial has no real zero |
| Objects.CreateTriangleList | hw3/helper_classes.py:252-254 | The triangle list exists exactly when every face indexes existing vertices; it has one triangle per face, built from the face's three vertices in order |
| Objects.MakeMeshTriangles | hw3/helper_classes.py:247-254 | A mesh is built exactly when its faces are valid, and it holds one triangle per face |
| Objects.ApplyMaterialsToTriangles | hw3/helper_classes.py:256-258 | Every triangle of the mesh takes the mesh's material and keeps its shape |
| Objects.ComputeNormal | hw3/helper_classes.py:128-186 | Planes and triangles answer their stored normal; a sphere answers the normalised direction from its centre to the point |
| Objects.SphereNormalPointsOutward | hw3/helper_classes.py:185-186 | Away from the centre, a sphere's normal is a unit vector and a positive multiple of the direction from the centre to the point, so it points outwards |
| Objects.TriangleNormalIsCached | hw3/helper_classes.py:146-151 | A triangle's normal is the heuristic normal computed at construction, whatever point is asked |
| Objects.IntersectPlane | hw3/helper_classes.py:131-137 | A plane only reports itself, at a positive distance (possibly +∞) |
| Objects.PlaneHitOnPlane | hw3/helper_classes.py:131-137 | A plane reports a finite hit exactly when `n·D ≠ 0` and the parameter is positive; the point found then lies on the plane; a parallel ray never gets a finite hit |
| Objects.IntersectTriangle | hw3/helper_classes.py:168-177 | A triangle only reports itself, at a finite positive distance |
| Objects.TriangleHitIff | hw3/helper_classes.py:161-177 | A triangle reports a hit exactly when `n·D ≠ 0`, the parameter is positive and all three edge tests pass; the point then lies in the triangle's plane |
| Objects.IntersectSphere | hw3/helper_classes.py:188-200 | A sphere only reports itself, at a finite positive distance |
| Objects.SphereHitIsNearestPositiveRoot | hw3/helper_classes.py:188-200 | With an exact square root the reported distance is a root, and no positive root is nearer |
| Objects.Intersect | hw3/helper_classes.py:262-263 | Any object reports a hit in front of the ray on an object that is not a mesh; a mesh answers with one of its triangles |
| Objects.Nearest | hw3/helper_classes.py:93-103 | The nearest hit in a scene is at a finite positive distance and is some object's own answer |
| Objects.NearestOfNothing | hw3/helper_classes.py:94-95 | An empty scene gives no hit |
| Objects.NearestIsClosestFirst | hw3/helper_classes.py:93-103 | The nearest hit is no farther than any object's hit, and strictly nearer than those of all earlier objects |
| Objects.NearestObjectOrigin | hw3/helper_classes.py:262-263 | The object returned is one of the scene's objects or a triangle of one of its meshes, never a mesh |
| Objects.MeshAnswersWithTriangle | hw3/helper_classes.py:262-263 | A mesh's hit is on a triangle |
| Objects.HeuristicFlipsWinding | hw3/helper_classes.py:152-164 | For vertices `(1,0,0)`, `(0,0,0)`, `(0,1,0)` the heuristic normal is opposite to the winding the edge tests use |
| Objects.EdgeTestsSum | hw3/helper_classes.py:161-164 | Wherever the point is, the three edge tests of `__onTriangle` add up to the stored normal's dot product with the winding normal `(b − a) × (c − a)` |
| Objects.AgainstWindingNeverHit | hw3/helper_classes.py:161-177 | A triangle whose stored normal points against its winding is missed by every ray |
| Objects.FlippedTriangleIsNeverHit | hw3/helper_classes.py:142-177 | The triangle `(1,0,0)`, `(0,0,0)`, `(0,1,0)` is missed by every ray, because the constructor's normal points against its winding |
| Objects.ExampleOrder | hw3/helper_classes.py:152-157 | For those vertices the heuristic reorders `a, b, c` to `a, c, b` |
| Objects.ExampleFirstPick | hw3/helper_classes.py:153-154 | The first pick there is `a`, and removing it leaves `[b, c]` |
| Objects.ExampleSecondPick | hw3/helper_classes.py:155-156 | The second pick there is `c`, and removing it leaves `[b]` |
| Shading.ShadowRay | hw3/helper_classes.py:212-213 | The shadow ray leaves from the hit point moved `1e-10` along the normal |
| Shading.DirectionalLitIffUnobstructed | hw3/helper_classes.py:214-216 | A directional light reaches the point exactly when the shadow ray meets nothing |
| Shading.PointLitIffNothingCloser | hw3/helper_classes.py:214-216 | A point or spot light reaches the point exactly when every object on the shadow ray lies beyond the light |
| Shading.Phong | hw3/helper_classes.py:217-221 | Per channel, one light adds `kd·I·(N·L) + ks·I·(R·V)^shininess`, with `R` the reflection of `−L` about `N`; neither dot product is clamped |
| Shading.LightFromBehindDarkens | hw3/helper_classes.py:217-218 | Because the diffuse term is not clamped, a light behind the surface on a material without specular reflection makes every channel with positive `kd·I` negative |
| Shading.LightTermAimsAtLight | hw3/helper_classes.py:210-221 | One light's term takes the normal and the intensity at the hit point itself, `−ray.direction` as the view, and a direction `L` toward the light from the shifted point. `L` is parallel to, and has the same sense as, a directional light's direction or the way from the shifted point to the lamp; with an exact square root it is a unit vector |
| Shading.LocalColor | hw3/helper_classes.py:208-221 | With no lights the colour before reflection is `ambient_obj · ambient` |
| Shading.LocalColorAddsEachLight | hw3/helper_classes.py:210-221 | Each pass of the light loop adds that light's contribution to the colour the earlier lights left |
| Shading.ShadowedLightsAddNothing | hw3/helper_classes.py:208-221 | When every light is blocked, the local colour is the ambient term alone |
| Shading.GetCurrentColor | hw3/helper_classes.py:203-232 | Black when there is no object or at the last level. Defined whenever there is a light. With no light it fails exactly when a reflective object below the last level would reuse the unbound shifted point |
| Shading.ReflectedRay | hw3/helper_classes.py:225 | The reflected ray leaves from the shifted hit point |
| Shading.WithReflection | hw3/helper_classes.py:229-231 | The colour with reflection is defined exactly when the reflected colour is |
| Shading.Bounce | hw3/helper_classes.py:225-229 | The bounce exists exactly when the reflected ray hits something; it is that object, the reflected ray, and the point at the hit distance |
| Shading.ReflectionAddsNextColor | hw3/helper_classes.py:223-231 | A reflective object whose reflected ray hits adds the next level's colour, scaled by its reflection |
| Shading.MatteIsLocal | hw3/helper_classes.py:223 | An object with no positive reflection shows only its local colour |
| Shading.ReflectionEscapes | hw3/helper_classes.py:226-229 | A reflected ray that hits nothing adds nothing |
| Shading.LastLevelIsLocal | hw3/helper_classes.py:205-231 | One level below `max_depth` only the local colour is seen |
| Render.Linspace | hw3/hw3.py:11-12 | `np.linspace` starts at `start`, with two or more points ends at `stop`, and every point lies between the two |
| Render.PixelPosition | hw3/hw3.py:7-13 | The screen point of a pixel lies in the plane `z = 0` inside the screen, `x` in [−1, 1] and `y` in [−height/width, height/width]; the first column is at `x = −1` and the top row at `y = height/width` |
| Render.LinspaceEvenlySpaced | hw3/hw3.py:11-12 | Consecutive grid points are `(stop − start)/(n − 1)` apart |
| Render.Clamp01 | hw3/hw3.py:22 | A clipped component lies in [0, 1], and a component already there is kept |
| Render.Clip | hw3/hw3.py:22 | A clipped colour lies in the unit cube, and a colour already there is kept |
| Render.ClipIdempotent | hw3/hw3.py:22 | Clipping twice is clipping once |
| Render.ScreenCorners | hw3/hw3.py:7-13 | The first pixel is at `(−1, 1/ratio, 0)` and the last at `(1, −1/ratio, 0)` |
| Render.PixelRay | hw3/hw3.py:16 | The primary ray starts at the camera |
| Render.PixelColor | hw3/hw3.py:13-22 | A pixel's colour lies in the unit cube, is defined whenever there is a light, and is black when its ray hits nothing |
| Render.PixelShowsNearestHit | hw3/hw3.py:16-22 | A pixel whose ray hits shows the clipped colour of the nearest hit at level 0 |
| Render.RenderScene | hw3/hw3.py:6-23 | The image has `height` rows of `width` pixels, each in the unit cube; with a light it exists exactly for positive sizes, as the source raises for any other size: `ZeroDivisionError` for a zero height (line 8) or width (line 9), `ValueError` from `np.zeros` for a negative size (line 10) |
| Render.RenderedPixel | hw3/hw3.py:10-22 | Every stored pixel is the colour of its own primary ray |
| Render.EmptySceneIsBlack | hw3/hw3.py:14-22 | With no objects every pixel is black |
| Images.Rot90 | hw1/ex1.py:126 | Turning a picture by 90 degrees swaps its height and width, and row `i` of the result is column `width − 1 − i` of the picture |
| Images.Rot270 | hw1/ex1.py:131 | Turning by 270 degrees swaps height and width the other way |
| Images.Rot270Rot90 | hw1/ex1.py:126-131 | Turning by 90 and then by 270 degrees gives back the picture |
| Images.Rot90Rot270 | hw1/ex1.py:126-131 | Turning by 270 and then by 90 degrees gives back the picture |
| Greyscale.GetGreyscaleImage | hw1/ex1.py:13-22 | Each grey pixel is the weighted sum of its own red, green and blue, and the shape is kept |
| Greyscale.GreyscaleWtSumsToOne | hw1/ex1.py:11 | The global weights sum to 1 |
| Greyscale.GreyPixelsKeepTheirValue | hw1/ex1.py:11-22 | A pixel that is already grey keeps its value |
| Greyscale.GreyscaleNonNegative | hw1/ex1.py:13-22 | Non-negative colours and weights give non-negative grey |
| Greyscale.GradientMagnitude | hw1/ex1.py:75-109 | The gradient has the picture's shape and is never negative; each entry is the length of the forward differences, wrapping around at the last row and column |
| Greyscale.GradientWrapsAround | hw1/ex1.py:75-109 | The four loops of the source compute, at every pixel, the difference with the next row and column modulo the size |
| Greyscale.AllWrapAround | hw1/ex1.py:75-109 | The same, for all pixels at once |
| Seams.ArgMin | hw1/ex1.py:164 | `np.argmin` gives the first index of a smallest value |
| Seams.CalcEdges | hw1/ex1.py:179-191 | An edge cost is never negative, and a vertical edge at a border column costs 0 |
| Seams.CalcEdgesMirror | hw1/ex1.py:179-191 | Mirroring the rows swaps left and right edges and keeps vertical ones |
| Seams.MinNeighbourCost | hw1/ex1.py:193-201 | The result is at most every existing predecessor's cost plus its edge, and equal to one of them |
| Seams.CalculateCost | hw1/ex1.py:156-161 | Row 0 is the energy; every later entry is its energy plus the cheapest predecessor of the row above |
| Seams.CalculateCostInPlace | hw1/ex1.py:156-161 | The in-place loops over a copy of the energy compute that same matrix |
| Seams.CostAtLeastEnergy | hw1/ex1.py:156-161 | With non-negative energy, every cost is non-negative and at least its own energy |
| Seams.BackPointer | hw1/ex1.py:143-153 | The back-pointer is within one column and in range; it points to a cheapest predecessor, the leftmost one on ties |
| Seams.BackPointerIsSliceArgMin | hw1/ex1.py:148-153 | It is exactly `argmin` of the slice the source takes, plus the slice's offset |
| Seams.Backtrack | hw1/ex1.py:141-153 | The back-pointer matrix has `M`'s shape, row 0 is zeros, and every later row holds the back-pointers into the row above |
| Seams.BackPointersAreAdjacent | hw1/ex1.py:143-153 | Every back-pointer below row 0 lies in `{j−1, j, j+1}` and inside the picture |
| Seams.CalculateCostMatrix | hw1/ex1.py:134-154 | The cost matrix has the picture's shape, and the back-pointers are those of that matrix |
| Seams.Trace | hw1/ex1.py:166-168 | Following back-pointers up from a row gives a seam that starts there and steps by the stored pointers |
| Seams.FindSeam | hw1/ex1.py:163-169 | `find_seam` gives one pixel per row from the bottom row up, starting at the bottom row's argmin, each next column the back-pointer of the previous |
| Seams.RemoveSeam | hw1/ex1.py:171-177 | Removing a seam keeps the height, loses one column per row, and shifts left the pixels right of the seam |
| Seams.RemoveSeamLosesOnlyTheSeam | hw1/ex1.py:171-177 | Putting the seam pixel back in each row gives back the row |
| Seams.RemoveSeamShape | hw1/ex1.py:176 | The result is rectangular and one column narrower |
| Seams.PathCost | hw1/ex1.py:156-161 | A path is priced as `calculate_cost` prices each step: its first pixel's energy, then each pixel's energy plus the `calc_edges` cost of the step that reached it |
| Seams.CostIsAtMostPathCost | hw1/ex1.py:156-161 | No path that ends at a pixel costs less than `M` at that pixel |
| Seams.CostIsCheapestPath | hw1/ex1.py:156-161 | Unless some cost passes `sys.maxsize`, `M` at a pixel is the least cost of a path ending there, and the edge-aware back-pointers trace a path of exactly that cost |
| Seams.EdgeBackPointer | hw1/ex1.py:193-201 | The corrected back-pointer is within one column and in range, and names the leftmost predecessor whose cost plus its edge is smallest |
| Seams.EdgeBackPointerAttainsMinimum | hw1/ex1.py:193-201 | That predecessor's cost plus its edge is the minimum `find_min_neighbor_cost` adds |
| Seams.TraceColumns | hw1/ex1.py:166-168 | Following the corrected back-pointers up from a pixel gives a path that ends there, each step the back-pointer of the next |
| Seams.PathToSeam | hw1/ex1.py:163-169 | A path listed bottom-up is a seam |
| Seams.SeamToPath | hw1/ex1.py:163-169 | A seam read top-down is a path |
| Seams.PathSeamRoundTrip | hw1/ex1.py:163-169 | Listing a path as a seam and reading it back gives the same path |
| Seams.FindSeamWithEdges | hw1/ex1.py:163-169 | The corrected `find_seam` gives a seam that starts at the bottom row's argmin |
| Seams.FoundSeamIsCheapest | hw1/ex1.py:156-169 | Unless some cost passes `sys.maxsize`, the corrected seam costs the bottom row's minimum of `M`, and no seam costs less (fourth "## Findings" row) |
| Seams.FindSeamIgnoresEdgeCosts | hw1/ex1.py:143-153 | On a 2×3 energy map, `find_seam` with the source's back-pointers traces a seam of cost 10 although `M`'s minimum is 1, and the corrected finder traces the seam of cost 1 |
| Carving.CheapestSeamFindsSeams | hw1/ex1.py:118-119 | The source's seam finder returns a seam of every non-empty picture |
| Carving.CheapestSeamIsTraced | hw1/ex1.py:118-119 | That finder is `find_seam` on `calculate_cost_matrix` |
| Carving.CheapestSeamWithEdgesFindsSeams | hw1/ex1.py:118-119 | The corrected finder returns a seam of every non-empty picture, and, unless a cost passes `sys.maxsize`, no seam of the picture costs less |
| Carving.CarveOnce | hw1/ex1.py:118-120 | One round removes the found seam and narrows the picture by one |
| Carving.GetVerticalSeams | hw1/ex1.py:115-121 | It succeeds exactly when `k <= 0`, or the picture has a row and at least `k` columns. For `k <= 0` it returns no seams and the picture unchanged; otherwise `k` seams and a picture `k` columns narrower |
| Carving.VerticalSeamsUnfold | hw1/ex1.py:117-120 | Removing `k` seams is one round followed by `k − 1` more |
| Carving.VerticalSeamsAreSeams | hw1/ex1.py:115-121 | The `i`-th seam is a seam of the picture after `i` removals |
| Carving.VerticalSeamsCompose | hw1/ex1.py:115-121 | Removing `a + b` seams is removing `a` and then `b` |
| Carving.VerticalSeamsInsidePicture | hw1/ex1.py:115-121 | Every pixel of every seam found lies inside the original picture |
| Carving.SwapAll | hw1/ex1.py:128-130 | The flip turns every `[row, column]` pair into `[column, row]` |
| Carving.GetHorizontalSeams | hw1/ex1.py:124-132 | It succeeds exactly when `k == 0`, or `0 < k` and the picture has a column and at least `k` rows. A negative `k` fails, because `np.flip` of the empty seam list has no axis 2. For `k == 0` it returns no seams and the picture unchanged; otherwise `k` seams and a picture `k` rows shorter |
| Carving.HorizontalSeamsAreSeams | hw1/ex1.py:124-132 | Each horizontal seam has one pixel per column, listed from the last column to the first, each in a remaining row |
| Carving.HorizontalSeamListsMirroredColumns | hw1/ex1.py:124-132 | Removing one horizontal seam drops one pixel per column and moves the pixels below it up; but the listed entry naming column `width − 1 − m` is the pixel removed from column `m`, so the list is mirrored left to right (second "## Findings" row) |
| Carving.UnturnAll | hw1/ex1.py:128-130 | The corrected listing maps each pixel `(r, c)` of the turned picture back to `(c, width − 1 − r)` |
| Carving.GetHorizontalSeamsUnturned | hw1/ex1.py:124-132 | The corrected `get_horizontal_seams` succeeds exactly when the source's does, leaves the same picture and lists as many seams; the carving schemes use it |
| Carving.ListingsAreMirrored | hw1/ex1.py:124-132 | The corrected and the source's listings name the same rows in mirrored columns |
| Carving.UnturnedListsRemovedPixels | hw1/ex1.py:124-132 | The corrected listing's entry `m` lies in column `m` and names the pixel removed from that column |
| Carving.OneHorizontalSeam | hw1/ex1.py:124-132 | One horizontal seam is a vertical seam of the turned picture, flipped back, and the picture is turned back |
| Carving.TurnedRemoval | hw1/ex1.py:126-131 | Turning, removing a seam and turning back removes one pixel from each column |
| Carving.Paint | hw1/ex1.py:205-208 | Painting a seam sets its pixels to the colour and leaves every other pixel alone |
| Carving.ColouringSeams | hw1/ex1.py:204-209 | Colouring sets exactly the pixels on some seam, and keeps the shape |
| Carving.ColouringIsIdempotent | hw1/ex1.py:204-209 | Colouring the same seams twice is colouring them once |
| Carving.VerticalFirst | hw1/ex1.py:254-256 | Scheme 0 gives exactly the requested shape for smaller positive sizes. Removing every row but not every column leaves no row. Removing every column succeeds exactly when no row is removed, and leaves rows of width 0 |
| Carving.HorizontalFirst | hw1/ex1.py:257-259 | Scheme 1 gives exactly the requested shape for smaller positive sizes. Removing every column but not every row leaves the remaining rows at width 0. Removing every row succeeds exactly when no column is removed, and leaves no row |
| Carving.Alternate | hw1/ex1.py:260-267 | Scheme 2 gives exactly the requested shape for smaller positive sizes |
| Carving.AlternateWithoutRows | hw1/ex1.py:260-267 | With no rows to remove, alternating is removing all vertical seams at once |
| Carving.AlternateVerticalStep | hw1/ex1.py:261-264 | One round of scheme 2 removes a single vertical seam first |
| Carving.SchemesAgreeOnWidth | hw1/ex1.py:254-267 | When only the width changes, schemes 0 and 2 give the same picture |
| Carving.VerticalFirstWithoutRows | hw1/ex1.py:254-256 | When only the width changes, scheme 0 is `get_vertical_seams` |
| Carving.ReshapeSeamCarving | hw1/ex1.py:233-269 | An unknown scheme returns the picture; schemes 0, 1 and 2 reach exactly the requested positive shape. For a target with no row or no column, scheme 0 fails only when it removes every column and some row, and scheme 1 only when it removes every row and some column; otherwise they reach the target |
| Bilinear.ScaleFactorsAsWritten | hw1/ex1.py:36-37 | With the guards as written, the scale factors fail exactly when one output size is 0 and the other is not |
| Bilinear.ScaleFactors | hw1/ex1.py:36-37 | The corrected half of the first "## Findings" row (the source raises `ZeroDivisionError` for `(n, 0)` and `(0, n)`): each factor times its output size is the input size, and a factor is 0 for an empty output |
| Bilinear.Read | hw1/ex1.py:52-65 | An in-range read gives the pixel |
| Bilinear.Resample | hw1/ex1.py:40-71 | The output exists exactly when every sample does; it has the output shape and holds the samples |
| Bilinear.CastUint8 | hw1/ex1.py:73 | The cast truncates every value toward zero and keeps the shape |
| Bilinear.ReshapeBilinearAsWritten | hw1/ex1.py:24-73 | As written, resizing to a shape with one zero and one non-zero size raises `ZeroDivisionError`; on every other shape it is `Bilinear.ReshapeBilinear` |
| Bilinear.ReshapeBilinear | hw1/ex1.py:24-73 | The corrected half of the first "## Findings" row (the source fails for `(n, 0)` and `(0, n)`, see `Bilinear.ReshapeBilinearAsWritten`): resizing succeeds exactly for non-negative sizes where the output is empty or the picture is not; the output has the requested shape |
| Bilinear.AxisInside | hw1/ex1.py:43-49 | Along one axis the mapped coordinate, its floor and its clamped ceiling lie in the picture, with floor ≤ coordinate ≤ ceiling ≤ floor + 1 |
| Bilinear.WindowInside | hw1/ex1.py:43-49 | All four surrounding pixels read lie inside the picture |
| Bilinear.SampleDefined | hw1/ex1.py:40-69 | Every sample of a non-empty picture is defined |
| Bilinear.SampleOfEmptyRaises | hw1/ex1.py:52-65 | Sampling a picture with no row or no column is an index error |
| Bilinear.SamplesDefinedIff | hw1/ex1.py:31-69 | All samples are defined exactly when the output is empty or the picture is not |
| Bilinear.BlendWithin | hw1/ex1.py:56-69 | A blend of two values in `[lo, hi]` along one side of the window lies in `[lo, hi]` |
| Bilinear.WindowWithinRange | hw1/ex1.py:51-69 | Each of the four branches gives a value between the smallest and largest pixel |
| Bilinear.SampleWithinRange | hw1/ex1.py:40-69 | Every sample lies between the smallest and largest input value |
| Bilinear.ResizedStaysEightBit | hw1/ex1.py:71-73 | Resizing a picture with values in [0, 255] gives values in [0, 255] after the cast |
| Bilinear.SameShapeKeepsPicture | hw1/ex1.py:36-73 | Resizing to the same shape gives back the picture, cast |
| Bilinear.UnitSample | hw1/ex1.py:51-52 | With unit factors each sample reads its own pixel |
| Bilinear.CrossedGuardsRaise | hw1/ex1.py:36-37 | As written, resizing to `(n, 0)` or `(0, n)` divides by zero; the corrected guards give the empty outputs |
| Bilinear.GuardsAgreeOtherwise | hw1/ex1.py:36-37 | When both output sizes are zero or both are non-zero, the written and corrected guards agree |
| Starship.Step | hw6/src/hw6.js:177 | Every step is at least the smallest, positive step |
| Starship.HandleKeydown | hw6/src/hw6.js:155-173 | Only the curve and the speed change; up and down move the speed index by one, clamped to 0..2; any other key changes nothing; a valid state stays valid |
| Starship.KeysCycleCurves | hw6/src/hw6.js:156-163 | Left moves to curve `(c + 1) mod 3` and right to `(c + 2) mod 3`, keeping the index in 0..2 |
| Starship.LeftRightInverse | hw6/src/hw6.js:156-163 | Left then right, and right then left, give back the state |
| Starship.ThreeLeftsComeBack | hw6/src/hw6.js:156-157 | Three lefts give back the state |
| Starship.UpDownInverse | hw6/src/hw6.js:164-172 | Up then down gives back the state unless the speed was highest; down then up unless it was lowest |
| Starship.CheckCollision | hw6/src/hw6.js:182-191 | The score grows by `old_score` exactly when the star is within half a step on the current curve; the star is hidden then and otherwise unchanged |
| Starship.CollideAll | hw6/src/hw6.js:218 | Each star is checked once at the same `t`, and the score grows by the number of stars matched |
| Starship.Frame | hw6/src/hw6.js:218-223 | A frame advances `t` by the current step and stops the game once `t > 1`, and a stopped game does not change. As written it adds the number of matched stars to the score; with the corrected rule it keeps score plus shown stars |
| Starship.RunAdvances | hw6/src/hw6.js:219-223 | A stopped game stays stopped; after `n` frames the game is stopped or `t` has grown by at least `n` smallest steps |
| Starship.GameEnds | hw6/src/hw6.js:176-221 | From the start, 1801 frames stop the game whatever keys are pressed, under either collision rule |
| Starship.QuietStart | hw6/src/hw6.js:149-219 | From the start with no key pressed, the first 100 frames score nothing and bring `t` to `0.1 + n·0.001` |
| Starship.DoubleScoreFromTwoTenths | hw6/src/hw6.js:182-191 | From `t = 0.2`, down, a frame, up twice and a frame score the first star twice |
| Starship.SameStarScoredTwice | hw6/src/hw6.js:182-191 | On that run the score is 2 while only one star has been hidden |
| Starship.CheckCollisionOnce | hw6/src/hw6.js:182-191 | Corrected rule: only a shown star that matches is hidden and scored |
| Starship.CollideAllOnce | hw6/src/hw6.js:218 | Corrected rule: the score plus the number of shown stars never changes in a frame |
| Starship.ScoreCountsCollectedStars | hw6/src/hw6.js:182-191 | Over any run with the corrected rule, the score plus the number of shown stars stays what it was |
| Starship.ScoreAtMostFive | hw6/src/hw6.js:149-154 | With the corrected rule the score never exceeds the five stars |

## Left out

- Floating point: all arithmetic is over `real`. Rounding, NaN and IEEE
  infinities are not modelled, apart from `np.inf` as a distance.
- `np.linalg.norm`, `np.sqrt` and `np.power` are parameters (`Numerics`),
  not definitions.
  - Results about square roots hold only under `ExactSqrt`.
  - The specular power is never reasoned about.
- `Vectors.Normalize`: numpy's normalisation of the zero vector gives NaN;
  the model returns the zero vector.
  - A ray built with a zero direction therefore reaches
    `Objects.IntersectSphere` with `a = 0`, where the model answers a miss
    and the source's `np.roots(...)[0]` would fail on the shorter root
    list. No other path gives `a = 0`.
- The light coefficients are not checked by the source.
  - The attenuation and intensity lemmas assume non-negative coefficients
    with `kc > 0` (`Lights.ValidLight`).
  - `Shading.GetCurrentColor` assumes this of every light.
- `Shading.GetCurrentColor` with no lights answers `None` where the source
  would read the unbound `shifted`. No clamp is added to the diffuse term,
  and a spot light's intensity can be negative, as in the source.
- `Objects.ComputeNormal` is not defined for a mesh: the source's `Mesh`
  has no `compute_normal`. A mesh is never returned as a hit.
- `Shading.GetCurrentColor` requires `level <= max_depth`, so it does not
  model a negative `max_depth`. The source passes any `max_depth` on and
  stops only when `level == max_depth`. With a negative depth a matte scene
  renders as with an unbounded depth, and a reflective scene whose
  reflected rays keep hitting recurses until `RecursionError`. Modelling
  that would need a fuel bound on the recursion.
- `Render.RenderScene` takes `max_depth` as a natural number, for the same
  reason.
- `your_own_scene`, matplotlib and numba are scene data and plotting.
- Carving.Alternate: for a target with no row or no column, scheme 2's
  success is not characterised. It depends on which side runs out first
  while the two kinds of seam alternate. The source fails once it must
  carve a picture whose other side is already empty.
- The interactive `input()` loops of `visualise_seams` and
  `reshape_seam_carving` are not modelled.
  - `Carving.ReshapeSeamCarving` requires the new shape to be no larger
    than the picture, the condition those loops enforce.
  - `visualise_seams` itself is a thin wrapper over
    `get_horizontal_seams`/`get_vertical_seams` and `colouring_seams`, and
    is not modelled; the pixels it would paint for horizontal seams are
    the mirrored listing of the second "## Findings" row.
- Carving operations take the seam finder as a parameter (`Carving.Finder`).
  - The properties hold for any finder that returns seams.
  - `Carving.CheapestSeam` is the source's finder, and
    `Carving.CheapestSeamFindsSeams` shows that it returns seams.
  - `Carving.CheapestSeamWithEdges` is the corrected finder of the fourth
    "## Findings" row; the carving schemes accept either.
- Seams.CostIsCheapestPath: holds only while every predecessor's cost plus
  its vertical edge stays at or below `sys.maxsize` (`Seams.BelowMaxSize`).
  Past that bound `find_min_neighbor_cost` can pick its initial
  `sys.maxsize` for a column that exists. The same condition applies to
  `Seams.FoundSeamIsCheapest` and `Carving.CheapestSeamWithEdgesFindsSeams`.
- A mesh or triangle carries its `Material` from construction
  (`Objects.MakeMesh`, `Objects.MakeTriangle`). The source sets it later,
  with `set_material` and `apply_materials_to_triangles`, and raises
  `AttributeError` if an object without one is shaded. That error is not
  modelled.
- A picture with no row or no column makes the source fail inside
  `calculate_cost_matrix`; the carving functions answer `None` there.
- `Bilinear` resizes one channel. The source applies the same arithmetic
  to each channel of the last axis.
- `Bilinear.CastUint8`: models `astype(np.uint8)` as truncation toward
  zero. The wrap-around modulo 256 of out-of-range values is not modelled;
  `Bilinear.ResizedStaysEightBit` shows no such value arises from a
  picture in [0, 255].
- Starship, game state:
  - The three.js scene, the textures, the camera, the spaceship's position
    and orientation, `requestAnimationFrame`, the score `alert` and the
    event plumbing are left out.
  - Only `t`, the two indices, the score, the stars' visibility and
    whether the loop was cancelled are kept.
- Starship, events:
  - `Starship.Frame` and the runs require a valid state, with both indices
    in range. The key handler keeps every reachable state valid.
  - Keys other than the four arrows are one `OtherKey`.

## Findings

| source | as written | input that shows it | evidently intended | confidence | as-written member | corrected member |
|---|---|---|---|---|---|---|
| hw1/ex1.py:36-37 | The width factor is guarded by `out_height != 0` and the height factor by `out_width != 0`, so each division is guarded by the wrong size | `new_shape = (5, 0)` divides `in_width` by 0; `(0, 5)` divides `in_height` by 0 | Guard each factor by its own output size, so that an empty output gives an empty image | not executed | Bilinear.ReshapeBilinearAsWritten, shown by Bilinear.CrossedGuardsRaise | Bilinear.ReshapeBilinear, with Bilinear.SamplesDefinedIff and Bilinear.GuardsAgreeOtherwise |
| hw1/ex1.py:124-132 | `get_horizontal_seams` turns the picture with `np.rot90(k=1)`, finds vertical seams, and lists them with `np.flip(axis=2)`, which only exchanges the two coordinates. The turn also reversed the column order, so entry `m` names column `width − 1 − m` for the pixel removed from column `m`, and `visualise_seams` paints the mirror image of each horizontal seam | A picture of two rows and two columns whose horizontal seam removes `(0, 0)` and `(1, 1)`: the seam is listed as `(1, 0)` and `(0, 1)` | List each pixel where it was removed: `(c, width − 1 − r)` for pixel `(r, c)` of the turned picture | not executed | Carving.GetHorizontalSeams, shown by Carving.HorizontalSeamListsMirroredColumns | Carving.GetHorizontalSeamsUnturned, with Carving.UnturnedListsRemovedPixels and Carving.ListingsAreMirrored; the carving schemes use it and leave the same pictures |
| hw6/src/hw6.js:182-191 | `check_collision` does not test whether the star is still visible, so a hidden star scores again if `t` is within half the current step of it | From the start: 100 frames bring `t` to 0.2; ArrowDown; a frame at step 0.0005 scores the first star; ArrowUp twice; at `t = 0.2005` the window is ±0.00075 and the same star scores again. The margins are wide enough for the floating-point sums too | Score a star only once, while it is shown; the score can then never exceed the number of stars | not executed | Starship.CheckCollision, shown by Starship.SameStarScoredTwice | Starship.CheckCollisionOnce, with Starship.ScoreCountsCollectedStars and Starship.ScoreAtMostFive |
| hw1/ex1.py:143-153 | The back-pointers take the argmin of `M[i-1]` over `j−1..j+1` alone. `calculate_cost` added each step's `calc_edges` cost before choosing, so `find_seam` can trace a seam that `M` does not price, and the seam it returns need not be the cheapest | Energy `[[0,1,5],[100,0,100]]` with greyscale `[[0,10,0],[0,0,0]]`: `M` is `[[0,1,5],[100,1,101]]`, the back-pointer of `(1,1)` is column 0, and that seam costs 10 while the straight seam through column 1 costs 1 | Choose the predecessor whose cost plus its edge is smallest, the one `find_min_neighbor_cost` added, so that the traced seam costs the bottom row's minimum of `M` | not executed | Seams.FindSeam, shown by Seams.FindSeamIgnoresEdgeCosts | Seams.FindSeamWithEdges, with Seams.FoundSeamIsCheapest and Seams.CostIsCheapestPath |
