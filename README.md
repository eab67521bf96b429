# rustray in Dafny

This project models the core of rustray, a small path tracer written in Rust. The parts modelled are:

- the vector and ray value types;
- the two row-major pixel grids, one with a completion fraction;
- ray-sphere intersection and the nearest hit over a world;
- the four surface materials and the rejection sampler behind them;
- the depth-bounded recursive colour integrator, the sky, and the pixel jitter;
- the work-item list and the loop that renders it into the image, one running average per pixel;
- the pinhole camera;
- the display helpers: the maximum-intensity fold, normalisation, the reversed sub-pixel buffer and the PPM line order.

Numbers are exact `real`s. Some floating-point operations cannot be written exactly, so they are parameters of the functions that use them:

- `sqrt`, `unit` (normalisation) and `length`;
- `tan` and the value of pi.

Every random draw is an input too:

- the unit-sphere sample and the uniform number a material uses;
- the sub-pixel jitter;
- the three-number draws of `random_in_unit_sphere`.

The integrator takes the material interaction as a function, so the draws it uses sit behind that function.

Modules, one per source file:

| module | file | source |
|---|---|---|
| `Options` | options.dfy | Rust's `Option` |
| `Vectors` | vec3.dfy | `src/vec3.rs` |
| `Rays` | ray.dfy | `src/ray.rs` |
| `PixelGrid` | pixel_grid.dfy | the `to_index` shared by `src/image_data.rs` and `src/canvas.rs` |
| `Images` | image_data.dfy | `src/image_data.rs`: class `ImageData` over an `array` |
| `Canvases` | canvas.dfy | `src/canvas.rs`: class `Canvas` over an `array` |
| `Geometry` | hittable.dfy | `src/hittable.rs` |
| `Materials` | material.dfy | `src/material.rs` |
| `Cameras` | camera.dfy | `src/camera.rs` |
| `Tracer` | tracer.dfy | `src/tracer.rs` |
| `Display` | display.dfy | `src/display.rs` |

Points of the code's behaviour worth knowing when reading the model:

- **Running average.** For sample `k > 0` the code stores `(old * (k - 1) + c) / k` (`src/tracer.rs:72-78`). Sample 1 therefore overwrites sample 0, and after `n >= 2` samples a pixel holds the mean of samples `1 .. n - 1` (`Tracer.AccumulatedMean`).
- **Camera ray.** The direction of `get_ray` is the image-plane point itself; the location is not subtracted (`src/camera.rs:39-44`, `Cameras.GetRayAtCentre`).
- **Work order.** The source runs work items in parallel; here they run one after another in list order, which is sample-major. That order is the one under which each pixel sees its samples in increasing order (`Tracer.DrawToImageData`).

## Model

| member | source | states |
|---|---|---|
| Vectors.DivScalar | src/vec3.rs:203-214 | dividing by a non-zero scalar is undone by scaling back: `scale(v / s, s) == v` |
| Vectors.ScalarDiv | src/vec3.rs:216-227 | `s / v` times `v` component-wise is `(s, s, s)` for a vector with no zero component |
| Vectors.Div | src/vec3.rs:188-199 | component-wise division is undone by the Hadamard product: `(a / b) * b == a` |
| Vectors.Cross | src/vec3.rs:77-83 | the cross product is orthogonal to both arguments: `a . (a x b) == 0` and `b . (a x b) == 0` |
| Vectors.SquaredLength | src/vec3.rs:98-100 | the squared length is the dot product of the vector with itself |
| Vectors.Add | src/vec3.rs:120-131 | the component-wise sum; `Vectors.AddCommutative`, `Vectors.AddAssociative` and `Vectors.SubUndoesAdd` state its laws |
| Vectors.Sub | src/vec3.rs:133-144 | the component-wise difference; `Vectors.SubUndoesAdd` and `Vectors.SubIsAddNeg` tie it to `Add` and `Neg` |
| Vectors.Neg | src/vec3.rs:234-243 | component-wise negation; `Vectors.NegIsInverse` states it is the additive inverse |
| Vectors.Mul | src/vec3.rs:146-157 | the component-wise (Hadamard) product; `Vectors.MulCommutative` and `Vectors.Div` relate it to division |
| Vectors.Dot | src/vec3.rs:72-74 | the sum of component products; `Vectors.DotSymmetric` and `Vectors.DotScale` state its symmetry and linearity |
| Vectors.Scale | src/vec3.rs:159-172 | vector times scalar; `Vectors.ScaleSquaredLength` and `Vectors.DivScalar` state its effect on length and its inverse |
| Vectors.ScalarMul | src/vec3.rs:174-181 | scalar times vector; `Vectors.ScalarMulCommutes` states it equals `Scale` |
| Vectors.Map | src/material.rs:74-74 | the vector's `map`: the same function applied to each component; `Materials.Interact` uses it for the `Normal` material's `i + 1` |
| Vectors.SquaredLengthNonNegative | src/vec3.rs:98-100 | the squared length is never negative |
| Vectors.SquaredLengthZero | src/vec3.rs:98-100 | only the zero vector has squared length 0 |
| Vectors.NegIsInverse | src/vec3.rs:234-243 | `v + (-v)` is the zero vector |
| Vectors.SubUndoesAdd | src/vec3.rs:120-144 | `(a - b) + b == a` and `(a + b) - b == a` |
| Vectors.ScaleSquaredLength | src/vec3.rs:161-172 | scaling by `s` multiplies the squared length by `s * s` |
| Vectors.DotScale | src/vec3.rs:72-74 | the dot product is linear in a scaled argument |
| Vectors.AddCommutative | src/vec3.rs:120-131 | vector addition is commutative |
| Vectors.AddAssociative | src/vec3.rs:120-131 | vector addition is associative |
| Vectors.SubIsAddNeg | src/vec3.rs:133-144 | `a - b == a + (-b)` |
| Vectors.ScalarMulCommutes | src/vec3.rs:174-181 | scalar-times-vector equals vector-times-scalar |
| Vectors.MulCommutative | src/vec3.rs:146-157 | the Hadamard product is commutative |
| Vectors.DotSymmetric | src/vec3.rs:72-74 | the dot product is symmetric |
| Vectors.CrossAntisymmetric | src/vec3.rs:77-83 | `a x b == -(b x a)` |
| Vectors.AddExample | src/vec3.rs:249-257 | `(1,0,-1) + (2,3,2) == (3,3,1)` |
| Vectors.SubExample | src/vec3.rs:259-265 | `(1,0,-1) - (2,3,2) == (-1,-3,-3)` |
| Vectors.ScaleExample | src/vec3.rs:268-279 | `(1,0,-1) * 2` and `2 * (1,0,-1)` are both `(2,0,-2)` |
| Vectors.MulExample | src/vec3.rs:281-284 | `(1,0,-1) * (4,0,-2) == (4,0,2)` |
| Vectors.DivScalarExample | src/vec3.rs:289-295 | `(2,4,-6) / 2 == (1,2,-3)` |
| Vectors.ScalarDivExample | src/vec3.rs:290-299 | `6 / (1,2,-3) == (6,3,-2)` |
| Vectors.DivExample | src/vec3.rs:301-304 | `(2,4,-6) / (2,2,-3) == (1,2,2)` |
| Vectors.NegExample | src/vec3.rs:307-312 | `-(2,0,-6) == (-2,0,6)` |
| Vectors.DotExample | src/vec3.rs:314-317 | `(1,2,3) . (4,-5,6) == 12` |
| Vectors.CrossExample | src/vec3.rs:319-325 | `(3,-3,1) x (4,9,2) == (-15,-2,39)` |
| Vectors.SquaredLengthExample | src/vec3.rs:327-330 | `(2,-2,1)` has squared length 9, whose root is the length 3 of the test |
| Rays.PointAtParameterOffset | src/ray.rs:26-29 | the point at `t` lies `direction * t` away from the origin |
| Rays.PointAtZero | src/ray.rs:26-29 | the point at parameter 0 is the origin |
| Rays.PointAtParameterAffine | src/ray.rs:26-29 | `point(t) - point(s) == direction * (t - s)` |
| Rays.PointAtParameterExample | src/ray.rs:36-43 | origin (1,2,3), direction (2,3,4), at `t = 2` gives (5,8,11) |
| Rays.PointAtParameter | src/ray.rs:26-29 | `origin + direction * t`; `Rays.PointAtParameterOffset`, `Rays.PointAtZero` and `Rays.PointAtParameterAffine` state what the point is |
| PixelGrid.RowStartIsProduct | src/image_data.rs:17-20 | the row offset is `y * x_size` |
| PixelGrid.ToIndexIsRowMajor | src/image_data.rs:17-20 | `to_index(x, y) == y * x_size + x`, and a grid has `x_size * y_size` cells |
| PixelGrid.RowStartMonotone | src/image_data.rs:17-20 | later rows start no earlier |
| PixelGrid.ToIndexInRange | src/canvas.rs:17-20 | an in-bounds coordinate has its index below `x_size * y_size` |
| PixelGrid.ToIndexRowOrder | src/canvas.rs:17-20 | every cell of an earlier row has a smaller index than every cell of a later row |
| PixelGrid.ToIndexInjective | src/canvas.rs:17-20 | distinct in-bounds coordinates have distinct indices |
| PixelGrid.ToIndexAliasesNextRow | src/image_data.rs:72-79 | column `x_size + x` of row `y` is the cell of column `x` in row `y + 1`: only the flat index is bounds-checked |
| PixelGrid.GridFacts | src/image_data.rs:17-20 | range and injectivity for all in-bounds coordinates at once |
| PixelGrid.ToIndex | src/image_data.rs:17-20 | the flat row-major index; `PixelGrid.ToIndexIsRowMajor` states it is `y * x_size + x`, and `PixelGrid.ToIndexInRange` and `PixelGrid.ToIndexInjective` state range and injectivity |
| Images.ImageData.NewBlank | src/image_data.rs:42-49 | `x_size * y_size` cells each equal to the initial value, and completion 0 |
| Images.ImageData.GetComplete | src/image_data.rs:59-61 | returns the completion fraction |
| Images.ImageData.UpdateComplete | src/image_data.rs:63-70 | completion becomes `update(old)`, which is returned, and no cell changes |
| Images.ImageData.GetPixel | src/image_data.rs:72-79 | returns the cell at `to_index(x, y)`; the flat index must be inside the vector, which is where the source panics |
| Images.ImageData.UpdatePixel | src/image_data.rs:81-93 | the cell becomes `update(old)`, which is returned; every other cell and the completion are unchanged |
| Images.ImageData.Snapshot | src/image_data.rs:108-118 | the cell values in index order |
| Images.BlankImageSize | src/image_data.rs:126-129 | a blank 16 by 9 image has 144 cells |
| Images.TenIncrements | src/image_data.rs:132-155 | ten `+1.0` updates of the one cell of a 1 by 1 image leave 10.0 |
| Images.SnapshotBeforeUpdate | src/image_data.rs:157-166 | a snapshot of a blank 2 by 1 image is `[0, 0]` and stays so after cell 0 is set to 1; reads give 1 and 0 |
| Canvases.Canvas.NewBlank | src/canvas.rs:36-42 | `x_size * y_size` cells each equal to the initial value |
| Canvases.Canvas.ReadPixel | src/canvas.rs:52-59 | returns the cell at `to_index(x, y)`; the flat index must be inside the vector |
| Canvases.Canvas.UpdatePixel | src/canvas.rs:61-73 | the cell becomes `update(old)`, which is returned, and every other cell is unchanged |
| Canvases.Canvas.Snapshot | src/canvas.rs:88-98 | the cell values in index order |
| Canvases.BlankCanvasSize | src/canvas.rs:104-107 | a blank 16 by 9 canvas has 144 cells |
| Canvases.TenCanvasIncrements | src/canvas.rs:110-133 | ten `+1.0` updates of a 1 by 1 canvas from 0 leave 10.0 |
| Canvases.CanvasSnapshotBeforeUpdate | src/canvas.rs:135-144 | an earlier snapshot is unaffected by a later update; the reads see the update |
| Geometry.SphereHit | src/hittable.rs:104-122 | a hit exactly when the discriminant is non-negative, the direction is non-zero and the smaller root lies strictly between `min_t` and `max_t`; the hit reports that root, a normal ray from `point_at_parameter(t)` along `unit(point - centre)`, and the sphere's material |
| Geometry.QuadA | src/hittable.rs:106-106 | `d . d`, the squared length of the direction |
| Geometry.QuadB | src/hittable.rs:107-107 | `2 (oc . d)`, with `oc` the origin minus the centre |
| Geometry.QuadC | src/hittable.rs:108-108 | `oc . oc - r^2`; `Geometry.SquaredDistanceAt` states that `a t^2 + b t + c` is the squared distance at `t` minus `r^2` |
| Geometry.Discriminant | src/hittable.rs:109-109 | `b^2 - 4ac` |
| Geometry.SmallerRoot | src/hittable.rs:113-113 | `(-b - sqrt(disc)) / 2a`; `Geometry.SmallerRootSolves` states it solves the quadratic when the root is exact |
| Geometry.SphereHitOnSurface | src/hittable.rs:113-117 | with a square root exact at the discriminant, the hit point lies on the sphere |
| Geometry.SmallerRootSolves | src/hittable.rs:105-113 | `(-b - sqrt(disc)) / 2a` solves `a t^2 + b t + c = 0` |
| Geometry.OnSurfaceAtRoot | src/hittable.rs:105-108 | a root of the quadratic gives a point at squared distance `r^2` from the centre |
| Geometry.SquaredDistanceAt | src/hittable.rs:105-108 | the squared distance from the centre at `t` is `a t^2 + b t + c + r^2` |
| Geometry.PointOffset | src/hittable.rs:105-105 | the point at `t` minus the centre is `oc + d t` |
| Geometry.OffsetSquared | src/hittable.rs:106-108 | `|oc + d t|^2 = t^2 (d.d) + t (2 oc.d) + oc.oc` |
| Geometry.DotOfSum | src/hittable.rs:106-108 | `|a + b|^2 = |a|^2 + 2 a.b + |b|^2` |
| Geometry.QuadraticRoot | src/hittable.rs:109-113 | the quadratic formula's smaller root solves the quadratic |
| Geometry.NoHitFromInside | src/hittable.rs:113-120 | a ray starting strictly inside a sphere, with `min_t >= 0`, never reports it, although the larger root `(-b + sqrt(disc)) / 2a` is in front of it (positive) |
| Geometry.InsideConstantTerm | src/hittable.rs:108-108 | from inside the sphere `c < 0` |
| Geometry.InsideRootNegative | src/hittable.rs:109-113 | with `a > 0` and `c < 0` the smaller root is negative |
| Geometry.InsideLargerRootPositive | src/hittable.rs:109-113 | with `a > 0` and `c < 0` the larger root `(-b + sqrt(disc)) / 2a` is positive |
| Geometry.TangentHit | src/hittable.rs:109-117 | a grazing ray, whose discriminant is exactly 0, is still a hit at `-b / 2a` |
| Geometry.HeadOnHit | src/hittable.rs:104-122 | a ray along the axis at a sphere of radius `rho` at distance `k` hits at `t = k - rho` |
| Geometry.Nearest | src/hittable.rs:63-67 | `None` exactly when every hit is missing; otherwise a present hit no farther than any other, and the first such |
| Geometry.ObjectHits | src/hittable.rs:63-65 | one entry per object, each that object's own hit |
| Geometry.WorldHit | src/hittable.rs:62-68 | `None` exactly when no object is hit (so an empty world never hits); otherwise one object's hit, with `min_t < t < max_t`, and no object hit nearer |
| Geometry.NearestTieKeepsFirst | src/hittable.rs:67-67 | of two equally near hits, the first object's is returned |
| Geometry.NearestLaterNearer | src/hittable.rs:67-67 | a strictly nearer hit later in the list replaces an earlier one |
| Geometry.Closer | src/hittable.rs:67-67 | the `min_by` comparison: the next hit replaces the best so far only when strictly nearer; `Geometry.NearestTieKeepsFirst` and `Geometry.NearestLaterNearer` state both outcomes |
| Materials.ReflectFlipsNormalComponent | src/material.rs:120-122 | about a unit normal, `reflect(d, n) . n == -(d . n)` |
| Materials.ReflectPreservesSquaredLength | src/material.rs:120-122 | about a unit normal, reflection keeps the squared length |
| Materials.SquaredLengthOfDifference | src/material.rs:120-122 | `|a - b|^2 = |a|^2 - 2 a.b + |b|^2` |
| Materials.Reflect | src/material.rs:120-122 | `d - 2 (d . n) n`; `Materials.ReflectFlipsNormalComponent` and `Materials.ReflectPreservesSquaredLength` state that about a unit normal it flips the normal component and keeps the length |
| Materials.MetalDirection | src/material.rs:103-111 | the mirror direction plus `fuzz` times the sample; `Materials.InteractWithMetal` states when it is kept |
| Materials.InteractWithLambertian | src/material.rs:87-94 | no emission and exactly one ray from the hit point along `normal + sample`, attenuated by the albedo |
| Materials.InteractWithMetal | src/material.rs:97-117 | no emission and at most one ray; the ray is kept exactly when `(reflected + fuzz * sample) . normal > 0`, and it starts at the hit point with the albedo as attenuation |
| Materials.MetalMirror | src/material.rs:103-116 | with fuzz 0 and normal (0,1,0), direction `(a, b, c)` with `b < 0` leaves as `(a, -b, c)` and is kept |
| Materials.Refract | src/material.rs:171-180 | `None` exactly when `1 - eta^2 (1 - dt^2) <= 0`, including exactly 0 |
| Materials.RefractDiscriminant | src/material.rs:172-174 | `1 - eta^2 (1 - dt^2)` with `dt` the cosine between the unit inbound direction and the normal; `Materials.Refract` states it decides between refraction and none |
| Materials.SchlickAtNormalIncidence | src/material.rs:164-168 | `schlick(1, eta) == r0` |
| Materials.SchlickAtGrazingIncidence | src/material.rs:164-168 | `schlick(0, eta) == 1` |
| Materials.Pow5 | src/material.rs:167-167 | the fifth power; `Materials.Pow5Bounds` states it stays in [0, 1] on [0, 1] |
| Materials.Pow5Bounds | src/material.rs:167-167 | on [0, 1] the fifth power stays in [0, 1] |
| Materials.R0 | src/material.rs:165-166 | `((1 - n) / (1 + n))^2`; `Materials.R0Bounds` states it lies in [0, 1) for a positive index |
| Materials.R0Bounds | src/material.rs:165-166 | for a positive index the normal-incidence reflectance lies in [0, 1) |
| Materials.Schlick | src/material.rs:164-168 | `r0 + (1 - r0) (1 - cosine)^5`; `Materials.SchlickBounds`, `Materials.SchlickAtNormalIncidence` and `Materials.SchlickAtGrazingIncidence` state its range and end values |
| Materials.SchlickBounds | src/material.rs:164-168 | for a positive index and a cosine in [0, 1], the reflectance lies between `r0` and 1 |
| Materials.DielectricFrameOf | src/material.rs:131-146 | the ray is leaving exactly when its unit direction makes a positive dot with the unit normal; then the normal is flipped and the ratio is `eta`, otherwise it is `1 / eta`; the cosine times the direction's length is `eta` times `d . n` when leaving and `-(d . n)` otherwise, `n` the unit normal |
| Materials.DielectricFrameFacesRay | src/material.rs:131-146 | for a positive index, with `unit` rescaling the direction by its length, the oriented normal faces the ray (non-positive dot with the unit direction) and the cosine is that dot negated, times the index when the ray leaves: never negative |
| Materials.InteractWithDielectric | src/material.rs:125-161 | no emission and exactly one ray from the hit point with attenuation (1,1,1); it is refracted when refraction is possible and Schlick's value is below the draw, and reflected otherwise |
| Materials.DielectricTotalInternalReflection | src/material.rs:147-149 | when refraction is impossible the dielectric reflects, whatever the draw |
| Materials.DielectricIndexOneStraightThrough | src/material.rs:125-161 | glass of index 1 passes the ray through with direction `unit(d)` when the draw exceeds Schlick's value |
| Materials.IndexOneRefracts | src/material.rs:171-180 | at index 1 refraction is possible and gives back the unit direction |
| Materials.IndexOneOrientedCosine | src/material.rs:132-146 | at index 1 the oriented normal makes a negative cosine with the ray |
| Materials.ExactAtSquareNegated | src/material.rs:176-176 | a square root exact at `t * t` is exact at `(-t) * (-t)` |
| Materials.RefractIndexOne | src/material.rs:171-180 | with ratio 1 and an exact square root, refraction returns `unit(inbound)` |
| Materials.Interact | src/material.rs:71-83 | `Normal` emits the normal plus 1 per component and scatters nothing; the others emit nothing; Lambertian and dielectric scatter exactly one ray, metal at most one; every ray starts at the hit point, attenuated by the albedo, or by (1,1,1) for a dielectric |
| Materials.RandomInUnitSphere | src/material.rs:183-194 | draws are tried in order; a returned point comes from the last draw used and has squared length `< 1`, and every earlier draw's candidate was rejected; `None` only once the draws are exhausted |
| Materials.Candidate | src/material.rs:187-188 | `2 * draw - (1, 1, 1)`; `Materials.CandidateInCube` states it maps draws in [0, 1) to the cube [-1, 1) |
| Materials.CandidateInCube | src/material.rs:187-188 | a draw in [0, 1) per component gives a candidate in [-1, 1) per component |
| Cameras.CameraFrame | src/camera.rs:20-25 | `half_width == aspect * half_height`, `w == unit(location - look_at)`, and `v` is orthogonal to `u` and `w` |
| Cameras.CameraNew | src/camera.rs:13-32 | the camera keeps its location; `horizontal == 2 half_width u` and `vertical == 2 half_height v` |
| Cameras.GetRay | src/camera.rs:39-44 | the ray starts at the camera location |
| Cameras.GetRayAtLowerLeft | src/camera.rs:42-42 | at (0, 0) the direction is the lower-left corner |
| Cameras.GetRayShiftU | src/camera.rs:42-42 | moving `u` by `delta` moves the direction by `delta * horizontal` |
| Cameras.GetRayShiftV | src/camera.rs:42-42 | moving `v` by `delta` moves the direction by `delta * vertical` |
| Cameras.GetRayAtCentre | src/camera.rs:28-42 | `lower_left + horizontal / 2 + vertical / 2 == location - w`, which is the direction of `get_ray(0.5, 0.5)` |
| Cameras.PlaneCentre | src/camera.rs:28-30 | the centre of the image plane is `location - w` for any frame |
| Cameras.ImagePlaneOrthogonal | src/camera.rs:23-30 | `horizontal . vertical == 0` and `vertical . w == 0`, whatever `unit` and `tan` return |
| Cameras.HorizontalOrthogonalToAxis | src/camera.rs:23-29 | when `unit` only rescales, `horizontal . w == 0` too |
| Tracer.InterpolateAtOne | src/tracer.rs:121-124 | `interpolate(a, b, 1) == a` |
| Tracer.InterpolateAtZero | src/tracer.rs:121-124 | `interpolate(a, b, 0) == b` |
| Tracer.InterpolateBetween | src/tracer.rs:121-124 | for a factor in [0, 1] each component lies between those of the two ends |
| Tracer.Interpolate | src/tracer.rs:121-124 | `first * factor + second * (1 - factor)`; `Tracer.InterpolateAtOne`, `Tracer.InterpolateAtZero` and `Tracer.InterpolateBetween` state its ends and range |
| Tracer.SkyColorStraightUp | src/tracer.rs:115-119 | straight up the sky is white |
| Tracer.SkyColorStraightDown | src/tracer.rs:115-119 | straight down the sky is (0.5, 0.7, 1.0) |
| Tracer.SkyColorRange | src/tracer.rs:115-119 | for a unit direction the sky lies between (0.5, 0.7, 1.0) and white |
| Tracer.SkyColor | src/tracer.rs:115-119 | white blended towards (0.5, 0.7, 1.0) by the unit direction's `y`; the three `SkyColor` lemmas state its ends and range |
| Tracer.SumFromNonNegative | src/tracer.rs:110-110 | the `+` fold of non-negative colours is non-negative |
| Tracer.SumFromSingle | src/tracer.rs:110-110 | folding one colour into `init` adds it |
| Tracer.SumFrom | src/tracer.rs:110-110 | the `+` fold from `init`; `Tracer.SumFromNonNegative` and `Tracer.SumFromSingle` state its sign and its one-element case |
| Tracer.Contributions | src/tracer.rs:97-109 | one contribution per scattered ray |
| Tracer.ColorOnMiss | src/tracer.rs:89-90 | with no hit the colour is the sky's |
| Tracer.ColorAtDepthZero | src/tracer.rs:92-93 | a hit with the bounce budget spent is black |
| Tracer.ColorOfEmitter | src/tracer.rs:91-110 | a hit that scatters nothing shows exactly what the surface emits |
| Tracer.ColorOfOneBounce | src/tracer.rs:95-110 | one scattered ray: emission plus attenuation times that ray's colour with `min_t` 0.0001, `max_t` `f64::MAX` and one bounce less |
| Tracer.ColorNonNegative | src/tracer.rs:82-113 | when the interaction at every hit the world reports has non-negative emission and attenuation, and normalisation keeps `y` in [-1, 1], every traced colour is non-negative |
| Tracer.WorldColorNonNegative | src/tracer.rs:82-113 | for a world of spheres with non-negative albedos and non-degenerate refractive indices, traced with `Geometry.WorldHit` and `Materials.Interact` and a normalisation whose components stay in [-1, 1], every traced colour is non-negative |
| Tracer.WorldHitInteractionNonNegative | src/material.rs:71-83 | at every hit of such a world, the interaction of the hit sphere's material with the ray and the hit normal is non-negative |
| Tracer.ColorOfWorldMiss | src/tracer.rs:89-90 | traced against a world of spheres, a ray that misses every sphere (in particular any ray in an empty world) shows the sky |
| Tracer.ColorOfWorldHit | src/tracer.rs:89-110 | traced against a world of spheres, a ray that hits some sphere with bounces left takes the nearest hit's material and normal: its colour is that interaction's emission plus the contributions of its scattered rays |
| Tracer.Color | src/tracer.rs:82-113 | the depth-bounded integrator; the `Color...` lemmas above state its miss, depth-0, emitter, one-bounce and world cases and its sign |
| Tracer.ContributionsNonNegative | src/tracer.rs:97-109 | when every hit's interaction is non-negative, every contribution of non-negatively attenuated rays is non-negative |
| Tracer.InteractNonNegative | src/material.rs:71-83 | with a non-negative albedo and, on a `Normal` surface, a normal whose components are at least -1, one material interaction is non-negative |
| Tracer.GetPixelWithRandomness | src/tracer.rs:126-130 | the value times `nx` is `i + draw`; a draw in [0, 1) puts it in `[i / nx, (i + 1) / nx)` |
| Tracer.WorkItemsLayout | src/tracer.rs:30-42 | item `q * y_size + m` is row `y_size - 1 - m` of sample `q`, and there are no others |
| Tracer.WorkItemsCount | src/tracer.rs:30-42 | the list holds `samples * y_size` items |
| Tracer.WorkItemsSampleMajor | src/tracer.rs:30-41 | every item of sample `q` comes before every item of a later sample |
| Tracer.WorkItemsRowsDescend | src/tracer.rs:32-33 | within a sample the rows descend |
| Tracer.WorkItemsNonEmpty | src/tracer.rs:30-42 | there is work exactly when there are samples and rows |
| Tracer.NextWorkItem | src/tracer.rs:30-44 | the item reached after `m` row items of sample `q` is row `y_size - 1 - m` of sample `q` |
| Tracer.RowItems | src/tracer.rs:32-40 | one item per row of a sample, rows in descending order; `Tracer.WorkItemsLayout` states the layout |
| Tracer.WorkItems | src/tracer.rs:30-42 | the items of samples `0 .. samples - 1`, concatenated; `Tracer.WorkItemsLayout`, `Tracer.WorkItemsCount` and `Tracer.WorkItemsSampleMajor` state its layout, size and order |
| Tracer.ItemFraction | src/tracer.rs:43-43 | `1 / count`; `Tracer.LoopFinished` states that the fractions of all items add up to 1 |
| Tracer.RunningAverage | src/tracer.rs:72-78 | sample 0 overwrites; for sample `k > 0`, `k` times the result is `old * (k - 1) + c` |
| Tracer.RunningAverageAtOne | src/tracer.rs:74-78 | sample 1 overwrites too |
| Tracer.AccumulatedOneSample | src/tracer.rs:72-73 | after one sample the pixel is that sample's colour |
| Tracer.AccumulatedMean | src/tracer.rs:72-78 | after `n >= 2` samples the pixel is the mean of samples `1 .. n - 1` |
| Tracer.AccumulatedStep | src/tracer.rs:72-78 | one more sample folds the next colour into the running value |
| Tracer.PixelColour | src/tracer.rs:59-70 | the colour of one jittered camera ray through pixel `(i, j)`, traced with range 0.0001 to `f64::MAX` and 50 bounces; `Tracer.GetPixelWithRandomness` states where the jittered coordinates land |
| Tracer.DrawPixel | src/tracer.rs:59-80 | the pixel becomes the running average of its old value and this sample's colour; the new canvas is the old one with that one cell replaced |
| Tracer.DrawWorkItem | src/tracer.rs:45-55 | every pixel of the item's row gets this sample folded in, every other row is untouched, and completion grows by the fraction |
| Tracer.RowPrefixStep | src/tracer.rs:45-55 | drawing pixel `i` of the row after pixels `0 .. i - 1` leaves pixels `0 .. i` drawn and every other cell as it was |
| Tracer.RowPrefixWhole | src/tracer.rs:45-55 | once all `x_size` pixels of the row are drawn the whole row is drawn and the other rows are untouched |
| Tracer.SamplesDoneStep | src/tracer.rs:30-42 | finishing row item `m` advances its row by one sample and no other row |
| Tracer.ProgressStep | src/tracer.rs:44-54 | drawing the next item keeps every pixel equal to its initial value with its row's finished samples averaged in |
| Tracer.ProgressCell | src/tracer.rs:44-54 | the same for one pixel |
| Tracer.ProgressDone | src/tracer.rs:44-54 | once all items of samples `0 .. n - 1` are done, every pixel has had samples `0 .. n - 1` |
| Tracer.DrawNextItem | src/tracer.rs:44-56 | drawing the next row item moves the progress to the following item and adds the fraction to completion |
| Tracer.DrawToImageData | src/tracer.rs:24-57 | every pixel ends with all `samples` samples averaged in, in increasing order, starting from its old value; completion grows by exactly 1 when there was any work, and by 0 otherwise |
| Tracer.RepeatedSumIsProduct | src/tracer.rs:43-55 | adding the fraction `k` times adds `k` times the fraction |
| Tracer.LoopFinished | src/tracer.rs:24-57 | after the last work item every sample of every row is done, and the completion fractions add up to exactly 1 (0 when there are no items) |
| Display.FoldMax | src/display.rs:94-106 | the fold never goes below its start |
| Display.MaxIntensity | src/display.rs:93-94 | the maximum intensity is at least 1.0 |
| Display.MaxStepBounds | src/display.rs:95-105 | one step is at least the running maximum and each channel, and equals one of them |
| Display.MaxStep | src/display.rs:95-105 | the three `if`s of one fold step; `Display.MaxStepBounds` states its bounds |
| Display.FoldMaxBounds | src/display.rs:94-106 | the fold is at least its start and every channel, and equals its start or one of the channels |
| Display.MaxIntensityBounds | src/display.rs:93-107 | at least 1.0, at least every red, green and blue channel, and equal to 1.0 or one of the channels |
| Display.MaxIntensityFrom | src/display.rs:93-107 | the loop's result is the fold's: at least 1.0 and at least every channel |
| Display.NormaliseAtMostOne | src/display.rs:109-112 | every channel divided by the maximum intensity is at most 1, and at least 0 when the channel is non-negative |
| Display.Normalise | src/display.rs:109-112 | the channel divided by the maximum intensity; `Display.NormaliseAtMostOne` states its range |
| Display.F64ToU8 | src/display.rs:119-122 | `value * 255` truncated and saturated to a byte: 0 at or below 0, 255 at or above 255, the integer part in between |
| Display.F64ToU8Ends | src/display.rs:119-122 | 0 becomes 0, 1 becomes 255, 0.5 becomes 127 |
| Display.ChannelByte | src/display.rs:58-61 | `f64_to_u8(sqrt(normalise(value, max)))`, with `Display.F64ToU8` stating the byte it gives |
| Display.PixelBytes | src/display.rs:57-62 | the four sub-pixels 255, blue, green, red; `Display.SubPixelsLayout` states their place in the buffer |
| Display.SubPixels | src/display.rs:54-65 | the `map` and `flatten` of the sub-pixel construction; `Display.SubPixelsLayout` states its length and blocks |
| Display.SubPixelsLayout | src/display.rs:54-65 | four bytes per pixel; bytes `4k .. 4k + 3` are 255, blue, green and red of pixel `k` |
| Display.SubPixelsAt | src/display.rs:54-65 | bytes `4j .. 4j + 3` are the four sub-pixels of pixel `j` |
| Display.ReversedIndex | src/display.rs:66-66 | element `i` of the reversal is element `n - 1 - i` of the original |
| Display.Reversed | src/display.rs:66-66 | the sequence back to front; `Display.ReversedIndex` and `Display.ReversedInvolutive` state it elementwise and as an involution |
| Display.ReversedInvolutive | src/display.rs:66-66 | reversing twice gives the sequence back |
| Display.Reverse | src/display.rs:66-66 | the in-place reversal leaves the array holding its old contents back to front |
| Display.ReversedFromIndex | src/display.rs:66-66 | a sequence holding the original back to front at every index is its reversal |
| Display.ReversedSubPixelsLayout | src/display.rs:54-66 | after the reversal, bytes `4k .. 4k + 3` are red, green, blue and 255 of pixel `n - 1 - k`, and there are `4n` bytes |
| Display.ReversedBlock | src/display.rs:66-66 | reversing a sequence of four-byte blocks reverses the blocks and the bytes inside each |
| Display.SubPixelBuffer | src/display.rs:52-66 | the buffer is the reversed sub-pixels of the snapshot against its own maximum intensity |
| Display.NatToStringRoundTrip | src/display.rs:126-126 | the decimal digits of a number read back as that number, and there is at least one |
| Display.DigitRoundTrip | src/display.rs:126-126 | a digit character reads back as its digit |
| Display.NatToStringExamples | src/display.rs:126-126 | 0, 7, 255 and 1920 print as `0`, `7`, `255` and `1920` |
| Display.NatToString | src/display.rs:126-126 | decimal digits of a number, as `{}` prints a `usize`; `Display.NatToStringRoundTrip` states that they read back as the number |
| Display.PixelLine | src/display.rs:132-137 | `r g b` of one pixel, each channel as `ChannelByte` gives it, separated by spaces |
| Display.PixelLines | src/display.rs:131-138 | one line per pixel, in order |
| Display.PpmLinesLayout | src/display.rs:124-139 | `P3`, the size, `255`, then one line per pixel, last pixel first, every line against the snapshot's maximum intensity |
| Display.PpmLines | src/display.rs:124-139 | the lines `output_ppm` prints; `Display.PpmLinesLayout` states their layout |
| Display.OutputPpm | src/display.rs:124-139 | the lines the output prints are those of `PpmLines` for the image's snapshot |

## Left out

- Floating point: rounding, infinities and NaN are not modelled. All arithmetic is exact over the reals.
- `sqrt`, `unit`, `length`, `tan` and pi stay abstract parameters. Properties that need them to behave are stated under explicit hypotheses, such as an exact square root or a `unit` that only rescales. `length` and `unit` of `src/vec3.rs` are left out for the same reason.
- Integer width: `to_index` computes `y * x_size + x` in `usize` (`src/image_data.rs:17-20`, `src/canvas.rs:17-20`). That product panics on overflow in debug builds and wraps in release builds. `PixelGrid.ToIndex` and the two grid classes use unbounded `nat`s, so neither outcome is modelled. The same holds for the work-item count and the `i32` sample number.
- Integer-typed vectors and Rust's truncating integer division are left out. The integer vector tests use exact quotients, so they hold unchanged over the reals.
- The generic numeric trait scaffolding of `src/vec3.rs` and its macro-generated conversions are left out. The one concrete type modelled is `real`.
- Random number generation: every draw is a parameter; none is produced.
- `Materials.RandomInUnitSphere` tries a finite list of draws and returns `None` if none is accepted. The source loops until a point is accepted.
- Concurrency: the locks, `Arc`, lock-poisoning `unwrap`s, rayon's parallel iteration and the thread-spawning tests are left out. Work items run one after another in list order, and the thread tests are modelled as sequential updates.
- `Hittable` is a trait object in the source, and `World` is itself a `Hittable` (src/hittable.rs:61), so a world may hold another world. Nested worlds are left out: here the world is a flat list of spheres, `Sphere` being the only other `Hittable`. The NaN panic of `partial_cmp(...).unwrap()` is left out.
- In `Tracer.Color` the material interaction and the world's `hit` are parameters. The material's own draws live behind the first: `Tracer.InteractsAsMaterials` ties it to `Materials.Interact` with the draws a fixed function of the material, the ray and the normal, so two identical calls get identical draws, where the source draws fresh ones from `thread_rng` on every call. `Tracer.TracesWorld` ties the second to `Geometry.WorldHit`; `Tracer.ColorOfWorldMiss`, `Tracer.ColorOfWorldHit` and `Tracer.WorldColorNonNegative` use these ties.
- Materials.InteractWithDielectric: requires a non-zero refractive index, `1 + index != 0` and a non-zero direction length. The source divides by these regardless and gets an infinity or NaN.
- Materials.DielectricFrameOf: requires a non-zero refractive index and a non-zero direction length, for the same reason.
- Materials.Interact: requires the same of a dielectric, for the same reason.
- `Geometry.SphereHit` with a zero direction returns `None`. The source computes `0 / 0`, and the NaN fails both range comparisons, which gives the same result.
- Display.Normalise: the model requires a non-zero maximum. The maximum intensity is always at least 1, so the division by zero the source allows never occurs.
- Display.F64ToU8: NaN is not modelled. The source's saturating cast maps it to 0.
- The window thread of `src/display.rs` is left out: the window, textures, fonts, event loop and the percentage text. What is modelled is the buffer it builds each frame (`Display.SubPixelBuffer`).
- `println!` output is modelled as the sequence of lines printed (`Display.OutputPpm`).
- `src/main.rs` is not part of this model. It holds the scene construction, the random world and the entry point.
- `get_pixel` in `src/tracer.rs` is marked dead code and is left out.
- `Tracer.ItemFraction` uses 0 where the source divides 1 by an item count of 0. That quotient is never used, because there is then no item to add it.
