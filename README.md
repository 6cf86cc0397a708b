# A verified model of the hello-raytracing core

This project models the geometry and shading core of `hello-raytracing`, a small
Monte-Carlo ray tracer written in Rust after "Ray Tracing in One Weekend". It covers:

- the core types and operations:
  - `Vec3` algebra;
  - rays and the early sphere test of the first lesson;
  - the two snapshots of the hit record and its `set_face_normal`;
- intersection and materials:
  - sphere intersection with root selection in an inclusive `t` range;
  - the nearest-hit loop of `HittableList`;
  - the Lambertian, metal and dielectric `scatter` rules, with Schlick's reflectance;
- the camera:
  - the image-height clamp;
  - ray generation for a pixel sample;
  - the depth-bounded recursive `ray_color`;
  - the per-pixel accumulation of `render`;
- the numeric helpers of `util.rs`.

The Dafny model follows the form of the source:

- **Pure code** is written as functions over datatypes.
- **`HitRecord` of `hittable.rs`** is a class. Its `set_face_normal` is a method that overwrites two fields.
- **`Vec3`** has a mutable variable class `Vec3Var` that receives the in-place `*Assign` operators.
- **`Sphere::hit`** is a method. It writes through a hit-record reference and returns a bool.
- **`HittableList`** is a class over a `seq` of objects. Its `hit` is a `for` loop proved against the functional `ListHit`.
- **The sample loop of `render`** is a method that accumulates into a `Vec3Var`. It is proved against `SumOfSamples`.

Numbers, square roots, randomness and the world:

- **`f64` is `real`.** A square root cannot be defined over Dafny's reals, so every operation that takes `sqrt` receives it as a parameter. `Vectors.IsSqrt` constrains it: the result is non-negative and squares back to the argument.
- **Random draws are parameters:**
  - `u` for `random_double()`;
  - the random unit vector;
  - the point of the unit disk.

  `Materials.Draw` groups the draws of one bounce, `Cameras.PixelDraw` those of one camera ray, and `Cameras.Sample` those of one sample.
- **The world passed to `Camera::ray_color`** is a function from a ray and an interval to an optional hit record. That is the `Hittable` trait of `hittable/mod.rs`.
- **The `Material` trait** becomes the closed datatype `Materials.Material`.
- **A `HittableList` member** is the closed datatype `HittableLists.Object`, whose one variant is the sphere of `sphere.rs`.

The source files come from different lesson snapshots, so their signatures differ. Each is modelled
with its own signature:

- `hittable.rs` takes `(ray_tmin, ray_tmax)`.
- `hittable/mod.rs` takes an `Interval` and carries a material.
- `sphere.rs` takes a `RangeInclusive` and a `&mut HitRecord`.

`HittableList` members are queried with `[ray_tmin, closest_so_far]`. That query is the sphere hit over the inclusive range, filling a default record (`HittableLists.ObjectHit`).

The helpers `near_zero`, `reflect` and `refract` are called by the materials but are not
among the modelled files. They are written in `VectorHelpers` as the book defines them.

The camera's doc comment describes `aspect_ratio` as width over height. The code computes the height as
`image_width * aspect_ratio`, so a wide image needs a ratio below 1 (9/16 rather than 16/9). The
model follows the code.

## Model

| member | source | states |
|---|---|---|
| Vectors.New | src/vec3.rs:14-16 | the components are the arguments |
| Vectors.Dot | src/vec3.rs:26-28 | the sum of component products; symmetric and linear in its first factor by `DotBilinear`, `(1,2,3)·(4,5,6) == 32` by `DotExample` |
| Vectors.DotBilinear | src/vec3.rs:26-28 | `a·b == b·a`, `(a+b)·c == a·c + b·c`, `(a k)·b == k (a·b)` |
| Vectors.Add | src/vec3.rs:44-51 | component-wise sum, the value `+=` leaves (`AddAssign`); `Sub` undoes it (`SubUndoesAdd`) |
| Vectors.Sub | src/vec3.rs:140-147 | component-wise difference, the value `-=` leaves (`SubAssign`); it undoes `Add` (`SubUndoesAdd`) |
| Vectors.Mul | src/vec3.rs:90-100 | component-wise product, undone by `Div` (`DivUndoesMul`) |
| Vectors.Div | src/vec3.rs:61-71 | component-wise quotient for non-zero divisor components, undoing `Mul` (`DivUndoesMul`) |
| Vectors.MulScalar | src/vec3.rs:102-109 | every component times `s`, the value `*=` leaves (`MulAssign`); undone by `DivScalar` (`DivScalarUndoesMulScalar`) |
| Vectors.ScalarMul | src/vec3.rs:111-118 | `s * v` equals `v * s` (`ScalarMulCommutes`) |
| Vectors.DivScalar | src/vec3.rs:73-80 | every component over `s`, equal to multiplying by `1/s` and undoing `MulScalar` (`DivScalarUndoesMulScalar`) |
| Vectors.Neg | src/vec3.rs:128-138 | every component negated; an involution that agrees with `0 - v` (`NegInvolution`) |
| Vectors.Cross | src/vec3.rs:18-24 | the cross product is orthogonal to both factors |
| Vectors.LengthSquared | src/vec3.rs:26-28 | `length_squared`, taken as `v·v`, is never negative and is 0 for the zero vector |
| Vectors.Length | src/vec3.rs:30-32 | the length is the non-negative root of `v·v`, positive for a non-zero vector |
| Vectors.UnitVector | src/vec3.rs:34-36 | `v / length` has unit length, components in [-1, 1], and is `v` scaled by a positive factor |
| Vectors.RootOfNonZero | src/vec3.rs:30-32 | a non-negative root of a positive `v·v` is positive |
| Vectors.LengthSquaredScaled | src/vec3.rs:105-108 | scaling by `k` scales `v·v` by `k²` |
| Vectors.UnitComponents | src/vec3.rs:34-36 | every component of a unit vector lies in [-1, 1] |
| Vectors.NonZeroHasLength | src/vec3.rs:26-32 | only the zero vector has `v·v == 0` |
| Vectors.ZeroLengthIsZero | src/vec3.rs:26-32 | `v·v <= 0` forces the zero vector |
| Vectors.Vec3Var.constructor | src/vec3.rs:14-16 | the new place holds the given vector |
| Vectors.Vec3Var.AddAssign | src/vec3.rs:53-58 | `a += b` leaves `a + b`, the value of `Add` (47-50) |
| Vectors.Vec3Var.SubAssign | src/vec3.rs:149-154 | `a -= b` leaves `a - b`, the value of `Sub` (143-146) |
| Vectors.Vec3Var.MulAssign | src/vec3.rs:120-125 | `a *= s` leaves `a * s`, the value of `Mul<f64>` (105-108) |
| Vectors.Vec3Var.DivAssign | src/vec3.rs:82-87 | `a /= s` leaves `a / s`, the value of `Div<f64>` (76-79) |
| Vectors.SubUndoesAdd | src/vec3.rs:44-58 | subtracting undoes adding and the reverse |
| Vectors.NegInvolution | src/vec3.rs:128-137 | negating twice gives the vector back; `v + -v` and `0 - v` agree with negation |
| Vectors.ScalarMulCommutes | src/vec3.rs:102-118 | `v * s == s * v`, each component multiplied by `s` |
| Vectors.DivUndoesMul | src/vec3.rs:61-99 | component-wise division undoes component-wise multiplication |
| Vectors.DivScalarUndoesMulScalar | src/vec3.rs:73-108 | dividing by `s` undoes multiplying by `s`, and equals multiplying by `1/s` |
| Vectors.CrossAnticommutes | src/vec3.rs:18-24 | `a × b == -(b × a)` and `a × a == 0` |
| Vectors.CrossExample | src/vec3.rs:162-173 | `(1,2,3) × (4,5,6) == (-3,6,-3)` |
| Vectors.DotExample | src/vec3.rs:176-187 | `(1,2,3)·(4,5,6) == 32` |
| Vectors.LengthExample | src/vec3.rs:190-200 | `length((3,4,0)) == 5` for any square root |
| Vectors.UnitVectorExample | src/vec3.rs:203-213 | `unit_vector((3,4,0)) == (0.6,0.8,0)` |
| Vectors.AddExample | src/vec3.rs:216-227 | `(1,2,3) + (4,5,6) == (5,7,9)` |
| Vectors.SubExample | src/vec3.rs:355-366 | `(1,2,3) - (4,5,6) == (-3,-3,-3)` |
| Vectors.MulExamples | src/vec3.rs:286-325 | the three products of the tests |
| Vectors.DivExamples | src/vec3.rs:244-269 | the two quotients of the tests |
| Vectors.NegExample | src/vec3.rs:342-352 | `-(1,-2,3) == (-1,2,-3)` |
| Vectors.AssignExamples | src/vec3.rs:230-241 | the in-place operators applied to `(1,2,3)` give the values of the `*_assign` tests (also 272-283, 328-339, 369-380) |
| Rays.New | src/ray.rs:13-15 | the ray holds the given origin and direction |
| Rays.At | src/ray.rs:17-19 | the point at `t` is the origin moved by `t` times the direction; `t = 0` is the origin |
| Rays.AtShift | src/ray.rs:17-19 | moving by `s` then `t` is moving by `s + t` |
| Rays.HitSphere | src/ray.rs:32-39 | `b² - 4ac >= 0`; equivalent to the reduced discriminant (`HitSphereReduced`), to some point of the ray lying on the sphere for a non-zero direction (`HitSphereIff`), and true from inside (`HitSphereFromInside`) |
| Rays.AtDistanceSquared | src/ray.rs:32-36 | the squared distance of `at(t)` from the centre is `a t² + 2 (oc·d) t + oc·oc` |
| Rays.OnSphereQuadratic | src/ray.rs:32-38 | `at(t)` is on the sphere iff that quadratic equals `radius²` |
| Rays.HitSphereReduced | src/ray.rs:32-38 | the test holds iff the reduced discriminant `h² - a c` is non-negative |
| Rays.HitSphereFromInside | src/ray.rs:33-38 | an origin inside or on the sphere always passes the test |
| Rays.HitSphereSound | src/ray.rs:32-38 | a ray with a point on the sphere passes the test |
| Rays.HitSphereComplete | src/ray.rs:32-38 | a ray with a non-zero direction that passes the test meets the sphere |
| Rays.HitSphereIff | src/ray.rs:32-38 | for a non-zero direction, the test holds iff some point of the ray is on the sphere |
| Rays.ZeroDirectionHits | src/ray.rs:21-28 | every ray has a non-zero direction or passes the test, so `ray_color` never normalises a zero vector |
| Rays.HitSphereZeroDirection | src/ray.rs:32-38 | a zero direction passes the test for every sphere |
| Rays.SkyGradient | src/ray.rs:25-27 | `y = 1` gives light blue, `y = -1` white, and each channel lies between them for `y` in [-1, 1] |
| Rays.RayColor | src/ray.rs:21-29 | red exactly when the sphere at (0,0,-1) of radius 0.5 passes the test, else the gradient of the unit direction |
| Rays.RayColorMissBounds | src/ray.rs:3-4 | the background lies between white and light blue |
| Hittable.FacingNormal | src/hittable.rs:23-27 | the stored normal is `±outward`, never points along the ray, keeps the length of `outward` |
| Hittable.FrontFace | src/hittable.rs:23 | `d·outward < 0`; for a non-zero outward normal it holds iff the stored normal is `outward` (`FacingNormalFace`), and it is the `front_face` that `SetFaceNormal` stores |
| Hittable.FacingNormalFace | src/hittable.rs:23-27 | for a non-zero outward normal, the normal is `outward` iff the front face is struck |
| Hittable.HitRecord.constructor | src/hittable.rs:10-16 | the `Default` record: `false` and zeros |
| Hittable.HitRecord.SetFaceNormal | src/hittable.rs:22-28 | `front_face == (d·outward < 0)`, the normal is the facing normal, `p` and `t` are unchanged |
| Hittable.RecordFace | src/hittable.rs:22-28 | after `set_face_normal` the normal is `outward` on the front face, `-outward` otherwise, and never along the ray |
| HittableMod.New | src/hittable/mod.rs:28-37 | the record holds the given material, `p` and `t`, with `front_face = false` and a zero normal |
| HittableMod.SetFaceNormal | src/hittable/mod.rs:42-48 | the face and the facing normal as above; material, `p` and `t` untouched |
| HittableMod.SetFaceNormalIdempotent | src/hittable/mod.rs:42-48 | setting the face normal twice is setting it once |
| HittableMod.SetFaceNormalForgetsFace | src/hittable/mod.rs:42-48 | the result depends on the record only through material, `p` and `t` |
| Spheres.New | src/sphere.rs:11-13 | the sphere holds the given centre and radius |
| Spheres.OnSurfaceQuadratic | src/sphere.rs:23-26 | `at(t)` is on the sphere iff `t` is a root of `a t² + 2 half_b t + c` |
| Spheres.OnSurfaceDistance | src/sphere.rs:23-26 | being on the sphere is `|at(t) - center|² == radius²` |
| Spheres.DistanceQuadratic | src/sphere.rs:23-26 | `|at(t) - center|² - radius²` is the quadratic with the coefficients of `hit` |
| Spheres.Discriminant | src/sphere.rs:28 | `half_b² - a c`; non-negative whenever a point of the ray is on the sphere (`RootHasDiscriminant`) and whenever the origin is inside (`InsideRootsStraddleZero`) |
| Spheres.NearRoot | src/sphere.rs:35 | `(-half_b - sqrtd)/a`; on the sphere and not after `FarRoot` (`BothRoots`), one of the only two points (`OnlyRoots`), negative from inside (`InsideRootsStraddleZero`) |
| Spheres.FarRoot | src/sphere.rs:37 | `(-half_b + sqrtd)/a`; on the sphere (`BothRoots`, `OnlyRoots`), positive from inside (`InsideRootsStraddleZero`) |
| Spheres.QuadraticAIsDot | src/sphere.rs:24 | `a` is `d·d` |
| Spheres.QuadraticCIsDot | src/sphere.rs:26 | `c` is `oc·oc - radius²` |
| Spheres.Roots | src/sphere.rs:28-41 | for `a > 0`: no point on the sphere when the discriminant is negative; else the near and far roots are on it and are its only points, near ≤ far |
| Spheres.RootHasDiscriminant | src/sphere.rs:28-31 | a point on the sphere forces a non-negative discriminant |
| Spheres.BothRoots | src/sphere.rs:34-37 | both `(-half_b ∓ sqrtd)/a` are on the sphere, in order |
| Spheres.OnlyRoots | src/sphere.rs:34-37 | every point on the sphere is one of the two roots |
| Spheres.NearestRoot | src/sphere.rs:28-41 | the chosen root is in range, on the sphere and the least such `t`; None for a negative discriminant or neither root in range; near root wins when in range, far otherwise |
| Spheres.InsideRootsStraddleZero | src/sphere.rs:24-37 | a ray starting strictly inside the sphere has a non-negative discriminant, a negative near root and a positive far root |
| Spheres.InsideHitIsFarRoot | src/sphere.rs:34-41 | from inside, with `tmin >= 0` and the far root in `[tmin, tmax]`, the chosen root is the far root |
| Spheres.Hit | src/sphere.rs:17-48 | true iff a root is chosen; then `rec.t` is it, `rec.p == at(t)`, `rec.normal == (p - center)/radius`; false leaves `rec` unchanged; `front_face` never written |
| Spheres.HitNormalIsUnit | src/sphere.rs:45 | the normal written on a hit has unit length |
| HittableLists.ListHit | src/hittable_list.rs:32-40 | the member found is one of the list |
| HittableLists.ObjectHit | src/hittable_list.rs:36 | a member's query gives a record iff the sphere is hit in `[tmin, closest]`, holding its `t`, point and normal |
| HittableLists.HittableList.constructor | src/hittable_list.rs:9-11 | the new list is empty |
| HittableLists.HittableList.Clear | src/hittable_list.rs:13-15 | the list becomes empty |
| HittableLists.HittableList.Add | src/hittable_list.rs:17-22 | the object is appended after the unchanged earlier ones |
| HittableLists.HittableList.Hit | src/hittable_list.rs:26-43 | the loop's result is `ListHit`'s: a record iff some member's narrowed query succeeded, that of the last such member; `None` on an empty list |
| HittableLists.ListHitInWindow | src/hittable_list.rs:33-38 | a found `t` lies in `[tmin, tmax]`, is on its member, and no later member is hit in `[tmin, t]` |
| HittableLists.ListHitNearest | src/hittable_list.rs:32-42 | for a non-zero direction, any member hit at `t` in the window makes the scan find a `t' <= t` |
| HittableLists.ListHitTieGoesToLater | src/hittable_list.rs:33-39 | a member appended after the current winner and hit at the same `t` becomes the winner, with a `t` no larger |
| HittableLists.DuplicateMemberLaterWins | src/hittable_list.rs:33-39 | a list of the same sphere twice reports the second copy |
| HittableLists.ListMissIff | src/hittable_list.rs:32-42 | for a non-zero direction, `None` iff no member is hit in `[tmin, tmax]` |
| Lambertians.Scatter | src/material/lambertian.rs:19-30 | always scatters from `p` with the albedo, along `normal + unit` unless that is near zero, then along the normal |
| Lambertians.ScatterIgnoresIncoming | src/material/lambertian.rs:19 | the result does not depend on the incoming ray |
| Lambertians.ScatterNotDegenerate | src/material/lambertian.rs:20-25 | a normal that is not near zero gives a direction that is not near zero |
| Lambertians.UnitNotNearZero | src/material/lambertian.rs:23 | a unit vector is never near zero |
| Lambertians.ScatterDirectionNonZero | src/material/lambertian.rs:20-25 | with a unit normal the direction is never near zero, hence never zero |
| Metals.Scatter | src/material/metal.rs:20-26 | scatters iff the fuzzed reflection makes a positive dot product with the normal; then from `p`, with the albedo, along that direction |
| Metals.ScatterWithoutFuzz | src/material/metal.rs:21-23 | with `fuzz = 0` the direction is the mirror reflection of the unit direction |
| Metals.MirrorScattersIff | src/material/metal.rs:21-25 | without fuzz and with a unit normal, scatters iff the ray travels against the normal |
| Dielectrics.RefractionRatio | src/material/dielectric.rs:18-21 | `1/ior` on the front face, `ior` on the back |
| Dielectrics.NormalReflectance | src/material/dielectric.rs:41-42 | `((1-k)/(1+k))²`, in [0, 1) for `k > 0` (`NormalReflectanceInUnit`) |
| Dielectrics.Reflectance | src/material/dielectric.rs:40-44 | Schlick's `r0 + (1-r0)(1-cos)^5`: 1 at `cos = 0`, `r0` at `cos = 1` (`ReflectanceEnds`), in [0, 1] (`ReflectanceInUnit`) |
| Dielectrics.SinTheta | src/material/dielectric.rs:25 | `sqrt(1 - cos²)`, in [0, 1] for `cos` in [-1, 1] (`SinThetaInUnit`) |
| Dielectrics.CannotRefract | src/material/dielectric.rs:27 | `ratio · sin_theta > 1`; false when `ratio · sin_theta <= 1` (`RefractionPossible`), for a ratio at most 1 (`RefractionPossibleBelowOne`) and on entering glass (`EnteringNeverForced`) |
| Dielectrics.PowInUnit | src/material/dielectric.rs:43 | `x^n` stays in [0, 1] for `x` in [0, 1] |
| Dielectrics.ReflectanceEnds | src/material/dielectric.rs:40-44 | `reflectance(0, k) == 1` and `reflectance(1, k) == ((1-k)/(1+k))²` |
| Dielectrics.NormalReflectanceInUnit | src/material/dielectric.rs:41-42 | `r0` is in [0, 1) for a positive ratio |
| Dielectrics.ReflectanceInUnit | src/material/dielectric.rs:40-44 | for `cosine` in [0, 1] and `k > 0` the reflectance is in [0, 1] |
| Dielectrics.CosTheta | src/material/dielectric.rs:24 | `cos_theta <= 1`, and equals `-unit·normal` when that is at most 1 |
| Dielectrics.RefractionPossibleBelowOne | src/material/dielectric.rs:25-27 | with a ratio at most 1 and `cos` in [-1, 1], refraction is never impossible |
| Dielectrics.RefractionPossible | src/material/dielectric.rs:27 | `ratio·sin_theta <= 1` rules out `cannot_refract` |
| Dielectrics.SinThetaInUnit | src/material/dielectric.rs:25 | `sin_theta` is in [0, 1] for `cos` in [-1, 1] |
| Dielectrics.ScaledAtMostOne | src/material/dielectric.rs:27 | a ratio at most 1 times a sine in [0, 1] is at most 1 |
| Dielectrics.Scatter | src/material/dielectric.rs:16-36 | always scatters from `p` with attenuation `White` (1,1,1), reflecting when refraction is impossible or Schlick's draw says so, refracting otherwise |
| Dielectrics.ForcedReflection | src/material/dielectric.rs:27-30 | when refraction is impossible the result is the reflection whatever the draw |
| Dielectrics.Refracts | src/material/dielectric.rs:28-31 | refraction possible and `reflectance <= u` give the refracted direction |
| Dielectrics.EnteringNeverForced | src/material/dielectric.rs:18-27 | entering glass (`ior >= 1`, front face, unit normal) is never forced to reflect |
| Dielectrics.UnitDotBound | src/material/dielectric.rs:24 | the dot product of two unit vectors is at least -1 |
| Cameras.ImageHeight | src/camera.rs:49-50 | at least 1, at most `u32::MAX`, the floor of `width·aspect` when in range, saturated above (cast at 87) |
| Cameras.SquareOffset | src/camera.rs:151-152 | `-0.5 + u` lies in [-0.5, 0.5) for `u` in [0, 1) |
| Cameras.PixelSampleSquare | src/camera.rs:149-154 | `px·delta_u + py·delta_v` with offsets from `SquareOffset`; the centre draws (0.5, 0.5) give the zero offset |
| Cameras.ZeroOffsets | src/camera.rs:153 | zero offsets along both pixel edges give the zero vector |
| Cameras.PixelCenter | src/camera.rs:137 | `pixel00_loc + i·delta_u + j·delta_v`: its offset from `pixel00_loc` is `i·delta_u + j·delta_v`, and pixel (0, 0) is `pixel00_loc` |
| Cameras.DefocusDiskSample | src/camera.rs:157-160 | the sample is the centre moved by `p.x·disk_u + p.y·disk_v` |
| Cameras.GetRay | src/camera.rs:136-154 | the origin is the centre without defocus and a disk sample otherwise; `at(1)` is the sampled point of the pixel |
| Cameras.Scatter | src/camera.rs:122 | a scattered ray starts at `p` with the material's attenuation; only a metal absorbs |
| Cameras.RayColor | src/camera.rs:117-132 | black at depth 0; on a hit that scatters, attenuation times the colour one bounce deeper; black when absorbed; the gradient on a miss |
| Cameras.RayColorDrawsPerDepth | src/camera.rs:117-123 | two draw sequences that agree on bounces `1..depth` give the same colour: each level uses only its own draw, so a camera ray scatters at most `depth` times |
| Cameras.BounceLevel | src/camera.rs:121-123 | one level of the recursion: equal draws at `depth` and equal colours one bounce deeper give equal colours |
| Cameras.RayColorInUnitCube | src/camera.rs:117-132 | when every material attenuates by factors in [0, 1], every channel of the colour is in [0, 1] |
| Cameras.MulInUnitCube | src/camera.rs:123 | the attenuated colour stays in the unit cube |
| Cameras.SkyInUnitCube | src/camera.rs:128-130 | the gradient of a unit direction is in the unit cube |
| Cameras.PixelColor | src/camera.rs:106-110 | the accumulated `pixel_color` is the sum of the samples' colours in order |
| Cameras.SumOfSamplesBounds | src/camera.rs:106-110 | with such materials each channel of the sum of `n` samples lies in [0, n] |
| Util.DegreesToRadians | src/util.rs:1-3 | `radians·180 == degrees·π`; 180 maps to π and 0 to 0 |
| Util.DegreesToRadiansLinear | src/util.rs:1-3 | the conversion is additive and strictly increasing |
| Util.RandomDouble | src/util.rs:5-7 | `u = 0` gives `min`; for `min < max` and `u` in [0, 1) the result is in [min, max) |
| Util.InWidthWhenOrdered | src/util.rs:5-7 | `lo + (hi - lo)·u` is `lo` for `u = 0` and lies in [lo, hi) for `lo < hi` and `u` in [0, 1) |

## Left out

- Floating point is not modelled: there is no rounding, NaN or infinity, and `f64` is `real`. The source's NaN paths are handled as follows:
  - A zero-length `unit_vector` is excluded by `UnitVector`'s precondition.
  - In `Spheres.Hit` a zero direction gives `0/0` roots, which fail every range test, so the model returns false.
  - In `Cameras.RayColor` a zero direction gives black.
  - `cannot_refract` is false when `1 - cos²` is negative, as a NaN comparison would be.
- Division by zero is excluded by types:
  - a sphere of radius zero (`Spheres.Radius`);
  - an index of refraction of 0 or -1 (`Materials.IndexOfRefraction`).
- `sqrt` is a parameter with only the contract of `Vectors.IsSqrt`.
- Randomness: `rand::random`, `Vec3::random_unit_vector`, `Vec3::random_in_unit_disk` and the camera's zero-argument `random_double()` are replaced by draws passed in.
- `src/interval.rs` is not part of this model; `HittableMod.Interval` carries only the bounds the camera passes.
- `near_zero`, `reflect` and `refract` are written as the book writes them, since their definitions are not among the modelled files.
- Output is I/O and is left out: `Vec3::write_color`, the PPM header, progress messages and pixel writes of `Camera::render`, and the pixel loops of `render` around the sample loop.
- `Camera::new`: only the image-height clamp and the `u32` cast are modelled. The viewport computation uses `tan` and `to_radians`, which have no real-number counterpart here.
- `HittableMod.SetFaceNormal` returns the updated record instead of writing through `&mut self`.
- `HittableLists.HittableList.Hit`: only spheres can be members, through the closed datatype `Object`. A nested list as a member and `Box<dyn Hittable>` ownership are left out.
- HittableLists.HittableList.Hit: on a tie at equal `t` the later member wins, because each member is queried over the inclusive window `[ray_tmin, closest_so_far]`. The model keeps that behaviour (`ListHitTieGoesToLater`, `DuplicateMemberLaterWins`) rather than the first-wins reading of "the nearest hit".
- `Rc<dyn Material>` sharing is replaced by material values.
- The camera's world is a function parameter. `sphere.rs` and `hittable_list.rs` are written against the other snapshots' signatures, and no world built from them is connected to it.
- `src/lib.rs` (scene construction), `src/main.rs` (a gradient image) and the benchmarks are not part of this model.
- `u32` fields are `nat`. Only the cast of the image height, which saturates, is written out.
- Cameras.RayColor: `camera.rs` imports `WHITE` and `LIGHT_BLUE` from a `vec3` module whose definitions are not among the modelled files (the modelled `vec3.rs` has neither). The model takes them to be the values `ray.rs` defines at lines 3-4, through `Rays.SkyGradient`.
