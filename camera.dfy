/**
 * `camera.rs`: the image-height clamp of `Camera::new`, the generation of a sampled
 * ray for a pixel, the depth-bounded recursive `ray_color` and the accumulation of a
 * pixel's samples in `render`.
 *
 * The world is the `&dyn Hittable` of `hittable/mod.rs`, passed as a function from a
 * ray and an interval to an optional hit record. Every random draw is passed in.
 */
module Cameras {
  import opened Options
  import opened RealArith
  import opened Vectors
  import opened Rays
  import opened Materials
  import opened HittableMod
  import Lambertians
  import Metals
  import Dielectrics

  /** The largest `u32`. */
  const U32Max: nat := 4294967295

  /** The fields of `Camera` that its methods read. */
  datatype Camera = Camera(
    center: Vec3,
    defocusAngle: real,
    defocusDiskU: Vec3,
    defocusDiskV: Vec3,
    imageHeight: nat,
    imageWidth: nat,
    maxDepth: nat,
    pixel00Loc: Vec3,
    pixelDeltaU: Vec3,
    pixelDeltaV: Vec3,
    samplesPerPixel: nat)

  /**
   * The image height of `Camera::new`: `image_width * aspect_ratio`, at least 1,
   * truncated, and cast to `u32`, a cast that saturates at `u32::MAX`.
   */
  function ImageHeight(imageWidth: nat, aspectRatio: real): (h: nat)
    requires imageWidth <= U32Max
    ensures 1 <= h <= U32Max
    ensures imageWidth as real * aspectRatio < 1.0 ==> h == 1
    ensures 1.0 <= imageWidth as real * aspectRatio < (U32Max + 1) as real ==>
      h as real <= imageWidth as real * aspectRatio < (h + 1) as real
    ensures (U32Max + 1) as real <= imageWidth as real * aspectRatio ==> h == U32Max
  {
    var scaled := imageWidth as real * aspectRatio;
    var clamped := if scaled < 1.0 then 1.0 else scaled;
    // `trunc` of a number that is at least 1 is its floor.
    var truncated := clamped.Floor;
    if truncated > U32Max then U32Max else truncated
  }

  /** The random draws for one camera ray: two `random_double()` and a point of the unit disk. */
  datatype PixelDraw = PixelDraw(px: real, py: real, disk: Vec3)

  /** `-0.5 + random_double()`: an offset in [-0.5, 0.5) for a draw in [0, 1). */
  function SquareOffset(u: real): (o: real)
    ensures 0.0 <= u < 1.0 ==> -0.5 <= o < 0.5
    ensures u == 0.5 ==> o == 0.0
  {
    -0.5 + u
  }

  /** `pixel_sample_square`: a point of the pixel's square around the origin. */
  function PixelSampleSquare(cam: Camera, u1: real, u2: real): (p: Vec3)
    ensures u1 == 0.5 && u2 == 0.5 ==> p == Zero
  {
    ZeroOffsets(SquareOffset(u1), SquareOffset(u2), cam.pixelDeltaU, cam.pixelDeltaV);
    Add(ScalarMul(SquareOffset(u1), cam.pixelDeltaU), ScalarMul(SquareOffset(u2), cam.pixelDeltaV))
  }

  /** Zero offsets along both pixel edges give the zero vector. */
  lemma ZeroOffsets(k1: real, k2: real, a: Vec3, b: Vec3)
    ensures k1 == 0.0 && k2 == 0.0 ==> Add(ScalarMul(k1, a), ScalarMul(k2, b)) == Zero
  {
  }

  /** `defocus_disk_sample`: the centre moved by the disk point along the disk basis. */
  function DefocusDiskSample(cam: Camera, p: Vec3): (q: Vec3)
    ensures p.x == 0.0 && p.y == 0.0 ==> q == cam.center
    ensures Sub(q, cam.center) == Add(ScalarMul(p.x, cam.defocusDiskU), ScalarMul(p.y, cam.defocusDiskV))
  {
    Add(Add(cam.center, ScalarMul(p.x, cam.defocusDiskU)), ScalarMul(p.y, cam.defocusDiskV))
  }

  /** `pixel00_loc + i * pixel_delta_u + j * pixel_delta_v`. */
  function PixelCenter(cam: Camera, i: real, j: real): (c: Vec3)
    ensures i == 0.0 && j == 0.0 ==> c == cam.pixel00Loc
    ensures Sub(c, cam.pixel00Loc) == Add(ScalarMul(i, cam.pixelDeltaU), ScalarMul(j, cam.pixelDeltaV))
  {
    Add(Add(cam.pixel00Loc, ScalarMul(i, cam.pixelDeltaU)), ScalarMul(j, cam.pixelDeltaV))
  }

  /**
   * `get_ray`: a ray from the camera centre (no defocus) or from a point of the defocus
   * disk, that reaches the sampled point of pixel (i, j) at `t = 1`.
   */
  function GetRay(cam: Camera, i: real, j: real, draw: PixelDraw): (r: Ray)
    ensures cam.defocusAngle <= 0.0 ==> r.origin == cam.center
    ensures cam.defocusAngle > 0.0 ==> r.origin == DefocusDiskSample(cam, draw.disk)
    ensures At(r, 1.0) == Add(PixelCenter(cam, i, j), PixelSampleSquare(cam, draw.px, draw.py))
  {
    var pixelCenter := PixelCenter(cam, i, j);
    var pixelSample := Add(pixelCenter, PixelSampleSquare(cam, draw.px, draw.py));
    var rayOrigin := if cam.defocusAngle <= 0.0 then cam.center else DefocusDiskSample(cam, draw.disk);
    var rayDirection := Sub(pixelSample, rayOrigin);
    Ray(rayOrigin, rayDirection)
  }

  /** The attenuation a material scatters with. */
  function Attenuation(m: Material): Vec3
  {
    match m
    case Lambertian(albedo) => albedo
    case Metal(albedo, _) => albedo
    case Dielectric(_) => White
  }

  /**
   * `rec.material.scatter(r, &rec)`, dispatched on the closed set of materials: the
   * scattered ray starts at the hit point with the material's attenuation, and only a
   * metal absorbs.
   */
  function Scatter(rIn: Ray, rec: HitRecord, draw: Draw, sqrt: real -> real): (s: Option<Scattered>)
    requires IsSqrt(sqrt)
    requires LengthSquared(rIn.direction) > 0.0
    ensures s.Some? ==> s.value.attenuation == Attenuation(rec.material) && s.value.scattered.origin == rec.p
    ensures s.None? ==> rec.material.Metal?
  {
    match rec.material
    case Lambertian(albedo) => Lambertians.Scatter(albedo, rIn, rec, draw.unitVector)
    case Metal(albedo, fuzz) => Metals.Scatter(albedo, fuzz, rIn, rec, draw.unitVector, sqrt)
    case Dielectric(ior) => Dielectrics.Scatter(ior, rIn, rec, draw.u, sqrt)
  }

  /** `Interval::new(0.001, f64::INFINITY)`, which skips hits too close to the origin. */
  const HitInterval := Interval(0.001, Infinity)

  /**
   * `ray_color`: black once the bounce budget is spent; on a hit, the attenuation times
   * the colour of the scattered ray with one bounce less, or black when the ray is
   * absorbed; on a miss, the sky gradient of the unit direction. `bounces(depth)` is the
   * draw used at that depth. A zero direction, whose unit vector is NaN in the source,
   * gives black.
   */
  function RayColor(r: Ray, depth: nat, world: (Ray, Interval) -> Option<HitRecord>,
                    bounces: nat -> Draw, sqrt: real -> real): (c: Vec3)
    requires IsSqrt(sqrt)
    ensures depth == 0 ==> c == Zero
    ensures depth > 0 && LengthSquared(r.direction) > 0.0 && world(r, HitInterval).None? ==>
      c == SkyGradient(UnitVector(r.direction, sqrt).y)
    ensures depth > 0 && LengthSquared(r.direction) > 0.0 && world(r, HitInterval).Some? ==>
      var s := Scatter(r, world(r, HitInterval).value, bounces(depth), sqrt);
      && (s.None? ==> c == Zero)
      && (s.Some? ==> c == Mul(s.value.attenuation, RayColor(s.value.scattered, depth - 1, world, bounces, sqrt)))
    decreases depth
  {
    if depth == 0 then
      Zero
    else if LengthSquared(r.direction) <= 0.0 then
      Zero
    else
      var hit := world(r, HitInterval);
      if hit.Some? then
        var scattered := Scatter(r, hit.value, bounces(depth), sqrt);
        if scattered.Some? then
          var s := scattered.value;
          Mul(s.attenuation, RayColor(s.scattered, depth - 1, world, bounces, sqrt))
        else
          Zero
      else
        var unitDirection := UnitVector(r.direction, sqrt);
        SkyGradient(unitDirection.y)
  }

  /**
   * Each level of the recursion draws only `bounces(depth)`: two draw sequences that
   * agree on `1..depth` give the same colour. So a camera ray makes at most one
   * `scatter` call per unit of depth, at most `depth` in all.
   */
  lemma {:induction false} RayColorDrawsPerDepth(r: Ray, depth: nat, world: (Ray, Interval) -> Option<HitRecord>,
                                                 bounces1: nat -> Draw, bounces2: nat -> Draw, sqrt: real -> real)
    requires IsSqrt(sqrt)
    requires forall k :: 1 <= k <= depth ==> bounces1(k) == bounces2(k)
    ensures RayColor(r, depth, world, bounces1, sqrt) == RayColor(r, depth, world, bounces2, sqrt)
    decreases depth
  {
    if depth > 0 && LengthSquared(r.direction) > 0.0 && world(r, HitInterval).Some? {
      var s := Scatter(r, world(r, HitInterval).value, bounces1(depth), sqrt);
      if s.Some? {
        RayColorDrawsPerDepth(s.value.scattered, depth - 1, world, bounces1, bounces2, sqrt);
      }
      BounceLevel(r, depth, world, bounces1, bounces2, sqrt);
    }
  }

  /** One level of `RayColorDrawsPerDepth`: equal draws at `depth` and equal colours below. */
  lemma BounceLevel(r: Ray, depth: nat, world: (Ray, Interval) -> Option<HitRecord>,
                    bounces1: nat -> Draw, bounces2: nat -> Draw, sqrt: real -> real)
    requires IsSqrt(sqrt)
    requires depth > 0 && LengthSquared(r.direction) > 0.0 && world(r, HitInterval).Some?
    requires bounces1(depth) == bounces2(depth)
    requires var s := Scatter(r, world(r, HitInterval).value, bounces1(depth), sqrt);
      s.Some? ==>
        RayColor(s.value.scattered, depth - 1, world, bounces1, sqrt)
        == RayColor(s.value.scattered, depth - 1, world, bounces2, sqrt)
    ensures RayColor(r, depth, world, bounces1, sqrt) == RayColor(r, depth, world, bounces2, sqrt)
  {
  }

  predicate InUnitCube(c: Vec3)
  {
    0.0 <= c.x <= 1.0 && 0.0 <= c.y <= 1.0 && 0.0 <= c.z <= 1.0
  }

  /** Every material of the world attenuates each channel by a factor in [0, 1]. */
  ghost predicate AttenuatesOnly(world: (Ray, Interval) -> Option<HitRecord>)
  {
    forall r: Ray, i: Interval :: world(r, i).Some? ==> InUnitCube(Attenuation(world(r, i).value.material))
  }

  /** In a world whose materials only attenuate, every channel of `RayColor` lies in [0, 1]. */
  lemma {:induction false} RayColorInUnitCube(r: Ray, depth: nat, world: (Ray, Interval) -> Option<HitRecord>,
                                              bounces: nat -> Draw, sqrt: real -> real)
    requires IsSqrt(sqrt)
    requires AttenuatesOnly(world)
    ensures InUnitCube(RayColor(r, depth, world, bounces, sqrt))
    decreases depth
  {
    if depth > 0 && LengthSquared(r.direction) > 0.0 {
      var hit := world(r, HitInterval);
      if hit.Some? {
        var scattered := Scatter(r, hit.value, bounces(depth), sqrt);
        if scattered.Some? {
          var s := scattered.value;
          RayColorInUnitCube(s.scattered, depth - 1, world, bounces, sqrt);
          MulInUnitCube(s.attenuation, RayColor(s.scattered, depth - 1, world, bounces, sqrt));
        }
      } else {
        SkyInUnitCube(UnitVector(r.direction, sqrt).y);
      }
    }
  }

  lemma MulInUnitCube(a: Vec3, b: Vec3)
    requires InUnitCube(a) && InUnitCube(b)
    ensures InUnitCube(Mul(a, b))
  {
    ProductInUnit(a.x, b.x);
    ProductInUnit(a.y, b.y);
    ProductInUnit(a.z, b.z);
  }

  lemma SkyInUnitCube(y: real)
    requires -1.0 <= y <= 1.0
    ensures InUnitCube(SkyGradient(y))
  {
  }

  /** What one sample of `render` draws: the camera ray's draws and the bounces' draws. */
  datatype Sample = Sample(pixel: PixelDraw, bounces: nat -> Draw)

  /** The colour of one sample of pixel (i, j). */
  function SampleColor(cam: Camera, i: real, j: real, world: (Ray, Interval) -> Option<HitRecord>,
                       sample: Sample, sqrt: real -> real): Vec3
    requires IsSqrt(sqrt)
  {
    RayColor(GetRay(cam, i, j, sample.pixel), cam.maxDepth, world, sample.bounces, sqrt)
  }

  /** The sum of the colours of the given samples, in order. */
  function SumOfSamples(cam: Camera, i: real, j: real, world: (Ray, Interval) -> Option<HitRecord>,
                        samples: seq<Sample>, sqrt: real -> real): Vec3
    requires IsSqrt(sqrt)
  {
    if |samples| == 0 then Zero
    else Add(SumOfSamples(cam, i, j, world, samples[..|samples| - 1], sqrt),
             SampleColor(cam, i, j, world, samples[|samples| - 1], sqrt))
  }

  /**
   * The inner loop of `render`: `pixel_color` starts black and `+=` adds the colour of
   * each of the `samples_per_pixel` samples.
   */
  method PixelColor(cam: Camera, i: real, j: real, world: (Ray, Interval) -> Option<HitRecord>,
                    samples: seq<Sample>, sqrt: real -> real) returns (color: Vec3)
    requires IsSqrt(sqrt)
    requires |samples| == cam.samplesPerPixel
    ensures color == SumOfSamples(cam, i, j, world, samples, sqrt)
  {
    var pixelColor := new Vec3Var(Zero);
    for s := 0 to cam.samplesPerPixel
      invariant pixelColor.Value() == SumOfSamples(cam, i, j, world, samples[..s], sqrt)
    {
      assert samples[..s + 1][..s] == samples[..s];
      var r := GetRay(cam, i, j, samples[s].pixel);
      pixelColor.AddAssign(RayColor(r, cam.maxDepth, world, samples[s].bounces, sqrt));
    }
    assert samples[..cam.samplesPerPixel] == samples;
    color := pixelColor.Value();
  }

  /** In a world whose materials only attenuate, each channel of the sum is in [0, n]. */
  lemma {:induction false} SumOfSamplesBounds(cam: Camera, i: real, j: real, world: (Ray, Interval) -> Option<HitRecord>,
                                              samples: seq<Sample>, sqrt: real -> real)
    requires IsSqrt(sqrt)
    requires AttenuatesOnly(world)
    ensures var c := SumOfSamples(cam, i, j, world, samples, sqrt);
      var n := |samples| as real;
      0.0 <= c.x <= n && 0.0 <= c.y <= n && 0.0 <= c.z <= n
  {
    if |samples| > 0 {
      var last := samples[|samples| - 1];
      SumOfSamplesBounds(cam, i, j, world, samples[..|samples| - 1], sqrt);
      RayColorInUnitCube(GetRay(cam, i, j, last.pixel), cam.maxDepth, world, last.bounces, sqrt);
    }
  }
}
