/**
 * `sphere.rs`: a sphere and its ray intersection, which picks the nearer root of the
 * quadratic that lies in an inclusive range of `t` and writes it into a hit record.
 */
module Spheres {
  import opened Options
  import opened RealArith
  import opened Vectors
  import opened Rays
  import Hittable

  /** The normal divides by the radius, so a sphere of radius zero is left out. */
  type Radius = r: real | r != 0.0 witness 1.0

  datatype Sphere = Sphere(center: Vec3, radius: Radius)

  /** `Sphere::new`. */
  function New(center: Vec3, radius: Radius): (s: Sphere)
    ensures s.center == center && s.radius == radius
  {
    Sphere(center, radius)
  }

  /** `RangeInclusive<f64>`: `start..=end`. */
  datatype RangeInclusive = RangeInclusive(start: real, end: real)
  {
    /** `RangeInclusive::contains`: both ends belong to the range. */
    predicate Contains(x: real)
    {
      start <= x <= end
    }
  }

  /** The squared distance of the point at `t` from the centre is `radius^2`. */
  predicate OnSurface(s: Sphere, r: Ray, t: real)
  {
    OnSphere(s.center, s.radius, At(r, t))
  }

  // The coefficients of the quadratic `a t^2 + 2 half_b t + c` whose roots are the
  // `t` where the ray meets the sphere, and its reduced discriminant.

  function QuadraticA(r: Ray): real
  {
    LengthSquared(r.direction)
  }

  function HalfB(s: Sphere, r: Ray): real
  {
    Dot(Sub(r.origin, s.center), r.direction)
  }

  function QuadraticC(s: Sphere, r: Ray): real
  {
    LengthSquared(Sub(r.origin, s.center)) - s.radius * s.radius
  }

  function Discriminant(s: Sphere, r: Ray): real
  {
    HalfB(s, r) * HalfB(s, r) - QuadraticA(r) * QuadraticC(s, r)
  }

  /** `(-half_b - sqrtd) / a`. */
  function NearRoot(s: Sphere, r: Ray, sqrt: real -> real): real
    requires QuadraticA(r) != 0.0
  {
    (-HalfB(s, r) - sqrt(Discriminant(s, r))) / QuadraticA(r)
  }

  /** `(-half_b + sqrtd) / a`. */
  function FarRoot(s: Sphere, r: Ray, sqrt: real -> real): real
    requires QuadraticA(r) != 0.0
  {
    (-HalfB(s, r) + sqrt(Discriminant(s, r))) / QuadraticA(r)
  }

  /** A point on the ray is on the sphere exactly when its `t` is a root of the quadratic. */
  lemma OnSurfaceQuadratic(s: Sphere, r: Ray, t: real)
    ensures OnSurface(s, r, t) <==> Quadratic(QuadraticA(r), HalfB(s, r), QuadraticC(s, r), t) == 0.0
  {
    OnSurfaceDistance(s, r, t);
    DistanceQuadratic(s, r, t);
  }

  lemma OnSurfaceDistance(s: Sphere, r: Ray, t: real)
    ensures OnSurface(s, r, t) <==> LengthSquared(Sub(At(r, t), s.center)) == s.radius * s.radius
  {
  }

  /** The squared distance of the point at `t` from the surface's radius, as the quadratic. */
  lemma DistanceQuadratic(s: Sphere, r: Ray, t: real)
    ensures LengthSquared(Sub(At(r, t), s.center)) - s.radius * s.radius
         == Quadratic(QuadraticA(r), HalfB(s, r), QuadraticC(s, r), t)
  {
    var oc := Sub(r.origin, s.center);
    AtDistanceSquared(r, s.center, t);
    QuadraticAIsDot(r);
    QuadraticCIsDot(s, r);
    QuadraticShift(QuadraticA(r), HalfB(s, r), Dot(oc, oc), s.radius * s.radius, t);
  }

  lemma QuadraticAIsDot(r: Ray)
    ensures QuadraticA(r) == Dot(r.direction, r.direction)
  {
  }

  lemma QuadraticCIsDot(s: Sphere, r: Ray)
    ensures QuadraticC(s, r) == Dot(Sub(r.origin, s.center), Sub(r.origin, s.center)) - s.radius * s.radius
  {
  }

  /**
   * For a non-zero direction: no root when the discriminant is negative; otherwise
   * exactly the near and the far root, in that order.
   */
  lemma Roots(s: Sphere, r: Ray, sqrt: real -> real)
    requires IsSqrt(sqrt)
    ensures QuadraticA(r) > 0.0 && Discriminant(s, r) < 0.0 ==> forall t :: !OnSurface(s, r, t)
    ensures QuadraticA(r) > 0.0 && Discriminant(s, r) >= 0.0 ==>
      && OnSurface(s, r, NearRoot(s, r, sqrt))
      && OnSurface(s, r, FarRoot(s, r, sqrt))
      && NearRoot(s, r, sqrt) <= FarRoot(s, r, sqrt)
      && forall t :: OnSurface(s, r, t) ==> t == NearRoot(s, r, sqrt) || t == FarRoot(s, r, sqrt)
  {
    if QuadraticA(r) > 0.0 {
      forall t | OnSurface(s, r, t)
        ensures Discriminant(s, r) >= 0.0
      {
        RootHasDiscriminant(s, r, t);
      }
      if Discriminant(s, r) >= 0.0 {
        BothRoots(s, r, sqrt);
        forall t | OnSurface(s, r, t)
          ensures t == NearRoot(s, r, sqrt) || t == FarRoot(s, r, sqrt)
        {
          OnlyRoots(s, r, sqrt, t);
        }
      }
    }
  }

  lemma RootHasDiscriminant(s: Sphere, r: Ray, t: real)
    requires OnSurface(s, r, t)
    ensures Discriminant(s, r) >= 0.0
  {
    var a, h, c := QuadraticA(r), HalfB(s, r), QuadraticC(s, r);
    OnSurfaceQuadratic(s, r, t);
    HalfBDiscriminantOfRoot(a, h, c, t);
    assert Product(a, c) == a * c;
  }

  lemma BothRoots(s: Sphere, r: Ray, sqrt: real -> real)
    requires IsSqrt(sqrt)
    requires QuadraticA(r) > 0.0 && Discriminant(s, r) >= 0.0
    ensures OnSurface(s, r, NearRoot(s, r, sqrt)) && OnSurface(s, r, FarRoot(s, r, sqrt))
    ensures NearRoot(s, r, sqrt) <= FarRoot(s, r, sqrt)
  {
    var a, h, c := QuadraticA(r), HalfB(s, r), QuadraticC(s, r);
    assert Product(a, c) == a * c;
    var sqrtd := sqrt(Discriminant(s, r));
    HalfBRoots(a, h, c, sqrtd, NearRoot(s, r, sqrt));
    HalfBRoots(a, h, c, sqrtd, FarRoot(s, r, sqrt));
    OnSurfaceQuadratic(s, r, NearRoot(s, r, sqrt));
    OnSurfaceQuadratic(s, r, FarRoot(s, r, sqrt));
    HalfBRootsOrdered(a, h, sqrtd);
  }

  lemma OnlyRoots(s: Sphere, r: Ray, sqrt: real -> real, t: real)
    requires IsSqrt(sqrt)
    requires QuadraticA(r) > 0.0 && Discriminant(s, r) >= 0.0 && OnSurface(s, r, t)
    ensures t == NearRoot(s, r, sqrt) || t == FarRoot(s, r, sqrt)
  {
    var a, h, c := QuadraticA(r), HalfB(s, r), QuadraticC(s, r);
    assert Product(a, c) == a * c;
    OnSurfaceQuadratic(s, r, t);
    HalfBOnlyRoots(a, h, c, sqrt(Discriminant(s, r)), t);
  }

  /**
   * From an origin strictly inside the sphere, a ray with a non-zero direction meets
   * the surface once behind its origin and once ahead of it.
   */
  lemma InsideRootsStraddleZero(s: Sphere, r: Ray, sqrt: real -> real)
    requires IsSqrt(sqrt)
    requires QuadraticA(r) > 0.0
    requires LengthSquared(Sub(r.origin, s.center)) < s.radius * s.radius
    ensures Discriminant(s, r) >= 0.0
    ensures NearRoot(s, r, sqrt) < 0.0 < FarRoot(s, r, sqrt)
  {
    var a, h, c := QuadraticA(r), HalfB(s, r), QuadraticC(s, r);
    ProductNegative(a, c);
    assert Product(a, c) == a * c;
    SquareNonNegative(h);
    HalfBRootsStraddleZero(a, h, c, sqrt(Discriminant(s, r)));
  }

  /**
   * Hence from inside the sphere, with a range that starts at or after the origin,
   * the hit reported is the far root whenever that root is in range.
   */
  lemma InsideHitIsFarRoot(s: Sphere, r: Ray, tmin: real, tmax: real, sqrt: real -> real)
    requires IsSqrt(sqrt)
    requires QuadraticA(r) > 0.0
    requires LengthSquared(Sub(r.origin, s.center)) < s.radius * s.radius
    requires 0.0 <= tmin <= FarRoot(s, r, sqrt) <= tmax
    ensures NearestRoot(s, r, RangeInclusive(tmin, tmax), sqrt) == Some(FarRoot(s, r, sqrt))
  {
    InsideRootsStraddleZero(s, r, sqrt);
  }

  /**
   * The root `hit` selects, if any: `None` when the discriminant is negative;
   * otherwise the near root if it lies in the range, else the far root if it does,
   * else `None`. For a zero direction (`a == 0`) both roots of the source are
   * `0 / 0`, a NaN that no range contains, so the result is `None` as well.
   * The selected root is in the range, on the sphere, and the least such `t`;
   * for a non-zero direction `None` means no `t` in the range is on the sphere.
   */
  function NearestRoot(s: Sphere, r: Ray, rayRange: RangeInclusive, sqrt: real -> real): (root: Option<real>)
    requires IsSqrt(sqrt)
    ensures root.Some? ==> rayRange.Contains(root.value) && OnSurface(s, r, root.value)
    ensures root.Some? ==> forall t :: rayRange.Contains(t) && OnSurface(s, r, t) ==> root.value <= t
    ensures root.None? && LengthSquared(r.direction) > 0.0 ==>
      forall t :: rayRange.Contains(t) ==> !OnSurface(s, r, t)
    ensures Discriminant(s, r) < 0.0 ==> root.None?
    ensures root.Some? ==> QuadraticA(r) != 0.0 && Discriminant(s, r) >= 0.0
    ensures root.Some? && rayRange.Contains(NearRoot(s, r, sqrt)) ==> root.value == NearRoot(s, r, sqrt)
    ensures root.Some? && !rayRange.Contains(NearRoot(s, r, sqrt)) ==> root.value == FarRoot(s, r, sqrt)
    ensures QuadraticA(r) != 0.0 ==>
      (!rayRange.Contains(NearRoot(s, r, sqrt)) && !rayRange.Contains(FarRoot(s, r, sqrt)) ==> root.None?)
  {
    Roots(s, r, sqrt);
    if Discriminant(s, r) < 0.0 || QuadraticA(r) == 0.0 then
      None
    else if rayRange.Contains(NearRoot(s, r, sqrt)) then
      Some(NearRoot(s, r, sqrt))
    else if rayRange.Contains(FarRoot(s, r, sqrt)) then
      Some(FarRoot(s, r, sqrt))
    else
      None
  }

  /**
   * `Hittable::hit` for a sphere: on a hit, writes `t`, the point at `t` and the outward
   * normal `(p - center) / radius` into `rec` and returns true; otherwise returns false
   * and leaves `rec` as it was. `front_face` is never written.
   */
  method Hit(s: Sphere, r: Ray, rayRange: RangeInclusive, rec: Hittable.HitRecord, sqrt: real -> real)
    returns (hit: bool)
    requires IsSqrt(sqrt)
    modifies rec
    ensures hit <==> NearestRoot(s, r, rayRange, sqrt).Some?
    ensures !hit ==> unchanged(rec)
    ensures hit ==> rec.t == NearestRoot(s, r, rayRange, sqrt).value
    ensures hit ==> rec.p == At(r, rec.t)
    ensures hit ==> rec.normal == DivScalar(Sub(rec.p, s.center), s.radius)
    ensures rec.frontFace == old(rec.frontFace)
  {
    var oc := Sub(r.origin, s.center);
    var a := LengthSquared(r.direction);
    var halfB := Dot(oc, r.direction);
    var c := LengthSquared(oc) - s.radius * s.radius;

    var discriminant := halfB * halfB - a * c;
    assert discriminant == Discriminant(s, r);
    if discriminant < 0.0 {
      return false;
    }
    // `0 / 0` is NaN in the source, and no range contains NaN.
    if a == 0.0 {
      return false;
    }

    var sqrtd := sqrt(discriminant);
    var root := (-halfB - sqrtd) / a;
    assert root == NearRoot(s, r, sqrt);
    if !rayRange.Contains(root) {
      root := (-halfB + sqrtd) / a;
      assert root == FarRoot(s, r, sqrt);
      if !rayRange.Contains(root) {
        return false;
      }
    }

    rec.t := root;
    rec.p := At(r, root);
    rec.normal := DivScalar(Sub(rec.p, s.center), s.radius);

    return true;
  }

  /** The normal written on a hit has unit length. */
  lemma HitNormalIsUnit(s: Sphere, r: Ray, t: real)
    requires OnSurface(s, r, t)
    ensures LengthSquared(DivScalar(Sub(At(r, t), s.center), s.radius)) == 1.0
  {
    var v := Sub(At(r, t), s.center);
    DivIsMulInverse(v.x, s.radius);
    DivIsMulInverse(v.y, s.radius);
    DivIsMulInverse(v.z, s.radius);
    assert DivScalar(v, s.radius) == MulScalar(v, 1.0 / s.radius);
    LengthSquaredScaled(v, 1.0 / s.radius);
    InverseSquare(1.0 / s.radius, s.radius);
  }
}
