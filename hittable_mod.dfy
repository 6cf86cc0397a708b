/**
 * `hittable/mod.rs`: the hit record of the lesson whose `hit` takes an `Interval`;
 * this record also names the material that was struck.
 */
module HittableMod {
  import opened Vectors
  import opened Rays
  import opened Materials
  import Hittable

  /** An upper bound of an interval: a number, or `f64::INFINITY`. */
  datatype Bound = Finite(value: real) | Infinity

  /** The `Interval` passed to `hit`, as the camera builds it. */
  datatype Interval = Interval(min: real, max: Bound)

  datatype HitRecord = HitRecord(frontFace: bool, material: Material, normal: Vec3, p: Vec3, t: real)

  /** `HitRecord::new`: the given material, point and `t`; the face fields are defaults. */
  function New(material: Material, p: Vec3, t: real): (rec: HitRecord)
    ensures rec.material == material && rec.p == p && rec.t == t
    ensures !rec.frontFace && rec.normal == Zero
  {
    HitRecord(false, material, Zero, p, t)
  }

  /**
   * `set_face_normal`, returning the updated record: the face and the normal come
   * from the ray and the outward normal, the rest is kept.
   */
  function SetFaceNormal(rec: HitRecord, r: Ray, outward: Vec3): (updated: HitRecord)
    ensures updated.frontFace == Hittable.FrontFace(r, outward)
    ensures updated.normal == Hittable.FacingNormal(r, outward)
    ensures updated.material == rec.material && updated.p == rec.p && updated.t == rec.t
    ensures Dot(r.direction, updated.normal) <= 0.0
    ensures updated.frontFace ==> updated.normal == outward
    ensures !updated.frontFace ==> updated.normal == Neg(outward)
  {
    var frontFace := Dot(r.direction, outward) < 0.0;
    rec.(frontFace := frontFace, normal := if frontFace then outward else Neg(outward))
  }

  /** Setting the face normal twice for the same ray and normal changes nothing more. */
  lemma SetFaceNormalIdempotent(rec: HitRecord, r: Ray, outward: Vec3)
    ensures SetFaceNormal(SetFaceNormal(rec, r, outward), r, outward) == SetFaceNormal(rec, r, outward)
  {
  }

  /** The only fields that depend on the record passed in are the material, `p` and `t`. */
  lemma SetFaceNormalForgetsFace(rec1: HitRecord, rec2: HitRecord, r: Ray, outward: Vec3)
    requires rec1.material == rec2.material && rec1.p == rec2.p && rec1.t == rec2.t
    ensures SetFaceNormal(rec1, r, outward) == SetFaceNormal(rec2, r, outward)
  {
  }
}
