/**
 * The `Material` trait of `material/mod.rs` as a closed datatype with one variant per
 * implementation, each carrying that implementation's fields, and the values its
 * `scatter` takes and returns.
 */
module Materials {
  import opened Vectors
  import opened Rays

  /**
   * An index of refraction the scatter rule can divide by: `1 / ior` needs `ior != 0`,
   * and Schlick's `1 + ratio` in the denominator needs a ratio other than -1.
   */
  type IndexOfRefraction = ior: real | ior != 0.0 && ior != -1.0 witness 1.5

  datatype Material =
    | Lambertian(albedo: Vec3)
    | Metal(albedo: Vec3, fuzz: real)
    | Dielectric(indexOfRefraction: IndexOfRefraction)

  /**
   * The random samples one `scatter` call draws: `Vec3::random_unit_vector()` for the
   * Lambertian and metal rules, `random_double()` for the dielectric one.
   */
  datatype Draw = Draw(unitVector: Vec3, u: real)

  /** The `Some((attenuation, scattered))` of `scatter`. */
  datatype Scattered = Scattered(attenuation: Vec3, scattered: Ray)
}
