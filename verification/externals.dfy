/** The functions the core calls but does not define (`std::sqrt`,
    `vec3::near_zero`, `reflect`, `refract`), bundled so that every
    operation that needs them takes them as one parameter. */
module Externals {
  import opened Vectors

  datatype Env = Env(
    sqrt: real -> real,
    nearZero: Vec3 -> bool,
    reflect: (Vec3, Vec3) -> Vec3,
    refract: (Vec3, Vec3, real) -> Vec3)

  /** What the model assumes of them: `sqrt` is the exact non-negative root,
      the zero vector is near zero, and reflecting a non-zero vector or
      refracting a unit vector about a unit normal never gives the zero
      vector (both preserve length for the standard definitions). */
  ghost predicate Valid(env: Env) {
    && ExactSqrt(env.sqrt)
    && env.nearZero(Zero)
    && (forall v: Vec3, n: Vec3 :: v != Zero && LengthSquared(n) == 1.0 ==> env.reflect(v, n) != Zero)
    && (forall u: Vec3, n: Vec3, k: real ::
          LengthSquared(u) == 1.0 && LengthSquared(n) == 1.0 ==> env.refract(u, n, k) != Zero)
  }
}
