/** The ray of src/ray.h: an origin and a direction, and the points along it. */
module Rays {
  import opened Vectors

  datatype Ray = Ray(orig: Vec3, dir: Vec3)

  /** at(t) = orig + t*dir */
  function At(r: Ray, t: real): (p: Vec3)
    ensures Sub(p, r.orig) == Scale(t, r.dir)
  {
    Add(r.orig, Scale(t, r.dir))
  }

  /** origin() and direction() give back the constructor's arguments. */
  lemma Accessors(o: Vec3, d: Vec3)
    ensures Ray(o, d).orig == o && Ray(o, d).dir == d
  {
  }

  lemma AtZero(r: Ray)
    ensures At(r, 0.0) == r.orig
  {
  }

  lemma AtOne(r: Ray)
    ensures At(r, 1.0) == Add(r.orig, r.dir)
  {
  }

  /** Moving s further along the ray from at(t) reaches at(t+s). */
  lemma AtAffine(r: Ray, t: real, s: real)
    ensures At(r, t + s) == Add(At(r, t), Scale(s, r.dir))
  {
  }
}
