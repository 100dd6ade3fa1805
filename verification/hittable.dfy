/** The hit record of hittable.h and the orientation of its normal. */
module Hittables {
  import opened Vectors
  import opened Rays

  /** hit_record: the point, the normal (always facing the incoming ray),
      the ray parameter and whether the ray arrived from outside. */
  datatype HitRecord = HitRecord(p: Vec3, normal: Vec3, t: real, frontFace: bool)

  /** set_face_normal(r, outward_normal): the ray hits the front face when it
      travels against the outward normal, and the stored normal is turned to
      face the ray. */
  function SetFaceNormal(rec: HitRecord, r: Ray, outward: Vec3): (res: HitRecord)
    ensures res.p == rec.p && res.t == rec.t
    ensures res.frontFace <==> Dot(r.dir, outward) < 0.0
    ensures res.frontFace ==> res.normal == outward
    ensures !res.frontFace ==> res.normal == Neg(outward)
    ensures Dot(r.dir, res.normal) <= 0.0
    ensures LengthSquared(res.normal) == LengthSquared(outward)
  {
    var front := Dot(r.dir, outward) < 0.0;
    rec.(frontFace := front, normal := if front then outward else Neg(outward))
  }

  /** Calling set_face_normal twice with the same arguments changes nothing
      more: the result depends only on the ray and the outward normal. */
  lemma SetFaceNormalIdempotent(rec: HitRecord, r: Ray, outward: Vec3)
    ensures SetFaceNormal(SetFaceNormal(rec, r, outward), r, outward) == SetFaceNormal(rec, r, outward)
  {
  }

  /** Flipping the outward normal flips the face but leaves the stored
      normal alone (away from the grazing case). */
  lemma SetFaceNormalFlip(rec: HitRecord, r: Ray, outward: Vec3)
    requires Dot(r.dir, outward) != 0.0
    ensures SetFaceNormal(rec, r, Neg(outward)).normal == SetFaceNormal(rec, r, outward).normal
    ensures SetFaceNormal(rec, r, Neg(outward)).frontFace == !SetFaceNormal(rec, r, outward).frontFace
  {
    NegInvolution(outward);
    DotNeg(r.dir, outward);
  }
}
