/** hittable_list of src/hittable_list.h and of the earlier hittable_list.h:
    a sequence of objects with a cached bounding box, and the closest-hit
    scan over them. The src revision holds src/sphere.h spheres, the earlier
    one sphere.h spheres; the list logic is the same for both. */
module Worlds {
  import opened ExtReals
  import opened Vectors
  import opened Rays
  import opened Intervals
  import opened Boxes
  import opened Hittables
  import opened Materials
  import opened Options
  import opened Spheres
  import Scans

  datatype HittableList<U> = HittableList(objects: seq<U>, bbox: Aabb)

  /** The default constructor: no objects and the default (empty) box. */
  function EmptyList<U>(): (l: HittableList<U>)
    ensures l.objects == []
    ensures forall p :: !ContainsPoint(l.bbox, p)
  {
    HittableList([], DefaultBox())
  }

  /** add(object): widen the box by the object's box, then append it.
      `boxOf` is the objects' `bounding_box()`. */
  function Add<U>(l: HittableList<U>, obj: U, boxOf: U -> Aabb): (l': HittableList<U>)
    ensures l'.objects == l.objects + [obj]
    ensures forall p :: ContainsPoint(l.bbox, p) || ContainsPoint(boxOf(obj), p) ==> ContainsPoint(l'.bbox, p)
  {
    HittableList(l.objects + [obj], Union(l.bbox, boxOf(obj)))
  }

  /** clear(): no objects and aabb::empty. */
  function Clear<U>(l: HittableList<U>): (l': HittableList<U>)
    ensures l'.objects == []
    ensures forall p :: !ContainsPoint(l'.bbox, p)
  {
    HittableList([], EmptyBox)
  }

  /** The single-object constructor, which adds the object to an empty list. */
  function Single<U>(obj: U, boxOf: U -> Aabb): (l: HittableList<U>)
    ensures l.objects == [obj]
    ensures forall p :: ContainsPoint(l.bbox, p) <==> ContainsPoint(boxOf(obj), p)
  {
    UnionEmpty(boxOf(obj));
    Add(EmptyList(), obj, boxOf)
  }

  /** bounding_box(): the cached box. */
  function BoundingBox<U>(l: HittableList<U>): Aabb {
    l.bbox
  }

  /** The cached box holds the box of every object in the list. */
  ghost predicate Covers<U>(l: HittableList<U>, boxOf: U -> Aabb) {
    forall k, p :: 0 <= k < |l.objects| && ContainsPoint(boxOf(l.objects[k]), p) ==> ContainsPoint(l.bbox, p)
  }

  function SphereBox(s: Sphere): Aabb {
    s.bbox
  }

  /** hit of src/hittable_list.h over src/sphere.h objects. */
  function ListHit(l: HittableList<Sphere>, r: Ray, rt: Interval, sqrt: real -> real): Option<SurfaceHit> {
    Scans.ScanHit(l.objects, SphereTest(r, sqrt), SurfaceT, rt)
  }

  /** hit of hittable_list.h over sphere.h objects. */
  function PlainListHit(l: HittableList<PlainSphere>, r: Ray, rt: Interval, sqrt: real -> real)
    : Option<HitRecord>
  {
    Scans.ScanHit(l.objects, PlainTest(r, sqrt), RecordT, rt)
  }

  /** Every sphere has a non-zero radius, so its normal is defined. */
  predicate NonDegenerate(objs: seq<Sphere>) {
    forall k :: 0 <= k < |objs| ==> objs[k].radius != 0.0
  }

  predicate PlainNonDegenerate(objs: seq<PlainSphere>) {
    forall k :: 0 <= k < |objs| ==> objs[k].radius != 0.0
  }

  // ---- the cached box ----------------------------------------------------

  /** The empty list covers trivially. */
  lemma EmptyListCovers<U>(boxOf: U -> Aabb)
    ensures Covers(EmptyList<U>(), boxOf)
  {
  }

  /** add keeps the cached box covering every object, the new one included. */
  lemma AddCovers<U>(l: HittableList<U>, obj: U, boxOf: U -> Aabb)
    requires Covers(l, boxOf)
    ensures Covers(Add(l, obj, boxOf), boxOf)
  {
    var l' := Add(l, obj, boxOf);
    forall k, p | 0 <= k < |l'.objects| && ContainsPoint(boxOf(l'.objects[k]), p)
      ensures ContainsPoint(l'.bbox, p)
    {
      if k < |l.objects| {
        assert l'.objects[k] == l.objects[k];
      }
    }
  }

  /** A sphere list built by the constructors keeps every ball of its
      spheres inside its bounding box. */
  lemma BoundingBoxHoldsBalls(l: HittableList<Sphere>, k: int, center: Vec3, radius: real,
                              mat: Material, p: Vec3)
    requires Covers(l, SphereBox)
    requires 0 <= k < |l.objects| && l.objects[k] == MakeSphere(center, radius, mat)
    requires LengthSquared(Sub(p, center)) <= radius * radius
    ensures ContainsPoint(BoundingBox(l), p)
  {
    BoxHoldsBall(center, radius, mat, p);
    assert ContainsPoint(SphereBox(l.objects[k]), p);
  }

  /** clear leaves a list that covers trivially and whose box holds nothing. */
  lemma ClearCovers<U>(l: HittableList<U>, boxOf: U -> Aabb)
    ensures Covers(Clear(l), boxOf)
    ensures Clear(l) == HittableList([], EmptyBox)
  {
  }

  // ---- the scan ------------------------------------------------------------

  lemma SpheresShrinkConsistent(objs: seq<Sphere>, r: Ray, rt: Interval, sqrt: real -> real)
    requires ExactSqrt(sqrt)
    requires NonDegenerate(objs)
    ensures Scans.AllShrinkConsistent(objs, SphereTest(r, sqrt), SurfaceT, rt)
  {
    forall k | 0 <= k < |objs|
      ensures Scans.ShrinkConsistent(SphereTest(r, sqrt), SurfaceT, objs[k], rt)
    {
      SphereShrinkConsistent(objs[k], r, rt, sqrt);
    }
  }

  lemma PlainSpheresShrinkConsistent(objs: seq<PlainSphere>, r: Ray, rt: Interval, sqrt: real -> real)
    requires ExactSqrt(sqrt)
    requires PlainNonDegenerate(objs)
    ensures Scans.AllShrinkConsistent(objs, PlainTest(r, sqrt), RecordT, rt)
  {
    forall k | 0 <= k < |objs|
      ensures Scans.ShrinkConsistent(PlainTest(r, sqrt), RecordT, objs[k], rt)
    {
      PlainShrinkConsistent(objs[k], r, rt, sqrt);
    }
  }

  /** hit of src/hittable_list.h: it hits iff some sphere hits within
      `ray_t`; the hit is that of some sphere k, lies strictly inside
      `ray_t`, is no later than any sphere's hit, every sphere before k hits
      strictly later, and it carries k's material. */
  lemma ListHitSpec(l: HittableList<Sphere>, r: Ray, rt: Interval, sqrt: real -> real)
    returns (k: nat)
    requires ExactSqrt(sqrt)
    requires NonDegenerate(l.objects)
    ensures ListHit(l, r, rt, sqrt).None?
        <==> forall j :: 0 <= j < |l.objects| ==> SphereHit(l.objects[j], r, rt, sqrt).None?
    ensures ListHit(l, r, rt, sqrt).Some? ==>
      && k < |l.objects|
      && ListHit(l, r, rt, sqrt) == SphereHit(l.objects[k], r, rt, sqrt)
      && ListHit(l, r, rt, sqrt).value.mat == l.objects[k].mat
      && Surrounds(rt, Fin(ListHit(l, r, rt, sqrt).value.rec.t))
      && (forall j :: 0 <= j < |l.objects| && SphereHit(l.objects[j], r, rt, sqrt).Some? ==>
            ListHit(l, r, rt, sqrt).value.rec.t <= SphereHit(l.objects[j], r, rt, sqrt).value.rec.t)
      && (forall j :: 0 <= j < k && SphereHit(l.objects[j], r, rt, sqrt).Some? ==>
            ListHit(l, r, rt, sqrt).value.rec.t < SphereHit(l.objects[j], r, rt, sqrt).value.rec.t)
  {
    SpheresShrinkConsistent(l.objects, r, rt, sqrt);
    k := Scans.ScanHitSpec(l.objects, SphereTest(r, sqrt), SurfaceT, rt);
    assert forall j :: 0 <= j < |l.objects| ==>
      SphereTest(r, sqrt)(l.objects[j], rt) == SphereHit(l.objects[j], r, rt, sqrt);
  }

  /** hit of hittable_list.h: the same contract for sphere.h objects. */
  lemma PlainListHitSpec(l: HittableList<PlainSphere>, r: Ray, rt: Interval, sqrt: real -> real)
    returns (k: nat)
    requires ExactSqrt(sqrt)
    requires PlainNonDegenerate(l.objects)
    ensures PlainListHit(l, r, rt, sqrt).None?
        <==> forall j :: 0 <= j < |l.objects| ==> PlainHit(l.objects[j], r, rt, sqrt).None?
    ensures PlainListHit(l, r, rt, sqrt).Some? ==>
      && k < |l.objects|
      && PlainListHit(l, r, rt, sqrt) == PlainHit(l.objects[k], r, rt, sqrt)
      && Surrounds(rt, Fin(PlainListHit(l, r, rt, sqrt).value.t))
      && (forall j :: 0 <= j < |l.objects| && PlainHit(l.objects[j], r, rt, sqrt).Some? ==>
            PlainListHit(l, r, rt, sqrt).value.t <= PlainHit(l.objects[j], r, rt, sqrt).value.t)
  {
    PlainSpheresShrinkConsistent(l.objects, r, rt, sqrt);
    k := Scans.ScanHitSpec(l.objects, PlainTest(r, sqrt), RecordT, rt);
    assert forall j :: 0 <= j < |l.objects| ==>
      PlainTest(r, sqrt)(l.objects[j], rt) == PlainHit(l.objects[j], r, rt, sqrt);
  }

  /** A list hit is a genuine surface point: on the ray, on a sphere of the
      list, with a unit normal facing the ray and that sphere's material. */
  lemma ListHitRecord(l: HittableList<Sphere>, r: Ray, rt: Interval, sqrt: real -> real)
    returns (k: nat)
    requires ExactSqrt(sqrt)
    requires NonDegenerate(l.objects)
    requires ListHit(l, r, rt, sqrt).Some?
    ensures k < |l.objects|
    ensures var h := ListHit(l, r, rt, sqrt).value;
            && h.mat == l.objects[k].mat
            && Surrounds(rt, Fin(h.rec.t))
            && h.rec.p == At(r, h.rec.t)
            && LengthSquared(h.rec.normal) == 1.0
            && Dot(r.dir, h.rec.normal) <= 0.0
  {
    k := ListHitSpec(l, r, rt, sqrt);
    SphereHitGeometry(l.objects[k], r, rt, sqrt);
  }

  /** An empty list never reports a hit. */
  lemma EmptyListNoHit(r: Ray, rt: Interval, sqrt: real -> real)
    ensures ListHit(EmptyList(), r, rt, sqrt).None?
    ensures PlainListHit(EmptyList(), r, rt, sqrt).None?
  {
  }
}
