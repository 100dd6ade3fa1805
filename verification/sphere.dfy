/** The sphere of src/sphere.h and of the earlier sphere.h: the radius
    clamp, the bounding box, and the ray test that solves the quadratic
    `a t^2 - 2 h t + c = 0` and keeps its nearest root inside `ray_t`. */
module Spheres {
  import opened ExtReals
  import opened Vectors
  import opened Rays
  import opened Intervals
  import opened Boxes
  import opened Hittables
  import opened Materials
  import opened Options
  import Scans

  /** src/sphere.h: centre, clamped radius, material and the cached box. */
  datatype Sphere = Sphere(center: Vec3, radius: real, mat: Material, bbox: Aabb)

  /** A hit of src/sphere.h: the record and the material it points to. */
  datatype SurfaceHit = SurfaceHit(rec: HitRecord, mat: Material)

  /** sphere.h: centre and clamped radius only. */
  datatype PlainSphere = PlainSphere(center: Vec3, radius: real)

  /** The constructor of src/sphere.h. The stored radius is `max(0, radius)`,
      but the box is built from the constructor's own argument, which the
      member name shadows, so a negative radius still gets a box of half-width
      |radius|. */
  function MakeSphere(center: Vec3, radius: real, mat: Material): (s: Sphere)
    ensures s.center == center && s.mat == mat
    ensures 0.0 <= s.radius && s.radius == RealMax(0.0, radius)
    ensures 0.0 <= radius ==> s.radius == radius
    ensures Proper(s.bbox)
    ensures ContainsPoint(s.bbox, center)
  {
    var rv := Vec3(radius, radius, radius);
    Sphere(center, RealMax(0.0, radius), mat, FromPoints(Sub(center, rv), Add(center, rv)))
  }

  /** The constructor of sphere.h, `fmax(0, radius)`. */
  function MakePlainSphere(center: Vec3, radius: real): (s: PlainSphere)
    ensures s.center == center
    ensures 0.0 <= s.radius && (s.radius == radius || s.radius == 0.0)
    ensures 0.0 <= radius ==> s.radius == radius
  {
    PlainSphere(center, RealMax(0.0, radius))
  }

  /** `h*h - a*c` with `oc = center - origin`, `a = |dir|^2`, `h = dir.oc`
      and `c = |oc|^2 - radius^2`. */
  function Discriminant(center: Vec3, radius: real, r: Ray): real {
    var oc := Sub(center, r.orig);
    var h := Dot(r.dir, oc);
    h * h - LengthSquared(r.dir) * (LengthSquared(oc) - radius * radius)
  }

  /** The shared root selection of both revisions: no hit for a negative
      discriminant; otherwise `(h - sqrt d)/a` if `ray_t` surrounds it, else
      `(h + sqrt d)/a` if it surrounds that, else no hit. A zero direction
      makes both roots 0/0, a NaN no interval surrounds, so it misses. */
  function NearestRoot(center: Vec3, radius: real, r: Ray, rt: Interval, sqrt: real -> real)
    : (o: Option<real>)
    ensures o.Some? ==> Surrounds(rt, Fin(o.value))
    ensures Discriminant(center, radius, r) < 0.0 ==> o.None?
  {
    var oc := Sub(center, r.orig);
    var a := LengthSquared(r.dir);
    var h := Dot(r.dir, oc);
    var disc := Discriminant(center, radius, r);
    if disc < 0.0 || a == 0.0 then None
    else
      var sd := sqrt(disc);
      var near := (h - sd) / a;
      var far := (h + sd) / a;
      if Surrounds(rt, Fin(near)) then Some(near)
      else if Surrounds(rt, Fin(far)) then Some(far)
      else None
  }

  /** hit of src/sphere.h: the nearest root in `ray_t`, the point there,
      the normal `(p - center)/radius` turned against the ray, and the
      sphere's material. */
  function SphereHit(s: Sphere, r: Ray, rt: Interval, sqrt: real -> real): (hit: Option<SurfaceHit>)
    requires s.radius != 0.0
    ensures hit.Some? <==> NearestRoot(s.center, s.radius, r, rt, sqrt).Some?
    ensures hit.Some? ==>
      && hit.value.rec.t == NearestRoot(s.center, s.radius, r, rt, sqrt).value
      && Surrounds(rt, Fin(hit.value.rec.t))
      && hit.value.rec.p == At(r, hit.value.rec.t)
      && hit.value.mat == s.mat
      && Dot(r.dir, hit.value.rec.normal) <= 0.0
    ensures hit.Some? ==>
      && (hit.value.rec.frontFace <==> Dot(r.dir, Sub(hit.value.rec.p, s.center)) * s.radius < 0.0)
      && hit.value.rec.normal == (if hit.value.rec.frontFace then Div(Sub(hit.value.rec.p, s.center), s.radius)
                                  else Neg(Div(Sub(hit.value.rec.p, s.center), s.radius)))
  {
    match NearestRoot(s.center, s.radius, r, rt, sqrt)
    case None => None
    case Some(t) =>
      var rec := FaceRecord(s.center, s.radius, r, t);
      Some(SurfaceHit(rec, s.mat))
  }

  /** hit of sphere.h: the same test without a material. */
  function PlainHit(s: PlainSphere, r: Ray, rt: Interval, sqrt: real -> real): (hit: Option<HitRecord>)
    requires s.radius != 0.0
    ensures hit.Some? <==> NearestRoot(s.center, s.radius, r, rt, sqrt).Some?
    ensures hit.Some? ==>
      && hit.value.t == NearestRoot(s.center, s.radius, r, rt, sqrt).value
      && Surrounds(rt, Fin(hit.value.t))
      && hit.value.p == At(r, hit.value.t)
      && Dot(r.dir, hit.value.normal) <= 0.0
    ensures hit.Some? ==>
      && (hit.value.frontFace <==> Dot(r.dir, Sub(hit.value.p, s.center)) * s.radius < 0.0)
      && hit.value.normal == (if hit.value.frontFace then Div(Sub(hit.value.p, s.center), s.radius)
                              else Neg(Div(Sub(hit.value.p, s.center), s.radius)))
  {
    match NearestRoot(s.center, s.radius, r, rt, sqrt)
    case None => None
    case Some(t) => Some(FaceRecord(s.center, s.radius, r, t))
  }

  /** The record both revisions fill in at parameter t. */
  function FaceRecord(center: Vec3, radius: real, r: Ray, t: real): (rec: HitRecord)
    requires radius != 0.0
    ensures rec.t == t && rec.p == At(r, t)
    ensures Dot(r.dir, rec.normal) <= 0.0
    ensures LengthSquared(rec.normal) == LengthSquared(Div(Sub(At(r, t), center), radius))
    ensures rec.frontFace <==> Dot(r.dir, Div(Sub(At(r, t), center), radius)) < 0.0
    ensures rec.frontFace <==> Dot(r.dir, Sub(At(r, t), center)) * radius < 0.0
    ensures rec.frontFace ==> rec.normal == Div(Sub(At(r, t), center), radius)
    ensures !rec.frontFace ==> rec.normal == Neg(Div(Sub(At(r, t), center), radius))
  {
    var p := At(r, t);
    var outward := Div(Sub(p, center), radius);
    SetFaceNormal(HitRecord(p, outward, t, true), r, outward)
  }

  // ---- the objects as seen by the list scan -----------------------------

  function SurfaceT(h: SurfaceHit): real {
    h.rec.t
  }

  function RecordT(h: HitRecord): real {
    h.t
  }

  /** The hit test of a src/sphere.h object on ray r, as the list calls it. */
  function SphereTest(r: Ray, sqrt: real -> real): (Sphere, Interval) -> Option<SurfaceHit> {
    (s: Sphere, i: Interval) => if s.radius != 0.0 then SphereHit(s, r, i, sqrt) else None
  }

  /** The hit test of a sphere.h object on ray r, as the list calls it. */
  function PlainTest(r: Ray, sqrt: real -> real): (PlainSphere, Interval) -> Option<HitRecord> {
    (s: PlainSphere, i: Interval) => if s.radius != 0.0 then PlainHit(s, r, i, sqrt) else None
  }

  // ---- algebra of the quadratic ----------------------------------------

  lemma ProductZero(a: real, b: real)
    requires a * b == 0.0
    ensures a == 0.0 || b == 0.0
  {
  }

  lemma SquaresEqual(u: real, s: real)
    requires u * u == s * s
    ensures u == s || u == -s
  {
    assert (u - s) * (u + s) == u * u - s * s;
    ProductZero(u - s, u + s);
  }

  lemma DivCancel(x: real, a: real)
    requires a != 0.0
    ensures (x / a) * a == x
  {
  }

  lemma DivUnique(t: real, x: real, a: real)
    requires a != 0.0 && t * a == x
    ensures t == x / a
  {
  }

  lemma DivOrder(x: real, y: real, a: real)
    requires 0.0 < a && x <= y
    ensures x / a <= y / a
  {
    assert y / a - x / a == (y - x) / a;
  }

  /** A root `(h +- s)/a` with `s^2 = h^2 - a c` solves `a t^2 - 2 h t + c = 0`. */
  lemma QuadraticRoot(a: real, h: real, c: real, s: real, t: real)
    requires a != 0.0
    requires s * s == h * h - a * c
    requires t * a - h == s || t * a - h == -s
    ensures a * (t * t) - 2.0 * h * t + c == 0.0
  {
    var u := t * a - h;
    assert u * u == s * s;
    assert (t * a) * (t * a) - 2.0 * h * (t * a) + a * c == 0.0;
    assert a * (a * (t * t) - 2.0 * h * t + c) == 0.0;
    ProductZero(a, a * (t * t) - 2.0 * h * t + c);
  }

  /** Every solution of `a t^2 - 2 h t + c = 0` has `(a t - h)^2 = h^2 - a c`. */
  lemma CompleteSquare(a: real, h: real, c: real, t: real)
    requires a * (t * t) - 2.0 * h * t + c == 0.0
    ensures (t * a - h) * (t * a - h) == h * h - a * c
  {
    assert (t * a - h) * (t * a - h) == a * (a * (t * t) - 2.0 * h * t) + h * h;
  }

  /** The point at t, seen from the centre, is `t*dir - oc`, so its squared
      distance is the quadratic's left-hand side plus `radius^2`. */
  lemma DistanceQuadratic(center: Vec3, radius: real, r: Ray, t: real)
    ensures LengthSquared(Sub(At(r, t), center))
              == LengthSquared(r.dir) * (t * t) - 2.0 * Dot(r.dir, Sub(center, r.orig)) * t
                 + (LengthSquared(Sub(center, r.orig)) - radius * radius) + radius * radius
  {
    var oc := Sub(center, r.orig);
    assert Sub(At(r, t), center) == Sub(Scale(t, r.dir), oc);
    LengthSquaredAffine(t, r.dir, oc);
  }

  // ---- properties of the root selection --------------------------------

  /** A root the test returns is `(h +- sqrt d)/a` with a non-zero a. */
  lemma RootForm(center: Vec3, radius: real, r: Ray, rt: Interval, sqrt: real -> real)
    requires ExactSqrt(sqrt)
    requires NearestRoot(center, radius, r, rt, sqrt).Some?
    ensures LengthSquared(r.dir) != 0.0 && 0.0 <= Discriminant(center, radius, r)
    ensures IsRootForm(center, radius, r, sqrt, NearestRoot(center, radius, r, rt, sqrt).value)
  {
    var t := NearestRoot(center, radius, r, rt, sqrt).value;
    var a, h := LengthSquared(r.dir), Dot(r.dir, Sub(center, r.orig));
    var sd := sqrt(Discriminant(center, radius, r));
    if t == (h - sd) / a {
      DivCancel(h - sd, a);
    } else {
      DivCancel(h + sd, a);
    }
  }

  /** A root the test returns lies on the sphere, given an exact square
      root. */
  lemma RootOnSphere(center: Vec3, radius: real, r: Ray, rt: Interval, sqrt: real -> real)
    requires ExactSqrt(sqrt)
    requires NearestRoot(center, radius, r, rt, sqrt).Some?
    ensures LengthSquared(Sub(At(r, NearestRoot(center, radius, r, rt, sqrt).value), center))
         == radius * radius
  {
    var t := NearestRoot(center, radius, r, rt, sqrt).value;
    RootForm(center, radius, r, rt, sqrt);
    SqrtOf(sqrt, Discriminant(center, radius, r));
    RootFormOnSphere(center, radius, r, sqrt(Discriminant(center, radius, r)), t);
  }

  /** `t a - h` is one of the two square roots of the discriminant. */
  ghost predicate IsRootForm(center: Vec3, radius: real, r: Ray, sqrt: real -> real, t: real) {
    var a, h := LengthSquared(r.dir), Dot(r.dir, Sub(center, r.orig));
    var sd := sqrt(Discriminant(center, radius, r));
    t * a - h == sd || t * a - h == -sd
  }

  /** A parameter with `t a - h = +-sd`, sd a square root of the
      discriminant, lies on the sphere. */
  lemma RootFormOnSphere(center: Vec3, radius: real, r: Ray, sd: real, t: real)
    requires LengthSquared(r.dir) != 0.0
    requires sd * sd == Discriminant(center, radius, r)
    requires t * LengthSquared(r.dir) - Dot(r.dir, Sub(center, r.orig)) == sd
          || t * LengthSquared(r.dir) - Dot(r.dir, Sub(center, r.orig)) == -sd
    ensures LengthSquared(Sub(At(r, t), center)) == radius * radius
  {
    DiscriminantExpanded(center, radius, r);
    QuadraticRoot(LengthSquared(r.dir), Dot(r.dir, Sub(center, r.orig)),
                  LengthSquared(Sub(center, r.orig)) - radius * radius, sd, t);
    QuadraticZeroOnSphere(center, radius, r, t);
  }

  lemma DiscriminantExpanded(center: Vec3, radius: real, r: Ray)
    ensures Discriminant(center, radius, r)
         == Dot(r.dir, Sub(center, r.orig)) * Dot(r.dir, Sub(center, r.orig))
            - LengthSquared(r.dir) * (LengthSquared(Sub(center, r.orig)) - radius * radius)
  {
  }

  /** A zero of the quadratic is a point on the sphere. */
  lemma QuadraticZeroOnSphere(center: Vec3, radius: real, r: Ray, t: real)
    requires LengthSquared(r.dir) * (t * t) - 2.0 * Dot(r.dir, Sub(center, r.orig)) * t
             + (LengthSquared(Sub(center, r.orig)) - radius * radius) == 0.0
    ensures LengthSquared(Sub(At(r, t), center)) == radius * radius
  {
    DistanceQuadratic(center, radius, r, t);
  }

  /** The near root never exceeds the far one. */
  lemma RootsOrdered(center: Vec3, radius: real, r: Ray, sqrt: real -> real)
    requires ExactSqrt(sqrt)
    requires r.dir != Zero
    requires 0.0 <= Discriminant(center, radius, r)
    ensures var h := Dot(r.dir, Sub(center, r.orig));
            var sd := sqrt(Discriminant(center, radius, r));
            0.0 < LengthSquared(r.dir)
            && (h - sd) / LengthSquared(r.dir) <= (h + sd) / LengthSquared(r.dir)
  {
    LengthSquaredPositive(r.dir);
    SqrtOf(sqrt, Discriminant(center, radius, r));
    var h := Dot(r.dir, Sub(center, r.orig));
    var sd := sqrt(Discriminant(center, radius, r));
    DivOrder(h - sd, h + sd, LengthSquared(r.dir));
  }

  /** The test finds the nearest point of the sphere strictly inside
      `ray_t`: whenever some such point exists the test hits, and no later
      than that point. */
  lemma NearestRootIsNearest(center: Vec3, radius: real, r: Ray, rt: Interval,
                             sqrt: real -> real, t': real)
    requires ExactSqrt(sqrt)
    requires r.dir != Zero
    requires Surrounds(rt, Fin(t'))
    requires LengthSquared(Sub(At(r, t'), center)) == radius * radius
    ensures NearestRoot(center, radius, r, rt, sqrt).Some?
    ensures NearestRoot(center, radius, r, rt, sqrt).value <= t'
  {
    SphereParameterIsRoot(center, radius, r, sqrt, t');
    RootsOrdered(center, radius, r, sqrt);
  }

  /** A parameter whose ray point lies on the sphere is one of the two roots
      `(h -+ sqrt d)/a`, and the discriminant is then non-negative. */
  lemma SphereParameterIsRoot(center: Vec3, radius: real, r: Ray, sqrt: real -> real, t': real)
    requires ExactSqrt(sqrt)
    requires r.dir != Zero
    requires LengthSquared(Sub(At(r, t'), center)) == radius * radius
    ensures var a, h := LengthSquared(r.dir), Dot(r.dir, Sub(center, r.orig));
            var disc := Discriminant(center, radius, r);
            && 0.0 <= disc && 0.0 < a
            && (t' == (h - sqrt(disc)) / a || t' == (h + sqrt(disc)) / a)
  {
    var oc := Sub(center, r.orig);
    var a, h := LengthSquared(r.dir), Dot(r.dir, oc);
    var c := LengthSquared(oc) - radius * radius;
    var disc := Discriminant(center, radius, r);
    assert disc == h * h - a * c;
    LengthSquaredPositive(r.dir);
    DistanceQuadratic(center, radius, r, t');
    assert a * (t' * t') - 2.0 * h * t' + c == 0.0;
    DiscriminantOfRoot(a, h, c, t');
    SqrtOf(sqrt, disc);
    RootOfQuadratic(a, h, c, sqrt(disc), t');
  }

  /** A quadratic with a real root has a non-negative discriminant. */
  lemma DiscriminantOfRoot(a: real, h: real, c: real, t: real)
    requires a * (t * t) - 2.0 * h * t + c == 0.0
    ensures 0.0 <= h * h - a * c
  {
    CompleteSquare(a, h, c, t);
    SquareNonNegative(t * a - h);
  }

  /** Every root of `a t^2 - 2 h t + c` is `(h -+ sd)/a` for the square root
      sd of the discriminant. */
  lemma RootOfQuadratic(a: real, h: real, c: real, sd: real, t: real)
    requires 0.0 < a
    requires sd * sd == h * h - a * c
    requires a * (t * t) - 2.0 * h * t + c == 0.0
    ensures t == (h - sd) / a || t == (h + sd) / a
  {
    CompleteSquare(a, h, c, t);
    SquaresEqual(t * a - h, sd);
    if t * a - h == sd {
      DivUnique(t, h + sd, a);
    } else {
      DivUnique(t, h - sd, a);
    }
  }

  /** The near root is taken whenever `ray_t` surrounds it; the far root is
      only the fallback. */
  lemma NearRootFirst(center: Vec3, radius: real, r: Ray, rt: Interval, sqrt: real -> real)
    requires r.dir != Zero
    requires 0.0 <= Discriminant(center, radius, r)
    ensures var h := Dot(r.dir, Sub(center, r.orig));
            0.0 < LengthSquared(r.dir)
            && (Surrounds(rt, Fin((h - sqrt(Discriminant(center, radius, r))) / LengthSquared(r.dir)))
                ==> NearestRoot(center, radius, r, rt, sqrt)
                    == Some((h - sqrt(Discriminant(center, radius, r))) / LengthSquared(r.dir)))
  {
    LengthSquaredPositive(r.dir);
  }

  /** Testing on `(rt.min, c)` for c no later than `rt.max` is testing on rt
      and keeping the root only if it lies before c. */
  lemma NearestRootShrink(center: Vec3, radius: real, r: Ray, rt: Interval,
                          sqrt: real -> real, c: ExtReal)
    requires ExactSqrt(sqrt)
    requires Le(c, rt.max)
    ensures var full := NearestRoot(center, radius, r, rt, sqrt);
            NearestRoot(center, radius, r, Interval(rt.min, c), sqrt)
              == (if full.Some? && Lt(Fin(full.value), c) then full else None)
  {
    if r.dir != Zero && 0.0 <= Discriminant(center, radius, r) {
      RootsOrdered(center, radius, r, sqrt);
      LengthSquaredPositive(r.dir);
    } else if r.dir == Zero {
      assert LengthSquared(r.dir) == 0.0;
    }
  }

  /** A hit of src/sphere.h lies on the sphere and carries a unit normal. */
  lemma SphereHitGeometry(s: Sphere, r: Ray, rt: Interval, sqrt: real -> real)
    requires ExactSqrt(sqrt)
    requires s.radius != 0.0
    requires SphereHit(s, r, rt, sqrt).Some?
    ensures var rec := SphereHit(s, r, rt, sqrt).value.rec;
            LengthSquared(Sub(rec.p, s.center)) == s.radius * s.radius
            && LengthSquared(rec.normal) == 1.0
  {
    RootOnSphere(s.center, s.radius, r, rt, sqrt);
    var t := NearestRoot(s.center, s.radius, r, rt, sqrt).value;
    UnitOutwardNormal(Sub(At(r, t), s.center), s.radius);
  }

  /** A hit of sphere.h lies on the sphere and carries a unit normal. */
  lemma PlainHitGeometry(s: PlainSphere, r: Ray, rt: Interval, sqrt: real -> real)
    requires ExactSqrt(sqrt)
    requires s.radius != 0.0
    requires PlainHit(s, r, rt, sqrt).Some?
    ensures var rec := PlainHit(s, r, rt, sqrt).value;
            LengthSquared(Sub(rec.p, s.center)) == s.radius * s.radius
            && LengthSquared(rec.normal) == 1.0
  {
    RootOnSphere(s.center, s.radius, r, rt, sqrt);
    var t := NearestRoot(s.center, s.radius, r, rt, sqrt).value;
    UnitOutwardNormal(Sub(At(r, t), s.center), s.radius);
  }

  /** A vector of length |radius| divided by radius has length 1. */
  lemma UnitOutwardNormal(v: Vec3, radius: real)
    requires radius != 0.0
    requires LengthSquared(v) == radius * radius
    ensures LengthSquared(Div(v, radius)) == 1.0
  {
    var k := 1.0 / radius;
    LengthSquaredScale(k, v);
    calc {
      LengthSquared(Div(v, radius));
    ==
      k * k * LengthSquared(v);
    ==
      (k * radius) * (k * radius);
    ==
      1.0;
    }
  }

  /** Each src/sphere.h object with a non-zero radius meets what the list
      scan needs of it. */
  lemma SphereShrinkConsistent(s: Sphere, r: Ray, rt: Interval, sqrt: real -> real)
    requires ExactSqrt(sqrt)
    requires s.radius != 0.0
    ensures Scans.ShrinkConsistent(SphereTest(r, sqrt), SurfaceT, s, rt)
  {
    forall c | Le(c, rt.max)
      ensures SphereTest(r, sqrt)(s, Interval(rt.min, c))
           == Scans.Clip(SphereTest(r, sqrt)(s, rt), SurfaceT, c)
    {
      NearestRootShrink(s.center, s.radius, r, rt, sqrt, c);
    }
  }

  /** Each sphere.h object with a non-zero radius meets what the list scan
      needs of it. */
  lemma PlainShrinkConsistent(s: PlainSphere, r: Ray, rt: Interval, sqrt: real -> real)
    requires ExactSqrt(sqrt)
    requires s.radius != 0.0
    ensures Scans.ShrinkConsistent(PlainTest(r, sqrt), RecordT, s, rt)
  {
    forall c | Le(c, rt.max)
      ensures PlainTest(r, sqrt)(s, Interval(rt.min, c))
           == Scans.Clip(PlainTest(r, sqrt)(s, rt), RecordT, c)
    {
      NearestRootShrink(s.center, s.radius, r, rt, sqrt, c);
    }
  }

  /** The cached box of src/sphere.h holds the whole ball of radius
      |radius| around the centre. */
  lemma BoxHoldsBall(center: Vec3, radius: real, mat: Material, p: Vec3)
    requires LengthSquared(Sub(p, center)) <= radius * radius
    ensures ContainsPoint(MakeSphere(center, radius, mat).bbox, p)
  {
    var d := Sub(p, center);
    EachSquareBounded(d.x, d.y, d.z, radius * radius);
    CoordinateInSlab(center.x, radius, p.x);
    CoordinateInSlab(center.y, radius, p.y);
    CoordinateInSlab(center.z, radius, p.z);
  }

  lemma EachSquareBounded(a: real, b: real, c: real, m: real)
    requires a * a + b * b + c * c <= m
    ensures a * a <= m && b * b <= m && c * c <= m
  {
    SquareNonNegative(a);
    SquareNonNegative(b);
    SquareNonNegative(c);
  }

  /** One axis of the box: a coordinate within |radius| of the centre's lies
      between `c - radius` and `c + radius`, in whichever order they come. */
  lemma CoordinateInSlab(c: real, radius: real, x: real)
    requires (x - c) * (x - c) <= radius * radius
    ensures RealMin(c - radius, c + radius) <= x <= RealMax(c - radius, c + radius)
  {
    WithinRadius(x - c, radius);
  }

  /** a^2 <= r^2 puts a between -|r| and |r|. */
  lemma WithinRadius(a: real, r: real)
    requires a * a <= r * r
    ensures -r <= a <= r || r <= a <= -r
  {
    var m := if r < 0.0 then -r else r;
    assert m * m == r * r;
    if m < a {
      SquareStrict(m, a);
    } else if a < -m {
      assert (-a) * (-a) == a * a;
      SquareStrict(m, -a);
    }
  }
}
