/** The axis-aligned bounding box of src/aabb.h: one interval per axis, and
    the slab-method test of a ray against it. */
module Boxes {
  import opened ExtReals
  import opened Vectors
  import opened Rays
  import opened Intervals

  datatype Aabb = Aabb(x: Interval, y: Interval, z: Interval)

  /** aabb::empty, which is also what the default constructor builds */
  const EmptyBox := Aabb(Empty, Empty, Empty)

  /** aabb::universe */
  const UniverseBox := Aabb(Universe, Universe, Universe)

  /** p lies in the box on all three axes. */
  predicate ContainsPoint(box: Aabb, p: Vec3) {
    Contains(box.x, Fin(p.x)) && Contains(box.y, Fin(p.y)) && Contains(box.z, Fin(p.z))
  }

  /** Every axis of the box is non-empty. */
  predicate Proper(box: Aabb) {
    NonEmpty(box.x) && NonEmpty(box.y) && NonEmpty(box.z)
  }

  /** std::min on doubles: `(b < a) ? b : a` */
  function RealMin(a: real, b: real): (m: real)
    ensures m <= a && m <= b && (m == a || m == b)
  {
    if b < a then b else a
  }

  /** std::max on doubles: `(a < b) ? b : a` */
  function RealMax(a: real, b: real): (m: real)
    ensures a <= m && b <= m && (m == a || m == b)
  {
    if a < b then b else a
  }

  /** The default constructor: three default (empty) intervals. */
  function DefaultBox(): (box: Aabb)
    ensures forall p :: !ContainsPoint(box, p)
  {
    Aabb(Default(), Default(), Default())
  }

  /** The two-point constructor: per axis, from the smaller to the larger
      coordinate. */
  function FromPoints(a: Vec3, b: Vec3): (box: Aabb)
    ensures Proper(box)
    ensures ContainsPoint(box, a) && ContainsPoint(box, b)
  {
    Aabb(Interval(Fin(RealMin(a.x, b.x)), Fin(RealMax(a.x, b.x))),
         Interval(Fin(RealMin(a.y, b.y)), Fin(RealMax(a.y, b.y))),
         Interval(Fin(RealMin(a.z, b.z)), Fin(RealMax(a.z, b.z))))
  }

  /** The two-box constructor: the hull of the boxes on every axis. */
  function Union(b0: Aabb, b1: Aabb): (box: Aabb)
    ensures forall p :: ContainsPoint(b0, p) || ContainsPoint(b1, p) ==> ContainsPoint(box, p)
  {
    Aabb(Hull(b0.x, b1.x), Hull(b0.y, b1.y), Hull(b0.z, b1.z))
  }

  /** axis(n): y for 1, z for 2, x for every other n */
  function Axis(box: Aabb, n: int): (i: Interval)
    ensures n == 1 ==> i == box.y
    ensures n == 2 ==> i == box.z
    ensures n != 1 && n != 2 ==> i == box.x
  {
    if n == 1 then box.y else if n == 2 then box.z else box.x
  }

  /** Size of one axis, defined when that axis is not a doubly-infinite NaN. */
  predicate SizesDefined(box: Aabb) {
    DiffDefined(box.x.max, box.x.min) && DiffDefined(box.y.max, box.y.min)
      && DiffDefined(box.z.max, box.z.min)
  }

  /** longest_axis(): 0, 1 or 2, whichever axis has the largest size */
  function LongestAxis(box: Aabb): (k: int)
    requires SizesDefined(box)
    ensures 0 <= k < 3
    ensures forall n :: 0 <= n < 3 ==> Le(Size(Axis(box, n)), Size(Axis(box, k)))
  {
    if Lt(Size(box.y), Size(box.x)) then
      (if Lt(Size(box.z), Size(box.x)) then 0 else 2)
    else
      (if Lt(Size(box.z), Size(box.y)) then 1 else 2)
  }

  // ---- the slab test -------------------------------------------------

  /** No component of the direction is zero; the source would divide by it. */
  predicate NonZeroDir(d: Vec3) {
    d.x != 0.0 && d.y != 0.0 && d.z != 0.0
  }

  /** `(bound - o) * adinv` for a bound that may be infinite and a non-zero
      reciprocal `adinv`. */
  function SlabBound(bound: ExtReal, o: real, adinv: real): (s: ExtReal)
    requires adinv != 0.0
    ensures s.Fin? <==> bound.Fin?
  {
    match bound
    case Fin(b) => Fin((b - o) * adinv)
    case PosInf => if 0.0 < adinv then PosInf else NegInf
    case NegInf => if 0.0 < adinv then NegInf else PosInf
  }

  /** One pass of the loop body: the slab of `ax` along a ray component with
      origin `o` and direction `d` cuts `rt` down. */
  function Step(ax: Interval, o: real, d: real, rt: Interval): (r: Interval)
    requires d != 0.0
    ensures Le(rt.min, r.min) && Le(r.max, rt.max)
  {
    var adinv := 1.0 / d;
    var t0 := SlabBound(ax.min, o, adinv);
    var t1 := SlabBound(ax.max, o, adinv);
    if Lt(t0, t1) then
      Interval(if Lt(rt.min, t0) then t0 else rt.min, if Lt(t1, rt.max) then t1 else rt.max)
    else
      Interval(if Lt(rt.min, t1) then t1 else rt.min, if Lt(t0, rt.max) then t0 else rt.max)
  }

  /** The loop of hit() from iteration `axis` on, with `rt` the interval left
      by the earlier iterations. */
  function HitFrom(box: Aabb, r: Ray, rt: Interval, axis: nat): (b: bool)
    requires axis <= 3
    requires NonZeroDir(r.dir)
    ensures b && axis < 3 ==> Lt(rt.min, rt.max)
    decreases 3 - axis
  {
    if axis == 3 then true
    else
      var rt' := Step(Axis(box, axis), Get(r.orig, axis), Get(r.dir, axis), rt);
      if Le(rt'.max, rt'.min) then false
      else HitFrom(box, r, rt', axis + 1)
  }

  /** hit(r, ray_t) */
  function Hit(box: Aabb, r: Ray, rt: Interval): (b: bool)
    requires NonZeroDir(r.dir)
    ensures b ==> Lt(rt.min, rt.max)
  {
    HitFrom(box, r, rt, 0)
  }

  // ---- lemmas ----------------------------------------------------------

  /** The point constructor does not care about the order of its points. */
  lemma FromPointsSymmetric(a: Vec3, b: Vec3)
    ensures FromPoints(a, b) == FromPoints(b, a)
  {
  }

  /** The empty box is the identity of the union, on either side. */
  lemma UnionEmpty(box: Aabb)
    ensures Union(EmptyBox, box) == box
    ensures Union(box, EmptyBox) == box
  {
    HullEmpty(box.x);
    HullEmpty(box.y);
    HullEmpty(box.z);
  }

  /** The box holds p exactly when each axis(n) holds component n of p. */
  lemma AxisComponents(box: Aabb, p: Vec3)
    ensures ContainsPoint(box, p)
        <==> forall n :: 0 <= n < 3 ==> Contains(Axis(box, n), Fin(Get(p, n)))
  {
    assert Axis(box, 0) == box.x && Get(p, 0) == p.x;
    assert Axis(box, 1) == box.y && Get(p, 1) == p.y;
    assert Axis(box, 2) == box.z && Get(p, 2) == p.z;
  }

  /** The empty box holds no point and the universe every point. */
  lemma EmptyAndUniverse(p: Vec3)
    ensures !ContainsPoint(EmptyBox, p)
    ensures ContainsPoint(UniverseBox, p)
  {
  }

  lemma MulMonotone(q: real, t: real, d: real)
    requires 0.0 < d
    ensures q <= t <==> q * d <= t * d
  {
    if q <= t {
      NonNegProduct(t - q, d);
    } else {
      NonNegProduct(q - t, d);
    }
  }

  lemma NonNegProduct(a: real, b: real)
    requires 0.0 <= a && 0.0 < b
    ensures 0.0 <= a * b
    ensures 0.0 < a ==> 0.0 < a * b
  {
  }

  lemma ReciprocalCancel(a: real, d: real)
    requires d != 0.0
    ensures a * (1.0 / d) * d == a
  {
  }

  /** Comparing t with `(b - o)/d` is comparing the ray coordinate
      `o + t*d` with b, the sense flipping with the sign of d. */
  lemma ScaledLe(b: real, o: real, d: real, t: real)
    requires d != 0.0
    ensures 0.0 < d ==> ((b - o) * (1.0 / d) <= t <==> b <= o + t * d)
    ensures 0.0 < d ==> (t <= (b - o) * (1.0 / d) <==> o + t * d <= b)
    ensures d < 0.0 ==> ((b - o) * (1.0 / d) <= t <==> o + t * d <= b)
    ensures d < 0.0 ==> (t <= (b - o) * (1.0 / d) <==> b <= o + t * d)
  {
    var q := (b - o) * (1.0 / d);
    ReciprocalCancel(b - o, d);
    if 0.0 < d {
      MulMonotone(q, t, d);
      MulMonotone(t, q, d);
    } else {
      MulMonotone(q, t, -d);
      MulMonotone(t, q, -d);
      assert q * (-d) == -(b - o);
      assert t * (-d) == -(t * d);
    }
  }

  /** The same comparison with an extended-real bound. */
  lemma BoundOrder(bound: ExtReal, o: real, d: real, t: real)
    requires d != 0.0
    ensures 0.0 < d ==> (Le(SlabBound(bound, o, 1.0 / d), Fin(t)) <==> Le(bound, Fin(o + t * d)))
    ensures 0.0 < d ==> (Le(Fin(t), SlabBound(bound, o, 1.0 / d)) <==> Le(Fin(o + t * d), bound))
    ensures d < 0.0 ==> (Le(SlabBound(bound, o, 1.0 / d), Fin(t)) <==> Le(Fin(o + t * d), bound))
    ensures d < 0.0 ==> (Le(Fin(t), SlabBound(bound, o, 1.0 / d)) <==> Le(bound, Fin(o + t * d)))
  {
    assert 0.0 < d <==> 0.0 < 1.0 / d;
    if bound.Fin? {
      ScaledLe(bound.v, o, d, t);
    }
  }

  /** A value strictly inside the interval one step leaves was strictly
      inside the interval before it, and on a non-empty axis its ray point
      is inside that axis's slab. */
  lemma StepSound(ax: Interval, o: real, d: real, rt: Interval, t: real)
    requires d != 0.0
    requires NonEmpty(ax)
    requires Surrounds(Step(ax, o, d, rt), Fin(t))
    ensures Surrounds(rt, Fin(t))
    ensures Contains(ax, Fin(o + t * d))
  {
    BoundOrder(ax.min, o, d, t);
    BoundOrder(ax.max, o, d, t);
  }

  /** A value strictly inside `rt` whose ray point is strictly inside the
      slab stays strictly inside after the step. */
  lemma StepComplete(ax: Interval, o: real, d: real, rt: Interval, t: real)
    requires d != 0.0
    requires Surrounds(rt, Fin(t))
    requires Surrounds(ax, Fin(o + t * d))
    ensures Surrounds(Step(ax, o, d, rt), Fin(t))
  {
    BoundOrder(ax.min, o, d, t);
    BoundOrder(ax.max, o, d, t);
  }

  /** The ray point at t lies in the slabs of axes `axis` to 2. */
  predicate InSlabsFrom(box: Aabb, r: Ray, t: real, axis: nat) {
    forall n :: axis <= n < 3 ==> Contains(Axis(box, n), Fin(Get(At(r, t), n)))
  }

  /** Soundness of the loop from iteration `axis`: a successful test leaves
      some t strictly inside `rt` whose ray point is in the slabs still to
      be tested. */
  lemma {:induction false} HitFromSound(box: Aabb, r: Ray, rt: Interval, axis: nat)
    returns (t: real)
    requires axis <= 3
    requires NonZeroDir(r.dir)
    requires Proper(box)
    requires HitFrom(box, r, rt, axis)
    requires axis < 3 || Lt(rt.min, rt.max)
    ensures Surrounds(rt, Fin(t)) && InSlabsFrom(box, r, t, axis)
    decreases 3 - axis
  {
    if axis == 3 {
      t := Between(rt.min, rt.max);
    } else {
      var ax := Axis(box, axis);
      var o, d := Get(r.orig, axis), Get(r.dir, axis);
      var rt' := Step(ax, o, d, rt);
      assert !Le(rt'.max, rt'.min) && HitFrom(box, r, rt', axis + 1);
      t := HitFromSound(box, r, rt', axis + 1);
      StepSoundAt(box, r, rt, axis, t);
      SlabsExtend(box, r, t, axis);
    }
  }

  /** StepSound for iteration `axis` of the loop, stated on the ray. */
  lemma StepSoundAt(box: Aabb, r: Ray, rt: Interval, axis: nat, t: real)
    requires axis < 3
    requires NonZeroDir(r.dir)
    requires Proper(box)
    requires Surrounds(Step(Axis(box, axis), Get(r.orig, axis), Get(r.dir, axis), rt), Fin(t))
    ensures Surrounds(rt, Fin(t))
    ensures Contains(Axis(box, axis), Fin(Get(At(r, t), axis)))
  {
    var ax, o, d := Axis(box, axis), Get(r.orig, axis), Get(r.dir, axis);
    StepSound(ax, o, d, rt, t);
    AtComponent(r, t, axis);
    var p := Get(At(r, t), axis);
    assert Fin(p) == Fin(o + t * d);
  }

  lemma SlabsExtend(box: Aabb, r: Ray, t: real, axis: nat)
    requires axis < 3
    requires InSlabsFrom(box, r, t, axis + 1)
    requires Contains(Axis(box, axis), Fin(Get(At(r, t), axis)))
    ensures InSlabsFrom(box, r, t, axis)
  {
  }

  /** Completeness of the loop from iteration `axis`. */
  lemma {:induction false} HitFromComplete(box: Aabb, r: Ray, rt: Interval, axis: nat, t: real)
    requires axis <= 3
    requires NonZeroDir(r.dir)
    requires Surrounds(rt, Fin(t))
    requires forall n :: axis <= n < 3 ==> Surrounds(Axis(box, n), Fin(Get(At(r, t), n)))
    ensures HitFrom(box, r, rt, axis)
    decreases 3 - axis
  {
    if axis < 3 {
      var ax := Axis(box, axis);
      var o, d := Get(r.orig, axis), Get(r.dir, axis);
      AtComponent(r, t, axis);
      StepComplete(ax, o, d, rt, t);
      HitFromComplete(box, r, Step(ax, o, d, rt), axis + 1, t);
    }
  }

  /** Component n of at(t). */
  lemma AtComponent(r: Ray, t: real, n: int)
    requires 0 <= n < 3
    ensures Get(At(r, t), n) == Get(r.orig, n) + t * Get(r.dir, n)
  {
  }

  /** A real strictly between two ordered extended reals. */
  lemma Between(lo: ExtReal, hi: ExtReal) returns (t: real)
    requires Lt(lo, hi)
    ensures Lt(lo, Fin(t)) && Lt(Fin(t), hi)
  {
    match (lo, hi)
    case (Fin(a), Fin(b)) => t := (a + b) / 2.0;
    case (Fin(a), _) => t := a + 1.0;
    case (_, Fin(b)) => t := b - 1.0;
    case _ => t := 0.0;
  }

  /** Soundness of hit(): on a box with no empty axis, a hit means some t
      strictly inside `ray_t` puts the ray inside the box. */
  lemma HitSound(box: Aabb, r: Ray, rt: Interval)
    requires NonZeroDir(r.dir)
    requires Proper(box)
    requires Hit(box, r, rt)
    ensures exists t: real :: Surrounds(rt, Fin(t)) && ContainsPoint(box, At(r, t))
  {
    var t := HitFromSound(box, r, rt, 0);
    AxisComponents(box, At(r, t));
  }

  /** Completeness of hit(): a t strictly inside `ray_t` whose ray point is
      strictly inside the box on every axis makes the test succeed. */
  lemma HitComplete(box: Aabb, r: Ray, rt: Interval, t: real)
    requires NonZeroDir(r.dir)
    requires Surrounds(rt, Fin(t))
    requires Surrounds(box.x, Fin(At(r, t).x))
    requires Surrounds(box.y, Fin(At(r, t).y))
    requires Surrounds(box.z, Fin(At(r, t).z))
    ensures Hit(box, r, rt)
  {
    assert forall n :: 0 <= n < 3 ==> Surrounds(Axis(box, n), Fin(Get(At(r, t), n)));
    HitFromComplete(box, r, rt, 0, t);
  }

  /** An empty axis makes the two slab bounds cross, so no iteration narrows
      `ray_t`: the empty box reports a hit for every non-empty `ray_t`. */
  lemma EmptyBoxHit(r: Ray, rt: Interval)
    requires NonZeroDir(r.dir)
    requires Lt(rt.min, rt.max)
    ensures Hit(EmptyBox, r, rt)
    ensures forall t :: !ContainsPoint(EmptyBox, At(r, t))
  {
    assert Step(Empty, r.orig.x, r.dir.x, rt) == rt;
    assert Step(Empty, r.orig.y, r.dir.y, rt) == rt;
    assert Step(Empty, r.orig.z, r.dir.z, rt) == rt;
  }

  /** The slab test with the empty-axis case decided first: a box with an
      empty axis holds no point, so no ray hits it. */
  function HitChecked(box: Aabb, r: Ray, rt: Interval): (b: bool)
    requires NonZeroDir(r.dir)
    ensures Proper(box) ==> b == Hit(box, r, rt)
    ensures !Proper(box) ==> !b
  {
    Proper(box) && Hit(box, r, rt)
  }

  /** The corrected test is sound for every box: a hit always has a ray
      point inside the box at some t strictly inside `ray_t`. */
  lemma HitCheckedSound(box: Aabb, r: Ray, rt: Interval)
    requires NonZeroDir(r.dir)
    requires HitChecked(box, r, rt)
    ensures exists t: real :: Surrounds(rt, Fin(t)) && ContainsPoint(box, At(r, t))
  {
    HitSound(box, r, rt);
  }
}
