/** The closest-so-far scan of hittable_list::hit, written once for any
    kind of object: `hit(u, i)` is the object's own hit test on the
    interval i and `tOf` reads the ray parameter out of a hit. The scan is
    proved equal to a plain reference: the strictly nearest hit of all
    objects over the whole interval, the earliest object winning ties. */
module Scans {
  import opened ExtReals
  import opened Intervals
  import opened Options

  /** A hit kept only if it lies strictly before the bound c. */
  function Clip<T>(o: Option<T>, tOf: T -> real, c: ExtReal): (r: Option<T>)
    ensures r.Some? ==> r == o && Lt(Fin(tOf(r.value)), c)
    ensures o.Some? && Lt(Fin(tOf(o.value)), c) ==> r == o
  {
    match o
    case None => None
    case Some(x) => if Lt(Fin(tOf(x)), c) then o else None
  }

  /** The reference step: a new hit replaces the best so far only when it is
      strictly nearer. */
  function Better<T>(best: Option<T>, h: Option<T>, tOf: T -> real): (r: Option<T>)
    ensures r == best || r == h
    ensures best.None? ==> r == h
    ensures h.None? ==> r == best
  {
    match h
    case None => best
    case Some(x) =>
      match best
      case None => h
      case Some(y) => if tOf(x) < tOf(y) then h else best
  }

  /** The reference: the best hit of the first n objects, each tested on the
      whole interval rt. */
  function Closest<U, T>(objs: seq<U>, hit: (U, Interval) -> Option<T>, tOf: T -> real,
                         rt: Interval, n: nat): Option<T>
    requires n <= |objs|
  {
    if n == 0 then None
    else Better(Closest(objs, hit, tOf, rt, n - 1), hit(objs[n - 1], rt), tOf)
  }

  /** The loop of hittable_list::hit from object i on: each object is tested
      on `(lo, closest)`, and a hit becomes the new record and bound. */
  function ScanFrom<U, T>(objs: seq<U>, hit: (U, Interval) -> Option<T>, tOf: T -> real,
                          lo: ExtReal, i: nat, closest: ExtReal, acc: Option<T>): (r: Option<T>)
    requires i <= |objs|
    ensures r.Some? ==> acc.Some? || exists k :: i <= k < |objs| && hit(objs[k], Interval(lo, closest)).Some?
    decreases |objs| - i
  {
    if i == |objs| then acc
    else
      match hit(objs[i], Interval(lo, closest))
      case Some(x) => ScanFrom(objs, hit, tOf, lo, i + 1, Fin(tOf(x)), Some(x))
      case None => ScanFrom(objs, hit, tOf, lo, i + 1, closest, acc)
  }

  /** hittable_list::hit: the scan started with nothing found and the bound
      at `ray_t.max`. */
  function ScanHit<U, T>(objs: seq<U>, hit: (U, Interval) -> Option<T>, tOf: T -> real,
                         rt: Interval): Option<T>
  {
    ScanFrom(objs, hit, tOf, rt.min, 0, rt.max, None)
  }

  /** What the scan needs of each object on rt: a hit lies strictly inside
      the interval tested, and testing on `(rt.min, c)` for a bound c no
      later than `rt.max` is testing on rt and keeping the hit only if it
      lies before c. */
  ghost predicate ShrinkConsistent<U, T>(hit: (U, Interval) -> Option<T>, tOf: T -> real,
                                         u: U, rt: Interval) {
    && (hit(u, rt).Some? ==> Surrounds(rt, Fin(tOf(hit(u, rt).value))))
    && forall c :: Le(c, rt.max) ==> hit(u, Interval(rt.min, c)) == Clip(hit(u, rt), tOf, c)
  }

  ghost predicate AllShrinkConsistent<U, T>(objs: seq<U>, hit: (U, Interval) -> Option<T>,
                                            tOf: T -> real, rt: Interval) {
    forall k :: 0 <= k < |objs| ==> ShrinkConsistent(hit, tOf, objs[k], rt)
  }

  /** The bound the scan holds once it has found `best`. */
  function BoundOf<T>(best: Option<T>, tOf: T -> real, rt: Interval): ExtReal {
    if best.Some? then Fin(tOf(best.value)) else rt.max
  }

  /** The reference misses exactly when every object misses. */
  lemma {:induction false} ClosestNone<U, T>(objs: seq<U>, hit: (U, Interval) -> Option<T>,
                                             tOf: T -> real, rt: Interval, n: nat)
    requires n <= |objs|
    ensures Closest(objs, hit, tOf, rt, n).None? <==> forall k :: 0 <= k < n ==> hit(objs[k], rt).None?
  {
    if n > 0 {
      ClosestNone(objs, hit, tOf, rt, n - 1);
    }
  }

  /** A reference hit is the hit of some object k, no other object hits
      before it, and every object before k hits strictly later. */
  lemma {:induction false} ClosestWitness<U, T>(objs: seq<U>, hit: (U, Interval) -> Option<T>,
                                                tOf: T -> real, rt: Interval, n: nat)
    returns (k: nat)
    requires n <= |objs|
    requires Closest(objs, hit, tOf, rt, n).Some?
    ensures k < n && hit(objs[k], rt) == Closest(objs, hit, tOf, rt, n)
    ensures forall j :: 0 <= j < n && hit(objs[j], rt).Some? ==>
              tOf(Closest(objs, hit, tOf, rt, n).value) <= tOf(hit(objs[j], rt).value)
    ensures forall j :: 0 <= j < k && hit(objs[j], rt).Some? ==>
              tOf(Closest(objs, hit, tOf, rt, n).value) < tOf(hit(objs[j], rt).value)
  {
    var prev := Closest(objs, hit, tOf, rt, n - 1);
    var h := hit(objs[n - 1], rt);
    if prev.None? {
      ClosestNone(objs, hit, tOf, rt, n - 1);
      k := n - 1;
    } else {
      var k' := ClosestWitness(objs, hit, tOf, rt, n - 1);
      if h.Some? && tOf(h.value) < tOf(prev.value) {
        k := n - 1;
      } else {
        k := k';
      }
    }
  }

  /** A reference hit lies strictly inside rt. */
  lemma ClosestSound<U, T>(objs: seq<U>, hit: (U, Interval) -> Option<T>,
                           tOf: T -> real, rt: Interval, n: nat)
    requires n <= |objs|
    requires AllShrinkConsistent(objs, hit, tOf, rt)
    requires Closest(objs, hit, tOf, rt, n).Some?
    ensures Surrounds(rt, Fin(tOf(Closest(objs, hit, tOf, rt, n).value)))
  {
    var k := ClosestWitness(objs, hit, tOf, rt, n);
    assert ShrinkConsistent(hit, tOf, objs[k], rt);
  }

  /** One iteration of the scan performs one step of the reference. */
  lemma ScanStep<U, T>(objs: seq<U>, hit: (U, Interval) -> Option<T>, tOf: T -> real,
                       rt: Interval, i: nat)
    requires i < |objs|
    requires AllShrinkConsistent(objs, hit, tOf, rt)
    ensures var best := Closest(objs, hit, tOf, rt, i);
            var h := hit(objs[i], Interval(rt.min, BoundOf(best, tOf, rt)));
            Closest(objs, hit, tOf, rt, i + 1) == (if h.Some? then h else best)
  {
    var best := Closest(objs, hit, tOf, rt, i);
    var full := hit(objs[i], rt);
    var c := BoundOf(best, tOf, rt);
    assert ShrinkConsistent(hit, tOf, objs[i], rt);
    if best.Some? {
      ClosestSound(objs, hit, tOf, rt, i);
    }
    assert Le(c, rt.max);
    assert hit(objs[i], Interval(rt.min, c)) == Clip(full, tOf, c);
  }

  /** The scan from object i, started in the state the reference reaches
      after i objects, ends with the reference's answer for all objects. */
  lemma {:induction false} ScanFromIsClosest<U, T>(objs: seq<U>, hit: (U, Interval) -> Option<T>,
                                                   tOf: T -> real, rt: Interval, i: nat)
    requires i <= |objs|
    requires AllShrinkConsistent(objs, hit, tOf, rt)
    ensures var best := Closest(objs, hit, tOf, rt, i);
            ScanFrom(objs, hit, tOf, rt.min, i, BoundOf(best, tOf, rt), best)
              == Closest(objs, hit, tOf, rt, |objs|)
    decreases |objs| - i
  {
    if i < |objs| {
      ScanStep(objs, hit, tOf, rt, i);
      ScanFromIsClosest(objs, hit, tOf, rt, i + 1);
    }
  }

  /** hittable_list::hit computes the reference answer. */
  lemma ScanHitIsClosest<U, T>(objs: seq<U>, hit: (U, Interval) -> Option<T>,
                               tOf: T -> real, rt: Interval)
    requires AllShrinkConsistent(objs, hit, tOf, rt)
    ensures ScanHit(objs, hit, tOf, rt) == Closest(objs, hit, tOf, rt, |objs|)
  {
    ScanFromIsClosest(objs, hit, tOf, rt, 0);
  }

  /** The scan's contract: it hits iff some object hits within rt; its hit
      is strictly inside rt, is some object's hit, is no later than any
      object's hit, and on a tie the earliest object wins. */
  lemma ScanHitSpec<U, T>(objs: seq<U>, hit: (U, Interval) -> Option<T>,
                          tOf: T -> real, rt: Interval)
    returns (k: nat)
    requires AllShrinkConsistent(objs, hit, tOf, rt)
    ensures ScanHit(objs, hit, tOf, rt).None? <==> forall j :: 0 <= j < |objs| ==> hit(objs[j], rt).None?
    ensures ScanHit(objs, hit, tOf, rt).Some? ==>
              && Surrounds(rt, Fin(tOf(ScanHit(objs, hit, tOf, rt).value)))
              && k < |objs| && hit(objs[k], rt) == ScanHit(objs, hit, tOf, rt)
              && (forall j :: 0 <= j < |objs| && hit(objs[j], rt).Some? ==>
                    tOf(ScanHit(objs, hit, tOf, rt).value) <= tOf(hit(objs[j], rt).value))
              && (forall j :: 0 <= j < k && hit(objs[j], rt).Some? ==>
                    tOf(ScanHit(objs, hit, tOf, rt).value) < tOf(hit(objs[j], rt).value))
  {
    ScanHitIsClosest(objs, hit, tOf, rt);
    ClosestNone(objs, hit, tOf, rt, |objs|);
    k := 0;
    if ScanHit(objs, hit, tOf, rt).Some? {
      k := ClosestWitness(objs, hit, tOf, rt, |objs|);
      ClosestSound(objs, hit, tOf, rt, |objs|);
    }
  }
}
