/** The closed interval `[min, max]` of interval.h and src/interval.h. Its
    bounds may be infinite; a value tested against it is an extended real too,
    since a `double` may itself be an infinity. */
module Intervals {
  import opened ExtReals

  datatype Interval = Interval(min: ExtReal, max: ExtReal)

  /** interval::empty, `(+infinity, -infinity)` */
  const Empty := Interval(PosInf, NegInf)

  /** interval::universe, `(-infinity, +infinity)` */
  const Universe := Interval(NegInf, PosInf)

  /** `min <= max`: the interval holds at least one value */
  predicate NonEmpty(i: Interval) {
    Le(i.min, i.max)
  }

  /** contains(x): min <= x <= max */
  predicate Contains(i: Interval, x: ExtReal) {
    Le(i.min, x) && Le(x, i.max)
  }

  /** surrounds(x): min < x < max */
  predicate Surrounds(i: Interval, x: ExtReal) {
    Lt(i.min, x) && Lt(x, i.max)
  }

  /** The default constructor, which builds the empty interval. */
  function Default(): (i: Interval)
    ensures forall x :: !Contains(i, x)
    ensures !NonEmpty(i)
  {
    Interval(PosInf, NegInf)
  }

  /** The two-interval constructor of src/interval.h: the smallest interval
      holding both. */
  function Hull(a: Interval, b: Interval): (h: Interval)
    ensures forall x :: Contains(a, x) || Contains(b, x) ==> Contains(h, x)
    ensures h.min == a.min || h.min == b.min
    ensures h.max == a.max || h.max == b.max
  {
    Interval(Min(a.min, b.min), Max(a.max, b.max))
  }

  /** size(): max - min, defined unless both bounds are the same infinity */
  function Size(i: Interval): (s: ExtReal)
    requires DiffDefined(i.max, i.min)
    ensures Le(Fin(0.0), s) <==> NonEmpty(i)
  {
    Diff(i.max, i.min)
  }

  /** clamp(x): min when x < min, else max when x > max, else x */
  function Clamp(i: Interval, x: ExtReal): (c: ExtReal)
    ensures Contains(i, x) ==> c == x
    ensures NonEmpty(i) ==> Contains(i, c)
    ensures c == x || c == i.min || c == i.max
  {
    if Lt(x, i.min) then i.min
    else if Lt(i.max, x) then i.max
    else x
  }

  /** Where size() is defined, it is non-negative exactly when the interval
      holds a finite value. */
  lemma SizeNonNegativeIffInhabited(i: Interval)
    requires DiffDefined(i.max, i.min)
    ensures Le(Fin(0.0), Size(i)) <==> exists x: real :: Contains(i, Fin(x))
  {
    if Le(Fin(0.0), Size(i)) {
      var w := match (i.min, i.max)
        case (Fin(a), _) => a
        case (_, Fin(b)) => b
        case _ => 0.0;
      assert Contains(i, Fin(w));
    }
  }

  /** On a non-empty interval clamping twice is clamping once. */
  lemma ClampIdempotent(i: Interval, x: ExtReal)
    requires NonEmpty(i)
    ensures Clamp(i, Clamp(i, x)) == Clamp(i, x)
  {
  }

  /** On a non-empty interval clamping keeps the order of its arguments. */
  lemma ClampMonotone(i: Interval, x: ExtReal, y: ExtReal)
    requires NonEmpty(i)
    requires Le(x, y)
    ensures Le(Clamp(i, x), Clamp(i, y))
  {
  }

  lemma SurroundsImpliesContains(i: Interval, x: ExtReal)
    requires Surrounds(i, x)
    ensures Contains(i, x)
  {
  }

  /** The empty interval holds no value at all, not even an infinity. */
  lemma EmptyContainsNothing(x: ExtReal)
    ensures !Contains(Empty, x)
    ensures !Surrounds(Empty, x)
  {
  }

  /** The universe holds every value, infinities included, and surrounds
      every finite one. */
  lemma UniverseContainsAll(x: ExtReal)
    ensures Contains(Universe, x)
    ensures x.Fin? <==> Surrounds(Universe, x)
  {
  }

  /** The default-constructed interval is interval::empty. */
  lemma DefaultIsEmpty()
    ensures Default() == Empty
  {
  }

  /** The empty interval is the identity of the hull, on either side. */
  lemma HullEmpty(a: Interval)
    ensures Hull(Empty, a) == a
    ensures Hull(a, Empty) == a
  {
  }

  /** The hull holds exactly the values between the outer bounds. */
  lemma HullContainsExactly(a: Interval, b: Interval, x: ExtReal)
    ensures Contains(Hull(a, b), x)
        <==> (Le(a.min, x) || Le(b.min, x)) && (Le(x, a.max) || Le(x, b.max))
  {
  }
}
