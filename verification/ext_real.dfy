/** Real numbers extended with the two infinities. The renderer uses
    `+infinity` and `-infinity` only as interval bounds (the empty and the
    universal interval, the open end of a ray's parameter range), so this is
    all of IEEE arithmetic the model keeps. */
module ExtReals {

  datatype ExtReal = NegInf | Fin(v: real) | PosInf

  /** a <= b in the order -inf < every real < +inf */
  predicate Le(a: ExtReal, b: ExtReal) {
    match a
    case NegInf => true
    case PosInf => b.PosInf?
    case Fin(x) => b.PosInf? || (b.Fin? && x <= b.v)
  }

  /** a < b; the order is total, so this is the negation of b <= a */
  predicate Lt(a: ExtReal, b: ExtReal) {
    !Le(b, a)
  }

  /** std::min(a, b), which returns `(b < a) ? b : a` */
  function Min(a: ExtReal, b: ExtReal): (m: ExtReal)
    ensures Le(m, a) && Le(m, b)
    ensures m == a || m == b
  {
    if Lt(b, a) then b else a
  }

  /** std::max(a, b), which returns `(a < b) ? b : a` */
  function Max(a: ExtReal, b: ExtReal): (m: ExtReal)
    ensures Le(a, m) && Le(b, m)
    ensures m == a || m == b
  {
    if Lt(a, b) then b else a
  }

  /** a - b is a number or an infinity unless both are the same infinity (NaN) */
  predicate DiffDefined(a: ExtReal, b: ExtReal) {
    !(a == b && !a.Fin?)
  }

  /** IEEE subtraction away from NaN */
  function Diff(a: ExtReal, b: ExtReal): (d: ExtReal)
    requires DiffDefined(a, b)
    ensures Le(Fin(0.0), d) <==> Le(b, a)
  {
    match (a, b)
    case (Fin(x), Fin(y)) => Fin(x - y)
    case (PosInf, _) => PosInf
    case (NegInf, _) => NegInf
    case (Fin(_), PosInf) => NegInf
    case (Fin(_), NegInf) => PosInf
  }
}
