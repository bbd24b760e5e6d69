/**
  Search scores. The player keeps its scores in Java doubles and uses the two
  infinities as the initial values of the running maximum, the running minimum,
  alpha, beta and the best root score; every finite score it produces comes
  from the evaluator. A score is therefore an exact real number extended with
  the two infinities, ordered as doubles without NaN are ordered.
*/
module Scores {

  datatype Score = NegInf | Fin(r: real) | PosInf

  /** a <= b in the extended reals */
  predicate Le(a: Score, b: Score) {
    a.NegInf? || b.PosInf? || (a.Fin? && b.Fin? && a.r <= b.r)
  }

  /** a < b in the extended reals */
  predicate Lt(a: Score, b: Score) {
    !Le(b, a)
  }

  /** Math.max on two scores */
  function Max(a: Score, b: Score): (m: Score)
    ensures Le(a, m) && Le(b, m)
    ensures m == a || m == b
  {
    if Le(a, b) then b else a
  }

  /** Math.min on two scores */
  function Min(a: Score, b: Score): (m: Score)
    ensures Le(m, a) && Le(m, b)
    ensures m == a || m == b
  {
    if Le(a, b) then a else b
  }

  /** `score -= c`: the infinities absorb a finite subtraction */
  function Minus(a: Score, c: real): (m: Score)
    ensures c >= 0.0 ==> Le(m, a)
    ensures a.Fin? <==> m.Fin?
    ensures a.Fin? ==> m.r == a.r - c
  {
    match a
    case NegInf => NegInf
    case Fin(x) => Fin(x - c)
    case PosInf => PosInf
  }
}
