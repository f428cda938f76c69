/** The part of a JavaScript number the price script can observe: a finite
    value or NaN. Values are exact reals; IEEE rounding, infinities and the
    sign of zero are not modelled. */
module JsNumber {

  datatype Num = Val(v: real) | NaN

  /** The finite value of `n`, with NaN read as 0 (used only where NaN has
      been ruled out or is handled separately). */
  function RealOf(n: Num): real
  {
    match n
    case Val(x) => x
    case NaN => 0.0
  }

  /** `a + b` on JavaScript numbers: NaN is absorbing. */
  function Add(a: Num, b: Num): (r: Num)
    ensures r.NaN? <==> a.NaN? || b.NaN?
    ensures r.Val? ==> r.v == a.v + b.v
  {
    if a.NaN? || b.NaN? then NaN else Val(a.v + b.v)
  }

  /** `+` on numbers is commutative and associative with identity 0 and
      NaN absorbing, so on exact reals the order in which the ledger's
      values are added up does not change the total. */
  lemma AddLaws(a: Num, b: Num, c: Num)
    ensures Add(a, b) == Add(b, a)
    ensures Add(Add(a, b), c) == Add(a, Add(b, c))
    ensures Add(a, Val(0.0)) == a
    ensures Add(a, NaN) == NaN
  {
  }

  function MaxReal(a: real, b: real): real
  {
    if a >= b then a else b
  }

  /** `Math.max(0, a)`: NaN stays NaN, anything else is clamped at zero. */
  function MaxZero(a: Num): (r: Num)
    ensures r.NaN? <==> a.NaN?
    ensures r.Val? ==> r.v >= 0.0 && r.v >= a.v && (r.v == a.v || r.v == 0.0)
  {
    match a
    case NaN => NaN
    case Val(x) => Val(MaxReal(0.0, x))
  }
}
