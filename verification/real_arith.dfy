/** Exact real arithmetic standing in for the calculator's floating-point
    operations: `Math.ceil`, and divisions whose divisor may be zero. */
module RealArith {
  import opened Wrappers

  /** `Math.ceil`: the least integer not below `x`. */
  function Ceil(x: real): (c: int)
    ensures c as real >= x
    ensures (c - 1) as real < x
  {
    -((-x).Floor)
  }

  /** A division the source performs without a guard: absent exactly when the
      divisor is zero (where JavaScript yields Infinity or NaN). */
  function Quotient(a: real, b: real): (r: Option<real>)
    ensures r.Some? <==> b != 0.0
    ensures r.Some? ==> r.value * b == a
  {
    if b == 0.0 then None else Some(a / b)
  }

  /** `(part / whole) * 100`, absent exactly when `whole` is zero. */
  function Percent(part: real, whole: real): (r: Option<real>)
    ensures r.Some? <==> whole != 0.0
    ensures r.Some? ==> r.value * whole == 100.0 * part
  {
    match Quotient(part, whole)
    case None => None
    case Some(q) => Some(q * 100.0)
  }

  /** A product with a positive factor has the sign of the other factor. */
  lemma SignOfProduct(x: real, k: real)
    requires k > 0.0
    ensures x * k > 0.0 <==> x > 0.0
    ensures x * k < 0.0 <==> x < 0.0
  {
  }

  /** A percentage of a positive whole has the sign of its part, and any
      percentage is zero exactly when its part is. */
  lemma PercentSign(part: real, whole: real)
    requires whole != 0.0
    ensures whole > 0.0 ==> (Percent(part, whole).value > 0.0 <==> part > 0.0)
    ensures whole > 0.0 ==> (Percent(part, whole).value < 0.0 <==> part < 0.0)
    ensures Percent(part, whole).value == 0.0 <==> part == 0.0
  {
    var pct := Percent(part, whole).value;
    assert pct * whole == 100.0 * part;
    if whole > 0.0 {
      SignOfProduct(pct, whole);
    } else {
      SignOfProduct(pct, -whole);
    }
  }

  /** `x` lies on the closed segment between `a` and `b`, in either order. */
  predicate Between(x: real, a: real, b: real) {
    (a <= x <= b) || (b <= x <= a)
  }
}
