/** Quotients: rounding one to the nearest whole number, ties to the even one, and
    comparing two. */
module Rounding {

  function HalfEven(n: nat, unit: nat): nat
    requires unit > 0
  {
    var q, r := n / unit, n % unit;
    if 2 * r > unit || (2 * r == unit && q % 2 == 1) then q + 1 else q
  }

  /** The result is off by half a unit at most. */
  lemma HalfEvenNear(n: nat, unit: nat)
    requires unit > 0
    ensures 2 * n - unit <= 2 * (HalfEven(n, unit) * unit) <= 2 * n + unit
  {
    var q, r := n / unit, n % unit;
    assert n == q * unit + r;
    assert (q + 1) * unit == q * unit + unit;
  }

  /** A half goes to the even side. */
  lemma HalfEvenTies(n: nat, unit: nat)
    requires unit > 0
    ensures 2 * n == 2 * (HalfEven(n, unit) * unit) + unit || 2 * n + unit == 2 * (HalfEven(n, unit) * unit)
            ==> HalfEven(n, unit) % 2 == 0
  {
    var q, r := n / unit, n % unit;
    assert n == q * unit + r;
    assert (q + 1) * unit == q * unit + unit;
  }

  lemma QuotientOrder(a: real, b: real, e: real)
    requires e > 0.0
    ensures a / e < b / e <==> a < b
    ensures a / e == b / e <==> a == b
  {
    assert (a / e) * e == a && (b / e) * e == b;
    ScaledOrder(a / e, b / e, e);
  }

  /** A quotient is below a threshold as its numerator is below that many denominators. */
  lemma QuotientBelow(a: real, e: real, threshold: real)
    requires e > 0.0
    ensures a / e < threshold <==> a < threshold * e
  {
    assert (a / e) * e == a;
    ScaledOrder(a / e, threshold, e);
  }

  lemma ScaledOrder(p: real, q: real, e: real)
    requires e > 0.0
    ensures p * e < q * e <==> p < q
    ensures p * e == q * e <==> p == q
  {
    ScaledUp(p, q, e);
    ScaledUp(q, p, e);
  }

  lemma ScaledUp(p: real, q: real, e: real)
    requires e > 0.0
    ensures p < q ==> p * e < q * e
  {
    assert q * e - p * e == (q - p) * e;
  }
}
