/** The order of products and quotients of reals. */
module Arithmetic {

  lemma NonNegativeProduct(a: real, b: real)
    requires a >= 0.0 && b >= 0.0
    ensures a * b >= 0.0
  {
  }

  lemma PositiveProduct(a: real, b: real)
    requires a > 0.0 && b > 0.0
    ensures a * b > 0.0
  {
  }

  lemma ProductMonotone(a: real, b: real, c: real, d: real)
    requires 0.0 <= a <= b && 0.0 <= c <= d
    ensures a * c <= b * d
  {
    NonNegativeProduct(b - a, d);
    NonNegativeProduct(a, d - c);
    assert b * d - a * c == (b - a) * d + a * (d - c);
  }

  lemma ScaleMonotone(c: real, x: real, y: real)
    requires c >= 0.0 && x <= y
    ensures c * x <= c * y
  {
    NonNegativeProduct(c, y - x);
    assert c * (y - x) == c * y - c * x;
  }

  lemma ScaledBound(a: real, b: real, c: real, bound: real)
    requires c >= 0.0 && a * b <= bound
    ensures a * (b * c) <= bound * c
  {
    ScaleMonotone(c, a * b, bound);
    assert a * (b * c) == (a * b) * c;
  }

  lemma ScaleOrder(a: real, b: real, c: real)
    requires c > 0.0
    ensures a <= b <==> a * c <= b * c
  {
    if a <= b {
      ScaleMonotone(c, a, b);
    } else {
      PositiveProduct(a - b, c);
      assert (a - b) * c == a * c - b * c;
    }
  }

  lemma QuotientTimes(a: real, c: real)
    requires c > 0.0
    ensures (a / c) * c == a
  {
  }

  lemma QuotientIs(a: real, c: real, q: real)
    requires c > 0.0
    ensures q == a / c <==> q * c == a
  {
    QuotientTimes(a, c);
    if q * c == a {
      ScaleOrder(q, a / c, c);
      ScaleOrder(a / c, q, c);
    }
  }

  /** Dividing by a positive number keeps the order, and divides a bound. */
  lemma QuotientOrder(a: real, b: real, c: real)
    requires c > 0.0
    ensures a <= b <==> a / c <= b / c
    ensures a / c <= b <==> a <= b * c
  {
    QuotientTimes(a, c);
    QuotientTimes(b, c);
    ScaleOrder(a / c, b, c);
    ScaleOrder(a / c, b / c, c);
  }
}
