/** Facts about products and quotients of reals that the solver needs spelled out. */
module Reals {
  lemma ProductSign(a: real, d: real)
    requires d > 0.0
    ensures a * d > 0.0 <==> a > 0.0
    ensures a * d >= 0.0 <==> a >= 0.0
  {
  }

  lemma TimesDifference(u: real, v: real, d: real)
    ensures (v - u) * d == v * d - u * d && (u - v) * d == u * d - v * d
  {
  }

  lemma DivMul(x: real, y: real)
    requires y != 0.0
    ensures x / y * y == x
  {
  }

  lemma FracMonotone(x: real, y: real, d: real)
    requires d > 0.0
    ensures x < y <==> x / d < y / d
    ensures x <= y <==> x / d <= y / d
  {
    var u, v := x / d, y / d;
    DivMul(x, d);
    DivMul(y, d);
    TimesDifference(u, v, d);
    ProductSign(v - u, d);
    ProductSign(u - v, d);
  }

  lemma ScaleMonotone(k: real, x: real, y: real)
    requires k >= 0.0
    ensures x <= y ==> k * x <= k * y
    ensures k > 0.0 && x < y ==> k * x < k * y
  {
    assert k * y - k * x == (y - x) * k;
    if k > 0.0 {
      ProductSign(y - x, k);
    }
  }

  lemma FractionOf(x: real, d: real)
    requires 0.0 < x <= d
    ensures 0.0 < x / d <= 1.0
  {
    FracMonotone(0.0, x, d);
    FracMonotone(x, d, d);
  }

  lemma FractionTimes(f: real, w: real)
    requires 0.0 < f <= 1.0 && w > 0.0
    ensures 0.0 < f * w <= w && f * w / w == f
  {
    ProductSign(f, w);
    ScaleMonotone(w, f, 1.0);
  }

  function Mix(a: real, b: real, w: real): real { a + (b - a) * w }

  lemma MixBetween(a: real, b: real, w: real)
    requires a <= b && 0.0 <= w <= 1.0
    ensures a <= Mix(a, b, w) <= b
  {
    ScaleMonotone(b - a, 0.0, w);
    ScaleMonotone(b - a, w, 1.0);
  }

  lemma MixMonotone(a: real, b: real, v: real, w: real)
    requires a <= b && v <= w
    ensures Mix(a, b, v) <= Mix(a, b, w)
  {
    ScaleMonotone(b - a, v, w);
  }

  function Weighted(a: real, b: real, w: real): real { a * (1.0 - w) + b * w }

  lemma WeightedSum(a: real, b: real, w: real)
    ensures Weighted(a, b, w) == Mix(a, b, w)
  {
    TimesDifference(w, 1.0, a);
    TimesDifference(a, b, w);
  }
}
