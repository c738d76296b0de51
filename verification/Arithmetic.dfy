/** The few facts about products and quotients that the models need by name. */
module Arithmetic {
  lemma MulMono(a: int, b: int, c: int)
    requires a <= b && c >= 0
    ensures a * c <= b * c
  {
    assert (b - a) * c >= 0;
  }

  lemma MulCancel(a: int, b: int, c: int)
    requires a * c < b * c && c > 0
    ensures a < b
  {
    if b <= a { MulMono(b, a, c); }
  }

  lemma QuotientAtLeast(q: int, d: int, x: int)
    requires d > 0 && q * d <= x
    ensures q <= x / d
  {
    var k := x / d;
    assert x == k * d + x % d;
    assert (k + 1) * d == k * d + d;
    MulCancel(q, k + 1, d);
  }
}
