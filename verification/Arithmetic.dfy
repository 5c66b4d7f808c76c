/** Quotients, remainders and multiples of variable divisors. */
module Arithmetic {

  lemma MultipleBounds(d: int, k: int)
    requires d >= 0
    ensures k >= 1 ==> d * k >= d
    ensures k <= -1 ==> d * k <= -d
  {
  }

  /** The only multiple of `d` closer to zero than `d` is zero. */
  lemma SmallMultipleOf(k: int, m: int, d: int)
    requires 0 - d < m < d && d * k + m == 0
    ensures m == 0
  {
    MultipleBounds(d, k);
  }

  /** Quotient and remainder are determined. */
  lemma Residue(a: int, q: int, m: int, d: int)
    requires 0 <= m < d && a == d * q + m
    ensures a / d == q && a % d == m
  {
    var k := a / d - q;
    assert a == d * (a / d) + a % d;
    assert d * k == m - a % d;
    MultipleBounds(d, k);
  }

  /** Dividing twice is dividing by the product. */
  lemma DivideTwice(v: int, a: int, b: int)
    requires a > 0 && b > 0
    ensures a * b > 0 && v / (a * b) == v / a / b
  {
    var q, r := v / a, v % a;
    var k, m := q / b, q % b;
    assert v == a * q + r && q == b * k + m;
    assert a * q == a * b * k + a * m;
    ProductBounds(a, b, m, r);
    Residue(v, k, a * m + r, a * b);
  }

  lemma ProductBounds(a: int, b: int, m: int, r: int)
    requires a > 0 && b > 0 && 0 <= m < b && 0 <= r < a
    ensures 0 <= a * m + r < a * b
  {
    assert a * (b - m - 1) >= 0;
    assert a * (b - m - 1) == a * b - a * m - a;
    assert a * m >= 0;
  }
}
