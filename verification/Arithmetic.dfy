/** Facts about products, quotients and remainders. */
module Arithmetic {
  lemma MulDist(x: int, y: int, z: int)
    ensures (x + y) * z == x * z + y * z && (x - y) * z == x * z - y * z
  {
  }

  lemma MulAtLeast(k: int, d: int)
    requires k >= 1 && d > 0
    ensures k * d >= d
  {
  }

  lemma MulMonotone(x: int, y: int, p: int)
    requires x <= y && p >= 0
    ensures x * p <= y * p
  {
  }

  lemma MulAssoc(x: int, y: int, z: int)
    ensures (x * y) * z == x * (y * z) && (x * y) * z == (x * z) * y
  {
  }

  /** The high part decides. */
  lemma LexicographicLess(lo: int, lo': int, x: int, y: int, p: int)
    requires 0 <= lo < p && 0 <= lo' < p && x < y
    ensures lo + x * p < lo' + y * p
  {
    MulMonotone(x + 1, y, p);
    MulDist(x, 1, p);
  }

  /** A quotient whose remainder is known. */
  lemma DivModUnique(x: int, d: int, q: int, r: int)
    requires d > 0 && x == q * d + r && 0 <= r < d
    ensures x / d == q && x % d == r
  {
    var q', r' := x / d, x % d;
    assert x == q' * d + r';
    MulDist(q, q', d);
    MulDist(q', q, d);
    if q > q' {
      MulAtLeast(q - q', d);
    } else if q < q' {
      MulAtLeast(q' - q, d);
    }
  }

  lemma DivDiv(x: int, a: int, b: int)
    requires a > 0 && b > 0
    ensures a * b > 0 && x / a / b == x / (a * b)
  {
    var q := x / a;
    var h, d := q / b, q % b;
    MulMonotone(1, a, b);
    MulDist(h * b, d, a);
    assert (h * b) * a == h * (a * b);
    LexicographicLess(x % a, 0, d, b, a);
    MulMonotone(0, d, a);
    assert b * a == a * b;
    DivModUnique(x, a * b, h, x % a + d * a);
  }

  lemma DivCancel(x: int, y: int, c: int)
    requires y > 0 && c > 0
    ensures y * c > 0 && (x * c) / (y * c) == x / y
  {
    var q, r := x / y, x % y;
    MulMonotone(1, y, c);
    MulDist(q * y, r, c);
    assert (q * y) * c == q * (y * c);
    MulMonotone(0, r, c);
    MulMonotone(r + 1, y, c);
    MulDist(r, 1, c);
    DivModUnique(x * c, y * c, q, r * c);
  }
}
