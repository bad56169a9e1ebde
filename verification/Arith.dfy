/** Division and congruence facts the solver does not find by itself. */
module Arith {

  lemma MulMonotone(a: int, b: int, m: int)
    requires a <= b && 0 <= m
    ensures a * m <= b * m
  {
    assert (b - a) * m >= 0;
  }

  /** Quotient and remainder are determined by the division equation. */
  lemma DivUnique(d: int, m: int, q: int, r: int)
    requires 0 <= r < m
    requires d == q * m + r
    ensures d / m == q && d % m == r
  {
    var q', r' := d / m, d % m;
    assert (q - q') * m == r' - r;
    if q' < q {
      MulMonotone(1, q - q', m);
    } else if q' > q {
      MulMonotone(q - q', -1, m);
    }
  }

  lemma DivTwice(d: nat, p: nat)
    requires p > 0
    ensures d / (2 * p) == (d / 2) / p
  {
    var h := d / 2;
    var q, r := h / p, h % p;
    assert h == p * q + r;
    assert q * (2 * p) == 2 * (p * q);
    DivUnique(d, 2 * p, q, 2 * r + d % 2);
  }

  lemma ModSmall(x: int, m: int)
    requires 0 <= x < m
    ensures x % m == x
  {
  }

  lemma ProductBound(a: nat, p: nat, v: nat, q: nat)
    requires a < p && v < q
    ensures a + v * p < p * q
  {
    MulMonotone(v + 1, q, p);
  }

  lemma Doubled(r: int, b: int, p: int)
    ensures r * (2 * p) + b * p == (2 * r + b) * p
  {
  }

  lemma Quotients(x: nat)
    ensures x / 2 / 2 == x / 4 && x / 4 / 2 == x / 8 && x / 8 / 2 == x / 16 && x / 16 / 16 == x / 256
  {
  }

  lemma MulAssociates(a: int, b: int, c: int)
    ensures (a * b) * c == a * (b * c)
  {
  }

  lemma MulDistributes(a: int, b: int, c: int)
    ensures a * (b + c) == a * b + a * c
    ensures (b + c) * a == b * a + c * a
    ensures a * b == b * a && a * c == c * a
    ensures a * -c == -(a * c)
  {
  }

  lemma MulPositive(a: int, b: int)
    requires a > 0 && b > 0
    ensures a * b > 0
  {
  }

  lemma MulExpand(x: int, j: int, m: int, y: int, k: int)
    ensures (x + j * m) * (y + k * m) == x * y + (x * k + j * y + j * k * m) * m
  {
    var a := j * m;
    assert (x + a) * (y + k * m) == x * y + x * (k * m) + a * y + a * (k * m);
    assert x * (k * m) == (x * k) * m && a * y == (j * y) * m && a * (k * m) == (j * k * m) * m;
  }

  lemma DivProduct(d: nat, a: nat, b: nat)
    requires a > 0 && b > 0
    ensures a * b > 0 && d / (a * b) == d / a / b
  {
    MulPositive(a, b);
    var h := d / a;
    var q, r := h / b, h % b;
    MulDistributes(a, q * b, r);
    MulDistributes(a, q, b);
    MulAssociates(a, q, b);
    MulAssociates(q, a, b);
    MulMonotone(r, b - 1, a);
    MulDistributes(a, b, -1);
    DivUnique(d, a * b, q, a * r + d % a);
  }
}
