/** Facts about products and quotients that proofs refer to by name. */
module Arith {

  lemma MulMono(a: int, b: int, m: int)
    requires a <= b && 0 <= m
    ensures a * m <= b * m
  {
  }

  lemma DivMul(d: nat, m: nat)
    requires 0 < m
    ensures d / m * m <= d && d / m <= d
  {
    MulMono(1, m, d / m);
  }

  lemma MulThree(a: int, b: int, c: int)
    ensures a * b * c == a * (b * c)
  {
  }

  lemma MulSub(a: int, b: int, m: int)
    ensures (a - b) * m == a * m - b * m
  {
  }

  lemma MulAdd(a: int, b: int, m: int)
    ensures (a + b) * m == a * m + b * m
  {
  }

  /** Quotient and remainder are determined by the division equation. */
  lemma QuotientIs(x: int, d: int, q: int, r: int)
    requires x == q * d + r && 0 <= r < d
    ensures x / d == q && x % d == r
  {
    var k := x / d - q;
    MulSub(x / d, q, d);
    assert k * d == r - x % d;
    if k >= 1 { MulMono(1, k, d); }
    if k <= -1 { MulMono(k, -1, d); }
  }

  lemma QuotientBelow(x: nat, d: nat, n: nat)
    requires 0 < d && x < n * d
    ensures x / d < n
  {
    if x / d >= n { MulMono(n, x / d, d); }
  }

  lemma PositiveProduct(a: nat, b: nat)
    requires 0 < a && 0 < b
    ensures 0 < a * b
  {
  }
}
