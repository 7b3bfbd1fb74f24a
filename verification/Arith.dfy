/** Small facts about products and quotients.  Each holds one non-linear step, so that the
    proofs that use it stay linear. */
module Arith {

  lemma MulSub(q: int, p: int, d: int)
    ensures (q - p) * d == q * d - p * d
  {}

  lemma MulAdd(q: int, p: int, d: int)
    ensures (q + p) * d == q * d + p * d
  {}

  lemma MulDouble(q: int, d: int)
    ensures (2 * q) * d == 2 * (q * d)
  {}

  lemma MulAssoc(a: int, b: int, c: int)
    ensures a * (b * c) == (a * b) * c
  {}

  lemma MulNeg(q: int, d: int)
    ensures (-q) * d == -(q * d) && q * (-d) == -(q * d)
  {}

  lemma MulCommute(a: int, b: int)
    ensures a * b == b * a
  {}

  lemma MulAtLeast(k: int, d: int)
    requires k >= 1 && d >= 0
    ensures k * d >= d
  {}

  lemma MulNonNeg(k: int, d: int)
    requires k >= 0 && d >= 0
    ensures k * d >= 0
  {}

  lemma MulMonotone(a: int, b: int, d: int)
    requires a <= b && d >= 0
    ensures a * d <= b * d
  {
    MulSub(b, a, d);
    MulNonNeg(b - a, d);
  }

  lemma DivFacts(n: int, d: int)
    requires d > 0
    ensures n == (n / d) * d + n % d && 0 <= n % d < d
  {}

  lemma DivNonNeg(n: int, d: int)
    requires n >= 0 && d > 0
    ensures n / d >= 0
  {
    DivFacts(n, d);
    if n / d < 0 {
      MulMonotone(n / d, -1, d);
    }
  }

  /** Quotient and remainder are unique. */
  lemma Unique(d: nat, q: int, r: nat, p: int, s: nat)
    requires q * d + r == p * d + s && r < d && s < d
    ensures q == p && r == s
  {
    MulSub(q, p, d);
    MulSub(p, q, d);
    if q > p {
      MulAtLeast(q - p, d);
    } else if q < p {
      MulAtLeast(p - q, d);
    }
  }

  lemma DivUnique(n: int, d: nat, q: int, r: nat)
    requires d > 0 && n == q * d + r && r < d
    ensures q == n / d && r == n % d
  {
    DivFacts(n, d);
    Unique(d, q, r, n / d, n % d);
  }

  lemma DivMonotone(a: nat, b: nat, d: nat)
    requires a <= b && d > 0
    ensures a / d <= b / d
  {
    DivFacts(a, d);
    DivFacts(b, d);
    QuotientsInOrder(a, b, d, a / d, b / d);
  }

  lemma QuotientsInOrder(a: nat, b: nat, d: nat, p: int, q: int)
    requires a <= b && p * d <= a && b < q * d + d
    ensures p <= q
  {
    if p > q {
      MulSub(p, q, d);
      MulAtLeast(p - q, d);
    }
  }
}
