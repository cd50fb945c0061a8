/** Division facts used by more than one module. */
module Arithmetic {

  lemma MulMonotone(a: int, b: int, c: nat)
    requires a <= b
    ensures a * c <= b * c
  {}

  lemma MulAtLeast(d: int, n: int)
    requires d >= 1 && n >= 0
    ensures d * n >= n
  {}

  lemma MulSub(a: int, b: int, n: int)
    ensures (a - b) * n == a * n - b * n
  {}

  /** A quotient and a remainder below the divisor are determined by their dividend. */
  lemma QuotientUnique(q1: int, r1: int, q2: int, r2: int, n: int)
    requires 0 <= r1 < n && 0 <= r2 < n && q1 * n + r1 == q2 * n + r2
    ensures q1 == q2 && r1 == r2
  {
    MulSub(q1, q2, n);
    MulSub(q2, q1, n);
    if q1 < q2 {
      MulAtLeast(q2 - q1, n);
    } else if q2 < q1 {
      MulAtLeast(q1 - q2, n);
    }
  }

  lemma DivModIs(a: int, q: int, r: int, n: int)
    requires 0 <= r < n && a == q * n + r
    ensures a / n == q && a % n == r
  {
    QuotientUnique(a / n, a % n, q, r, n);
  }
}
