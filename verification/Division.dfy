/** Quotients and remainders of non-negative divisions. */
module Division {
  lemma Quotient(n: int, d: int, q: int, r: int)
    requires 0 <= r < d && n == q * d + r
    ensures n / d == q && n % d == r
  {
    var q1 := n / d;
    if q > q1 {
      AtLeast(q - q1, d);
    } else if q < q1 {
      AtLeast(q1 - q, d);
    }
  }

  lemma AtLeast(a: int, d: int)
    requires a >= 1 && d > 0
    ensures a * d >= d
  {
  }
}
