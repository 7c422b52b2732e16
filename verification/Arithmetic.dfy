/** Truncation, and quotients and remainders by a variable divisor. */
module Arithmetic {
  /** The conversion (int) x of C: towards zero. */
  function Truncate(x: real): int {
    if x >= 0.0 then x.Floor else -((-x).Floor)
  }

  lemma TimesAtLeast(k: int, m: int)
    requires m >= 0
    ensures k >= 1 ==> k * m >= m
    ensures k <= -1 ==> k * m <= -m
  {}

  /** Quotient and remainder are unique. */
  lemma DivisionUnique(a: int, m: int, q: int, r: int)
    requires 0 <= r < m && a == q * m + r
    ensures a / m == q && a % m == r
  {
    var k := q - a / m;
    assert k * m == q * m - a / m * m;
    TimesAtLeast(k, m);
  }

  /** Adding multiples of the divisor keeps the remainder. */
  lemma SameRemainder(a: int, b: int, q: int, m: int)
    requires m > 0 && a == b + q * m
    ensures a % m == b % m
  {
    assert b == b / m * m + b % m;
    assert (b / m + q) * m == b / m * m + q * m;
    DivisionUnique(a, m, b / m + q, b % m);
  }
}
