/** Facts about division and remainder that the solver does not find by itself. */
module Arithmetic {
  lemma SmallMultiple(a: int, d: int)
    requires -d < a * d < d
    ensures a == 0
  {}

  lemma DivModUnique(x: nat, d: nat, q: nat, r: nat)
    requires r < d && x == q * d + r
    ensures x / d == q && x % d == r
  {
    var k := x / d - q;
    assert x == (x / d) * d + x % d;
    assert k * d == r - x % d;
    SmallMultiple(k, d);
  }

  lemma DropMultiple(k: nat, n: nat, a: nat)
    requires n > 0
    ensures (k * n + a) % n == a % n
  {
    var q, r := a / n, a % n;
    assert a == q * n + r;
    assert k * n + a == (k + q) * n + r;
    DivModUnique(k * n + a, n, k + q, r);
  }

  /** Counting up by one moves the quotient exactly at multiples. */
  lemma DivStep(m: nat, n: nat)
    requires n > 0
    ensures (m + 1) / n == m / n + (if (m + 1) % n == 0 then 1 else 0)
  {
    var q, r := m / n, m % n;
    assert m == q * n + r;
    if r + 1 < n {
      DivModUnique(m + 1, n, q, r + 1);
    } else {
      assert (q + 1) * n == q * n + n;
      DivModUnique(m + 1, n, q + 1, 0);
    }
  }
}
