// Quotient and remainder by a variable divisor.
module Division {

  lemma AtLeastOnce(x: int, d: nat)
    ensures x >= 1 ==> x * d >= d
  {
    if x >= 1 {
      assert (x - 1) * d >= 0;
      assert x * d == (x - 1) * d + d;
    }
  }

  /** The quotient and the remainder are the only numbers that decompose x. */
  lemma DivModUnique(x: nat, d: nat, q: nat, r: nat)
    requires d > 0 && x == d * q + r && r < d
    ensures x / d == q && x % d == r
  {
    var k := x / d;
    AtLeastOnce(k - q, d);
    AtLeastOnce(q - k, d);
    assert (k - q) * d == d * k - d * q;
    assert (q - k) * d == d * q - d * k;
  }

  /** Counting modulo m. */
  lemma NextModulo(n: nat, m: nat)
    requires m > 0
    ensures (n + 1) % m == if n % m < m - 1 then n % m + 1 else 0
  {
    var q, r := n / m, n % m;
    assert n == m * q + r;
    if r < m - 1 {
      DivModUnique(n + 1, m, q, r + 1);
    } else {
      assert n + 1 == m * (q + 1);
      DivModUnique(n + 1, m, q + 1, 0);
    }
  }
}
