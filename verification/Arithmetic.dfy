/** Facts about quotients and remainders that the verifier does not find by itself. */
module Arithmetic {
  lemma Times(d: int, p: nat)
    ensures d >= 1 ==> d * p >= p
    ensures d <= -1 ==> d * p <= -(p as int)
  {
  }

  /** Quotient and remainder are unique. */
  lemma Remainder(q: int, p: nat, m: nat, x: int)
    requires m < p && x == q * p + m
    ensures x / p == q && x % p == m
  {
    var d := x / p - q;
    assert x == (x / p) * p + x % p;
    assert d * p == (x / p) * p - q * p;
    Times(d, p);
  }

  lemma NextRemainder(n: nat, p: nat)
    requires p > 0
    ensures (n + 1) % p == if n % p == p - 1 then 0 else n % p + 1
    ensures (n + 1) / p == if n % p == p - 1 then n / p + 1 else n / p
  {
    var q, m := n / p, n % p;
    assert n == q * p + m;
    if m == p - 1 {
      assert n + 1 == (q + 1) * p;
      Remainder(q + 1, p, 0, n + 1);
    } else {
      Remainder(q, p, m + 1, n + 1);
    }
  }

  lemma Monotone(q: int, p: int, b: nat)
    ensures q >= p ==> q * b >= p * b
  {
    if q >= p {
      assert (q - p) * b >= 0;
    }
  }
}
