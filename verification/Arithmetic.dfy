// Machine words, and division facts the solver needs spelled out.
module Arithmetic {
  /** What a 64-bit word wraps at. */
  const MODULUS_64: nat := 0x1_0000_0000_0000_0000

  lemma Multiples(p: nat, a: nat, b: nat)
    ensures a < b ==> p * a + p <= p * b
  {
    if a + 1 < b { Multiples(p, a, b - 1); }
    assert b > 0 ==> p * b == p * (b - 1) + p;
  }

  lemma Quotient(n: nat, p: nat, q: nat, r: nat)
    requires r < p && n == p * q + r
    ensures n / p == q && n % p == r
  {
    var d := n / p;
    assert p * d <= n < p * d + p;
    Multiples(p, q, d);
    Multiples(p, d, q);
  }
}
