/** Quotient and remainder are the only ones there are. */
module Division {

  lemma DivModUnique(n: nat, d: nat, q: nat, r: nat)
    requires d > 0 && r < d && n == q * d + r
    ensures n / d == q && n % d == r
  {
    var q1, r1 := n / d, n % d;
    assert q1 * d + r1 == n;
    if q1 < q {
      MulStep(q1, q, d);
    } else if q1 > q {
      MulStep(q, q1, d);
    }
  }

  lemma MulStep(a: nat, b: nat, d: nat)
    requires a < b
    ensures a * d + d <= b * d
  {
    var k := b - a - 1;
    assert b * d == (a + 1 + k) * d == a * d + d + k * d;
  }
}
