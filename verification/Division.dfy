/** Facts about quotients that the solver does not find by itself. */
module Division {

  lemma MulMonotone(a: int, b: int, u: nat)
    requires a <= b
    ensures a * u <= b * u
  {
  }

  lemma Reassociate(q: nat, p: nat, a: nat)
    ensures (q * p) * a == q * (a * p) == q * (p * a)
  {
  }

  lemma MulStep(a: int, b: int, u: nat)
    ensures a < b ==> a * u + u <= b * u
  {
    if a < b {
      MulMonotone(a + 1, b, u);
    }
    assert (a + 1) * u == a * u + u;
  }

  /** Quotient and remainder are determined by what they make up. */
  lemma DivisionIsUnique(x: nat, u: nat, d: int, e: nat, q: int, m: nat)
    requires x == d * u + e && e < u && x == q * u + m && m < u
    ensures d == q && e == m
  {
    MulStep(d, q, u);
    MulStep(q, d, u);
  }

  lemma QuotientIs(x: nat, u: nat, q: nat, m: nat)
    requires 0 < u && m < u && x == q * u + m
    ensures x / u == q && x % u == m
  {
    DivisionIsUnique(x, u, x / u, x % u, q, m);
  }
}
