/** The smaller of two numbers, and facts about products and quotients that the solver does not find by itself. */
module Division {

  function Min(a: nat, b: nat): nat {
    if a <= b then a else b
  }

  lemma MulLe(a: nat, b: nat, c: nat)
    requires a <= b
    ensures a * c <= b * c
  {
  }

  lemma DivisionIsUnique(q: nat, r: nat, q': nat, r': nat, d: nat)
    requires r < d && r' < d && q * d + r == q' * d + r'
    ensures q == q' && r == r'
  {
    if q < q' {
      MulLe(q + 1, q', d);
    } else if q' < q {
      MulLe(q' + 1, q, d);
    }
  }

  /** Quotient and remainder are recovered from the dividend. */
  lemma Divide(q: nat, r: nat, d: nat)
    requires r < d
    ensures (q * d + r) / d == q && (q * d + r) % d == r
  {
    DivisionIsUnique(q, r, (q * d + r) / d, (q * d + r) % d, d);
  }
}
