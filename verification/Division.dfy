/** Quotients and remainders of a sum. */
module Division {

  lemma DivPlus(m: nat, l: nat)
    requires l >= 1
    ensures (m + l) / l == m / l + 1
  {
    var q, r := m / l, m % l;
    assert m == q * l + r;
    assert m + l == (q + 1) * l + r;
    Quotient(m + l, l, q + 1, r);
  }

  lemma Quotient(m: nat, l: nat, q: nat, r: nat)
    requires l >= 1 && m == q * l + r && r < l
    ensures m / l == q
  {
    var d: int := m / l - q;
    assert d * l == (m / l) * l - q * l;
    assert -(l as int) < d * l < l;
  }

  lemma SmallQuotient(m: nat, l: nat)
    requires m < l
    ensures m / l == 0
  {}

  lemma ModPlus(x: nat, l: nat)
    requires x < l
    ensures (x + l) % l == x
  {
    DivPlus(x, l);
    SmallQuotient(x, l);
    assert x + l == (x + l) / l * l + (x + l) % l;
  }
}
