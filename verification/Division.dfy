/** Quotients and remainders, stated so that the solver does not have to search. */
module Division {

  lemma SmallMod(i: nat, d: nat)
    requires i < d
    ensures i % d == i && i / d == 0
  {
  }

  lemma MulAtLeast(d: nat, q: nat)
    requires 1 <= q
    ensures d * q >= d
  {
    if q > 1 { MulAtLeast(d, q - 1); assert d * q == d * (q - 1) + d; }
  }

  /** Quotient and remainder are the only pair with these two properties. */
  lemma DivModUnique(a: int, d: nat, q: int, r: nat)
    requires r < d && a == d * q + r
    ensures a / d == q && a % d == r
  {
    var q', r' := a / d, a % d;
    assert a == d * q' + r';
    assert d * (q - q') == d * q - d * q';
    assert d * (q' - q) == d * q' - d * q;
    if q > q' {
      MulAtLeast(d, q - q');
    } else if q < q' {
      MulAtLeast(d, q' - q);
    }
  }

  lemma ModPhase(i: int, d: nat)
    requires 0 < d
    ensures (i - d) % d == i % d
  {
    var q, r := i / d, i % d;
    assert i == d * q + r;
    assert d * (q - 1) == d * q - d;
    DivModUnique(i - d, d, q - 1, r);
  }

  lemma ModMultiple(a: int, d: nat, q: int)
    requires 0 < d
    ensures (a + d * q) % d == a % d
  {
    var k, r := a / d, a % d;
    assert d * (k + q) == d * k + d * q;
    DivModUnique(a + d * q, d, k + q, r);
  }

  /** A multiple grows with its factor. */
  lemma MulGap(d: nat, a: int, b: int, g: int)
    requires b >= a + g
    ensures d * b >= d * a + d * g
  {
    var c: nat := b - a - g;
    assert d * b == d * (a + g + c);
    assert d * (a + g + c) == d * a + d * g + d * c;
    assert d * c >= 0;
  }
}
