/** Division with remainder. */
module Division {

  lemma MultipleDivides(q: nat, n: nat)
    requires n > 0
    ensures (q * n) / n == q
  {
    RemainderIsUnique(n, (q * n) / n, (q * n) % n, q, 0);
  }

  lemma RemainderIsUnique(n: nat, q1: nat, r1: nat, q2: nat, r2: nat)
    requires n > 0 && r1 < n && r2 < n
    requires q1 * n + r1 == q2 * n + r2
    ensures q1 == q2 && r1 == r2
  {
    if q1 < q2 {
      MultiplesAreApart(n, q1, q2);
    } else if q2 < q1 {
      MultiplesAreApart(n, q2, q1);
    }
  }

  lemma {:induction false} MultiplesAreApart(n: nat, small: nat, large: nat)
    requires small < large
    ensures large * n >= small * n + n
    decreases large
  {
    assert large * n == (large - 1) * n + n;
    if small < large - 1 {
      MultiplesAreApart(n, small, large - 1);
    }
  }

  lemma DivisionIsUnique(n: nat, d: nat, q: nat, r: nat)
    requires d > 0 && n == q * d + r && r < d
    ensures n / d == q && n % d == r
  {
    RemainderIsUnique(d, n / d, n % d, q, r);
  }

  /** The largest multiple up to a number. */
  lemma MultipleBelow(n: nat, d: nat)
    requires d > 0
    ensures n / d * d <= n < n / d * d + d
  {
    assert n == n / d * d + n % d;
  }

  /** Between two multiples the quotient stays the same. */
  lemma QuotientIsStable(n: nat, d: nat)
    requires d > 0 && (n + 1) % d != 0
    ensures (n + 1) / d == n / d
  {
    var q, r := n / d, n % d;
    assert n == q * d + r;
    if r + 1 == d {
      assert n + 1 == (q + 1) * d;
      DivisionIsUnique(n + 1, d, q + 1, 0);
    } else {
      DivisionIsUnique(n + 1, d, q, r + 1);
    }
  }
}
