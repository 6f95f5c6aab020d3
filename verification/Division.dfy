/** Facts about quotients and remainders that the solver does not see for itself. */
module Division {
  lemma Scales(a: int, b: int, unit: nat)
    requires a <= b
    ensures a * unit <= b * unit
  {
  }

  lemma Regroup(k: int, units: int, unit: int)
    ensures k * (units * unit) == k * units * unit
  {
  }

  lemma OneMore(a: int, unit: int)
    ensures (a + 1) * unit == a * unit + unit
  {
  }

  lemma Distributes(a: int, b: int, unit: int)
    ensures (a + b) * unit == a * unit + b * unit
  {
  }

  lemma QuotientIsUnique(q: int, r: int, p: int, s: int, unit: nat)
    requires 0 <= r < unit && 0 <= s < unit && q * unit + r == p * unit + s
    ensures q == p && r == s
  {
    OneMore(q, unit);
    OneMore(p, unit);
    if q < p { Scales(q + 1, p, unit); }
    if p < q { Scales(p + 1, q, unit); }
  }

  lemma QuotientAndRest(q: int, r: int, unit: nat)
    requires 0 <= r < unit
    ensures (q * unit + r) / unit == q && (q * unit + r) % unit == r
  {
    var n := q * unit + r;
    assert n == n / unit * unit + n % unit;
    QuotientIsUnique(q, r, n / unit, n % unit, unit);
  }

  lemma QuotientIsNatural(n: nat, unit: nat)
    requires unit > 0
    ensures n / unit >= 0
  {
  }

  /** Whole units added leave the rest. */
  lemma WholeUnits(k: int, rest: int, unit: nat)
    requires unit > 0
    ensures (k * unit + rest) % unit == rest % unit
  {
    var q, r := rest / unit, rest % unit;
    Distributes(k, q, unit);
    QuotientAndRest(k + q, r, unit);
  }

  lemma RestOfSum(a: int, b: int, unit: nat)
    requires unit > 0
    ensures (a % unit + b) % unit == (a + b) % unit
  {
    WholeUnits(a / unit, a % unit + b, unit);
  }

  /** A rest of several units has the same rest of one. */
  lemma RestOfRest(n: int, units: nat, unit: nat)
    requires unit > 0 && units > 0
    ensures n % (units * unit) % unit == n % unit
  {
    var k := n / (units * unit);
    Regroup(k, units, unit);
    assert n == k * units * unit + n % (units * unit);
    WholeUnits(k * units, n % (units * unit), unit);
  }

  lemma RoundsDown(n: nat, unit: nat, units: nat)
    requires unit > 0 && n < units * unit
    ensures n / unit < units && n / unit * unit == n - n % unit
  {
  }
}
