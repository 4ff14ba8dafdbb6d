/** Small facts about multiplication and truncating division of naturals. */
module Arith {

  lemma MulMonotone(d: nat, x: int, y: int)
    requires x <= y
    ensures d * x <= d * y
  {
    assert d * y - d * x == d * (y - x);
  }

  /** One more copy of k: `c * k == (c - 1) * k + k`. */
  lemma MulSucc(c: nat, k: nat)
    requires c >= 1
    ensures c * k == (c - 1) * k + k
  {
  }

  lemma MulCancel(d: nat, x: int, y: int)
    requires d > 0 && d * x < d * y
    ensures x < y
  {
    if x >= y {
      MulMonotone(d, y, x);
    }
  }

  /** The quotient `a / d` is the one q with `d * q <= a < d * q + d`. */
  lemma DivUnique(a: nat, d: nat, q: int)
    requires d > 0 && d * q <= a < d * q + d
    ensures a / d == q
  {
    var q' := a / d;
    assert a == d * q' + a % d;
    assert d * q < d * (q' + 1);
    MulCancel(d, q, q' + 1);
    assert d * q' < d * (q + 1);
    MulCancel(d, q', q + 1);
  }

  lemma DivMonotone(a: nat, b: nat, d: nat)
    requires d > 0 && a <= b
    ensures a / d <= b / d
  {
    var qa, qb := a / d, b / d;
    assert a == d * qa + a % d;
    assert b == d * qb + b % d;
    assert d * qa < d * (qb + 1);
    MulCancel(d, qa, qb + 1);
  }

  lemma QuotientBracket(a: nat, d: nat)
    requires d > 0
    ensures d * (a / d) <= a < d * (a / d) + d
  {
    assert a == d * (a / d) + a % d;
  }

  /** `a <= d * c` gives `a / d <= c`. */
  lemma DivAtMost(a: nat, d: nat, c: nat)
    requires d > 0 && a <= d * c
    ensures a / d <= c
  {
    QuotientBracket(a, d);
    assert d * (a / d) < d * (c + 1);
    MulCancel(d, a / d, c + 1);
  }

  /** `a < d * c` gives `a / d < c`. */
  lemma DivBelow(a: nat, d: nat, c: nat)
    requires d > 0 && a < d * c
    ensures a / d < c
  {
    QuotientBracket(a, d);
    MulCancel(d, a / d, c);
  }

  /** The truncated quotient a / d, characterised by its bracket. */
  function Quotient(a: nat, d: nat): (q: nat)
    requires d > 0
    ensures q * d <= a < (q + 1) * d
  {
    QuotientBracket(a, d);
    a / d
  }
}
