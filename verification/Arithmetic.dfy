/** Division by a number that is not a literal. */
module Arithmetic {

  lemma {:induction false} MulOrder(a: int, b: int, p: nat)
    ensures a < b ==> a * p + p <= b * p
    decreases b - a
  {
    if a + 1 < b {
      MulOrder(a, b - 1, p);
      assert b * p == (b - 1) * p + p;
    } else if a < b {
      assert b * p == a * p + p;
    }
  }

  /** Quotient and remainder are the only ones. */
  lemma QuotientIs(x: nat, p: nat, q: nat, r: nat)
    requires x == q * p + r && r < p
    ensures x / p == q && x % p == r
  {
    var d := x / p;
    assert x == d * p + x % p;
    MulOrder(d, q, p);
    MulOrder(q, d, p);
  }
}
