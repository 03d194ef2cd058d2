/** Vectors of 64-bit counters, which wrap around. */
module Counters {

  const MODULUS := 0x1_0000_0000_0000_0000

  type U64 = x: int | 0 <= x < MODULUS

  /** One value per statistic. */
  type Stat = seq<U64>

  function Zero(n: nat): (r: Stat)
    ensures |r| == n
  {
    seq(n, _ => 0)
  }

  ghost function Plus(a: Stat, b: Stat): (r: Stat)
    requires |a| == |b|
    ensures |r| == |a|
  {
    seq(|a|, i requires 0 <= i < |a| => (a[i] + b[i]) % MODULUS)
  }

  ghost function Minus(a: Stat, b: Stat): (r: Stat)
    requires |a| == |b|
    ensures |r| == |a|
  {
    seq(|a|, i requires 0 <= i < |a| => (a[i] - b[i]) % MODULUS)
  }

  lemma ModAdd(x: int, y: int)
    ensures (x % MODULUS + y % MODULUS) % MODULUS == (x + y) % MODULUS
    ensures (x % MODULUS + y) % MODULUS == (x + y) % MODULUS
    ensures (x + y % MODULUS) % MODULUS == (x + y) % MODULUS
  {
  }

  /** The sum in a 64-bit register. */
  predicate AddsUp(x: int, y: int, sum: int) {
    (x + y) % 0x1_0000_0000_0000_0000 == sum
  }

  /** The vector `d` is what leads from `a` to `b`, statistic by statistic and around the top of the range. */
  ghost predicate Gained(d: Stat, a: Stat, b: Stat) {
    |d| == |a| == |b| && forall i | 0 <= i < |a| :: AddsUp(d[i], a[i], b[i])
  }

  /** What Minus is for, and that only one vector will do. */
  lemma MinusIsGained(a: Stat, b: Stat, d: Stat)
    requires |a| == |b|
    ensures Gained(Minus(b, a), a, b)
    ensures Gained(d, a, b) ==> d == Minus(b, a)
  {
    forall i | 0 <= i < |a| ensures AddsUp(Minus(b, a)[i], a[i], b[i]) {
      var x: int, y: int := a[i], b[i];
      ModAdd(y - x, x);
    }
    if Gained(d, a, b) {
      forall i | 0 <= i < |a| ensures d[i] == Minus(b, a)[i] {
        assert AddsUp(d[i], a[i], b[i]);
      }
      assert d == Minus(b, a);
    }
  }

  lemma PlusIsGained(a: Stat, d: Stat)
    requires |a| == |d|
    ensures Gained(d, a, Plus(a, d)) && Gained(a, d, Plus(a, d))
  {
  }

  /** Sums grow together. */
  lemma GainedMore(a: Stat, b: Stat, sum: Stat, more: Stat)
    requires Gained(a, b, sum) && |more| == |a|
    ensures Gained(a, Plus(b, more), Plus(sum, more)) && Gained(Plus(b, more), a, Plus(sum, more))
  {
    forall i | 0 <= i < |a| ensures AddsUp(a[i], Plus(b, more)[i], Plus(sum, more)[i]) {
      assert AddsUp(a[i], b[i], sum[i]);
      ModAssociates(a[i], b[i], more[i]);
    }
  }

  /** Two steps of a telescoping sum. */
  lemma MinusThenMinus(a: Stat, b: Stat, c: Stat)
    requires |a| == |b| == |c|
    ensures Plus(Minus(b, a), Minus(c, b)) == Minus(c, a)
  {
    forall i | 0 <= i < |a|
      ensures Plus(Minus(b, a), Minus(c, b))[i] == Minus(c, a)[i]
    {
      var x: int, y: int, z: int := a[i], b[i], c[i];
      ModAdd(y - x, z - y);
    }
  }

  lemma MinusSelf(a: Stat)
    ensures Minus(a, a) == Zero(|a|)
  {
  }

  lemma PlusZero(a: Stat)
    ensures Plus(a, Zero(|a|)) == a && Plus(Zero(|a|), a) == a
  {
  }

  lemma PlusAssociates(a: Stat, b: Stat, c: Stat)
    requires |a| == |b| == |c|
    ensures Plus(Plus(a, b), c) == Plus(a, Plus(b, c))
  {
    forall i | 0 <= i < |a|
      ensures Plus(Plus(a, b), c)[i] == Plus(a, Plus(b, c))[i]
    {
      ModAssociates(a[i], b[i], c[i]);
    }
  }

  lemma ModAssociates(x: int, y: int, z: int)
    ensures ((x + y) % MODULUS + z) % MODULUS == (x + (y + z) % MODULUS) % MODULUS
  {
    ModAdd(x + y, z);
    ModAdd(x, y + z);
  }

  lemma PlusCommutes(a: Stat, b: Stat)
    requires |a| == |b|
    ensures Plus(a, b) == Plus(b, a)
  {
  }
}
