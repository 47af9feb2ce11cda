/** Facts about division that several components need. */
module Arithmetic {

  type Positive = x: int | 0 < x witness 1

  lemma DivMod(n: int, x: int, q: int, r: int)
    requires x > 0 && n == q * x + r && 0 <= r < x
    ensures n / x == q && n % x == r
  {
    var d := n / x - q;
    assert (n / x) * x - q * x == d * x;
    assert -x < d * x < x;
    assert d == 0 by { SmallMultiple(d, x); }
  }

  lemma SmallMultiple(d: int, x: int)
    requires x > 0 && -x < d * x < x
    ensures d == 0
  {
    assert d >= 1 ==> d * x >= x;
    assert d <= -1 ==> d * x <= -x;
  }

  lemma MultipleOf(k: int, x: int)
    requires x > 0
    ensures (k * x) / x == k && (k * x) % x == 0
  {
    DivMod(k * x, x, k, 0);
  }

  lemma FactorOrder(a: int, b: int, x: nat)
    requires a * x < b * x
    ensures a < b
  {
    assert b <= a ==> b * x <= a * x;
  }

  lemma DivMonotone(a: int, b: int, x: int)
    requires x > 0 && a <= b
    ensures a / x <= b / x
  {
    var d := b / x - a / x;
    assert (b / x) * x - (a / x) * x == d * x;
    assert d <= -1 ==> d * x <= -x;
  }

  lemma SameQuotient(a: nat, b: nat, x: nat)
    requires x > 0 && a / x == b / x
    ensures b < a + x
  {
    var q := a / x;
    assert a >= q * x && b < q * x + x;
  }

  lemma ProductMonotone(a: int, b: int, x: nat)
    requires a <= b
    ensures a * x <= b * x
  {
  }

  lemma OneMore(a: int, x: int)
    ensures (a + 1) * x == a * x + x
  {
  }
}
