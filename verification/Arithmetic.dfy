/** Facts about products, quotients and remainders. */
module Arithmetic {
  /** A quotient and remainder determine each other. */
  lemma DivisionUnique(x: nat, a: nat, q: nat, r: nat)
    requires r < a && x == q * a + r
    ensures x / a == q && x % a == r
  {
    var d := q - x / a;
    assert d * a == x % a - r by {
      assert x == x / a * a + x % a;
      assert d * a == q * a - x / a * a;
    }
    ProductSign(d, a);
  }

  lemma ProductSign(d: int, a: nat)
    ensures d >= 1 ==> d * a >= a
    ensures d <= -1 ==> d * a + a <= 0
    ensures d == 0 ==> d * a == 0
  {
    if d >= 1 {
      assert (d - 1) * a >= 0;
    } else if d <= -1 {
      assert (d + 1) * a <= 0;
    }
  }
}
