/** Division facts that several of the codecs need. */
module Arithmetic {

  /** Quotient and remainder are determined by what they mean. */
  lemma DivModUnique(n: int, d: int, q: int, r: int)
    requires 0 <= r < d && n == q * d + r
    ensures n / d == q && n % d == r
  {
    var k := n / d - q;
    assert k * d == r - n % d;
    assert k >= 1 ==> k * d >= d;
    assert k <= -1 ==> k * d <= -d;
  }

  /** Dividing by a product is dividing twice. */
  lemma DivTwice(n: nat, a: nat, b: nat)
    requires a > 0 && b > 0
    ensures a * b > 0 && n / (a * b) == n / a / b
  {
    var q, r := n / a, n % a;
    var p, s := q / b, q % b;
    assert n == p * (a * b) + (s * a + r);
    assert s * a + r < a * b by {
      assert s + 1 <= b;
      assert (s + 1) * a <= b * a;
    }
    assert a * b > 0;
    DivModUnique(n, a * b, p, s * a + r);
  }
}
