/** Facts about products, quotients and remainders with a variable divisor. */
module Arithmetic {

  lemma ProductPastFactor(c: int, d: int)
    requires c >= 1
    ensures d >= 1 ==> c * d >= c
    ensures d <= -1 ==> c * d <= -c
  {
    if d >= 1 {
      assert c * (d - 1) >= 0;
    } else if d <= -1 {
      assert c * (d + 1) <= 0;
    }
  }

  /** Quotient and remainder are determined by their defining equation. */
  lemma DivModUnique(x: int, c: int, q: int, r: int)
    requires c >= 1 && x == q * c + r && 0 <= r < c
    ensures x / c == q && x % c == r
  {
    var d := q - x / c;
    assert c * d == q * c - c * (x / c);
    assert c * d == x % c - r;
    ProductPastFactor(c, d);
  }

  /** Rounding down to a multiple of c. */
  lemma RoundDown(x: int, c: int)
    requires c >= 1
    ensures (x - x % c) % c == 0
    ensures (x - x % c + c) % c == 0
    ensures x - x % c <= x < x - x % c + c
  {
    var q := x / c;
    assert x - x % c == q * c;
    assert q * c + c == (q + 1) * c;
    DivModUnique(q * c, c, q, 0);
    DivModUnique(q * c + c, c, q + 1, 0);
  }

  /** The quotient grows at multiples of the divisor. */
  lemma NextQuotient(x: int, c: int)
    requires c >= 2
    ensures (x + 1) / c == x / c + if (x + 1) % c == 0 then 1 else 0
  {
    var q, r := x / c, x % c;
    if r + 1 < c {
      DivModUnique(x + 1, c, q, r + 1);
    } else {
      assert (q + 1) * c == q * c + c;
      DivModUnique(x + 1, c, q + 1, 0);
    }
  }
}
