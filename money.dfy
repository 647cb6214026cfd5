/** Prices. The product manager stores `round(float(precio), 2)`; here a price is an
    exact rational (`real`) and rounding to two decimals is round-half-to-even on
    that exact value, which is the rule Python's `round` applies. */
module Money {

  /** `x` is a whole number of cents. */
  predicate IsCents(x: real) {
    (x * 100.0).Floor as real == x * 100.0
  }

  /** The nearest whole number of cents to `p`; a tie goes to the even count. */
  function CentsOf(p: real): (n: int)
    ensures -1.0 <= 2.0 * (n as real - p * 100.0) <= 1.0
    ensures 2.0 * (n as real - p * 100.0) == 1.0 ==> n % 2 == 0
    ensures 2.0 * (n as real - p * 100.0) == -1.0 ==> n % 2 == 0
  {
    var scaled := p * 100.0;
    var f := scaled.Floor;
    var frac := scaled - f as real;
    if frac > 0.5 then f + 1
    else if frac < 0.5 then f
    else if f % 2 == 0 then f
    else f + 1
  }

  /** Python's `round(p, 2)`: a whole number of cents, at most half a cent away
      from `p`, never negative for a non-negative `p`, and `p` itself when `p`
      already is a whole number of cents. */
  function RoundCents(p: real): (r: real)
    ensures r * 100.0 == CentsOf(p) as real
    ensures IsCents(r)
    ensures -0.005 <= r - p <= 0.005
    ensures p >= 0.0 ==> r >= 0.0
    ensures IsCents(p) ==> r == p
  {
    var n := CentsOf(p);
    var r := n as real / 100.0;
    assert r * 100.0 == n as real;
    assert (n as real).Floor == n;
    assert IsCents(p) ==> n as real == p * 100.0 by {
      if IsCents(p) {
        assert (p * 100.0).Floor as real == p * 100.0;
      }
    }
    r
  }

  /** Rounding to cents twice is rounding once. */
  lemma RoundCentsIdempotent(p: real)
    ensures RoundCents(RoundCents(p)) == RoundCents(p)
  {
  }

  /** The price of the rounding example: 1234.567 is stored as 1234.57. */
  lemma RoundCentsExample()
    ensures RoundCents(1234.567) == 1234.57
  {
    assert (1234.567 * 100.0).Floor == 123456;
  }
}
