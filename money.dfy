/**
 * Money arithmetic of main.py. Every amount the script stores has been
 * quantized to 0.01, so it is modelled as a whole number of cents (`int`);
 * a raw decimal read from the broker is modelled as an exact `real`, since
 * Python's Decimal arithmetic on these values is exact.
 */
module Money {

  /** BUY_FRACTION: each ticker gets 7% of the current buying power. */
  const BuyFraction: real := 0.07

  /** The dollar value of a whole number of cents. */
  function Dollars(cents: int): real
  {
    cents as real / 100.0
  }

  /**
   * decimal_usd: quantize to 0.01 with ROUND_DOWN, which rounds toward zero.
   * The result lies between zero and `x` and less than one cent from `x`.
   */
  function TruncCents(x: real): (c: int)
    ensures 0.0 <= x ==> 0.0 <= Dollars(c) <= x && x - Dollars(c) < 0.01
    ensures x < 0.0 ==> x <= Dollars(c) <= 0.0 && Dollars(c) - x < 0.01
  {
    if x >= 0.0 then (x * 100.0).Floor else -((-x * 100.0).Floor)
  }

  /** The bounds in TruncCents's contract single out its result. */
  lemma TruncCentsUnique(x: real, k: int)
    requires 0.0 <= x ==> 0.0 <= Dollars(k) <= x && x - Dollars(k) < 0.01
    requires x < 0.0 ==> x <= Dollars(k) <= 0.0 && Dollars(k) - x < 0.01
    ensures k == TruncCents(x)
  {
    var c := TruncCents(x);
    assert (k - c) as real < 1.0 && (c - k) as real < 1.0;
  }

  /** Truncating an amount that is already a whole number of cents returns it unchanged. */
  lemma TruncCentsIdempotent(c: int)
    ensures TruncCents(Dollars(c)) == c
  {
    TruncCentsUnique(Dollars(c), c);
  }

  /** Truncation toward zero never moves an amount across another amount's truncation. */
  lemma TruncCentsMonotone(x: real, y: real)
    requires x <= y
    ensures TruncCents(x) <= TruncCents(y)
  {
  }

  /**
   * The notional of one buy: 7% of the (already truncated) buying power,
   * truncated toward zero to the cent.
   */
  function NotionalCents(buyingPower: int): (n: int)
    ensures 0 <= buyingPower ==> 0 <= n && Dollars(n) <= Dollars(buyingPower) * BuyFraction
    ensures 0 <= buyingPower ==> Dollars(buyingPower) * BuyFraction < Dollars(n) + 0.01
    ensures buyingPower < 0 ==> n <= 0
  {
    TruncCents(Dollars(buyingPower) * BuyFraction)
  }

  /**
   * The notional in whole-cent integer arithmetic: 7 * cents divided by 100,
   * with the quotient truncated toward zero.
   */
  lemma NotionalIntegerForm(buyingPower: int)
    ensures NotionalCents(buyingPower) ==
      if buyingPower >= 0 then buyingPower * 7 / 100 else -((-buyingPower) * 7 / 100)
  {
    var x := Dollars(buyingPower) * BuyFraction;
    assert x == (buyingPower * 7) as real / 10000.0;
    if buyingPower >= 0 {
      var k := buyingPower * 7 / 100;
      assert 100 * k <= buyingPower * 7 < 100 * k + 100;
      assert (100 * k) as real <= (buyingPower * 7) as real < (100 * k + 100) as real;
      TruncCentsUnique(x, k);
    } else {
      var k := (-buyingPower) * 7 / 100;
      assert 100 * k <= (-buyingPower) * 7 < 100 * k + 100;
      assert (100 * k) as real <= ((-buyingPower) * 7) as real < (100 * k + 100) as real;
      TruncCentsUnique(x, -k);
    }
  }

  /** More buying power never yields a smaller notional. */
  lemma NotionalMonotone(a: int, b: int)
    requires a <= b
    ensures NotionalCents(a) <= NotionalCents(b)
  {
    TruncCentsMonotone(Dollars(a) * BuyFraction, Dollars(b) * BuyFraction);
  }
}
