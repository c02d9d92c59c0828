/** Two-decimal rounding of exact amounts.
    Python's `round(Decimal, 2)` quantizes to hundredths under the default
    Decimal context, whose rounding mode is ROUND_HALF_EVEN: the nearest
    hundredth, and on an exact tie the hundredth with an even last digit. */
module Money {

  /** The number of hundredths `round(x, 2)` keeps. */
  function Cents(x: real): (n: int)
    ensures n as real - x * 100.0 <= 0.5
    ensures x * 100.0 - n as real <= 0.5
    ensures n as real - x * 100.0 == 0.5 ==> n % 2 == 0
    ensures x * 100.0 - n as real == 0.5 ==> n % 2 == 0
  {
    var f := (x * 100.0).Floor;
    var frac := x * 100.0 - f as real;
    if frac < 0.5 then f
    else if frac > 0.5 then f + 1
    else if f % 2 == 0 then f
    else f + 1
  }

  /** `round(x, 2)`: a whole number of cents, at most half a cent from `x`. */
  function Round2(x: real): (r: real)
    ensures (r * 100.0).Floor as real == r * 100.0
    ensures r - x <= 0.005 && x - r <= 0.005
  {
    Cents(x) as real / 100.0
  }

  /** An amount already on the cent grid is left unchanged. */
  predicate OnCentGrid(x: real)
  {
    (x * 100.0).Floor as real == x * 100.0
  }

  /** Any whole number of hundredths strictly closer than half a cent is the
      rounding result; only ties need the half-even rule. */
  lemma Round2Unique(x: real, n: int)
    requires n as real - x * 100.0 < 0.5 && x * 100.0 - n as real < 0.5
    ensures Round2(x) == n as real / 100.0
  {
    var c := Cents(x);
    assert c == n;
  }

  /** Rounding an amount that is already whole cents changes nothing, so
      rounding twice is rounding once. */
  lemma Round2OnGrid(x: real)
    requires OnCentGrid(x)
    ensures Round2(x) == x
  {
    Round2Unique(x, (x * 100.0).Floor);
  }

  lemma Round2Idempotent(x: real)
    ensures Round2(Round2(x)) == Round2(x)
  {
    Round2OnGrid(Round2(x));
  }

  /** Rounding never reverses the order of two amounts. */
  lemma Round2Monotone(x: real, y: real)
    requires x <= y
    ensures Round2(x) <= Round2(y)
  {
    var a, b := Cents(x), Cents(y);
    if a > b {
      assert a as real - x * 100.0 <= 0.5;
      assert y * 100.0 - b as real <= 0.5;
      assert a == b + 1 && x == y;
    }
  }

  /** A rounded amount is positive exactly when the exact amount exceeds half
      a cent (half a cent itself rounds to the even 0.00). */
  lemma Round2PositiveIff(x: real)
    ensures Round2(x) > 0.0 <==> x > 0.005
  {
    var c := Cents(x);
    if x > 0.005 {
      assert c >= 1;
    }
  }
}
