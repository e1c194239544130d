/**
 * Exact decimal money, as java.math.BigDecimal provides it: amounts are reals,
 * and the only rounding is to two decimals with RoundingMode.HALF_UP.
 */
module Money {

  function Abs(x: real): real { if x < 0.0 then -x else x }

  /** x is a whole number of cents (a BigDecimal value of scale 2 or less). */
  predicate IsCents(x: real) { (x * 100.0).Floor as real == x * 100.0 }

  /**
   * `setScale(2, RoundingMode.HALF_UP)`, and the rounding done by
   * `divide(divisor, 2, RoundingMode.HALF_UP)`: the nearest whole cent, a tie
   * going to the cent farther from zero.
   */
  function Round2HalfUp(x: real): (r: real)
    ensures IsCents(r)
    ensures Abs(r - x) <= 0.005
    ensures Abs(r - x) == 0.005 ==> Abs(r) > Abs(x)
  {
    if x >= 0.0 then
      var f := (x * 100.0 + 0.5).Floor;
      assert f as real / 100.0 * 100.0 == f as real;
      f as real / 100.0
    else
      var f := (-x * 100.0 + 0.5).Floor;
      assert -(f as real / 100.0) * 100.0 == -f as real;
      assert (-f as real).Floor == -f;
      -(f as real / 100.0)
  }

  /** No whole number of cents lies strictly closer to x than Round2HalfUp(x). */
  lemma Round2HalfUpIsNearest(x: real, c: real)
    requires IsCents(c)
    ensures Abs(Round2HalfUp(x) - x) <= Abs(c - x)
  {
    var k := (c * 100.0).Floor;
    assert c == k as real / 100.0;
    var r := Round2HalfUp(x);
    var j := (r * 100.0).Floor;
    assert r == j as real / 100.0;
    // r is within half a cent of x, so any other cent value is at least half a cent away
    if k < j {
      assert c <= r - 0.01;
    } else if k > j {
      assert c >= r + 0.01;
    }
  }

  /** The three facts in Round2HalfUp's contract pin its result down. */
  lemma Round2HalfUpUnique(x: real, c: real)
    requires IsCents(c)
    requires Abs(c - x) <= 0.005
    requires Abs(c - x) == 0.005 ==> Abs(c) > Abs(x)
    ensures c == Round2HalfUp(x)
  {
    var r := Round2HalfUp(x);
    var k := (c * 100.0).Floor;
    var j := (r * 100.0).Floor;
    assert c == k as real / 100.0;
    assert r == j as real / 100.0;
    assert k <= j - 1 || k == j || k >= j + 1;
  }

  /** Rounding an amount that is already whole cents leaves it unchanged. */
  lemma Round2HalfUpOfCents(x: real)
    requires IsCents(x)
    ensures Round2HalfUp(x) == x
  {
    Round2HalfUpUnique(x, x);
  }

  /** `BigDecimal.pow(n)`: exact power with a natural exponent; every power of one is one. */
  function Pow(q: real, n: nat): (p: real)
    ensures q == 1.0 ==> p == 1.0
    ensures q >= 0.0 ==> p >= 0.0
  {
    if n == 0 then 1.0
    else
      var p' := Pow(q, n - 1);
      assert q >= 0.0 ==> q * p' >= 0.0 * p';
      q * p'
  }

  lemma {:induction false} PowAboveOne(q: real, n: nat)
    requires q > 1.0 && n >= 1
    ensures Pow(q, n) > 1.0
  {
    if n > 1 {
      PowAboveOne(q, n - 1);
      assert q * Pow(q, n - 1) > 1.0 * Pow(q, n - 1);
    }
  }

  lemma {:induction false} PowBelowOne(q: real, n: nat)
    requires 0.0 <= q < 1.0 && n >= 1
    ensures 0.0 <= Pow(q, n) < 1.0
  {
    if n > 1 {
      PowBelowOne(q, n - 1);
      assert q * Pow(q, n - 1) <= 1.0 * Pow(q, n - 1);
    }
  }
}
