/**
 * Integer stand-ins for the floating-point ratios of the calendar views:
 * `Math.round(a / b * 100)` for non-negative whole numbers, with ties
 * rounded upward as `Math.round` does.
 */
module Ratio {

  /**
   * The whole number nearest to `n / m`, a half rounding up. This is
   * `Math.round(n / m)` computed on the exact fraction.
   */
  function RoundDiv(n: nat, m: nat): (r: nat)
    requires m > 0
    ensures m * (2 * r) <= 2 * n + m < m * (2 * r + 2)
  {
    DivBounds(2 * n + m, 2 * m);
    (2 * n + m) / (2 * m)
  }

  /** Floor division brackets its numerator. */
  lemma DivBounds(a: nat, b: nat)
    requires b > 0
    ensures b * (a / b) <= a < b * (a / b + 1)
  {
  }

  /** A strict inequality between positive multiples is one between the factors. */
  lemma MulStrict(m: nat, a: int, b: int)
    requires m > 0 && m * a < m * b
    ensures a < b
  {
  }

  /**
   * `RoundDiv` is at most half away from the fraction, and any whole number
   * with that property (half-way cases counting upward) is `RoundDiv`.
   */
  lemma RoundDivNearest(n: nat, m: nat, r: int)
    requires m > 0
    ensures m * (2 * r - 1) <= 2 * n < m * (2 * r + 1) <==> r == RoundDiv(n, m)
  {
    var q: int := RoundDiv(n, m);
    assert m * (2 * q - 1) <= 2 * n < m * (2 * q + 1) by {
      assert m * (2 * q - 1) == m * (2 * q) - m;
      assert m * (2 * q + 1) == m * (2 * q + 2) - m;
    }
    if m * (2 * r - 1) <= 2 * n < m * (2 * r + 1) {
      MulStrict(m, 2 * r - 1, 2 * q + 1);
      MulStrict(m, 2 * q - 1, 2 * r + 1);
    }
  }

  /**
   * `Math.round(part / whole * 100)`, the percentage shown for a ratio: the
   * whole number within half a unit of `100 * part / whole`, halves going
   * up, and at most 100 when the part is no larger than the whole.
   */
  function Percent(part: nat, whole: nat): (r: nat)
    requires whole > 0
    ensures whole * (2 * r - 1) <= 200 * part < whole * (2 * r + 1)
    ensures part <= whole ==> r <= 100
  {
    var r := RoundDiv(100 * part, whole);
    RoundDivNearest(100 * part, whole, r);
    if part <= whole then
      MulStrict(whole, 2 * r, 202);
      r
    else r
  }

  /**
   * A part no larger than the whole shows at most 100%, and the figure
   * shows 0% exactly when the part is under half a percent of the whole.
   */
  lemma PercentRange(part: nat, whole: nat)
    requires whole > 0
    ensures part <= whole ==> Percent(part, whole) <= 100
    ensures Percent(part, whole) == 0 <==> 200 * part < whole
  {
    var r := Percent(part, whole);
    if 200 * part < whole {
      MulStrict(whole, 2 * r, 2);
    }
  }
}
