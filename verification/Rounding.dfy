/** Rounding to three decimals as the API does. */
module Rounding {

  /** The nearest integer, with a tie toward positive infinity. */
  function MathRound(x: real): int {
    if x - x.Floor as real >= 0.5 then x.Floor + 1 else x.Floor
  }

  function Round3(x: real): real {
    MathRound(x * 1000.0) as real / 1000.0
  }

  /** A price on the grid of 0.001. */
  ghost predicate OnGrid(x: real) {
    (x * 1000.0).Floor as real == x * 1000.0
  }

  lemma RoundIsNearest(x: real)
    ensures -0.5 < MathRound(x) as real - x <= 0.5
  {
  }

  lemma RoundMonotone(x: real, y: real)
    requires x <= y
    ensures MathRound(x) <= MathRound(y)
  {
    if x.Floor == y.Floor {
    } else {
      assert x.Floor + 1 <= y.Floor;
    }
  }

  /** Rounding keeps order, so a bound stays a bound. */
  lemma Round3Monotone(x: real, y: real)
    requires x <= y
    ensures Round3(x) <= Round3(y)
  {
    RoundMonotone(x * 1000.0, y * 1000.0);
  }

  /** Rounding moves a price by at most half of 0.001. */
  lemma Round3IsNear(x: real)
    ensures -0.0005 < Round3(x) - x <= 0.0005
  {
    RoundIsNearest(x * 1000.0);
  }

  lemma Round3OnGrid(x: real)
    ensures Round3(x) == x <==> OnGrid(x)
  {
    var m := MathRound(x * 1000.0);
    if Round3(x) == x {
      assert m as real == x * 1000.0;
      assert (m as real).Floor == m;
    }
  }
}
