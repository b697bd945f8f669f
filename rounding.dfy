/**
 * PHP's `round(x, 2)` and JavaScript's `toFixed(2)` on exact rationals: round half away
 * from zero to hundredths, and the attendance percentage built from it.
 */
module Rounding {

  /** Hundredths of x, rounded half away from zero. */
  function Cents(x: real): (c: int)
    ensures x >= 0.0 ==> c >= 0 && x * 100.0 - 0.5 < c as real <= x * 100.0 + 0.5
    ensures x < 0.0 ==> c <= 0 && x * 100.0 - 0.5 <= c as real < x * 100.0 + 0.5
  {
    if x >= 0.0 then (x * 100.0 + 0.5).Floor else -((-x) * 100.0 + 0.5).Floor
  }

  /** `round(x, 2)`: the nearest multiple of 0.01, halves away from zero. */
  function RoundTo2(x: real): (r: real)
    ensures x - 0.005 <= r <= x + 0.005
    ensures x >= 0.0 ==> r >= 0.0
  {
    Cents(x) as real / 100.0
  }

  /** Rounding is monotone, so bounds on the exact value carry over to the rounded one. */
  lemma RoundTo2Monotone(x: real, y: real)
    requires 0.0 <= x <= y
    ensures RoundTo2(x) <= RoundTo2(y)
  {
    assert (x * 100.0 + 0.5).Floor <= (y * 100.0 + 0.5).Floor;
  }

  /** A value already on the hundredths grid is left as it is. */
  lemma RoundTo2OfCents(c: int)
    ensures RoundTo2(c as real / 100.0) == c as real / 100.0
  {
    var x := c as real / 100.0;
    if c >= 0 {
      assert x * 100.0 + 0.5 == c as real + 0.5;
      FloorOfHalf(c);
    } else {
      assert (-x) * 100.0 + 0.5 == (-c) as real + 0.5;
      FloorOfHalf(-c);
    }
  }

  lemma FloorOfHalf(c: int)
    ensures (c as real + 0.5).Floor == c
  {
  }

  lemma RoundTo2Idempotent(x: real)
    ensures RoundTo2(RoundTo2(x)) == RoundTo2(x)
  {
    RoundTo2OfCents(Cents(x));
  }

  lemma RoundTo2Within(x: real, lo: int, hi: int)
    requires 0 <= lo && lo as real <= x <= hi as real
    ensures lo as real <= RoundTo2(x) <= hi as real
  {
    RoundTo2Monotone(lo as real, x);
    RoundTo2Monotone(x, hi as real);
    RoundTo2OfCents(lo * 100);
    RoundTo2OfCents(hi * 100);
    assert (lo * 100) as real / 100.0 == lo as real;
    assert (hi * 100) as real / 100.0 == hi as real;
  }

  /** `total > 0 ? round(part / total * 100, 2) : 0`, the percentage used throughout the system. */
  function Percentage(part: nat, total: nat): (p: real)
    ensures total == 0 ==> p == 0.0
    ensures total > 0 ==> part as real / total as real * 100.0 - 0.005 <= p <= part as real / total as real * 100.0 + 0.005
  {
    if total > 0 then RoundTo2(part as real / total as real * 100.0) else 0.0
  }

  /** A share of at most the whole is a percentage between 0 and 100. */
  lemma PercentageBounds(part: nat, total: nat)
    requires part <= total
    ensures 0.0 <= Percentage(part, total) <= 100.0
  {
    if total > 0 {
      var x := part as real / total as real * 100.0;
      assert part as real / total as real <= 1.0;
      RoundTo2Within(x, 0, 100);
    }
  }

  /** Everyone present gives 100, nobody present gives 0. */
  lemma PercentageExtremes(total: nat)
    requires total > 0
    ensures Percentage(total, total) == 100.0 && Percentage(0, total) == 0.0
  {
    RoundTo2OfCents(10000);
    RoundTo2OfCents(0);
    assert total as real / total as real * 100.0 == 10000 as real / 100.0;
    assert 0 as real / total as real * 100.0 == 0 as real / 100.0;
  }

  /** The worked examples: 2 present of 4 gives 50, 4 of 5 gives 80, 3 of 5 gives 60. */
  lemma PercentageExamples()
    ensures Percentage(2, 4) == 50.0
    ensures Percentage(4, 5) == 80.0
    ensures Percentage(3, 5) == 60.0
  {
    RoundTo2OfCents(5000);
    RoundTo2OfCents(8000);
    RoundTo2OfCents(6000);
    assert 2 as real / 4 as real * 100.0 == 5000 as real / 100.0;
    assert 4 as real / 5 as real * 100.0 == 8000 as real / 100.0;
    assert 3 as real / 5 as real * 100.0 == 6000 as real / 100.0;
  }

  /** Arithmetic mean of reals, the collection `avg`. */
  function Sum(xs: seq<real>): real
  {
    if xs == [] then 0.0 else Sum(xs[..|xs| - 1]) + xs[|xs| - 1]
  }

  lemma {:induction false} SumBounds(xs: seq<real>, lo: real, hi: real)
    requires forall i :: 0 <= i < |xs| ==> lo <= xs[i] <= hi
    ensures |xs| as real * lo <= Sum(xs) <= |xs| as real * hi
  {
    if xs != [] {
      SumBounds(xs[..|xs| - 1], lo, hi);
    }
  }

  /** `count > 0 ? round(avg, 2) : 0`. */
  function RoundedMean(xs: seq<real>): (r: real)
    ensures xs == [] ==> r == 0.0
    ensures xs != [] ==> Sum(xs) / |xs| as real - 0.005 <= r <= Sum(xs) / |xs| as real + 0.005
  {
    if |xs| > 0 then RoundTo2(Sum(xs) / |xs| as real) else 0.0
  }

  /** The rounded average of percentages is again a percentage. */
  lemma RoundedMeanBounds(xs: seq<real>)
    requires forall i :: 0 <= i < |xs| ==> 0.0 <= xs[i] <= 100.0
    ensures 0.0 <= RoundedMean(xs) <= 100.0
  {
    if |xs| > 0 {
      SumBounds(xs, 0.0, 100.0);
      RoundTo2Within(Sum(xs) / |xs| as real, 0, 100);
    }
  }
}
