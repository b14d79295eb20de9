/**
 The stored capacity of a trip is a decimal of eight digits, two of them after the point.
 The submission reads it as a double, multiplies it by 1000 and rounds. Both roundings are
 modelled by the relative error of correct rounding to 53 bits (section 4.3.1 of
 IEEE 754-2019) over the reals.
 */
module Capacity {
  import opened Wrappers
  import OrderTerms

  const ULP: real := 1.0 / 9_007_199_254_740_992.0
  const MAX_SAFE := 9_007_199_254_740_991
  const MAX_STORED := 99_999_999

  function Abs(x: real): real {
    if x < 0.0 then -x else x
  }

  /** `rounded` is `exact` up to the relative error of one rounding. */
  predicate RoundsTo(exact: real, rounded: real) {
    Abs(rounded - exact) <= ULP * Abs(exact)
  }

  /** `Math.round`: the nearest integer, halves upwards. */
  function Round(x: real): (r: int)
    ensures r as real <= x + 0.5 < r as real + 1.0
  {
    (x + 0.5).Floor
  }

  /** `remainingCapacityGrams` after the multiplication; nothing where the program throws. */
  function RemainingCapacityGrams(grams: real): Option<int> {
    if grams < 0.0 || !(-MAX_SAFE <= Round(grams) <= MAX_SAFE)
       || Abs(grams - Round(grams) as real) > 0.000_001
    then None else Some(Round(grams))
  }

  lemma RoundIs(x: real, n: int)
    ensures Round(x) == n <==> n as real - 0.5 <= x < n as real + 0.5
  {
    if n as real - 0.5 <= x < n as real + 0.5 {
      assert n as real < Round(x) as real + 1.0 && Round(x) as real < n as real + 1.0;
    }
  }

  /** A double is read as a number of grams exactly if it is not negative and within a millionth of that safe integer. */
  lemma ReadsAsGramsIff(grams: real, n: int)
    ensures RemainingCapacityGrams(grams) == Some(n) <==>
              && grams >= 0.0 && n <= 9_007_199_254_740_991
              && n as real - 0.000_001 <= grams <= n as real + 0.000_001
  {
    RoundIs(grams, n);
    if grams >= 0.0 && Round(grams) == n {
      assert n as real > -1.0;
      assert n >= 0;
    }
  }

  lemma TwoRoundings(exact: real, kilograms: real, grams: real)
    requires 0.0 <= exact <= 1_000_000.0
    requires RoundsTo(exact, kilograms) && RoundsTo(1_000.0 * kilograms, grams)
    ensures Abs(grams - 1_000.0 * exact) < 0.000_001
    ensures exact > 0.0 ==> grams > 0.0
    ensures exact == 0.0 ==> grams == 0.0
  {
    var e := ULP * exact;
    assert 0.0 <= e <= ULP * 1_000_000.0;
    assert exact - e <= kilograms <= exact + e;
    assert ULP * 1_000_000.0 < 0.000_000_000_12;
    assert e <= exact by {
      assert exact - ULP * exact == (1.0 - ULP) * exact;
    }
    var f := ULP * (1_000.0 * kilograms);
    assert 0.0 <= f <= ULP * (1_000.0 * (exact + e));
    assert ULP * (1_000.0 * (exact + e)) == 1_000.0 * e + 1_000.0 * (ULP * e);
    assert ULP * e <= e;
    if exact > 0.0 {
      assert (1.0 - ULP) * exact > 0.0;
      assert 1_000.0 * kilograms - f == (1.0 - ULP) * (1_000.0 * kilograms);
      assert kilograms > 0.0;
      assert grams >= 1_000.0 * kilograms - f > 0.0;
    }
  }

  /**
   Whatever doubles the two roundings give, every storable capacity is read as its exact
   number of grams: the representability check never fails.
   */
  lemma CapacityIsExact(stored: int, kilograms: real, grams: real)
    requires 0 <= stored <= MAX_STORED
    requires RoundsTo(stored as real / 100.0, kilograms) && RoundsTo(1_000.0 * kilograms, grams)
    ensures RemainingCapacityGrams(grams) == Some(OrderTerms.DecimalToGrams(stored))
  {
    var exact := stored as real / 100.0;
    TwoRoundings(exact, kilograms, grams);
    var n := OrderTerms.DecimalToGrams(stored);
    assert 1_000.0 * exact == n as real;
    assert Round(grams) == n;
  }

  /** So the submission refuses for lack of capacity exactly when the guard of its later update would. */
  lemma CapacityChecksAgree(stored: int, kilograms: real, grams: real, requested: int)
    requires 0 <= stored <= MAX_STORED && OrderTerms.CapacityFits(requested)
    requires RoundsTo(stored as real / 100.0, kilograms) && RoundsTo(1_000.0 * kilograms, grams)
    ensures RemainingCapacityGrams(grams).Some?
    ensures RemainingCapacityGrams(grams).value < requested
       <==> !(stored >= OrderTerms.GramsToDecimal(requested).value)
  {
    CapacityIsExact(stored, kilograms, grams);
    OrderTerms.WholeSteps(requested);
  }

  /**
   Saving a whole row writes the capacity it read: the double is written as a decimal text that
   reads back as the same double, and stored to two places. The stored value is unchanged.
   */
  lemma SavedCapacityIsUnchanged(stored: int, kilograms: real, written: real)
    requires 0 <= stored <= MAX_STORED
    requires RoundsTo(stored as real / 100.0, kilograms) && RoundsTo(written, kilograms) && written >= 0.0
    ensures Round(100.0 * written) == stored
  {
    var exact := stored as real / 100.0;
    assert 0.0 <= exact <= 1_000_000.0;
    var e, f := ULP * exact, ULP * written;
    assert 0.0 <= e <= ULP * 1_000_000.0 < 0.000_1;
    assert exact - e <= kilograms <= exact + e;
    assert kilograms - f <= written <= kilograms + f;
    assert written <= 2.0 * kilograms by {
      assert written - ULP * written == (1.0 - ULP) * written;
    }
    assert f <= ULP * (2.0 * (exact + e));
    assert f <= ULP * 4_000_000.0 < 0.000_1;
    assert -0.02 <= 100.0 * written - stored as real <= 0.02;
  }
}
