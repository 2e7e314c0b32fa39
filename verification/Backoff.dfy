/** The saturated exponential backoff of `AutonomyLoop.run_forever` (src/noyra/autonomy/loop.py),
    over the reals: rounding is not modelled. */
module Backoff {

  function Pow2(n: nat): real {
    if n == 0 then 1.0 else 2.0 * Pow2(n - 1)
  }

  /** `max(0, ceil(log2(ratio)))`. */
  function Saturation(ratio: real): nat
    decreases if ratio <= 1.0 then 0 else ratio.Floor
  {
    if ratio <= 1.0 then 0 else HalvingShrinks(ratio); 1 + Saturation(ratio / 2.0)
  }

  lemma HalvingShrinks(ratio: real)
    requires ratio > 1.0
    ensures ratio / 2.0 > 1.0 ==> (ratio / 2.0).Floor < ratio.Floor
    ensures 0 < ratio.Floor
  {
  }

  /** The exponent at which doubling reaches the ratio: the least one, which is what the rounded
      logarithm is. */
  lemma {:induction false} SaturationIsLeast(ratio: real)
    ensures Pow2(Saturation(ratio)) >= ratio
    ensures forall k: nat | k < Saturation(ratio) :: Pow2(k) < ratio
    decreases Saturation(ratio)
  {
    if ratio > 1.0 {
      SaturationIsLeast(ratio / 2.0);
      forall k: nat | k < Saturation(ratio)
        ensures Pow2(k) < ratio
      {
        if k > 0 {
          assert Pow2(k - 1) < ratio / 2.0;
        }
      }
    }
  }

  function Min(a: real, b: real): real {
    if a <= b then a else b
  }

  /** The unbounded exponential. */
  function Doubled(base: real, exponent: nat): real {
    base * Pow2(exponent)
  }

  /** The exponent, cut off where doubling reaches the maximum. */
  function Exponent(base: real, maximum: real, failures: int): nat
    requires base > 0.0
  {
    var saturation := Saturation(maximum / base);
    var wanted := if failures - 1 > 0 then failures - 1 else 0;
    if wanted < saturation then wanted else saturation
  }

  /** The interval the loop waits after its `failures`-th failure in a row. */
  function Interval(base: real, maximum: real, failures: int): real
    requires base > 0.0
  {
    Min(maximum, Doubled(base, Exponent(base, maximum, failures)))
  }

  lemma {:induction false} Pow2Grows(a: nat, b: nat)
    requires a <= b
    ensures 1.0 <= Pow2(a) <= Pow2(b)
    decreases b
  {
    if a < b {
      Pow2Grows(a, b - 1);
    } else if a > 0 {
      Pow2Grows(a - 1, a - 1);
    }
  }

  lemma Scaled(base: real, a: real, b: real)
    requires base > 0.0 && a <= b
    ensures base * a <= base * b
  {
  }

  lemma RatioReached(base: real, maximum: real, exponent: nat)
    requires base > 0.0 && maximum / base <= Pow2(exponent)
    ensures Min(maximum, Doubled(base, exponent)) == maximum
  {
    Scaled(base, maximum / base, Pow2(exponent));
    assert base * (maximum / base) == maximum;
  }

  /** Cutting the exponent off changes nothing: the interval is the unbounded exponential capped at
      the maximum, for every failure count and also when the maximum is below the base. */
  lemma SaturatedIsExact(base: real, maximum: real, failures: int)
    requires base > 0.0 && failures >= 1
    ensures Interval(base, maximum, failures) == Min(maximum, Doubled(base, failures - 1))
  {
    var saturation := Saturation(maximum / base);
    if failures - 1 >= saturation {
      assert Exponent(base, maximum, failures) == saturation;
      SaturationIsLeast(maximum / base);
      Pow2Grows(saturation, failures - 1);
      RatioReached(base, maximum, saturation);
      RatioReached(base, maximum, failures - 1);
    } else {
      assert Exponent(base, maximum, failures) == failures - 1;
    }
  }

  /** Another failure never shortens the wait. */
  lemma IntervalGrows(base: real, maximum: real, failures: int, more: int)
    requires base > 0.0 && failures <= more
    ensures Interval(base, maximum, failures) <= Interval(base, maximum, more) <= maximum
  {
    var low, high := Exponent(base, maximum, failures), Exponent(base, maximum, more);
    Pow2Grows(low, high);
    Scaled(base, Pow2(low), Pow2(high));
    assert Doubled(base, low) <= Doubled(base, high);
  }

  /** Step by step: the first failure, or none, waits the base, each further one twice as long, and never more than
      the maximum. */
  lemma IntervalDoubles(base: real, maximum: real, failures: int)
    requires base > 0.0 && maximum >= 0.0
    ensures failures <= 1 ==> Interval(base, maximum, failures) == if base <= maximum then base else maximum
    ensures failures >= 1 ==>
              var twice := 2.0 * Interval(base, maximum, failures);
              Interval(base, maximum, failures + 1) == if twice <= maximum then twice else maximum
  {
    if failures >= 1 {
      SaturatedIsExact(base, maximum, failures);
      SaturatedIsExact(base, maximum, failures + 1);
      assert Doubled(base, failures) == 2.0 * Doubled(base, failures - 1);
    } else {
      SaturatedIsExact(base, maximum, 1);
      assert Exponent(base, maximum, failures) == Exponent(base, maximum, 1);
    }
    assert Doubled(base, 0) == base;
    SaturatedIsExact(base, maximum, 1);
  }
}
