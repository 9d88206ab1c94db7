/** Two-stage discounted cash flow of frontend/lib/dcfMath.js over the reals: nothing is rounded, but a value that a
    double cannot hold overflows.  A missing number stands for every JavaScript value that is not finite, and for a
    result of NaN. */
module Dcf {
  import opened Prelude

  type Num = Option<real>

  const MAX_YEARS := 1000.0
  const MAX_RATE_PCT := 1000.0
  const MAX_ABS_PER_SHARE := 1000000.0

  predicate InModelBounds(base: Num, rate: Num, years: Num) {
    && base.Some? && 0.0 <= base.value <= MAX_ABS_PER_SHARE
    && rate.Some? && 0.0 <= rate.value <= MAX_RATE_PCT
    && years.Some? && 0.0 <= years.value <= MAX_YEARS
  }

  /** One year's growth over one year's discount, rates in percent. */
  function Ratio(growthPct: real, discountPct: real): real
    requires discountPct >= 0.0
  {
    (1.0 + growthPct / 100.0) / (1.0 + discountPct / 100.0)
  }

  // ----- reference definitions

  function Power(q: real, n: nat): real { if n == 0 then 1.0 else q * Power(q, n - 1) }

  function Grow(x: real, q: real, n: nat): real { x * Power(q, n) }

  /** x*q + x*q^2 + ... + x*q^n */
  function Series(x: real, q: real, n: nat): real {
    if n == 0 then 0.0 else Series(x, q, n - 1) + Grow(x, q, n)
  }

  /** The first power of two that no double reaches. */
  const OVERFLOW := Power(2.0, 1024)

  predicate IsFinite(x: real) { x < OVERFLOW }

  function IfFinite(x: real): Num { if IsFinite(x) then Some(x) else None }

  function GrowthValue(base: Num, discountPct: Num, years: Num, growthPct: Num): Num {
    if !InModelBounds(base, discountPct, years) || !InModelBounds(base, growthPct, years) then None
    else IfFinite(Series(base.value, Ratio(growthPct.value, discountPct.value), years.value.Floor))
  }

  predicate TerminalInBounds(
      base: Num, discountPct: Num, growthYears: Num, growthPct: Num, terminalYears: Num, terminalPct: Num)
  {
    && InModelBounds(base, discountPct, growthYears)
    && InModelBounds(base, growthPct, growthYears)
    && InModelBounds(base, terminalPct, terminalYears)
    && terminalPct.value < discountPct.value
  }

  function TerminalValue(
      base: Num, discountPct: Num, growthYears: Num, growthPct: Num, terminalYears: Num, terminalPct: Num): Num
  {
    if !TerminalInBounds(base, discountPct, growthYears, growthPct, terminalYears, terminalPct) then None
    else if terminalYears.value.Floor == 0 then Some(0.0)
    else
      var grown := Grow(base.value, Ratio(growthPct.value, discountPct.value), growthYears.value.Floor);
      if !IsFinite(grown) then None
      else IfFinite(Series(grown, Ratio(terminalPct.value, discountPct.value), terminalYears.value.Floor))
  }

  // ----- the loops

  method ComputeGrowthValue(base: Num, discountPct: Num, years: Num, growthPct: Num) returns (value: Num)
    ensures value == GrowthValue(base, discountPct, years, growthPct)
  {
    if !InModelBounds(base, discountPct, years) || !InModelBounds(base, growthPct, years) {
      return None;
    }
    hide Grow, Series, Ratio, OVERFLOW;
    OverflowIsLarge();
    RatioPositive(growthPct.value, discountPct.value);
    var n, ratio := years.value.Floor, Ratio(growthPct.value, discountPct.value);
    NextPower(base.value, ratio, 0);
    if n == 0 {
      return Some(0.0);
    }
    value := SumOfYears(base.value, ratio, n);
  }

  /** The year loop of both stages: x*q + ... + x*q^n, given up as soon as a double overflows. */
  method SumOfYears(x: real, ratio: real, n: nat) returns (value: Num)
    requires x >= 0.0 && ratio > 0.0
    ensures value == IfFinite(Series(x, ratio, n))
  {
    hide Grow, Series, OVERFLOW;
    OverflowIsLarge();
    NextPower(x, ratio, 0);
    var discountedValue, total := x, 0.0;
    for year := 0 to n
      invariant discountedValue == Grow(x, ratio, year)
      invariant total == Series(x, ratio, year) && IsFinite(total)
    {
      NextPower(x, ratio, year);
      discountedValue := discountedValue * ratio;
      total := total + discountedValue;
      TermsBelowSeries(x, ratio, year + 1, n);
      if !IsFinite(discountedValue) || !IsFinite(total) {
        return None;
      }
    }
    value := Some(total);
  }

  /** The first loop of the terminal stage: x*q^n, likewise. */
  method GrowForYears(x: real, ratio: real, n: nat) returns (value: Num)
    requires 0.0 <= x <= MAX_ABS_PER_SHARE && ratio > 0.0
    ensures value == IfFinite(Grow(x, ratio, n))
  {
    hide Grow, Series, OVERFLOW;
    OverflowIsLarge();
    NextPower(x, ratio, 0);
    var discountedValue := x;
    for year := 0 to n
      invariant discountedValue == Grow(x, ratio, year) && IsFinite(discountedValue)
    {
      NextPower(x, ratio, year);
      discountedValue := discountedValue * ratio;
      if !IsFinite(discountedValue) {
        GrowthKeepsOn(x, ratio, year + 1, n);
        return None;
      }
    }
    value := Some(discountedValue);
  }

  method ComputeTerminalValue(
      base: Num, discountPct: Num, growthYears: Num, growthPct: Num, terminalYears: Num, terminalPct: Num)
    returns (value: Num)
    ensures value == TerminalValue(base, discountPct, growthYears, growthPct, terminalYears, terminalPct)
  {
    if
      || !InModelBounds(base, discountPct, growthYears)
      || !InModelBounds(base, growthPct, growthYears)
      || !InModelBounds(base, terminalPct, terminalYears)
      || terminalYears.value > MAX_YEARS
      || discountPct.value <= terminalPct.value
    {
      return None;
    }
    hide Grow, Series, Ratio, OVERFLOW;
    RatioPositive(growthPct.value, discountPct.value);
    RatioPositive(terminalPct.value, discountPct.value);
    var n1, n2 := growthYears.value.Floor, terminalYears.value.Floor;
    if n2 == 0 {
      return Some(0.0);
    }
    var growthRatio := Ratio(growthPct.value, discountPct.value);
    var grown := GrowForYears(base.value, growthRatio, n1);
    if grown.None? {
      return None;
    }
    GrowNonNegative(base.value, growthRatio, n1);
    value := SumOfYears(grown.value, Ratio(terminalPct.value, discountPct.value), n2);
  }

  // ----- overflow

  lemma OverflowIsLarge()
    ensures OVERFLOW > MAX_ABS_PER_SHARE * MAX_YEARS
  {
    hide Power;
    SixteenIsAPower();
    PowerSum(2.0, 4, 4);
    assert Power(2.0, 8) == 256.0;
    PowerSum(2.0, 8, 8);
    assert Power(2.0, 16) == 65536.0;
    PowerSum(2.0, 16, 16);
    assert Power(2.0, 32) == 4294967296.0;
    PowerSum(2.0, 32, 992);
    PowerAtLeastOne(2.0, 992);
    NonNegativeProduct(Power(2.0, 32), Power(2.0, 992) - 1.0);
  }

  lemma SixteenIsAPower()
    ensures Power(2.0, 4) == 16.0
  {
    assert Power(2.0, 2) == 4.0;
    assert Power(2.0, 3) == 8.0;
  }

  lemma {:induction false} PowerAtLeastOne(q: real, n: nat)
    requires q >= 1.0
    ensures Power(q, n) >= 1.0
  {
    if n > 0 { PowerAtLeastOne(q, n - 1); }
  }

  /** Sums of what is not negative only grow. */
  lemma {:induction false} TermsBelowSeries(x: real, q: real, m: nat, n: nat)
    requires x >= 0.0 && q > 0.0 && 0 < m <= n
    ensures 0.0 <= Grow(x, q, m) <= Series(x, q, m) <= Series(x, q, n)
    decreases n
  {
    hide Grow, Series;
    GrowNonNegative(x, q, n);
    NextPower(x, q, n - 1);
    if m < n {
      TermsBelowSeries(x, q, m, n - 1);
    } else {
      SeriesNonNegative(x, q, n - 1);
    }
  }

  lemma {:induction false} SeriesNonNegative(x: real, q: real, n: nat)
    requires x >= 0.0 && q > 0.0
    ensures Series(x, q, n) >= 0.0
  {
    if n > 0 {
      SeriesNonNegative(x, q, n - 1);
      GrowNonNegative(x, q, n);
    }
  }

  /** Once growth has overflowed, it would not come back. */
  lemma GrowthKeepsOn(x: real, q: real, m: nat, n: nat)
    requires 0.0 <= x <= MAX_ABS_PER_SHARE && q > 0.0 && m <= n && !IsFinite(Grow(x, q, m))
    ensures !IsFinite(Grow(x, q, n))
  {
    hide Power, OVERFLOW, Grow;
    OverflowIsLarge();
    assert q >= 1.0 by {
      if q < 1.0 { GrowShrinks(x, q, m); }
    }
    GrowNonNegative(x, q, m);
    GrowTwice(x, q, m, n - m);
    GrowExpands(Grow(x, q, m), q, n - m);
  }

  lemma GrowExpands(x: real, q: real, n: nat)
    requires 0.0 <= x && q >= 1.0
    ensures x <= Grow(x, q, n)
  {
    hide Power;
    PowerAtLeastOne(q, n);
    NonNegativeProduct(x, Power(q, n) - 1.0);
  }

  /** A stage that grows no faster than the discount adds at most its base a year, so it cannot overflow. */
  lemma {:induction false} DiscountedStageIsSmall(x: real, q: real, n: nat)
    requires 0.0 <= x && 0.0 < q < 1.0
    ensures 0.0 <= Grow(x, q, n) <= x && 0.0 <= Series(x, q, n) <= x * n as real
  {
    hide Grow;
    GrowShrinks(x, q, n);
    if n > 0 {
      DiscountedStageIsSmall(x, q, n - 1);
    }
  }

  lemma GrowShrinks(x: real, q: real, n: nat)
    requires 0.0 <= x && 0.0 < q < 1.0
    ensures 0.0 <= Grow(x, q, n) <= x
  {
    hide Power;
    PowerAtMostOne(q, n);
    PowerPositive(q, n);
    Share(x, Power(q, n));
  }

  // ----- laws

  lemma NextPower(x: real, q: real, n: nat)
    ensures Grow(x, q, 0) == x && Series(x, q, 0) == 0.0
    ensures Grow(x, q, n) * q == Grow(x, q, n + 1)
    ensures Series(x, q, n + 1) == Series(x, q, n) + Grow(x, q, n + 1)
  {
  }

  lemma {:induction false} SeriesSplit(x: real, q: real, m: nat, n: nat)
    ensures Series(x, q, m + n) == Series(x, q, m) + Series(Grow(x, q, m), q, n)
  {
    hide Grow;
    if n > 0 {
      SeriesSplit(x, q, m, n - 1);
      assert Series(x, q, m + n) == Series(x, q, m + (n - 1)) + Grow(x, q, m + n);
      GrowTwice(x, q, m, n);
    }
  }

  lemma GrowTwice(x: real, q: real, m: nat, n: nat)
    ensures Grow(Grow(x, q, m), q, n) == Grow(x, q, m + n)
  {
    PowerSum(q, m, n);
  }

  lemma {:induction false} PowerSum(q: real, m: nat, n: nat)
    ensures Power(q, m + n) == Power(q, m) * Power(q, n)
  {
    if m > 0 {
      PowerSum(q, m - 1, n);
    }
  }

  lemma {:induction false} PowerPositive(q: real, n: nat)
    requires q > 0.0
    ensures Power(q, n) > 0.0
  {
    if n > 0 { PowerPositive(q, n - 1); }
  }

  /** When both stages grow at the same rate, the terminal stage continues the growth stage - exactly when the
      fractional years of the two inputs do not make up a year of their own (or there is nothing to grow). */
  lemma StagesCompose(base: real, discountPct: real, rate: real, y1: real, y2: real)
    requires InModelBounds(Some(base), Some(discountPct), Some(y1))
    requires InModelBounds(Some(base), Some(rate), Some(y1 + y2))
    requires 0.0 <= y2 && rate < discountPct
    ensures GrowthValue(Some(base), Some(discountPct), Some(y1), Some(rate)).Some?
    ensures GrowthValue(Some(base), Some(discountPct), Some(y1 + y2), Some(rate)).Some?
    ensures TerminalValue(Some(base), Some(discountPct), Some(y1), Some(rate), Some(y2), Some(rate)).Some?
    ensures GrowthValue(Some(base), Some(discountPct), Some(y1), Some(rate)).value
            + TerminalValue(Some(base), Some(discountPct), Some(y1), Some(rate), Some(y2), Some(rate)).value
            == GrowthValue(Some(base), Some(discountPct), Some(y1 + y2), Some(rate)).value
            <==> base == 0.0 || y1.Floor + y2.Floor == (y1 + y2).Floor
  {
    hide Grow, Series, Ratio, OVERFLOW;
    var q, m, n := Ratio(rate, discountPct), y1.Floor, y2.Floor;
    assert (y1 + y2).Floor == m + n || (y1 + y2).Floor == m + n + 1;
    RatioPositive(rate, discountPct);
    RatioBelowOne(rate, discountPct);
    StageIsFinite(base, q, m);
    StageIsFinite(base, q, (y1 + y2).Floor);
    StageIsFinite(Grow(base, q, m), q, n);
    NextPower(Grow(base, q, m), q, 0);
    SeriesSplit(base, q, m, n);
    NothingGrows(q, m + n + 1);
    NothingGrows(q, m + n);
    if base > 0.0 {
      NextTerm(base, q, m + n);
    }
  }

  /** Two halves of a year compose to nothing, the whole year does not. */
  lemma HalfYearsDoNotCompose()
    ensures GrowthValue(Some(1.0), Some(10.0), Some(0.5), Some(5.0)) == Some(0.0)
    ensures TerminalValue(Some(1.0), Some(10.0), Some(0.5), Some(5.0), Some(0.5), Some(5.0)) == Some(0.0)
    ensures var whole := GrowthValue(Some(1.0), Some(10.0), Some(1.0), Some(5.0)); whole.Some? && whole.value > 0.0
  {
    hide OVERFLOW, Series, Grow;
    StagesCompose(1.0, 10.0, 5.0, 0.5, 0.5);
    RatioPositive(5.0, 10.0);
    NextPower(1.0, Ratio(5.0, 10.0), 0);
    NextTerm(1.0, Ratio(5.0, 10.0), 0);
    OverflowIsLarge();
  }

  lemma StageIsFinite(x: real, q: real, n: nat)
    requires 0.0 <= x <= MAX_ABS_PER_SHARE && 0.0 < q < 1.0 && n as real <= MAX_YEARS
    ensures IsFinite(Series(x, q, n)) && 0.0 <= Grow(x, q, n) <= MAX_ABS_PER_SHARE && IsFinite(Grow(x, q, n))
  {
    hide Series, Grow, OVERFLOW;
    OverflowIsLarge();
    DiscountedStageIsSmall(x, q, n);
    NonNegativeProduct(MAX_ABS_PER_SHARE - x, n as real);
    assert x * n as real <= MAX_ABS_PER_SHARE * n as real;
  }

  lemma RatioBelowOne(growthPct: real, discountPct: real)
    ensures 0.0 <= growthPct < discountPct ==> Ratio(growthPct, discountPct) < 1.0
  {
  }

  /** x*q + ... + x*q^n in closed form: x*n at the ratio 1, else x*q*(q^n - 1)/(q - 1). */
  function ClosedSeries(x: real, q: real, n: nat): real {
    if q == 1.0 then x * n as real else x * (q * ((Power(q, n) - 1.0) / (q - 1.0)))
  }

  predicate Within(x: Num, most: real) { x.Some? && 0.0 <= x.value <= most }

  /** A year's growth over a year's discount: paid back at the discount it is the growth. */
  lemma RatioIsDiscountedGrowth(growthPct: real, discountPct: real)
    requires discountPct >= 0.0
    ensures Ratio(growthPct, discountPct) * (1.0 + discountPct / 100.0) == 1.0 + growthPct / 100.0
    ensures Ratio(growthPct, discountPct) == (1.0 + growthPct / 100.0) / (1.0 + discountPct / 100.0)
  {
  }

  /** The growth value is that sum, and is missing exactly outside the bounds or when a double cannot hold it. */
  lemma GrowthClosedForm(base: Num, discountPct: Num, years: Num, growthPct: Num)
    ensures GrowthValue(base, discountPct, years, growthPct) ==
            if
              && Within(base, 1000000.0) && Within(discountPct, 1000.0)
              && Within(growthPct, 1000.0) && Within(years, 1000.0)
            then
              var ratio := (1.0 + growthPct.value / 100.0) / (1.0 + discountPct.value / 100.0);
              IfFinite(ClosedSeries(base.value, ratio, years.value.Floor))
            else None
  {
    hide Series, Ratio, OVERFLOW, ClosedSeries;
    if InModelBounds(base, discountPct, years) && InModelBounds(base, growthPct, years) {
      RatioIsDiscountedGrowth(growthPct.value, discountPct.value);
      SeriesIsClosed(base.value, Ratio(growthPct.value, discountPct.value), years.value.Floor);
    }
  }

  lemma SameRates(growthPct: real, discountPct: real)
    requires growthPct >= 0.0 && discountPct >= 0.0
    ensures (1.0 + growthPct / 100.0) / (1.0 + discountPct / 100.0) == 1.0 <==> growthPct == discountPct
  {
    QuotientIsOne(1.0 + growthPct / 100.0, 1.0 + discountPct / 100.0);
  }

  lemma QuotientIsOne(a: real, b: real)
    requires b > 0.0
    ensures a / b == 1.0 <==> a == b
  {
    assert (a / b) * b == a;
  }

  lemma {:induction false} SeriesIsClosed(x: real, q: real, n: nat)
    ensures Series(x, q, n) == ClosedSeries(x, q, n)
  {
    if q == 1.0 {
      ConstantSeries(x, n);
    } else {
      GeometricSum(x, q, n);
      DivideSum(x, q, Power(q, n), Series(x, q, n));
    }
  }

  lemma {:induction false} ConstantSeries(x: real, n: nat)
    ensures Power(1.0, n) == 1.0 && Series(x, 1.0, n) == x * n as real
  {
    if n > 0 {
      ConstantSeries(x, n - 1);
      assert n as real == (n - 1) as real + 1.0;
    }
  }

  lemma DivideSum(x: real, q: real, p: real, s: real)
    requires q != 1.0 && s * (1.0 - q) == x * q * (1.0 - p)
    ensures s == x * (q * ((p - 1.0) / (q - 1.0)))
  {
    var f, d := (p - 1.0) / (q - 1.0), q - 1.0;
    assert f * d == p - 1.0;
    assert (x * (q * f)) * d == (x * q) * (f * d);
    assert s * d == -(s * (1.0 - q));
    assert (x * q) * (p - 1.0) == -(x * q * (1.0 - p));
    SameFactor(s, x * (q * f), d);
  }

  lemma SameFactor(a: real, b: real, d: real)
    requires d != 0.0 && a * d == b * d
    ensures a == b
  {
    assert (a - b) * d == 0.0;
  }

  /** Growth well above the discount does overflow within the bounds: a share of 1 growing tenfold and more a year
      for a thousand years. */
  lemma GrowthCanOverflow()
    ensures GrowthValue(Some(1.0), Some(0.0), Some(1000.0), Some(1000.0)) == None
  {
    hide OVERFLOW, Series, Power;
    assert Ratio(1000.0, 0.0) == 11.0;
    PowerExceedsOverflow();
    TermsBelowSeries(1.0, 11.0, 1000, 1000);
  }

  /** 11^1000 > 8^1000 = 2^3000 > 2^1024. */
  lemma PowerExceedsOverflow()
    ensures Power(11.0, 1000) >= OVERFLOW
  {
    PowerOrder(8.0, 11.0, 1000);
    PowerOfPower(1000);
    PowerSum(2.0, 1024, 1976);
    PowerAtLeastOne(2.0, 1976);
    PowerPositive(2.0, 1024);
    hide Power;
    NonNegativeProduct(Power(2.0, 1024), Power(2.0, 1976) - 1.0);
  }

  lemma {:induction false} PowerOrder(a: real, b: real, n: nat)
    requires 0.0 < a <= b
    ensures Power(a, n) <= Power(b, n)
  {
    if n > 0 {
      PowerOrder(a, b, n - 1);
      PowerPositive(a, n - 1);
      NonNegativeProduct(a, Power(b, n - 1) - Power(a, n - 1));
      NonNegativeProduct(b - a, Power(b, n - 1));
    }
  }

  lemma {:induction false} PowerOfPower(n: nat)
    ensures Power(8.0, n) == Power(2.0, 3 * n)
  {
    if n > 0 {
      PowerOfPower(n - 1);
      assert Power(2.0, 3 * n) == 2.0 * Power(2.0, 3 * n - 1);
      assert Power(2.0, 3 * n - 1) == 2.0 * Power(2.0, 3 * n - 2);
      assert Power(2.0, 3 * n - 2) == 2.0 * Power(2.0, 3 * (n - 1));
    }
  }

  lemma RatioPositive(growthPct: real, discountPct: real)
    requires growthPct >= 0.0 && discountPct >= 0.0
    ensures Ratio(growthPct, discountPct) > 0.0
  {
  }

  lemma NextTerm(x: real, q: real, n: nat)
    requires x > 0.0 && q > 0.0
    ensures Series(x, q, n + 1) > Series(x, q, n)
  {
    PowerPositive(q, n + 1);
  }

  lemma {:induction false} NothingGrows(q: real, n: nat)
    ensures Series(0.0, q, n) == 0.0
  {
    if n > 0 { NothingGrows(q, n - 1); }
  }

  lemma {:induction false} GeometricSum(x: real, q: real, n: nat)
    ensures Series(x, q, n) * (1.0 - q) == x * q * (1.0 - Power(q, n))
  {
    if n > 0 {
      assert Series(x, q, n) == Series(x, q, n - 1) + x * (q * Power(q, n - 1));
      GeometricSum(x, q, n - 1);
    }
  }

  /** x*(1+g)/(r-g), rates in percent: the value of a stage that never ends. */
  function Perpetuity(x: real, growthPct: real, discountPct: real): real
    requires growthPct < discountPct
  {
    x * ((1.0 + growthPct / 100.0) / (discountPct / 100.0 - growthPct / 100.0))
  }

  /** `whole` without its fraction `part`. */
  function Less(whole: real, part: real): real { whole * (1.0 - part) }

  /** The terminal value is the perpetuity base*((1+g1)/(1+r))^n1*(1+g2)/(r-g2) less the part beyond year n2, so it
      never exceeds the perpetuity, however long the stage; it is missing exactly outside the bounds or when a double
      overflows. */
  lemma TerminalClosedForm(
      base: Num, discountPct: Num, growthYears: Num, growthPct: Num, terminalYears: Num, terminalPct: Num)
    ensures
      var value := TerminalValue(base, discountPct, growthYears, growthPct, terminalYears, terminalPct);
      if
        && Within(base, 1000000.0) && Within(discountPct, 1000.0) && Within(growthYears, 1000.0)
        && Within(growthPct, 1000.0) && Within(terminalYears, 1000.0) && Within(terminalPct, 1000.0)
        && terminalPct.value < discountPct.value
      then
        var discount := 1.0 + discountPct.value / 100.0;
        var n1, n2 := growthYears.value.Floor, terminalYears.value.Floor;
        var grown := Grow(base.value, (1.0 + growthPct.value / 100.0) / discount, n1);
        var perpetuity := Perpetuity(grown, terminalPct.value, discountPct.value);
        var closed := Less(perpetuity, Power((1.0 + terminalPct.value / 100.0) / discount, n2));
        && 0.0 <= closed <= perpetuity
        && value == if n2 == 0 || (IsFinite(grown) && IsFinite(closed)) then Some(closed) else None
      else value == None
  {
    hide Grow, Series, Power, Ratio, Perpetuity, Less, OVERFLOW, TerminalValue;
    OutOfBounds(base, discountPct, growthYears, growthPct, terminalYears, terminalPct);
    if TerminalInBounds(base, discountPct, growthYears, growthPct, terminalYears, terminalPct) {
      var q1, q2 := Ratio(growthPct.value, discountPct.value), Ratio(terminalPct.value, discountPct.value);
      RatioIsDiscountedGrowth(growthPct.value, discountPct.value);
      RatioIsDiscountedGrowth(terminalPct.value, discountPct.value);
      TerminalStage(base.value, discountPct.value, growthYears.value, growthPct.value, terminalYears.value,
                    terminalPct.value, q1, q2);
    }
  }

  lemma OutOfBounds(
      base: Num, discountPct: Num, growthYears: Num, growthPct: Num, terminalYears: Num, terminalPct: Num)
    ensures !TerminalInBounds(base, discountPct, growthYears, growthPct, terminalYears, terminalPct) ==>
              TerminalValue(base, discountPct, growthYears, growthPct, terminalYears, terminalPct) == None
  {
  }

  lemma TerminalStage(
      base: real, discountPct: real, y1: real, growthPct: real, y2: real, terminalPct: real, q1: real, q2: real)
    requires TerminalInBounds(Some(base), Some(discountPct), Some(y1), Some(growthPct), Some(y2), Some(terminalPct))
    requires q1 == Ratio(growthPct, discountPct) && q2 == Ratio(terminalPct, discountPct)
    ensures var grown := Grow(base, q1, y1.Floor);
            var perpetuity := Perpetuity(grown, terminalPct, discountPct);
            var closed := Less(perpetuity, Power(q2, y2.Floor));
            && 0.0 <= closed <= perpetuity
            && TerminalValue(Some(base), Some(discountPct), Some(y1), Some(growthPct), Some(y2), Some(terminalPct))
               == if y2.Floor == 0 || (IsFinite(grown) && IsFinite(closed)) then Some(closed) else None
  {
    hide Grow, Series, Power, Ratio, Perpetuity, Less, OVERFLOW;
    RatioPositive(growthPct, discountPct);
    GrowNonNegative(base, q1, y1.Floor);
    var grown := Grow(base, q1, y1.Floor);
    SeriesBelowPerpetuity(grown, terminalPct, discountPct, y2.Floor);
    NextPower(grown, q2, 0);
  }

  lemma SeriesBelowPerpetuity(x: real, growthPct: real, discountPct: real, n: nat)
    requires x >= 0.0 && 0.0 <= growthPct < discountPct
    ensures var q := Ratio(growthPct, discountPct);
            && Series(x, q, n) == Less(Perpetuity(x, growthPct, discountPct), Power(q, n))
            && 0.0 <= Series(x, q, n) <= Perpetuity(x, growthPct, discountPct)
  {
    hide Series, Power;
    var q, g, r := Ratio(growthPct, discountPct), growthPct / 100.0, discountPct / 100.0;
    RatioPositive(growthPct, discountPct);
    PowerPositive(q, n);
    GeometricSum(x, q, n);
    PowerAtMostOne(q, n);
    NonNegativeProduct(x, (1.0 + g) / (r - g));
    Share(x * ((1.0 + g) / (r - g)), 1.0 - Power(q, n));
  }

  lemma GrowNonNegative(x: real, q: real, n: nat)
    requires x >= 0.0 && q > 0.0
    ensures Grow(x, q, n) >= 0.0
  {
    PowerPositive(q, n);
    NonNegativeProduct(x, Power(q, n));
  }

  lemma NonNegativeProduct(a: real, b: real)
    requires a >= 0.0 && b >= 0.0
    ensures a * b >= 0.0
  {
  }

  lemma Share(a: real, f: real)
    requires a >= 0.0 && 0.0 <= f <= 1.0
    ensures 0.0 <= a * f <= a
  {
    NonNegativeProduct(a, f);
    NonNegativeProduct(a, 1.0 - f);
  }

  lemma {:induction false} PowerAtMostOne(q: real, n: nat)
    requires 0.0 < q < 1.0
    ensures Power(q, n) <= 1.0
  {
    if n > 0 {
      PowerAtMostOne(q, n - 1);
      PowerPositive(q, n - 1);
      Share(Power(q, n - 1), q);
    }
  }

}
