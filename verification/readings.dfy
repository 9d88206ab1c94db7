/** Rounded readings of exact decimals: year-on-year change, margins, and amounts in millions or billions. */
module Readings {
  import opened Prelude
  import opened Digits
  import opened Decimals

  // ----- rounding

  /** BigInt arithmetic as the source writes it. */
  function RoundDiv(m: nat, d: nat): nat
    requires d > 0
  {
    (m + d / 2) / d
  }

  /** t is m/d rounded to the nearest integer, halves upwards: t <= m/d + 1/2 < t + 1. */
  ghost predicate HalfUp(m: nat, d: nat, t: nat) { 2 * (t * d) <= 2 * m + d < 2 * (t * d) + 2 * d }

  /** Adding only floor(d/2) is enough: the quotient is the half-up rounding, and there is no other. */
  lemma RoundDivIsHalfUp(m: nat, d: nat)
    requires d > 0
    ensures forall t: nat :: HalfUp(m, d, t) <==> t == RoundDiv(m, d)
  {
    var q, r := RoundDiv(m, d), (m + d / 2) % d;
    assert q * d + r == m + d / 2;
    forall t: nat | HalfUp(m, d, t) ensures t == q {
      NearestIsUnique(m, d, t, q);
    }
  }

  lemma NearestIsUnique(m: nat, d: nat, t: nat, q: nat)
    requires d > 0 && HalfUp(m, d, t) && HalfUp(m, d, q)
    ensures t == q
  {
    OneMoreTime(t, d);
    OneMoreTime(q, d);
    if t < q {
      MulMonotone(t + 1, q, d);
    } else if q < t {
      MulMonotone(q + 1, t, d);
    }
  }

  /** The rounding depends on the quotient only, not on how numerator and denominator are scaled. */
  lemma RoundDependsOnQuotient(m: nat, d: nat, n: nat, e: nat)
    requires d > 0 && e > 0 && m * e == n * d
    ensures RoundDiv(m, d) == RoundDiv(n, e)
  {
    hide RoundDiv;
    RoundDivIsHalfUp(m, d);
    RoundDivIsHalfUp(n, e);
    CrossHalfUp(m, d, n, e, RoundDiv(m, d));
  }

  lemma CrossHalfUp(m: nat, d: nat, n: nat, e: nat, t: nat)
    requires d > 0 && e > 0 && m * e == n * d
    requires HalfUp(m, d, t)
    ensures HalfUp(n, e, t)
  {
    var lower, middle, upper := 2 * (t * e), 2 * n + e, 2 * (t * e) + 2 * e;
    Rescale(2 * (t * d), 2 * m + d, 2 * (t * d) + 2 * d, e);
    Regroup(t, d, e);
    assert 2 * (t * d) * e == lower * d;
    assert (2 * m + d) * e == middle * d;
    assert (2 * (t * d) + 2 * d) * e == upper * d;
  }

  lemma Rescale(a: int, b: int, c: int, k: nat)
    requires a <= b < c && k > 0
    ensures a * k <= b * k < c * k
  {
  }

  // ----- fixed-point text

  /** t / 10^places with exactly `places` decimals. */
  function Point(t: nat, places: nat): string
    requires places > 0
  {
    var (whole, rest) := DivMod(t, Pow10(places));
    Spell(whole) + "." + PadStart(Spell(rest), places)
  }

  /** Reading it back gives t at scale `places`, so different t print differently. */
  lemma PointDenotes(t: nat, places: nat) returns (p: Parts)
    requires places > 0
    ensures p.WellFormed() && p.Text() == Point(t, places) && p.Number() == Fixed(t, places) && !p.negative
  {
    hide Value, Spell, Pow10, DivMod, PadStart;
    var (whole, rest) := DivMod(t, Pow10(places));
    p := Parts(false, Spell(whole), PadStart(Spell(rest), places));
    RemainderFits(rest, places);
    ValueConcat(p.integer, p.fraction);
  }

  lemma RemainderFits(r: nat, places: nat)
    requires places > 0 && r < Pow10(places)
    ensures |PadStart(Spell(r), places)| == places
  {
    if |Spell(r)| > 1 {
      LeadingDigitOfSpelling(r);
      Pow10Reflects(|Spell(r)| - 1, places);
    }
  }

  lemma Pow10Reflects(a: nat, b: nat)
    requires Pow10(a) < Pow10(b)
    ensures a < b
  {
    if a >= b { Pow10Monotone(b, a); }
  }

  lemma LeadingDigitOfSpelling(r: nat)
    requires |Spell(r)| > 1
    ensures Pow10(|Spell(r)| - 1) <= r
  {
    LeadingDigit(Spell(r));
  }

  lemma PointIsInjective(t: nat, u: nat, places: nat)
    requires places > 0 && Point(t, places) == Point(u, places)
    ensures t == u
  {
    var p := PointDenotes(t, places);
    var q := PointDenotes(u, places);
    SplitOfText(p);
    SplitOfText(q);
  }

  // ----- year-on-year change (financialTrends.js, after comparisonProblem found nothing)

  datatype Direction = Up | Down | Flat

  datatype Change = NotMeaningful | Reading(text: string, direction: Direction)

  function Tenths(now: int, before: nat): nat
    requires before > 0
  {
    RoundDiv(Magnitude(now - before) * 1000, before)
  }

  function CompareAligned(now: int, before: int): Change {
    if before <= 0 || now < 0 then NotMeaningful
    else
      var difference := now - before;
      var tenths := Tenths(now, before);
      var sign := if difference > 0 then "+" else if difference < 0 then "-" else "";
      var text := if difference != 0 && tenths == 0 then (if difference > 0 then "<+0.1%" else ">-0.1%")
                  else sign + (Spell(tenths / 10) + "." + Spell(tenths % 10)) + "%";
      Reading(text, if difference > 0 then Up else if difference < 0 then Down else Flat)
  }

  function CompareAnnual(current: Fixed, previous: Fixed): Change {
    var (now, before, _) := Align(current, previous);
    CompareAligned(now, before)
  }

  /** The printed percentage is the half-up rounding of the exact rational, unless a non-zero change would
      round to nothing; then only its sign is shown.  Sign and direction agree with the exact comparison. */
  lemma ChangeIsHalfUp(now: nat, before: nat)
    requires before > 0
    ensures var t := Tenths(now, before);
            && HalfUp(Magnitude(now - before) * 1000, before, t)
            && CompareAligned(now, before) ==
               if now == before then Reading("0.0%", Flat)
               else if now > before then Reading(if t == 0 then "<+0.1%" else "+" + Point(t, 1) + "%", Up)
               else Reading(if t == 0 then ">-0.1%" else "-" + Point(t, 1) + "%", Down)
  {
    hide Spell, Point, HalfUp, RoundDiv;
    var t := Tenths(now, before);
    RoundDivIsHalfUp(Magnitude(now - before) * 1000, before);
    OneDecimal(t);
    if now == before {
      NothingRounds(before);
    }
  }

  lemma OneDecimal(t: nat)
    ensures Point(t, 1) == Spell(t / 10) + "." + Spell(t % 10)
  {
    assert Pow10(1) == 10 * Pow10(0) == 10;
  }

  lemma NothingRounds(d: nat)
    ensures d > 0 ==> RoundDiv(0, d) == 0 && Spell(0) == "0"
  {
  }

  /** A non-zero change never prints as zero. */
  lemma ZeroChangeMeansEqual(now: nat, before: nat)
    requires before > 0
    ensures CompareAligned(now, before).text in ["0.0%", "+0.0%", "-0.0%"] <==> now == before
  {
    hide CompareAligned, Tenths, HalfUp, Point;
    ChangeIsHalfUp(now, before);
    var t := Tenths(now, before);
    if now != before && t != 0 {
      if Point(t, 1) == "0.0" {
        ZeroPoint(t);
      }
      SignedText(if now > before then "+" else "-", Point(t, 1));
    }
  }

  lemma SignedText(sign: string, digits: string)
    requires sign in ["+", "-"] && digits != "0.0"
    ensures sign + digits + "%" !in ["0.0%", "+0.0%", "-0.0%"]
  {
    var text := sign + digits + "%";
    assert text[0] == sign[0] && text[1..|text| - 1] == digits;
    assert "+0.0%"[1..4] == "0.0" && "-0.0%"[1..4] == "0.0";
  }

  lemma ZeroPoint(t: nat)
    requires Point(t, 1) == "0.0"
    ensures t == 0
  {
    OneDecimal(0);
    PointIsInjective(t, 0, 1);
  }

  /** Rescaling both years together changes nothing: the reading depends on now/before only. */
  lemma ChangeDependsOnRatio(now: int, before: int, now': int, before': int)
    requires before > 0 && before' > 0 && now * before' == now' * before
    ensures CompareAligned(now, before) == CompareAligned(now', before')
  {
    SignOfProduct(now, before');
    SignOfProduct(now', before);
    var d, d' := now - before, now' - before';
    assert d * before' == d' * before;
    SignOfProduct(d, before');
    SignOfProduct(d', before);
    if now >= 0 {
      assert (Magnitude(d) * 1000) * before' == (Magnitude(d') * 1000) * before;
      RoundDependsOnQuotient(Magnitude(d) * 1000, before, Magnitude(d') * 1000, before');
    }
  }

  lemma SignOfProduct(a: int, k: nat)
    requires k > 0
    ensures a > 0 <==> a * k > 0
    ensures a < 0 <==> a * k < 0
  {
  }

  /** Trailing zeros, leading zeros and signed zeros of the inputs change nothing. */
  lemma ChangeIgnoresSpelling(a: Fixed, b: Fixed, a': Fixed, b': Fixed)
    requires Same(a, a') && Same(b, b')
    ensures CompareAnnual(a, b) == CompareAnnual(a', b')
  {
    hide CompareAligned;
    var (x, y, s) := Align(a, b);
    var (x', y', s') := Align(a', b');
    AlignedSame(a, b, a', b');
    AlignedIgnoresScale(x, y, s, x', y', s');
  }

  lemma AlignedSame(a: Fixed, b: Fixed, a': Fixed, b': Fixed)
    requires Same(a, a') && Same(b, b')
    ensures var (x, y, s) := Align(a, b);
            var (x', y', s') := Align(a', b');
            Same(Fixed(x, s), Fixed(x', s')) && Same(Fixed(y, s), Fixed(y', s'))
  {
    hide Same;
    var (x, y, s) := Align(a, b);
    var (x', y', s') := Align(a', b');
    AlignKeepsNumbers(a, b);
    AlignKeepsNumbers(a', b');
    SameSymmetric(Fixed(x', s'), a');
    SameSymmetric(Fixed(y', s'), b');
    SameTransitive(Fixed(x, s), a, a');
    SameTransitive(Fixed(y, s), b, b');
    SameTransitive(Fixed(x, s), a', Fixed(x', s'));
    SameTransitive(Fixed(y, s), b', Fixed(y', s'));
  }

  lemma AlignedIgnoresScale(x: int, y: int, s: nat, x': int, y': int, s': nat)
    requires Same(Fixed(x, s), Fixed(x', s')) && Same(Fixed(y, s), Fixed(y', s'))
    ensures CompareAligned(x, y) == CompareAligned(x', y')
    ensures y > 0 <==> y' > 0
    ensures x * y' == x' * y
  {
    hide Pow10, CompareAligned;
    var p, p' := Pow10(s), Pow10(s');
    SignOfProduct(x, p');
    SignOfProduct(x', p);
    SignOfProduct(y, p');
    SignOfProduct(y', p);
    if y > 0 {
      ChangeDependsOnRatio(x, y, x', y');
    } else {
      NonPositiveBase(x, y);
      NonPositiveBase(x', y');
    }
  }

  lemma NonPositiveBase(now: int, before: int)
    ensures before <= 0 ==> CompareAligned(now, before) == NotMeaningful
  {
  }

  /** The reading of two annual amounts: no meaning with a base of zero or less or a loss; otherwise the half-up
      rounding, to tenths of a percent, of their distance over the earlier one, signed by which is larger. */
  lemma ChangeOfAmounts(current: Fixed, previous: Fixed) returns (t: nat)
    ensures CompareAnnual(current, previous) == NotMeaningful <==> previous.n <= 0 || current.n < 0
    ensures previous.n > 0 && current.n >= 0 ==>
              var now, before := current.n * Pow10(previous.scale), previous.n * Pow10(current.scale);
              && before > 0 && HalfUp(1000 * (if now >= before then now - before else before - now), before, t)
              && CompareAnnual(current, previous) ==
                 if now == before then Reading("0.0%", Flat)
                 else if now > before then Reading(if t == 0 then "<+0.1%" else "+" + Point(t, 1) + "%", Up)
                 else Reading(if t == 0 then ">-0.1%" else "-" + Point(t, 1) + "%", Down)
  {
    hide CompareAligned, Tenths, HalfUp, Point, Pow10;
    var (x, y, s) := Align(current, previous);
    SignOfProduct(previous.n, Pow10(s - previous.scale));
    SignOfProduct(current.n, Pow10(s - current.scale));
    t := 0;
    if previous.n > 0 && current.n >= 0 {
      var now, before := current.n * Pow10(previous.scale), previous.n * Pow10(current.scale);
      SignOfProduct(previous.n, Pow10(current.scale));
      SignOfProduct(current.n, Pow10(previous.scale));
      AlignedRatio(current, previous);
      ChangeDependsOnRatio(x, y, now, before);
      ChangeIsHalfUp(now, before);
      t := Tenths(now, before);
    } else {
      NoMeaning(x, y);
    }
  }

  lemma NoMeaning(now: int, before: int)
    ensures CompareAligned(now, before) == NotMeaningful <==> before <= 0 || now < 0
  {
  }

  /** Aligned values have the ratio of the rationals. */
  lemma AlignedRatio(a: Fixed, b: Fixed)
    ensures var (x, y, s) := Align(a, b); x * (b.n * Pow10(a.scale)) == (a.n * Pow10(b.scale)) * y
  {
    hide Pow10;
    var (x, y, s) := Align(a, b);
    Pow10Sum(s - a.scale, a.scale);
    Pow10Sum(s - b.scale, b.scale);
    FourFactors(a.n, b.n, Pow10(s - a.scale), Pow10(a.scale), Pow10(s - b.scale), Pow10(b.scale));
  }

  lemma FourFactors(a: int, b: int, p: nat, p': nat, q: nat, q': nat)
    requires p * p' == q * q'
    ensures (a * p) * (b * p') == (a * q') * (b * q)
  {
    assert (a * p) * (b * p') == (a * b) * (p * p');
    assert (a * q') * (b * q) == (a * b) * (q * q');
  }

  // ----- margins (businessEconomics.js)

  function Percent(n: int, d: nat): string
    requires d > 0
  {
    var hundredths := RoundDiv(Magnitude(n) * 10000, d);
    if n != 0 && hundredths == 0 then (if n < 0 then ">-0.01%" else "<0.01%")
    else
      (if n < 0 && hundredths != 0 then "-" else "")
      + (Spell(hundredths / 100) + "." + PadStart(Spell(hundredths % 100), 2)) + "%"
  }

  /** A margin is the half-up rounding of the exact ratio by magnitude, and never a signed or false zero. */
  lemma PercentIsHalfUp(n: int, d: nat)
    requires d > 0
    ensures var t := RoundDiv(Magnitude(n) * 10000, d);
            && HalfUp(Magnitude(n) * 10000, d, t)
            && Percent(n, d) ==
               if n == 0 then "0.00%"
               else if t == 0 then (if n < 0 then ">-0.01%" else "<0.01%")
               else (if n < 0 then "-" else "") + Point(t, 2) + "%"
  {
    RoundDivIsHalfUp(Magnitude(n) * 10000, d);
    assert Pow10(2) == 10 * Pow10(1) == 100;
    if n == 0 {
      assert RoundDiv(0, d) == 0;
      assert Spell(0) == "0" && PadStart("0", 2) == "00";
    }
  }

  lemma PercentDependsOnRatio(n: int, d: nat, n': int, d': nat)
    requires d > 0 && d' > 0 && n * d' == n' * d
    ensures Percent(n, d) == Percent(n', d')
  {
    SignOfProduct(n, d');
    SignOfProduct(n', d);
    assert (Magnitude(n) * 10000) * d' == (Magnitude(n') * 10000) * d;
    RoundDependsOnQuotient(Magnitude(n) * 10000, d, Magnitude(n') * 10000, d');
  }

  /** Two spellings of the same inputs give the same margin. */
  lemma PercentIgnoresSpelling(a: Fixed, b: Fixed, a': Fixed, b': Fixed)
    requires Same(a, a') && Same(b, b') && b.n > 0
    ensures Align(a, b).1 > 0 && Align(a', b').1 > 0
    ensures Percent(Align(a, b).0, Align(a, b).1) == Percent(Align(a', b').0, Align(a', b').1)
  {
    hide Percent;
    var (x, y, s) := Align(a, b);
    var (x', y', s') := Align(a', b');
    AlignedSame(a, b, a', b');
    AlignedIgnoresScale(x, y, s, x', y', s');
    SignOfProduct(b.n, Pow10(s - b.scale));
    PercentDependsOnRatio(x, y, x', y');
  }

  /** A margin over revenue, which must be positive. */
  function Margin(n: Fixed, revenue: Fixed): Option<string> {
    var (x, y, _) := Align(n, revenue);
    if y <= 0 then None else Some(Percent(x, y))
  }

  /** It is the half-up rounding of n over revenue to hundredths of a percent. */
  lemma MarginOfAmounts(n: Fixed, revenue: Fixed) returns (t: nat)
    ensures Margin(n, revenue).None? <==> revenue.n <= 0
    ensures revenue.n > 0 ==>
              var x, y := n.n * Pow10(revenue.scale), revenue.n * Pow10(n.scale);
              && y > 0 && HalfUp(10000 * (if x >= 0 then x else -x), y, t)
              && Margin(n, revenue) == Some(
                   if x == 0 then "0.00%"
                   else if t == 0 then (if x < 0 then ">-0.01%" else "<0.01%")
                   else (if x < 0 then "-" else "") + Point(t, 2) + "%")
  {
    hide Percent, HalfUp, Point, Pow10, RoundDiv;
    var (x, y, s) := Align(n, revenue);
    SignOfProduct(revenue.n, Pow10(s - revenue.scale));
    t := 0;
    if revenue.n > 0 {
      var x', y' := n.n * Pow10(revenue.scale), revenue.n * Pow10(n.scale);
      SignOfProduct(revenue.n, Pow10(n.scale));
      AlignedRatio(n, revenue);
      PercentDependsOnRatio(x, y, x', y');
      PercentIsHalfUp(x', y');
      t := RoundDiv(Magnitude(x') * 10000, y');
    }
  }

  // ----- amounts: cents of a million (shift 4) or of a billion (shift 7)

  /** The text of formatFinancialValue (shift 4) and formatBillions (shift 7) for a currency or share amount. */
  function Amount(v: Fixed, shift: nat): string {
    var cents := RoundDiv(Magnitude(v.n), Pow10(v.scale + shift));
    if v.n != 0 && cents == 0 then (if v.n < 0 then ">-0.01" else "<0.01")
    else (if v.n < 0 then "-" else "") + Commas(Spell(cents / 100)) + "." + PadStart(Spell(cents % 100), 2)
  }

  /** The text is a function of the rational alone. */
  lemma AmountIgnoresSpelling(v: Fixed, w: Fixed, shift: nat)
    requires Same(v, w)
    ensures Amount(v, shift) == Amount(w, shift)
  {
    hide Pow10, RoundDiv, Spell, PadStart, Commas;
    Pow10Sum(v.scale, shift);
    Pow10Sum(w.scale, shift);
    SignOfProduct(v.n, Pow10(w.scale));
    SignOfProduct(w.n, Pow10(v.scale));
    var m: nat, n: nat, p, q, k := Magnitude(v.n), Magnitude(w.n), Pow10(v.scale), Pow10(w.scale), Pow10(shift);
    assert m * q == n * p;
    Regroup(m, q, k);
    Regroup(n, p, k);
    RoundDependsOnQuotient(m, Pow10(v.scale + shift), n, Pow10(w.scale + shift));
  }

  /** Without its commas the text is the half-up rounding of v / 10^shift to hundredths, and never a signed or
      false zero. */
  lemma AmountIsHalfUp(v: Fixed, shift: nat)
    ensures var t := RoundDiv(Magnitude(v.n), Pow10(v.scale + shift));
            && HalfUp(Magnitude(v.n), Pow10(v.scale + shift), t)
            && DropCommas(Amount(v, shift)) ==
               if v.n == 0 then "0.00"
               else if t == 0 then (if v.n < 0 then ">-0.01" else "<0.01")
               else (if v.n < 0 then "-" else "") + Point(t, 2)
  {
    hide Pow10, RoundDiv, Spell, PadStart, Commas, DropCommas, HalfUp;
    var d := Pow10(v.scale + shift);
    var t := RoundDiv(Magnitude(v.n), d);
    RoundDivIsHalfUp(Magnitude(v.n), d);
    if v.n == 0 { ZeroCents(d); }
    if v.n != 0 && t == 0 {
      NoCommas(if v.n < 0 then ">-0.01" else "<0.01");
    } else {
      TwoDecimals(t);
      CentsWithoutCommas(if v.n < 0 then "-" else "", t);
    }
  }

  lemma TwoDecimals(t: nat)
    ensures Point(t, 2) == Spell(t / 100) + "." + PadStart(Spell(t % 100), 2)
  {
    assert Pow10(2) == 10 * Pow10(1) == 100;
  }

  lemma ZeroCents(d: nat)
    requires d > 0
    ensures RoundDiv(0, d) == 0 && Point(0, 2) == "0.00"
  {
    TwoDecimals(0);
    assert Spell(0) == "0" && PadStart("0", 2) == "00";
  }

  lemma CentsWithoutCommas(sign: string, t: nat)
    requires ',' !in sign
    ensures DropCommas(sign + Commas(Spell(t / 100)) + "." + PadStart(Spell(t % 100), 2))
            == sign + (Spell(t / 100) + "." + PadStart(Spell(t % 100), 2))
  {
    hide Spell, PadStart, Commas, DropCommas;
    var whole, cents := Spell(t / 100), "." + PadStart(Spell(t % 100), 2);
    assert sign + Commas(whole) + "." + PadStart(Spell(t % 100), 2) == sign + (Commas(whole) + cents);
    DropFromBoth(sign, Commas(whole) + cents);
    DropFromBoth(Commas(whole), cents);
    CommasCanBeDropped(whole);
    NoCommas(sign);
    NoCommas(cents);
  }

  lemma {:induction false} DropFromBoth(a: string, b: string)
    ensures DropCommas(a + b) == DropCommas(a) + DropCommas(b)
  {
    if a == "" {
      assert a + b == b;
    } else {
      assert (a + b)[1..] == a[1..] + b;
      DropFromBoth(a[1..], b);
    }
  }

  lemma {:induction false} NoCommas(s: string)
    requires ',' !in s
    ensures DropCommas(s) == s
  {
    if s != "" {
      NoCommas(s[1..]);
      assert s == [s[0]] + s[1..];
    }
  }

  datatype Display = Amounts(text: string) | InvalidNumeric

  function FormatBillions(valueExact: string): Display {
    match Decimal(valueExact)
    case None => InvalidNumeric
    case Some(v) => Amounts(Amount(v, 7))
  }

  /** A displayed difference is the rounding of the exact a - b for every scale of the inputs, exactly as long
      as its exact text fits into the accepted length; otherwise it is reported as an invalid value. */
  lemma DifferenceDisplay(a: Fixed, b: Fixed)
    ensures FormatBillions(DifferenceExact(a, b)) ==
            if |DifferenceExact(a, b)| <= 256
            then Amounts(Amount(Fixed(a.n * Pow10(b.scale) - b.n * Pow10(a.scale), a.scale + b.scale), 7))
            else InvalidNumeric
  {
    hide Amount, DecimalParts, Pow10, DifferenceExact, Parts.Text, Parts.Canonical, Parts.Number;
    var p := DifferenceIsExact(a, b);
    CanonicalIsWellFormed(p);
    if |p.Text()| <= MAX_LENGTH {
      PartsOfText(p);
      AmountIgnoresSpelling(p.Number(), CrossedDifference(a, b), 7);
    }
  }

  lemma CanonicalIsWellFormed(p: Parts)
    ensures p.Canonical() ==> p.WellFormed()
  {
  }

  // ----- which differences can be shown: their printed text must itself be an accepted text

  /** An accepted text with at most w integer digits and f decimals. */
  ghost predicate Sized(p: Parts, w: nat, f: nat) {
    p.WellFormed() && |p.Text()| <= MAX_LENGTH && |p.integer| <= w && |p.fraction| <= f
  }

  /** Sign, integer digits with a carry, dot, decimals. */
  function Widest(w: nat, f: nat): nat { 1 + (w + 1) + if f > 0 then 1 + f else 0 }

  ghost predicate AlwaysShown(w: nat, f: nat) {
    forall p: Parts, q: Parts | Sized(p, w, f) && Sized(q, w, f) ::
      FormatBillions(DifferenceExact(p.Number(), q.Number())).Amounts?
  }

  /** Every difference of inputs of that size is shown exactly when the widest one fits the accepted length. */
  lemma AlwaysShownIffFits(w: nat, f: nat)
    ensures AlwaysShown(w, f) <==> w == 0 || 1 + (w + 1) + (if f > 0 then 1 + f else 0) <= 256
  {
    hide DifferenceExact, FormatBillions, Amount, Parts.Text, Parts.Number, AllDigits;
    if w == 0 || Widest(w, f) <= MAX_LENGTH {
      forall p: Parts, q: Parts | Sized(p, w, f) && Sized(q, w, f)
        ensures FormatBillions(DifferenceExact(p.Number(), q.Number())).Amounts?
      {
        DifferenceFits(p, q, w, f);
        DifferenceDisplay(p.Number(), q.Number());
      }
    } else {
      var p, q := WidestDifference(w, f);
      DifferenceDisplay(p.Number(), q.Number());
    }
  }

  /** Whatever the inputs, their difference is no wider. */
  lemma DifferenceFits(p: Parts, q: Parts, w: nat, f: nat)
    requires p.WellFormed() && |p.integer| <= w && |p.fraction| <= f
    requires q.WellFormed() && |q.integer| <= w && |q.fraction| <= f
    ensures |DifferenceExact(p.Number(), q.Number())| <= Widest(w, f)
  {
    hide Pow10, Exact, Parts.Number;
    ScaleOf(p);
    ScaleOf(q);
    var a, b := p.Number(), q.Number();
    var (x, y, scale) := Align(a, b);
    AlignedBelow(p, w, scale);
    AlignedBelow(q, w, scale);
    Pow10Step(w + scale);
    ExactLength(x - y, scale, w + scale + 1);
  }

  lemma ScaleOf(p: Parts)
    ensures p.WellFormed() ==> p.Number().scale == |p.fraction|
  {
  }

  lemma AlignedBelow(p: Parts, w: nat, scale: nat)
    requires p.WellFormed() && |p.integer| <= w && |p.fraction| <= scale
    ensures p.Number().scale <= scale
    ensures Magnitude(p.Number().n * Pow10(scale - p.Number().scale)) < Pow10(w + scale)
  {
    hide Pow10, Value;
    var n, k := p.Number().n, scale - |p.fraction|;
    ValueConcat(p.integer, p.fraction);
    ValueBound(p.integer + p.fraction);
    Pow10Sum(|p.integer + p.fraction|, k);
    Pow10Monotone(|p.integer + p.fraction| + k, w + scale);
    ScaledBelow(Magnitude(n), Pow10(|p.integer + p.fraction|), Pow10(k));
    if n < 0 { Negate(Magnitude(n), Pow10(k)); }
  }

  lemma ScaledBelow(m: nat, bound: nat, k: nat)
    requires m < bound && k > 0
    ensures m * k < bound * k
  {
  }

  lemma ExactLength(n: int, scale: nat, digits: nat)
    requires Magnitude(n) < Pow10(digits) && digits > scale
    ensures |Exact(n, scale)| <= digits + 1 + if scale > 0 then 1 else 0
  {
    hide Pow10, Spell, PadStart, StripTrailingZeros;
    SpellingFits(Magnitude(n), digits);
  }

  lemma SpellingFits(n: nat, digits: nat)
    requires n < Pow10(digits) && digits > 0
    ensures |Spell(n)| <= digits
  {
    hide Pow10, Spell;
    if |Spell(n)| > 1 {
      LeadingDigitOfSpelling(n);
      Pow10Reflects(|Spell(n)| - 1, digits);
    }
  }

  // ----- inputs that reach the width

  function Nines(n: nat): (s: string)
    ensures |s| == n && AllDigits(s) && forall i | 0 <= i < n :: s[i] == '9'
  {
    seq(n, _ => '9')
  }

  lemma {:induction false} ValueOfNines(n: nat)
    ensures Value(Nines(n)) == Pow10(n) - 1
  {
    if n > 0 {
      ValueOfNines(n - 1);
      assert Nines(n)[..n - 1] == Nines(n - 1);
      Pow10Step(n - 1);
    }
  }

  /** Minus nines, less nines: minus 1 9...9 8, one digit wider. */
  lemma WidestDifference(w: nat, f: nat) returns (p: Parts, q: Parts)
    requires w > 0 && Widest(w, f) > MAX_LENGTH
    ensures Sized(p, w, f) && Sized(q, w, f)
    ensures |DifferenceExact(p.Number(), q.Number())| > MAX_LENGTH
  {
    hide Pow10, Exact, Value, Parts.Canonical, AllDigits, DifferenceExact;
    var i, k := FitToLength(w, f);
    p, q := NegatedNines(i, k);
    NinesDiffer(p.Number(), q.Number(), Pow10(i + k) - 1, k);
    var d := TwiceNines(i, k);
    var r := ExactIsCanonical(-2 * (Pow10(i + k) - 1), k);
    CanonicalPartsAreUnique(r, d);
  }

  lemma NinesDiffer(a: Fixed, b: Fixed, nines: int, k: nat)
    requires a == Fixed(-nines, k) && b == Fixed(nines, k)
    ensures DifferenceExact(a, b) == Exact(-2 * nines, k)
  {
    hide Exact;
  }

  /** The widest sizes whose texts are still accepted. */
  lemma FitToLength(w: nat, f: nat) returns (i: nat, k: nat)
    requires w > 0 && Widest(w, f) > MAX_LENGTH
    ensures 0 < i <= w && k <= f && Widest(i, k) == MAX_LENGTH + 1
  {
    k := if f == 0 then 0 else if f <= MAX_LENGTH - 3 then f else MAX_LENGTH - 3;
    i := if k == 0 then MAX_LENGTH - 1 else MAX_LENGTH - 2 - k;
  }

  lemma NegatedNines(i: nat, k: nat) returns (p: Parts, q: Parts)
    requires i > 0 && Widest(i, k) <= MAX_LENGTH + 1
    ensures Sized(p, i, k) && Sized(q, i, k)
    ensures p.Number() == Fixed(-(Pow10(i + k) - 1), k) && q.Number() == Fixed(Pow10(i + k) - 1, k)
  {
    hide Pow10, Value;
    p, q := Parts(true, Nines(i), Nines(k)), Parts(false, Nines(i), Nines(k));
    assert Nines(i) + Nines(k) == Nines(i + k);
    ValueOfNines(i + k);
  }

  lemma TwiceNines(i: nat, k: nat) returns (d: Parts)
    requires i > 0
    ensures d.Canonical() && |d.Text()| == Widest(i, k) && d.Number() == Fixed(-2 * (Pow10(i + k) - 1), k)
  {
    hide Value, Pow10;
    ValueOfTwice(i + k);
    if k == 0 {
      d := Parts(true, "1" + Nines(i - 1) + "8", "");
      assert d.integer + d.fraction == d.integer;
    } else {
      d := Parts(true, "1" + Nines(i), Nines(k - 1) + "8");
      assert Nines(i) + Nines(k - 1) == Nines(i + k - 1);
      assert d.integer + d.fraction == "1" + (Nines(i) + Nines(k - 1)) + "8";
    }
  }

  lemma ValueOfTwice(n: nat)
    requires n > 0
    ensures AllDigits("1" + Nines(n - 1) + "8") && Value("1" + Nines(n - 1) + "8") == 2 * (Pow10(n) - 1)
  {
    hide Pow10, Value;
    assert Value("1") == 1 && Value("8") == 8 && Pow10(1) == 10 by { OneDigit(); }
    ValueConcat("1", Nines(n - 1));
    ValueConcat("1" + Nines(n - 1), "8");
    ValueOfNines(n - 1);
    Pow10Step(n - 1);
  }

  lemma OneDigit()
    ensures Value("1") == 1 && Value("8") == 8 && Pow10(1) == 10
  {
    assert Pow10(1) == 10 * Pow10(0);
  }
}
