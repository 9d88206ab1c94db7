/** `formatDcfExactMoney` of frontend/lib/dcfCurrency.js: rounding by the third decimal and a carry over a
    digit array, proved against arithmetic on the exact value. */
module ExactMoney {
  import opened Prelude
  import opened Digits
  import opened Readings

  /** A match of ^([+-]?)(\d+)(?:\.(\d*))?$ */
  datatype Money = Money(sign: string, integer: string, fraction: Option<string>) {
    predicate WellFormed() {
      && sign in ["", "+", "-"]
      && integer != "" && AllDigits(integer)
      && (fraction.Some? ==> AllDigits(fraction.value))
    }

    function Body(): string { if fraction.Some? then integer + "." + fraction.value else integer }

    function Text(): string { sign + Body() }

    function RawFraction(): string { if fraction.Some? then fraction.value else "" }

    /** |v| = Units() / 10^Scale() */
    function Units(): nat
      requires WellFormed()
    {
      ValueConcat(integer, RawFraction());
      Value(integer + RawFraction())
    }

    function Scale(): nat { |RawFraction()| }
  }

  predicate IsSpace(c: char) {
    c in "\t\n\U{0B}\U{0C}\r \U{A0}\U{1680}\U{2028}\U{2029}\U{202F}\U{205F}\U{3000}\U{FEFF}"
      || '\U{2000}' <= c <= '\U{200A}'
  }

  /** The white space that JavaScript trims, by code point. */
  lemma SpaceCodePoints(c: char)
    ensures IsSpace(c) <==>
              || 0x9 <= c as int <= 0xD || 0x2000 <= c as int <= 0x200A
              || c as int in {0x20, 0xA0, 0x1680, 0x2028, 0x2029, 0x202F, 0x205F, 0x3000, 0xFEFF}
  {
  }

  function Candidate(s: string): Money {
    var signed := s != "" && (s[0] == '+' || s[0] == '-');
    var body := if signed then s[1..] else s;
    var dot := IndexOf(body, '.');
    Money(if signed then s[..1] else "", body[..dot], if dot < |body| then Some(body[dot + 1..]) else None)
  }

  function Match(s: string): (r: Option<Money>)
    ensures r.Some? ==> r.value.WellFormed() && r.value.Text() == s
    ensures r.None? ==> forall m: Money :: m.WellFormed() ==> m.Text() != s
  {
    var m := Candidate(s);
    OnlyCandidate(s);
    if m.WellFormed() && m.Text() == s then Some(m) else None
  }

  /** An optional sign, digits, and optionally a dot with digits or none after it. */
  ghost predicate Pattern(s: string, sign: string, whole: string, tail: string) {
    && s == sign + whole + tail && sign in {"", "+", "-"} && whole != "" && AllDigits(whole)
    && (tail == "" || (tail[0] == '.' && AllDigits(tail[1..])))
  }

  /** The accepted texts are those that have this pattern. */
  lemma MoneyPattern(s: string)
    ensures Match(s).Some? <==> exists sign, whole, tail :: Pattern(s, sign, whole, tail)
  {
    hide Pattern, Candidate;
    if Match(s).Some? {
      TextHasPattern(Match(s).value);
    }
    if sign, whole, tail :| Pattern(s, sign, whole, tail) {
      var m := PatternIsText(s, sign, whole, tail);
    }
  }

  lemma TextHasPattern(m: Money)
    requires m.WellFormed()
    ensures exists tail :: Pattern(m.Text(), m.sign, m.integer, tail)
  {
    if m.fraction.None? {
      assert Pattern(m.Text(), m.sign, m.integer, "");
    } else {
      var tail := "." + m.fraction.value;
      assert tail[1..] == m.fraction.value && m.Text() == m.sign + m.integer + tail;
      assert Pattern(m.Text(), m.sign, m.integer, tail);
    }
  }

  lemma PatternIsText(s: string, sign: string, whole: string, tail: string) returns (m: Money)
    requires Pattern(s, sign, whole, tail)
    ensures m.WellFormed() && m.Text() == s
  {
    m := Money(sign, whole, if tail == "" then None else Some(tail[1..]));
    assert tail != "" ==> tail == "." + tail[1..];
  }

  lemma OnlyCandidate(s: string)
    ensures forall m: Money | m.WellFormed() && m.Text() == s :: m == Candidate(s)
  {
    forall m: Money | m.WellFormed() && m.Text() == s ensures m == Candidate(s) {
      CandidateOfText(m);
    }
  }

  lemma CandidateOfText(m: Money)
    requires m.WellFormed()
    ensures Candidate(m.Text()) == m
  {
    var s, body := m.Text(), m.Body();
    DotOfBody(m);
    assert IsDigit(body[0]);
    assert s[|m.sign|..] == body && s[..|m.sign|] == m.sign;
    if m.sign == "" {
      assert s == body;
    } else {
      assert s[0] == m.sign[0];
    }
  }

  lemma DotOfBody(m: Money)
    requires m.WellFormed()
    ensures m.Body()[..|m.integer|] == m.integer && IndexOf(m.Body(), '.') == |m.integer|
    ensures m.fraction.Some? <==> |m.integer| < |m.Body()|
    ensures m.fraction.Some? ==> m.Body()[|m.integer| + 1..] == m.fraction.value
  {
    var body := m.Body();
    assert forall i | 0 <= i < |m.integer| :: body[i] == m.integer[i];
    assert forall i | 0 <= i < |m.integer| :: IsDigit(body[i]);
    if m.fraction.Some? {
      assert body[|m.integer|] == '.';
    }
  }

  /** Cents of the amount, rounded half up by magnitude. */
  function TotalCents(m: Money): nat
    requires m.WellFormed()
  {
    RoundDiv(100 * m.Units(), Pow10(m.Scale()))
  }

  function MoneyText(currency: string, negative: bool, total: nat): string {
    currency + " " + (if negative && total != 0 then "-" else "")
    + Commas(Spell(total / 100)) + "." + PadStart(Spell(total % 100), 2)
  }

  /** What is printed after the currency: without its commas, the amount rounded half up to hundredths, with a minus
      sign exactly for a negative value that does not round to zero. */
  lemma MoneyIsHalfUp(currency: string, m: Money) returns (rest: string, t: nat)
    requires m.WellFormed()
    ensures MoneyText(currency, m.sign == "-", TotalCents(m)) == currency + " " + rest
    ensures HalfUp(100 * m.Units(), Pow10(m.Scale()), t)
    ensures DropCommas(rest) == (if m.sign == "-" && t != 0 then "-" else "") + Point(t, 2)
  {
    hide Commas, Spell, PadStart, RoundDiv, HalfUp, Pow10, DropCommas, Point;
    t := TotalCents(m);
    RoundDivIsHalfUp(100 * m.Units(), Pow10(m.Scale()));
    var sign := if m.sign == "-" && t != 0 then "-" else "";
    rest := sign + Commas(Spell(t / 100)) + "." + PadStart(Spell(t % 100), 2);
    CentsWithoutCommas(sign, t);
    TwoDecimals(t);
    assert currency + " " + rest == currency + " " + sign + Commas(Spell(t / 100)) + "." + PadStart(Spell(t % 100), 2);
  }

  /** The digit array plus one, least significant digit last; the result is the carry out of the first digit. */
  method Increment(digits: array<char>) returns (carry: nat)
    requires AllDigits(digits[..])
    modifies digits
    ensures AllDigits(digits[..]) && carry <= 1
    ensures carry * Pow10(digits.Length) + Value(digits[..]) == old(Value(digits[..])) + 1
    ensures carry == 0 && digits.Length > 0 && old(digits[0]) != '0' ==> digits[0] != '0'
  {
    ghost var start := digits[..];
    carry := 1;
    var index := digits.Length - 1;
    assert start[..digits.Length] == start;
    while index >= 0 && carry != 0
      invariant -1 <= index < digits.Length && carry <= 1
      invariant AllDigits(digits[..])
      invariant digits[..index + 1] == start[..index + 1]
      invariant carry == 1 ==> forall k | index < k < digits.Length :: digits[k] == '0' && start[k] == '9'
      invariant carry == 0 ==> Value(digits[..]) == Value(start) + 1
      invariant carry == 0 && start[0] != '0' ==> digits[0] != '0'
    {
      var next := DigitOf(digits[index]) + carry;
      ghost var before := digits[..];
      digits[index] := CharOf(next % 10);
      carry := if next >= 10 then 1 else 0;
      assert digits[..] == before[index := CharOf(next % 10)];
      assert digits[..index] == start[..index];
      assert start[index] == before[index];
      if carry == 0 {
        CarryStops(start, digits[..], index);
      }
      index := index - 1;
    }
    if carry == 1 {
      AllNines(start, digits[..]);
    }
  }

  /** Nines turn into zeros after the digit that absorbs the carry. */
  lemma CarryStops(start: string, now: string, index: nat)
    requires AllDigits(start) && AllDigits(now) && |start| == |now| && index < |start|
    requires start[..index] == now[..index] && DigitOf(now[index]) == DigitOf(start[index]) + 1
    requires forall k | index < k < |start| :: now[k] == '0' && start[k] == '9'
    ensures Value(now) == Value(start) + 1
  {
    hide Value, Pow10;
    var p, q := start[..index + 1], now[..index + 1];
    assert p[..index] == start[..index] && q[..index] == now[..index];
    assert p[index] == start[index] && q[index] == now[index];
    CarryInto(p, q, start[index + 1..], now[index + 1..]);
    assert start == p + start[index + 1..] && now == q + now[index + 1..];
  }

  lemma CarryInto(p: string, q: string, nines: string, zeros: string)
    requires AllDigits(p) && AllDigits(q) && |p| == |q| > 0
    requires p[..|p| - 1] == q[..|p| - 1] && DigitOf(q[|p| - 1]) == DigitOf(p[|p| - 1]) + 1
    requires |nines| == |zeros| && forall k | 0 <= k < |nines| :: nines[k] == '9' && zeros[k] == '0'
    ensures AllDigits(p + nines) && AllDigits(q + zeros) && Value(q + zeros) == Value(p + nines) + 1
  {
    hide Value, Pow10;
    AllNines(nines, zeros);
    ValueConcat(p, nines);
    ValueConcat(q, zeros);
    NextDigit(p, q);
    OneMoreTime(Value(p), Pow10(|nines|));
  }

  lemma NextDigit(a: string, b: string)
    requires AllDigits(a) && AllDigits(b) && |a| == |b| > 0
    requires a[..|a| - 1] == b[..|a| - 1] && DigitOf(b[|a| - 1]) == DigitOf(a[|a| - 1]) + 1
    ensures Value(b) == Value(a) + 1
  {
  }

  lemma {:induction false} AllNines(nines: string, zeros: string)
    requires |nines| == |zeros| && forall k | 0 <= k < |nines| :: nines[k] == '9' && zeros[k] == '0'
    ensures AllDigits(nines) && AllDigits(zeros) && Value(zeros) == 0 && Value(nines) + 1 == Pow10(|nines|)
  {
    if nines != "" {
      AllNines(nines[..|nines| - 1], zeros[..|nines| - 1]);
    }
  }

  function PadEnd(s: string, n: nat): (r: string)
    requires AllDigits(s)
    ensures AllDigits(r) && |r| == if |s| < n then n else |s|
    ensures Value(r) == Value(s) * Pow10(|r| - |s|)
  {
    if |s| < n then ValueConcat(s, Zeros(n - |s|)); s + Zeros(n - |s|) else s
  }

  /** The text is the currency, a space and t hundredths, commas aside: the amount rounded half up. */
  ghost predicate Prints(m: Money, currency: string, text: string, rest: string, t: nat)
    requires m.WellFormed()
  {
    && text == currency + " " + rest
    && HalfUp(100 * m.Units(), Pow10(m.Scale()), t)
    && DropCommas(rest) == (if m.sign == "-" && t != 0 then "-" else "") + Point(t, 2)
  }

  lemma PrintsOf(currency: string, m: Money, text: string)
    requires m.WellFormed() && text == MoneyText(currency, m.sign == "-", TotalCents(m))
    ensures exists rest, t :: Prints(m, currency, text, rest, t)
  {
    hide MoneyText, TotalCents, HalfUp, DropCommas, Point;
    var rest, t := MoneyIsHalfUp(currency, m);
    assert Prints(m, currency, text, rest, t);
  }

  /** The printed digits are the exact amount rounded half up to cents, whatever the number of decimals; the
      minus sign appears exactly when the value is negative and the rounded amount is not zero. */
  method FormatDcfExactMoney(value: Option<string>, currency: Option<string>) returns (text: string)
    ensures text ==
            if currency.None? || currency.value == "" || value.None? then "Unavailable"
            else
              match Match(Trim(value.value, IsSpace))
              case None => "Unavailable"
              case Some(m) => MoneyText(currency.value, m.sign == "-", TotalCents(m))
    ensures currency.Some? && currency.value != "" && value.Some? ==>
              forall m: Money | m.WellFormed() && m.Text() == Trim(value.value, IsSpace) ::
                exists rest, t :: Prints(m, currency.value, text, rest, t)
  {
    hide Commas, Spell, PadStart, TotalCents, Match, Trim, Value, StripLeadingZeros, PadEnd, Point, HalfUp, Prints;
    if currency.None? || currency.value == "" || value.None? {
      return "Unavailable";
    }
    var found := Match(Trim(value.value, IsSpace));
    if found.None? {
      return "Unavailable";
    }
    var m := found.value;
    var fraction := PadEnd(m.RawFraction(), 3);
    var wholeDigits := StripLeadingZeros(m.integer);
    var centsValue := Value(fraction[..2]);
    if fraction[2] >= '5' { centsValue := centsValue + 1; }
    ValueBound(fraction[..2]);
    assert Pow10(2) == 100;
    RoundByThirdDecimal(m, fraction);
    if centsValue == 100 {
      centsValue := 0;
      var digits := new char[|wholeDigits|](i requires 0 <= i < |wholeDigits| => wholeDigits[i]);
      assert digits[..] == wholeDigits;
      var carry := Increment(digits);
      wholeDigits := CarriedOut(carry, digits[..], wholeDigits);
    }
    PrintedTotal(wholeDigits, centsValue, TotalCents(m));
    var displaySign := if m.sign == "-" && (wholeDigits != "0" || centsValue != 0) then "-" else "";
    text := currency.value + " " + displaySign + Commas(wholeDigits) + "." + PadStart(Spell(centsValue), 2);
    PrintsOf(currency.value, m, text);
    OnlyCandidate(Trim(value.value, IsSpace));
  }

  /** A carry out of the first digit becomes a new leading one. */
  function CarriedOut(carry: nat, digits: string, before: string): (r: string)
    requires AllDigits(digits) && AllDigits(before) && NoLeadingZero(before) && |digits| == |before| && carry <= 1
    requires carry * Pow10(|digits|) + Value(digits) == Value(before) + 1
    requires carry == 0 && before[0] != '0' ==> digits[0] != '0'
    ensures AllDigits(r) && NoLeadingZero(r) && Value(r) == Value(before) + 1
  {
    ValueConcat("1", digits);
    if carry != 0 then "1" + digits else digits
  }

  lemma PrintedTotal(whole: string, cents: nat, total: nat)
    requires AllDigits(whole) && NoLeadingZero(whole) && cents < 100 && 100 * Value(whole) + cents == total
    ensures whole == Spell(total / 100) && cents == total % 100
    ensures whole != "0" || cents != 0 <==> total != 0
  {
    UniqueSpelling(whole, Spell(total / 100));
    if Value(whole) == 0 { UniqueSpelling(whole, Spell(0)); }
  }

  /** Looking at the third decimal only rounds the whole tail correctly. */
  lemma RoundByThirdDecimal(m: Money, fraction: string)
    requires m.WellFormed() && fraction == PadEnd(m.RawFraction(), 3)
    ensures TotalCents(m) ==
            100 * Value(StripLeadingZeros(m.integer)) + Value(fraction[..2]) + if fraction[2] >= '5' then 1 else 0
  {
    hide RoundDiv, Value, Pow10, HalfUp;
    var whole := Value(m.integer);
    ValueConcat(m.integer, m.RawFraction());
    PadScales(whole, Value(m.RawFraction()), m.Scale(), |fraction| - m.Scale());
    RoundPadded(whole, fraction);
  }

  lemma RoundPadded(whole: nat, f: string)
    requires AllDigits(f) && |f| >= 3
    ensures RoundDiv(100 * (whole * Pow10(|f|) + Value(f)), Pow10(|f|))
         == 100 * whole + Value(f[..2]) + if f[2] >= '5' then 1 else 0
  {
    hide RoundDiv, Value, Pow10, HalfUp;
    var c, t, rest, p := Value(f[..2]), DigitOf(f[2]), Value(f[3..]), Pow10(|f| - 3);
    FirstThreeDecimals(f);
    ValueBound(f[3..]);
    ThousandTimes(|f| - 3);
    NearestCent(whole, c, t, rest, p, if f[2] >= '5' then 1 else 0);
    var d: nat := Pow10(|f|);
    var n: nat := 100 * (whole * d + Value(f));
    RoundDivIsHalfUp(n, d);
  }

  lemma ThousandTimes(n: nat)
    ensures Pow10(n + 3) == 1000 * Pow10(n)
  {
    Pow10Step(n);
    Pow10Step(n + 1);
    Pow10Step(n + 2);
  }

  lemma FirstThreeDecimals(f: string)
    requires AllDigits(f) && |f| >= 3
    ensures Value(f) == (10 * Value(f[..2]) + DigitOf(f[2])) * Pow10(|f| - 3) + Value(f[3..])
  {
    assert f == f[..3] + f[3..];
    ValueConcat(f[..3], f[3..]);
    assert f[..3][..2] == f[..2];
  }

  /** Padding the fraction with zeros rescales numerator and denominator alike. */
  lemma PadScales(whole: nat, f: nat, scale: nat, k: nat)
    ensures RoundDiv(100 * (whole * Pow10(scale) + f), Pow10(scale))
         == RoundDiv(100 * (whole * Pow10(scale + k) + f * Pow10(k)), Pow10(scale + k))
  {
    hide RoundDiv, Pow10;
    Pow10Sum(scale, k);
    var p, q := Pow10(scale), Pow10(k);
    Regroup(whole, p, q);
    var n := whole * p + f;
    assert whole * (p * q) + f * q == n * q;
    Regroup(100 * n, p, q);
    assert (100 * n) * (p * q) == (100 * (n * q)) * p;
    RoundDependsOnQuotient(100 * n, p, 100 * (n * q), p * q);
  }

  lemma NearestCent(whole: nat, c: nat, t: nat, rest: nat, p: nat, up: nat)
    requires t < 10 && rest < p && up == if t >= 5 then 1 else 0
    ensures HalfUp(100 * (whole * (1000 * p) + ((10 * c + t) * p + rest)), 1000 * p, 100 * whole + c + up)
  {
    var wp, cp, tp := whole * p, c * p, t * p;
    assert whole * (1000 * p) == 1000 * wp;
    assert (10 * c + t) * p == 10 * cp + tp;
    assert (100 * whole + c + up) * (1000 * p) == 100000 * wp + 1000 * cp + up * (1000 * p);
    assert t >= 5 ==> 5 * p <= tp;
    assert t < 5 ==> tp <= 4 * p;
    assert tp <= 9 * p;
  }
}
