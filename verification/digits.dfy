/** Decimal digit strings and the numbers they spell. */
module Digits {

  function Pow10(n: nat): (p: nat)
    ensures p >= 1
  {
    if n == 0 then 1 else 10 * Pow10(n - 1)
  }

  lemma {:induction false} Pow10Sum(a: nat, b: nat)
    ensures Pow10(a + b) == Pow10(a) * Pow10(b)
  {
    if b > 0 {
      Pow10Sum(a, b - 1);
      assert Pow10(a + b) == 10 * Pow10(a + (b - 1));
    }
  }

  lemma Pow10Step(n: nat)
    ensures Pow10(n + 1) == 10 * Pow10(n)
  {
  }

  predicate IsDigit(c: char) { '0' <= c <= '9' }

  predicate AllDigits(s: string) { forall i | 0 <= i < |s| :: IsDigit(s[i]) }

  function DigitOf(c: char): nat
    requires IsDigit(c)
  {
    c as int - '0' as int
  }

  function CharOf(d: nat): (c: char)
    requires d < 10
    ensures IsDigit(c) && DigitOf(c) == d
  {
    (d + '0' as int) as char
  }

  /** The number spelled by a digit string, most significant digit first. */
  function Value(s: string): nat
    requires AllDigits(s)
  {
    if s == "" then 0 else 10 * Value(s[..|s| - 1]) + DigitOf(s[|s| - 1])
  }

  lemma TenTimes(v: int, k: int)
    ensures v * (10 * k) == 10 * (v * k)
  {
  }

  lemma {:induction false} ValueConcat(a: string, b: string)
    requires AllDigits(a) && AllDigits(b)
    ensures AllDigits(a + b) && Value(a + b) == Value(a) * Pow10(|b|) + Value(b)
  {
    if b == "" {
      assert a + b == a;
      assert Pow10(0) == 1;
    } else {
      hide Pow10;
      var c := b[..|b| - 1];
      ValueConcat(a, c);
      assert (a + b)[..|a + b| - 1] == a + c;
      Pow10Step(|c|);
      TenTimes(Value(a), Pow10(|c|));
    }
  }

  lemma {:induction false} ValueBound(s: string)
    requires AllDigits(s)
    ensures Value(s) < Pow10(|s|)
  {
    if s != "" { ValueBound(s[..|s| - 1]); }
  }

  lemma {:induction false} ZerosHaveNoValue(s: string)
    requires forall i | 0 <= i < |s| :: s[i] == '0'
    ensures Value(s) == 0
  {
    if s != "" { ZerosHaveNoValue(s[..|s| - 1]); }
  }

  lemma {:induction false} SameLengthSameValue(a: string, b: string)
    requires AllDigits(a) && AllDigits(b) && |a| == |b| && Value(a) == Value(b)
    ensures a == b
  {
    if a != "" {
      var n := |a| - 1;
      assert Value(a[..n]) == Value(b[..n]) && DigitOf(a[n]) == DigitOf(b[n]);
      hide Value;
      SameLengthSameValue(a[..n], b[..n]);
      assert a == a[..n] + [a[n]] && b == b[..n] + [b[n]];
    }
  }

  predicate NoLeadingZero(s: string) { s != "" && (|s| > 1 ==> s[0] != '0') }

  lemma {:induction false} LeadingDigit(s: string)
    requires AllDigits(s) && s != "" && s[0] != '0'
    ensures Pow10(|s| - 1) <= Value(s)
  {
    if |s| > 1 {
      LeadingDigit(s[..|s| - 1]);
    }
  }

  /** Without leading zeros a number has one spelling. */
  lemma UniqueSpelling(a: string, b: string)
    requires AllDigits(a) && AllDigits(b) && NoLeadingZero(a) && NoLeadingZero(b) && Value(a) == Value(b)
    ensures a == b
  {
    if |a| < |b| {
      LongerIsLarger(a, b);
    } else if |b| < |a| {
      LongerIsLarger(b, a);
    } else {
      SameLengthSameValue(a, b);
    }
  }

  lemma LongerIsLarger(a: string, b: string)
    requires AllDigits(a) && AllDigits(b) && NoLeadingZero(b) && |a| < |b| && a != ""
    ensures Value(a) < Value(b)
  {
    ValueBound(a);
    LeadingDigit(b);
    Pow10Monotone(|a|, |b| - 1);
  }

  lemma {:induction false} Pow10Monotone(a: nat, b: nat)
    requires a <= b
    ensures Pow10(a) <= Pow10(b)
  {
    if a < b { Pow10Monotone(a, b - 1); }
  }

  /** The regular expression ^0+(?=\d) replaced by nothing. */
  function StripLeadingZeros(s: string): (r: string)
    requires AllDigits(s)
    ensures AllDigits(r) && |r| <= |s| && Value(r) == Value(s)
    ensures s != "" ==> NoLeadingZero(r)
  {
    if |s| > 1 && s[0] == '0' then
      assert s == s[..1] + s[1..];
      ValueConcat(s[..1], s[1..]);
      ZerosHaveNoValue(s[..1]);
      StripLeadingZeros(s[1..])
    else s
  }

  /** The regular expression 0+$ replaced by nothing. */
  function StripTrailingZeros(s: string): (r: string)
    ensures r <= s && (r != "" ==> r[|r| - 1] != '0')
    ensures forall i | |r| <= i < |s| :: s[i] == '0'
  {
    if s != "" && s[|s| - 1] == '0' then StripTrailingZeros(s[..|s| - 1]) else s
  }

  /** The decimal text of a natural number. */
  function Spell(n: nat): (s: string)
    ensures AllDigits(s) && NoLeadingZero(s) && Value(s) == n
  {
    if n < 10 then [CharOf(n)]
    else
      var s := Spell(n / 10);
      assert (s + [CharOf(n % 10)])[..|s|] == s;
      s + [CharOf(n % 10)]
  }

  function Zeros(n: nat): (s: string)
    ensures |s| == n && AllDigits(s) && (forall i | 0 <= i < n :: s[i] == '0') && Value(s) == 0
  {
    var s := seq(n, _ => '0');
    ZerosHaveNoValue(s);
    s
  }

  function PadStart(s: string, n: nat): (r: string)
    requires AllDigits(s)
    ensures AllDigits(r) && |r| == (if |s| < n then n else |s|) && Value(r) == Value(s)
  {
    if |s| < n then ValueConcat(Zeros(n - |s|), s); Zeros(n - |s|) + s else s
  }

  /** Comma before every position that has a positive multiple of three digits to its right. */
  function Commas(s: string): string {
    if s == "" then ""
    else if |s| > 1 && (|s| - 1) % 3 == 0 then [s[0], ','] + Commas(s[1..])
    else [s[0]] + Commas(s[1..])
  }

  function DropCommas(s: string): string {
    if s == "" then "" else (if s[0] == ',' then "" else [s[0]]) + DropCommas(s[1..])
  }

  lemma {:induction false} CommasCanBeDropped(s: string)
    requires AllDigits(s)
    ensures DropCommas(Commas(s)) == s
  {
    if s != "" {
      hide Commas, DropCommas;
      var rest := Commas(s[1..]);
      CommasCanBeDropped(s[1..]);
      NextComma(s);
      DropFirst(s[0], rest);
      DropFirst(s[0], [','] + rest);
      DropFirst(',', rest);
      assert s == [s[0]] + s[1..];
      assert [s[0], ','] + rest == [s[0]] + ([','] + rest);
    }
  }

  lemma DropFirst(c: char, t: string)
    ensures DropCommas([c] + t) == if c == ',' then DropCommas(t) else [c] + DropCommas(t)
  {
    assert ([c] + t)[1..] == t;
  }

  /** A comma stands before every third digit from the right, and nowhere else. */
  lemma {:induction false} CommaEveryThird(s: string)
    requires AllDigits(s) && s != ""
    ensures |Commas(s)| == |s| + (|s| - 1) / 3
    ensures forall i | 0 <= i < |Commas(s)| :: Commas(s)[i] == ',' <==> (|Commas(s)| - i) % 4 == 0
  {
    hide Commas;
    NextComma(s);
    if |s| > 1 {
      var tail := Commas(s[1..]);
      CommaEveryThird(s[1..]);
      if |tail| % 4 == 3 {
        CommaInFront(',', tail);
        CommaInFront(s[0], [','] + tail);
        assert Commas(s) == [s[0]] + ([','] + tail);
      } else {
        CommaInFront(s[0], tail);
      }
    }
  }

  lemma NextComma(s: string)
    requires s != ""
    ensures |s| == 1 ==> Commas(s) == s && Commas(s[1..]) == ""
    ensures |s| > 1 ==>
              Commas(s) == if (|s| - 1) % 3 == 0 then [s[0], ','] + Commas(s[1..]) else [s[0]] + Commas(s[1..])
  {
    if |s| == 1 { assert s[1..] == "" && Commas(s[1..]) == ""; }
  }

  lemma CommaInFront(c: char, t: string)
    requires c == ',' <==> |t| % 4 == 3
    requires forall i | 0 <= i < |t| :: t[i] == ',' <==> (|t| - i) % 4 == 0
    ensures forall i | 0 <= i < |[c] + t| :: ([c] + t)[i] == ',' <==> (|[c] + t| - i) % 4 == 0
  {
    assert forall i | 0 < i < |[c] + t| :: ([c] + t)[i] == t[i - 1];
  }

  lemma MulMonotone(a: int, b: int, d: nat)
    requires a <= b
    ensures a * d <= b * d
  {
  }

  lemma OneMoreTime(v: int, d: int)
    ensures (v + 1) * d == v * d + d
  {
  }

  lemma Regroup(a: int, b: int, c: int)
    ensures a * (b * c) == (a * c) * b == (a * b) * c
  {
  }

  lemma Cancel(a: int, b: int, d: nat)
    requires d > 0 && a * d == b * d
    ensures a == b
  {
    if a < b {
      MulMonotone(a + 1, b, d);
    } else if b < a {
      MulMonotone(b + 1, a, d);
    }
  }

  /** Quotient and remainder. */
  function DivMod(t: nat, d: nat): (r: (nat, nat))
    requires d > 0
    ensures r.0 * d + r.1 == t && r.1 < d
  {
    (t / d, t % d)
  }

  /** Quotient and remainder are unique. */
  lemma DivisionIsUnique(d: nat, q1: nat, r1: nat, q2: nat, r2: nat)
    requires r1 < d && r2 < d && q1 * d + r1 == q2 * d + r2
    ensures q1 == q2 && r1 == r2
  {
    if q1 < q2 {
      MulMonotone(q1 + 1, q2, d);
    } else if q2 < q1 {
      MulMonotone(q2 + 1, q1, d);
    }
  }
}
