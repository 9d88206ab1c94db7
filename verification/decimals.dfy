/** Exact decimals as text: parsing, canonical form and printing, as in frontend/lib/financialHistory.js,
    frontend/lib/financialTrends.js and frontend/lib/businessEconomics.js. */
module Decimals {
  import opened Prelude
  import opened Digits

  const MAX_LENGTH := 256

  /** The pieces of an accepted text: -?\d+(\.\d+)? */
  datatype Parts = Parts(negative: bool, integer: string, fraction: string) {
    predicate WellFormed() { integer != "" && AllDigits(integer) && AllDigits(fraction) }

    function Body(): string { if fraction == "" then integer else integer + "." + fraction }

    function Text(): string { if negative then "-" + Body() else Body() }

    function Number(): Fixed
      requires WellFormed()
    {
      ValueConcat(integer, fraction);
      var magnitude: int := Value(integer + fraction);
      Fixed(if negative then -magnitude else magnitude, |fraction|)
    }

    predicate Canonical() {
      && WellFormed()
      && NoLeadingZero(integer)
      && (fraction != "" ==> fraction[|fraction| - 1] != '0')
      && (negative ==> integer != "0" || fraction != "")
    }
  }

  /** The rational n / 10^scale. */
  datatype Fixed = Fixed(n: int, scale: nat)

  ghost predicate Same(a: Fixed, b: Fixed) { a.n * Pow10(b.scale) == b.n * Pow10(a.scale) }

  ghost predicate Accepted(s: string) {
    |s| <= MAX_LENGTH && exists p: Parts :: p.WellFormed() && p.Text() == s
  }

  /** The candidate reading of a text: an optional sign, the part before the first dot, the part after it. */
  function Split(exact: string): (p: Parts) {
    var negative := exact != "" && exact[0] == '-';
    var body := if negative then exact[1..] else exact;
    var dot := IndexOf(body, '.');
    Parts(negative, body[..dot], if dot < |body| then body[dot + 1..] else "")
  }

  function DecimalParts(exact: string): (r: Option<Parts>)
    ensures r.Some? ==> r.value.WellFormed() && r.value.Text() == exact
    ensures r.Some? <==> Accepted(exact)
  {
    var p := Split(exact);
    // a dot that ends the text leaves p.Text() one character short of it
    SplitIsTheOnlyReading(exact);
    if |exact| <= MAX_LENGTH && p.WellFormed() && p.Text() == exact then Some(p) else None
  }

  /** -?, digits, and optionally a dot and digits. */
  ghost predicate Pattern(s: string, sign: string, whole: string, tail: string) {
    && s == sign + whole + tail && (sign == "" || sign == "-") && whole != "" && AllDigits(whole)
    && (tail == "" || (|tail| > 1 && tail[0] == '.' && AllDigits(tail[1..])))
  }

  /** The accepted texts are those of at most 256 characters that have this pattern. */
  lemma AcceptedPattern(exact: string)
    ensures DecimalParts(exact).Some?
            <==> |exact| <= 256 && exists sign, whole, tail :: Pattern(exact, sign, whole, tail)
  {
    hide Pattern, Split;
    if Accepted(exact) {
      var p: Parts :| p.WellFormed() && p.Text() == exact;
      TextHasPattern(p);
    }
    if sign, whole, tail :| Pattern(exact, sign, whole, tail) {
      var p := PatternIsText(exact, sign, whole, tail);
    }
  }

  lemma TextHasPattern(p: Parts)
    requires p.WellFormed()
    ensures exists sign, tail :: Pattern(p.Text(), sign, p.integer, tail)
  {
    var sign := if p.negative then "-" else "";
    if p.fraction == "" {
      assert p.Text() == sign + p.integer + "";
      assert Pattern(p.Text(), sign, p.integer, "");
    } else {
      var tail := "." + p.fraction;
      assert tail[1..] == p.fraction && p.Text() == sign + p.integer + tail;
      assert Pattern(p.Text(), sign, p.integer, tail);
    }
  }

  lemma PatternIsText(s: string, sign: string, whole: string, tail: string) returns (p: Parts)
    requires Pattern(s, sign, whole, tail)
    ensures p.WellFormed() && p.Text() == s
  {
    p := Parts(sign == "-", whole, if tail == "" then "" else tail[1..]);
    assert tail != "" ==> tail == "." + tail[1..];
  }

  lemma SplitIsTheOnlyReading(exact: string)
    ensures forall p: Parts | p.WellFormed() && p.Text() == exact :: p == Split(exact)
  {
    forall p: Parts | p.WellFormed() && p.Text() == exact ensures p == Split(exact) {
      SplitOfText(p);
    }
  }

  /** An accepted text has one reading: the sign is its first character, the dot its only dot. */
  lemma SplitOfText(p: Parts)
    requires p.WellFormed()
    ensures Split(p.Text()) == p
  {
    DotOfBody(p);
    var body := p.Body();
    assert IsDigit(body[0]) && p.negative == (p.Text()[0] == '-');
    assert body == if p.negative then p.Text()[1..] else p.Text();
  }

  lemma DotOfBody(p: Parts)
    requires p.WellFormed()
    ensures p.Body()[..|p.integer|] == p.integer && IndexOf(p.Body(), '.') == |p.integer|
    ensures p.fraction != "" <==> |p.integer| < |p.Body()|
    ensures p.fraction != "" ==> p.Body()[|p.integer| + 1..] == p.fraction
  {
    var body := p.Body();
    assert forall i | 0 <= i < |p.integer| :: body[i] == p.integer[i];
    assert forall i | 0 <= i < |p.integer| :: IsDigit(body[i]);
    if p.fraction != "" {
      assert body[|p.integer|] == '.';
    }
  }

  lemma PartsOfText(p: Parts)
    requires p.WellFormed() && |p.Text()| <= MAX_LENGTH
    ensures DecimalParts(p.Text()) == Some(p)
  {
    SplitOfText(p);
  }

  /** `decimal` of financialTrends.js: the sign is carried by BigInt, so "-0" is plain zero. */
  function Decimal(value: string): Option<Fixed> {
    match DecimalParts(value)
    case None => None
    case Some(p) => Some(p.Number())
  }

  function Canonicalize(p: Parts): (c: Parts)
    requires p.WellFormed()
    ensures c.WellFormed()
  {
    var integer := StripLeadingZeros(p.integer);
    var fraction := StripTrailingZeros(p.fraction);
    Parts(p.negative && (integer != "0" || fraction != ""), integer, fraction)
  }

  function CanonicalDecimal(exact: string): Option<string> {
    match DecimalParts(exact)
    case None => None
    case Some(p) => Some(Canonicalize(p).Text())
  }

  lemma CanonicalizeKeepsNumber(p: Parts)
    requires p.WellFormed()
    ensures Canonicalize(p).Canonical()
    ensures Same(Canonicalize(p).Number(), p.Number())
    ensures |Canonicalize(p).Text()| <= |p.Text()|
  {
    hide Pow10, Value;
    var c := Canonicalize(p);
    var k := |p.fraction| - |c.fraction|;
    StrippedMagnitude(p.integer, p.fraction);
    var m: int, n := Value(c.integer + c.fraction), c.Number().n;
    if p.negative && !c.negative {
      assert c.integer + c.fraction == "0";
      UnsignedZero();
    }
    assert p.Number().n == n * Pow10(k) by {
      if p.negative { Negate(m, Pow10(k)); }
    }
    Pow10Sum(|c.fraction|, k);
    Regroup(n, Pow10(|c.fraction|), Pow10(k));
  }

  lemma UnsignedZero()
    ensures Value("0") == 0 && forall k: nat :: 0 * Pow10(k) == 0
  {
  }

  lemma Negate(m: int, k: int)
    ensures (-m) * k == -(m * k)
  {
  }

  lemma StrippedMagnitude(integer: string, fraction: string)
    requires AllDigits(integer) && AllDigits(fraction)
    ensures var i, f := StripLeadingZeros(integer), StripTrailingZeros(fraction);
            && AllDigits(i + f)
            && Value(integer + fraction) == Value(i + f) * Pow10(|fraction| - |f|)
  {
    hide Pow10, Value;
    var i, f := StripLeadingZeros(integer), StripTrailingZeros(fraction);
    var zeros := fraction[|f|..];
    assert integer + fraction == (integer + f) + zeros;
    ValueConcat(integer + f, zeros);
    ZerosHaveNoValue(zeros);
    ValueConcat(integer, f);
    ValueConcat(i, f);
  }

  /** A rational has one canonical spelling. */
  lemma CanonicalPartsAreUnique(p: Parts, q: Parts)
    requires p.Canonical() && q.Canonical() && Same(p.Number(), q.Number())
    ensures p == q
  {
    NoFinerScale(p, q);
    NoFinerScale(q, p);
    var s := |p.fraction|;
    assert s == |q.fraction|;
    Cancel(p.Number().n, q.Number().n, Pow10(s));
    ZeroIsUnsigned(p);
    ZeroIsUnsigned(q);
    ValueConcat(p.integer, p.fraction);
    ValueConcat(q.integer, q.fraction);
    ValueBound(p.fraction);
    ValueBound(q.fraction);
    DivisionIsUnique(Pow10(s), Value(p.integer), Value(p.fraction), Value(q.integer), Value(q.fraction));
    SameLengthSameValue(p.fraction, q.fraction);
    UniqueSpelling(p.integer, q.integer);
  }

  /** The last digit of a canonical fraction is not zero, so no smaller scale denotes the same rational. */
  lemma NoFinerScale(p: Parts, q: Parts)
    requires p.Canonical() && q.Canonical() && Same(p.Number(), q.Number())
    ensures |p.fraction| <= |q.fraction|
  {
    hide Value;
    var a, b, s, t := p.Number().n, q.Number().n, |p.fraction|, |q.fraction|;
    if t < s {
      FinerScale(a, b, s, t);
      LastDigit(p.integer, p.fraction);
    }
  }

  lemma FinerScale(a: int, b: int, s: nat, t: nat)
    requires t < s && a * Pow10(t) == b * Pow10(s)
    ensures a % 10 == 0
  {
    hide Pow10;
    var c := b * Pow10(s - t - 1);
    Pow10Sum(t, s - t);
    Pow10Step(s - t - 1);
    Regroup(b, Pow10(t), Pow10(s - t));
    Regroup(b, 10, Pow10(s - t - 1));
    Cancel(a, 10 * c, Pow10(t));
  }

  lemma LastDigit(integer: string, fraction: string)
    requires AllDigits(integer) && AllDigits(fraction) && fraction != "" && fraction[|fraction| - 1] != '0'
    ensures AllDigits(integer + fraction) && Value(integer + fraction) % 10 != 0
  {
    var whole := integer + fraction;
    assert whole[|whole| - 1] == fraction[|fraction| - 1];
  }

  lemma ZeroIsUnsigned(p: Parts)
    requires p.Canonical()
    ensures p.negative <==> p.Number().n < 0
  {
    if p.negative {
      if p.fraction != "" {
        LastDigit(p.integer, p.fraction);
      } else {
        assert p.integer + p.fraction == p.integer;
        if Value(p.integer) == 0 {
          UniqueSpelling(p.integer, "0");
        }
      }
    }
  }

  /** Two accepted texts have equal canonical forms exactly when they denote the same rational. */
  lemma CanonicalIffSame(s: string, t: string)
    requires Accepted(s) && Accepted(t)
    ensures CanonicalDecimal(s) == CanonicalDecimal(t) <==> Same(Decimal(s).value, Decimal(t).value)
  {
    var p, q := DecimalParts(s).value, DecimalParts(t).value;
    var c, d := Canonicalize(p), Canonicalize(q);
    CanonicalizeKeepsNumber(p);
    CanonicalizeKeepsNumber(q);
    if c.Text() == d.Text() {
      SplitOfText(c);
      SplitOfText(d);
      assert c == d;
      SameSymmetric(p.Number(), c.Number());
      SameTransitive(p.Number(), c.Number(), q.Number());
    }
    if Same(p.Number(), q.Number()) {
      SameTransitive(c.Number(), p.Number(), q.Number());
      SameTransitive(c.Number(), q.Number(), d.Number());
      CanonicalPartsAreUnique(c, d);
    }
  }

  lemma SameSymmetric(a: Fixed, b: Fixed)
    ensures Same(a, b) <==> Same(b, a)
  {
  }

  lemma SameTransitive(a: Fixed, b: Fixed, c: Fixed)
    requires Same(a, b) && Same(b, c)
    ensures Same(a, c)
  {
    CrossTransitive(a.n, b.n, c.n, Pow10(a.scale), Pow10(b.scale), Pow10(c.scale));
  }

  lemma CrossTransitive(a: int, b: int, c: int, x: nat, y: nat, z: nat)
    requires y > 0 && a * y == b * x && b * z == c * y
    ensures a * z == c * x
  {
    Regroup(a, y, z);
    Regroup(b, x, z);
    Regroup(c, y, x);
    assert (a * z) * y == (a * y) * z && (c * x) * y == (c * y) * x && (b * z) * x == (b * x) * z;
    Cancel(a * z, c * x, y);
  }

  /** Canonicalizing twice changes nothing, and keeps the number. */
  lemma CanonicalIsIdempotent(s: string)
    requires Accepted(s)
    ensures Accepted(CanonicalDecimal(s).value)
    ensures CanonicalDecimal(CanonicalDecimal(s).value) == CanonicalDecimal(s)
    ensures Same(Decimal(CanonicalDecimal(s).value).value, Decimal(s).value)
  {
    var p := DecimalParts(s).value;
    CanonicalizeKeepsNumber(p);
    PartsOfText(Canonicalize(p));
    CanonicalIffSame(CanonicalDecimal(s).value, s);
  }

  // ----- printing

  /** The regular expression \.?0+$ replaced by nothing. */
  function DropZeroTail(s: string): string {
    var kept := StripTrailingZeros(s);
    if |kept| < |s| && kept != "" && kept[|kept| - 1] == '.' then kept[..|kept| - 1] else kept
  }

  function Magnitude(n: int): nat { if n < 0 then -n else n }

  /** `exact` of businessEconomics.js. */
  function Exact(n: int, scale: nat): string {
    var sign := if n < 0 then "-" else "";
    if scale == 0 then sign + Spell(Magnitude(n))
    else
      var digits := PadStart(Spell(Magnitude(n)), scale + 1);
      var kept := DropZeroTail(sign + digits[..|digits| - scale] + "." + digits[|digits| - scale..]);
      if kept == "" then "0" else kept
  }

  /** What `exact` prints is the canonical text of n / 10^scale. */
  lemma ExactIsCanonical(n: int, scale: nat) returns (p: Parts)
    ensures p.Canonical() && Exact(n, scale) == p.Text() && Same(p.Number(), Fixed(n, scale))
  {
    hide Value, Pow10, DropZeroTail, Spell, StripTrailingZeros, PadStart, Canonicalize;
    if scale == 0 {
      p := WholeParts(n);
    } else {
      var raw := RawParts(n, scale);
      RawPartsDenote(n, scale);
      DropZeroTailOfText(raw);
      SignSurvives(raw);
      p := Canonicalize(raw);
      CanonicalizeKeepsNumber(raw);
    }
  }

  lemma WholeParts(n: int) returns (p: Parts)
    ensures p.Canonical() && Exact(n, 0) == p.Text() && p.Number() == Fixed(n, 0)
  {
    p := Parts(n < 0, Spell(Magnitude(n)), "");
    assert p.integer + "" == p.integer;
  }

  /** The text that `exact` builds before it drops the zero tail. */
  function RawParts(n: int, scale: nat): (raw: Parts)
    requires scale > 0
    ensures raw.WellFormed() && NoLeadingZero(raw.integer) && |raw.fraction| == scale
    ensures raw.negative ==> n < 0
  {
    var digits := PadStart(Spell(Magnitude(n)), scale + 1);
    Parts(n < 0, digits[..|digits| - scale], digits[|digits| - scale..])
  }

  lemma RawPartsDenote(n: int, scale: nat)
    requires scale > 0
    ensures var raw := RawParts(n, scale);
            && raw.Number() == Fixed(n, scale)
            && (raw.negative ==> Value(raw.integer + raw.fraction) > 0)
            && Exact(n, scale) == (if DropZeroTail(raw.Text()) == "" then "0" else DropZeroTail(raw.Text()))
  {
    hide Value, Pow10, DropZeroTail, Spell, PadStart;
    var raw := RawParts(n, scale);
    assert raw.integer + raw.fraction == PadStart(Spell(Magnitude(n)), scale + 1);
    assert raw.Text() == (if n < 0 then "-" else "") + raw.integer + "." + raw.fraction;
  }

  lemma SignSurvives(raw: Parts)
    requires raw.WellFormed() && NoLeadingZero(raw.integer)
    requires raw.negative ==> Value(raw.integer + raw.fraction) > 0
    ensures Canonicalize(raw) == raw.(fraction := StripTrailingZeros(raw.fraction))
  {
    if raw.negative && raw.integer == "0" && StripTrailingZeros(raw.fraction) == "" {
      ZerosHaveNoValue(raw.integer + raw.fraction);
    }
  }

  lemma DropZeroTailOfText(p: Parts)
    requires p.WellFormed() && p.fraction != ""
    ensures DropZeroTail(p.Text()) == p.(fraction := StripTrailingZeros(p.fraction)).Text()
  {
    var front := (if p.negative then "-" else "") + p.integer;
    assert p.Text() == (front + ".") + p.fraction;
    assert p.(fraction := "").Text() == front;
    DropZeroTailAfterDot(front, p.fraction);
  }

  lemma DropZeroTailAfterDot(front: string, fraction: string)
    requires fraction != "" && AllDigits(fraction)
    ensures var kept := StripTrailingZeros(fraction);
            DropZeroTail((front + ".") + fraction) == if kept == "" then front else (front + ".") + kept
  {
    hide StripTrailingZeros;
    var head, kept := front + ".", StripTrailingZeros(fraction);
    StripAfter(head, fraction);
    if kept == "" {
      assert head + kept == head && head[..|front|] == front;
    } else {
      assert (head + kept)[|head + kept| - 1] == kept[|kept| - 1];
      assert IsDigit(fraction[|kept| - 1]);
    }
  }

  lemma {:induction false} StripAfter(head: string, s: string)
    requires head != "" && head[|head| - 1] != '0'
    ensures StripTrailingZeros(head + s) == head + StripTrailingZeros(s)
  {
    if s == "" {
      assert head + s == head;
    } else {
      var n := |s| - 1;
      assert (head + s)[..|head + s| - 1] == head + s[..n];
      StripAfter(head, s[..n]);
    }
  }

  /** Print and parse undo each other, exactly when the text fits into the accepted length. */
  lemma PrintThenParse(n: int, scale: nat)
    ensures Decimal(Exact(n, scale)).Some? <==> |Exact(n, scale)| <= 256
    ensures |Exact(n, scale)| <= 256 ==>
              && Same(Decimal(Exact(n, scale)).value, Fixed(n, scale))
              && CanonicalDecimal(Exact(n, scale)) == Some(Exact(n, scale))
  {
    var p := ExactIsCanonical(n, scale);
    if |p.Text()| <= MAX_LENGTH {
      PartsOfText(p);
      CanonicalizeKeepsNumber(p);
      CanonicalPartsAreUnique(Canonicalize(p), p);
    }
  }

  /** Parse and print undo each other up to the canonical form. */
  lemma ParseThenPrint(s: string)
    requires Accepted(s)
    ensures Exact(Decimal(s).value.n, Decimal(s).value.scale) == CanonicalDecimal(s).value
  {
    var p, v := DecimalParts(s).value, Decimal(s).value;
    var q := ExactIsCanonical(v.n, v.scale);
    CanonicalizeKeepsNumber(p);
    SameSymmetric(Canonicalize(p).Number(), v);
    SameTransitive(q.Number(), v, Canonicalize(p).Number());
    CanonicalPartsAreUnique(q, Canonicalize(p));
  }

  // ----- aligned values

  /** Two numbers brought to the larger of their scales: `aligned` and `numbers`. */
  function Align(a: Fixed, b: Fixed): (int, int, nat) {
    var scale := if a.scale >= b.scale then a.scale else b.scale;
    (a.n * Pow10(scale - a.scale), b.n * Pow10(scale - b.scale), scale)
  }

  lemma AlignKeepsNumbers(a: Fixed, b: Fixed)
    ensures var (x, y, scale) := Align(a, b); Same(Fixed(x, scale), a) && Same(Fixed(y, scale), b)
  {
    hide Pow10;
    var (x, y, scale) := Align(a, b);
    RescaleKeepsNumber(a, scale);
    RescaleKeepsNumber(b, scale);
  }

  lemma RescaleKeepsNumber(a: Fixed, scale: nat)
    requires a.scale <= scale
    ensures Same(Fixed(a.n * Pow10(scale - a.scale), scale), a)
  {
    hide Pow10;
    Pow10Sum(scale - a.scale, a.scale);
    Regroup(a.n, Pow10(scale - a.scale), Pow10(a.scale));
  }

  /** `valueExact` of a difference. */
  function DifferenceExact(a: Fixed, b: Fixed): string {
    var (x, y, scale) := Align(a, b);
    Exact(x - y, scale)
  }

  /** It is the canonical text of a - b, whatever scales the inputs had: x/10^s - y/10^t brought over 10^(s+t). */
  lemma DifferenceIsExact(a: Fixed, b: Fixed) returns (p: Parts)
    ensures p.Canonical() && DifferenceExact(a, b) == p.Text()
    ensures p.Number().n * Pow10(a.scale + b.scale)
            == (a.n * Pow10(b.scale) - b.n * Pow10(a.scale)) * Pow10(p.Number().scale)
  {
    hide Pow10, Exact;
    var (x, y, scale) := Align(a, b);
    p := ExactIsCanonical(x - y, scale);
    AlignKeepsNumbers(a, b);
    AlignedDifference(a, b, x, y, scale);
    SameTransitive(p.Number(), Fixed(x - y, scale), CrossedDifference(a, b));
  }

  /** a - b over the product of the denominators. */
  function CrossedDifference(a: Fixed, b: Fixed): Fixed {
    Fixed(a.n * Pow10(b.scale) - b.n * Pow10(a.scale), a.scale + b.scale)
  }

  lemma AlignedDifference(a: Fixed, b: Fixed, x: int, y: int, scale: nat)
    requires Same(Fixed(x, scale), a) && Same(Fixed(y, scale), b)
    ensures Same(Fixed(x - y, scale), CrossedDifference(a, b))
  {
    hide Pow10;
    Pow10Sum(a.scale, b.scale);
  }

}
