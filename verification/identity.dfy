/** First-boot identity of rate-guard/app/identity.py: validation of the identity file, and concurrent boots that
    race to create it.  A write becomes visible one longer prefix at a time. */
module Identity {
  import opened Prelude

  // ----- validation

  predicate IsLowerHex(c: char) { '0' <= c <= '9' || 'a' <= c <= 'f' }

  lemma HexDigits(c: char)
    ensures IsLowerHex(c) <==> c in "0123456789abcdef"
  {
  }

  predicate IsHex(c: char) { IsLowerHex(c) || 'A' <= c <= 'F' }

  function LowerDigit(c: char): (r: char)
    requires IsHex(c)
    ensures IsLowerHex(r) && (IsLowerHex(c) ==> r == c)
  {
    if 'A' <= c <= 'F' then c - 'A' + 'a' else c
  }

  function Lower(s: string): (r: string)
    requires forall i | 0 <= i < |s| :: IsHex(s[i])
    ensures |r| == |s| && forall i | 0 <= i < |r| :: IsLowerHex(r[i])
    ensures (forall i | 0 <= i < |s| :: IsLowerHex(s[i])) ==> r == s
  {
    seq(|s|, i requires 0 <= i < |s| => LowerDigit(s[i]))
  }

  /** str.replace(pattern, ""). */
  function Remove(s: string, pattern: string): string
    requires pattern != ""
  {
    if |s| < |pattern| then s
    else if s[..|pattern|] == pattern then Remove(s[|pattern|..], pattern)
    else [s[0]] + Remove(s[1..], pattern)
  }

  /** The 32 hexadecimal digits that uuid.UUID reads out of a text.  The texts with other characters that Python's
      int() takes besides ("_", "+", "0x") are not read here; none of them is the canonical form of a UUID, so
      the caller rejects them either way. */
  function UuidDigits(value: string): Option<string> {
    var bare := Remove(Remove(value, "urn:"), "uuid:");
    var hex := Remove(Trim(bare, c => c == '{' || c == '}'), "-");
    if |hex| == 32 && forall i | 0 <= i < |hex| :: IsHex(hex[i]) then Some(Lower(hex)) else None
  }

  /** str(UUID): section 3 of RFC 4122. */
  function Render(h: string): string
    requires |h| == 32
  {
    h[..8] + "-" + h[8..12] + "-" + h[12..16] + "-" + h[16..20] + "-" + h[20..]
  }

  predicate IsAsciiSpace(c: char) { '\t' <= c <= '\r' || '\U{1C}' <= c <= ' ' }

  /** The ASCII white space that str.strip() removes, by code point. */
  lemma SpaceCodePoints(c: char)
    ensures IsAsciiSpace(c) <==> c as int in {9, 10, 11, 12, 13, 28, 29, 30, 31, 32}
  {
  }

  function ValidatedIdentity(raw: string): Option<string> {
    var value := Trim(raw, IsAsciiSpace);
    match UuidDigits(value)
    case None => None
    case Some(digits) => if value == Render(digits) then Some(value) else None
  }

  predicate Canonical(s: string) {
    && |s| == 36
    && forall i | 0 <= i < 36 :: if i == 8 || i == 13 || i == 18 || i == 23 then s[i] == '-' else IsLowerHex(s[i])
  }

  /** Only the canonical form passes, surrounded by white space or not. */
  lemma ValidatedIffCanonical(raw: string)
    ensures var value := Trim(raw, IsAsciiSpace);
            ValidatedIdentity(raw) == if Canonical(value) then Some(value) else None
  {
    hide Trim, UuidDigits, Render, Canonical;
    var value := Trim(raw, IsAsciiSpace);
    if Canonical(value) {
      CanonicalIsRead(value);
    }
    if UuidDigits(value).Some? {
      DigitsRenderCanonically(value);
    }
  }

  lemma DigitsRenderCanonically(value: string)
    requires UuidDigits(value).Some?
    ensures Canonical(Render(UuidDigits(value).value))
  {
    hide Remove, Trim;
  }

  lemma CanonicalIsRead(v: string)
    requires Canonical(v)
    ensures UuidDigits(v).Some? && Render(UuidDigits(v).value) == v
  {
    hide Remove;
    RemoveAbsent(v, "urn:", ':');
    RemoveAbsent(v, "uuid:", ':');
    assert !IsLowerHex('{') && !IsLowerHex('}');
    assert IsLowerHex(v[0]) && IsLowerHex(v[35]);
    assert Trim(v, c => c == '{' || c == '}') == v;
    var h := v[..8] + v[9..13] + v[14..18] + v[19..23] + v[24..];
    assert forall i | 0 <= i < 32 :: IsLowerHex(h[i]);
    assert h[..8] == v[..8] && h[8..12] == v[9..13] && h[12..16] == v[14..18] && h[16..20] == v[19..23]
           && h[20..] == v[24..];
    assert Render(h) == v;
    DashesComeOff(h);
  }

  lemma DashesComeOff(h: string)
    requires |h| == 32 && '-' !in h
    ensures Remove(Render(h), "-") == h
  {
    hide Remove;
    var a, b, c, d, e := h[..8], h[8..12], h[12..16], h[16..20], h[20..];
    assert Render(h) == a + ("-" + (b + ("-" + (c + ("-" + (d + ("-" + e)))))));
    RemoveDash(a, b + ("-" + (c + ("-" + (d + ("-" + e))))));
    RemoveDash(b, c + ("-" + (d + ("-" + e))));
    RemoveDash(c, d + ("-" + e));
    RemoveDash(d, e);
    RemoveAbsent(e, "-", '-');
    assert h == a + (b + (c + (d + e)));
  }

  lemma {:induction false} RemoveAbsent(s: string, pattern: string, c: char)
    requires c in pattern && c !in s
    ensures Remove(s, pattern) == s
  {
    if |s| >= |pattern| {
      assert c !in s[..|pattern|];
      RemoveAbsent(s[1..], pattern, c);
    }
  }

  lemma {:induction false} RemoveDash(a: string, rest: string)
    requires '-' !in a
    ensures Remove(a + ("-" + rest), "-") == a + Remove(rest, "-")
  {
    var s := a + ("-" + rest);
    if a == "" {
      assert s[..1] == "-" && s[1..] == rest;
    } else {
      RemoveDash(a[1..], rest);
      assert s[..1] == [a[0]] && s[1..] == a[1..] + ("-" + rest);
    }
  }

  // ----- concurrent boots

  /** What a boot is about to do. */
  datatype Boot =
    | Reading                          // first read of the identity file
    | Opening(id: string)              // it was missing; open it exclusively to store `id`
    | Rereading                        // somebody else created it meanwhile
    | Writing(id: string, count: nat)  // `count` characters of the text are visible
    | Returned(id: string)
    | Raised

  datatype State = State(file: Option<string>, boots: seq<Boot>)

  predicate IsUuid4(id: string) {
    Canonical(id) && id[14] == '4' && id[19] in "89ab"
  }

  predicate Hex(s: string, n: nat) { |s| == n && forall i | 0 <= i < n :: IsLowerHex(s[i]) }

  /** The pattern [0-9a-f]{8}-[0-9a-f]{4}-4[0-9a-f]{3}-[89ab][0-9a-f]{3}-[0-9a-f]{12}. */
  lemma UuidPattern(id: string)
    ensures IsUuid4(id) <==>
              exists a, b, c, v, d, e ::
                && id == a + "-" + b + "-4" + c + "-" + [v] + d + "-" + e
                && Hex(a, 8) && Hex(b, 4) && Hex(c, 3) && v in "89ab" && Hex(d, 3) && Hex(e, 12)
  {
    if IsUuid4(id) {
      var a, b, c, v, d, e := id[..8], id[9..13], id[15..18], id[19], id[20..23], id[24..];
      assert id == a + "-" + b + "-4" + c + "-" + [v] + d + "-" + e;
      assert Hex(a, 8) && Hex(b, 4) && Hex(c, 3) && Hex(d, 3) && Hex(e, 12);
    }
  }

  function Content(id: string): string { id + "\n" }

  function AfterRead(content: string): Boot {
    match ValidatedIdentity(content)
    case Some(id) => Returned(id)
    case None => Raised
  }

  datatype Action = Read(drawn: string) | Open | Reread | Write(count: nat) | Finish | FailWrite

  predicate Enabled(s: State, i: nat, action: Action) {
    && i < |s.boots|
    && match action
       case Read(drawn) => s.boots[i].Reading? && IsUuid4(drawn)
       case Open => s.boots[i].Opening?
       case Reread => s.boots[i].Rereading?
       case Write(count) => s.boots[i].Writing? && s.boots[i].count < count <= |Content(s.boots[i].id)|
       case Finish => s.boots[i].Writing? && s.boots[i].count == |Content(s.boots[i].id)|
       case FailWrite => s.boots[i].Writing?
  }

  /** One atomic step of boot i. */
  function Next(s: State, i: nat, action: Action): State
    requires Enabled(s, i, action)
  {
    match action
    case Read(drawn) =>
      s.(boots := s.boots[i := if s.file.None? then Opening(drawn) else AfterRead(s.file.value)])
    case Open =>
      if s.file.None? then State(Some(""), s.boots[i := Writing(s.boots[i].id, 0)])
      else s.(boots := s.boots[i := Rereading])
    case Reread =>
      s.(boots := s.boots[i := if s.file.None? then Raised else AfterRead(s.file.value)])
    case Write(count) =>
      State(Some(Content(s.boots[i].id)[..count]), s.boots[i := s.boots[i].(count := count)])
    case Finish =>
      s.(boots := s.boots[i := Returned(s.boots[i].id)])
    case FailWrite =>
      State(None, s.boots[i := Raised])
  }

  ghost predicate Initial(s: State) { forall i | 0 <= i < |s.boots| :: s.boots[i] == Reading }

  /** Writes fail, if at all, while fewer than `limit` characters are visible. */
  predicate FailsBelow(s: State, i: nat, action: Action, limit: nat)
    requires Enabled(s, i, action)
  {
    action.FailWrite? ==> s.boots[i].count < limit
  }

  ghost predicate CanStep(s: State, t: State, limit: nat) {
    exists i: nat, action :: Enabled(s, i, action) && FailsBelow(s, i, action, limit) && t == Next(s, i, action)
  }

  /** States of a run of concurrent boots. */
  ghost predicate Run(trace: seq<State>, limit: nat) {
    trace != [] && Initial(trace[0]) && Steps(trace, limit)
  }

  ghost predicate Steps(trace: seq<State>, limit: nat) {
    forall k | 0 <= k < |trace| - 1 :: CanStep(trace[k], trace[k + 1], limit)
  }

  /** Every boot works on the one text: either the text found on disk, or the text of the boot that created it. */
  ghost predicate Agreed(s: State, found: Option<string>) {
    && (forall i | 0 <= i < |s.boots| && (s.boots[i].Opening? || s.boots[i].Writing?) :: IsUuid4(s.boots[i].id))
    && match found
       case Some(content) =>
         && s.file == Some(content)
         && forall i | 0 <= i < |s.boots| ::
              !s.boots[i].Writing? && (s.boots[i].Returned? ==> s.boots[i] == AfterRead(content))
       case None =>
         if s.file.None? then forall i | 0 <= i < |s.boots| :: !s.boots[i].Writing? && !s.boots[i].Returned?
         else exists id, author: nat :: Authored(s, id, author)
  }

  /** Boot `author` created the file for `id`; nobody else writes, and what is visible is a prefix of its text. */
  ghost predicate Authored(s: State, id: string, author: nat) {
    && IsUuid4(id) && author < |s.boots|
    && s.file.Some? && s.file.value <= Content(id)
    && (s.boots[author] == Writing(id, |s.file.value|) || s.file.value == Content(id))
    && (forall i | 0 <= i < |s.boots| :: s.boots[i].Writing? ==>
         i == author && s.boots[i] == Writing(id, |s.file.value|))
    && (forall i | 0 <= i < |s.boots| :: s.boots[i].Returned? ==> s.boots[i].id == id && |s.file.value| >= READABLE)
  }

  /** A reader returns as soon as this many characters are visible. */
  const READABLE := 36

  /** No proper prefix of the canonical text passes validation, and the whole text passes with or without its
      newline: a reader gets the identity exactly when all 36 characters are visible. */
  lemma PrefixValidation(id: string, count: nat)
    requires IsUuid4(id) && count <= |Content(id)|
    ensures |Content(id)| == 37
    ensures AfterRead(Content(id)[..count]) == if count >= READABLE then Returned(id) else Raised
  {
    var raw := Content(id)[..count];
    ValidatedIffCanonical(raw);
    if count <= 36 {
      assert raw == id[..count];
      TrimNothing(raw);
      assert count == 36 ==> raw == id;
    } else {
      assert raw == id + "\n";
      TrimNothing(id);
      assert raw[..36] == id;
    }
  }

  lemma TrimNothing(s: string)
    ensures (s == "" || (!IsAsciiSpace(s[0]) && !IsAsciiSpace(s[|s| - 1]))) ==> Trim(s, IsAsciiSpace) == s
  {
  }

  lemma StepKeepsAgreement(s: State, t: State, found: Option<string>)
    requires Agreed(s, found) && CanStep(s, t, READABLE)
    ensures Agreed(t, found)
  {
    var i: nat, action :| Enabled(s, i, action) && FailsBelow(s, i, action, READABLE) && t == Next(s, i, action);
    if found.None? {
      if s.file.None? {
        if action.Open? {
          assert Authored(t, s.boots[i].id, i);
        }
      } else {
        var id, author: nat :| Authored(s, id, author);
        if !action.FailWrite? {
          StepKeepsAuthor(s, i, action, id, author);
        }
      }
    }
  }

  lemma StepKeepsAuthor(s: State, i: nat, action: Action, id: string, author: nat)
    requires Authored(s, id, author) && Enabled(s, i, action) && !action.FailWrite?
    ensures Authored(Next(s, i, action), id, author)
  {
    if action.Read? || action.Reread? {
      PrefixValidation(id, |s.file.value|);
      assert s.file.value == Content(id)[..|s.file.value|];
    }
  }

  lemma {:induction false} RunKeepsAgreement(trace: seq<State>)
    requires Run(trace, READABLE)
    ensures Agreed(trace[|trace| - 1], trace[0].file)
  {
    var n := |trace| - 1;
    if n > 0 {
      var earlier := trace[..n];
      forall k | 0 <= k < |earlier| - 1 ensures CanStep(earlier[k], earlier[k + 1], READABLE) {
        assert CanStep(trace[k], trace[k + 1], READABLE);
      }
      RunKeepsAgreement(earlier);
      assert CanStep(trace[n - 1], trace[n], READABLE);
      StepKeepsAgreement(trace[n - 1], trace[n], trace[0].file);
    }
  }

  /** All boots that have returned agree; and as soon as nobody is writing, the file holds what they returned. */
  ghost predicate Agreeing(s: State) {
    && (forall i, j | 0 <= i < |s.boots| && 0 <= j < |s.boots| && s.boots[i].Returned? && s.boots[j].Returned? ::
          s.boots[i].id == s.boots[j].id)
    && ((forall i | 0 <= i < |s.boots| :: !s.boots[i].Writing?) ==>
          forall i | 0 <= i < |s.boots| && s.boots[i].Returned? ::
            s.file.Some? && ValidatedIdentity(s.file.value) == Some(s.boots[i].id))
  }

  /** In every interleaving the boots agree, even if writes fail, as long as they fail before they are readable. */
  lemma IdentityAgreement(trace: seq<State>)
    requires Run(trace, READABLE)
    ensures Agreeing(trace[|trace| - 1])
  {
    RunKeepsAgreement(trace);
    var s := trace[|trace| - 1];
    if trace[0].file.None? && s.file.Some? {
      var id, author: nat :| Authored(s, id, author);
      PrefixValidation(id, |Content(id)|);
      assert Content(id)[..|Content(id)|] == Content(id);
    }
  }

  lemma FewerFailures(trace: seq<State>, limit: nat)
    requires Run(trace, limit) && limit <= READABLE
    ensures Run(trace, READABLE)
  {
    hide Enabled, Next;
    forall k | 0 <= k < |trace| - 1 ensures CanStep(trace[k], trace[k + 1], READABLE) {
      assert CanStep(trace[k], trace[k + 1], limit);
    }
  }

  /** Boots agree in every run exactly when no write can fail once its 36 characters are visible. */
  lemma AgreementIffFailuresAreEarly(limit: nat)
    ensures (forall trace | Run(trace, limit) :: Agreeing(trace[|trace| - 1])) <==> limit <= READABLE
  {
    hide Agreeing;
    if limit <= READABLE {
      forall trace | Run(trace, limit) ensures Agreeing(trace[|trace| - 1]) {
        FewerFailures(trace, limit);
        IdentityAgreement(trace);
      }
    } else {
      TwoIdentities();
      var trace := LateFailureBreaksAgreement(FIRST, SECOND, limit);
    }
  }

  const FIRST := "00000000-0000-4000-8000-000000000000"
  const SECOND := "00000000-0000-4000-8000-000000000001"

  // ----- limits of that guarantee

  lemma OneMoreStep(trace: seq<State>, i: nat, action: Action, limit: nat) returns (longer: seq<State>, t: State)
    requires trace != [] && Steps(trace, limit)
    requires var s := trace[|trace| - 1]; Enabled(s, i, action) && FailsBelow(s, i, action, limit)
    ensures longer == trace + [t] && Steps(longer, limit) && t == Next(trace[|trace| - 1], i, action)
  {
    hide Enabled, FailsBelow, Next;
    t := Next(trace[|trace| - 1], i, action);
    longer := trace + [t];
    forall k | 0 <= k < |longer| - 1 ensures CanStep(longer[k], longer[k + 1], limit) {
      assert k < |trace| - 1 ==> CanStep(trace[k], trace[k + 1], limit);
    }
  }

  /** Boot i finds no file, creates one and writes the first n characters. */
  lemma BootCreates(trace: seq<State>, i: nat, id: string, n: nat, limit: nat) returns (longer: seq<State>)
    requires trace != [] && Steps(trace, limit) && IsUuid4(id) && 0 < n <= |Content(id)|
    requires var s := trace[|trace| - 1]; s.file.None? && i < |s.boots| && s.boots[i].Reading?
    ensures |longer| > |trace| && longer[..|trace|] == trace && Steps(longer, limit)
    ensures longer[|longer| - 1] == State(Some(Content(id)[..n]), trace[|trace| - 1].boots[i := Writing(id, n)])
  {
    hide IsUuid4, Content, Steps;
    var t: State;
    longer, t := OneMoreStep(trace, i, Read(id), limit);
    longer, t := OneMoreStep(longer, i, Open, limit);
    longer, t := OneMoreStep(longer, i, Write(n), limit);
  }

  /** Creation is not atomic: a boot that reads between creation and the last of the 36 characters is refused. */
  lemma BootCanBeRefused(id: string, other: string, n: nat) returns (trace: seq<State>)
    requires IsUuid4(id) && IsUuid4(other) && 0 < n < READABLE
    ensures Run(trace, 0) && trace[0].file.None?
    ensures trace[|trace| - 1].boots == [Writing(id, n), Raised]
  {
    PrefixValidation(id, n);
    hide IsUuid4, Content, AfterRead, Steps;
    trace := BootCreates(Alone(2), 0, id, n, 0);
    var t: State;
    trace, t := OneMoreStep(trace, 1, Read(other), 0);
  }

  function Alone(boots: nat): (trace: seq<State>)
    ensures Run(trace, 0)
  {
    [State(None, seq(boots, _ => Reading))]
  }

  /** A write that fails after its text can be read removes the file after a reader has already returned ... */
  lemma LateFailure(id: string, other: string, limit: nat) returns (trace: seq<State>)
    requires limit > READABLE && IsUuid4(id) && IsUuid4(other)
    ensures Run(trace, limit) && trace[0].file.None?
    ensures trace[|trace| - 1] == State(None, [Raised, Returned(id), Reading])
  {
    PrefixValidation(id, READABLE);
    hide IsUuid4, Content, AfterRead, Steps;
    var t: State;
    trace := BootCreates(Alone(3), 0, id, READABLE, limit);
    trace, t := OneMoreStep(trace, 1, Read(other), limit);
    trace, t := OneMoreStep(trace, 0, FailWrite, limit);
    assert t.boots == [Raised, Returned(id), Reading];
  }

  /** ... and the next boot creates another identity. */
  lemma LateFailureBreaksAgreement(id: string, other: string, limit: nat) returns (trace: seq<State>)
    requires limit > READABLE && IsUuid4(id) && IsUuid4(other) && id != other
    ensures Run(trace, limit) && trace[0].file.None?
    ensures trace[|trace| - 1].boots == [Raised, Returned(id), Returned(other)] && !Agreeing(trace[|trace| - 1])
  {
    PrefixValidation(other, READABLE);
    hide IsUuid4, Content, AfterRead, Steps, Agreeing;
    var t: State;
    trace := LateFailure(id, other, limit);
    trace := BootCreates(trace, 2, other, |Content(other)|, limit);
    assert trace[|trace| - 1].boots == [Raised, Returned(id), Writing(other, |Content(other)|)];
    trace, t := OneMoreStep(trace, 2, Finish, limit);
    assert t.boots == [Raised, Returned(id), Returned(other)];
    Disagreeing(t, id, other);
  }

  lemma Disagreeing(s: State, id: string, other: string)
    requires s.boots == [Raised, Returned(id), Returned(other)] && id != other
    ensures !Agreeing(s)
  {
    assert s.boots[1].id != s.boots[2].id;
  }

  /** There are different identities to disagree on. */
  lemma TwoIdentities()
    ensures IsUuid4(FIRST) && IsUuid4(SECOND) && FIRST != SECOND
  {
    assert FIRST[35] != SECOND[35];
  }
}
