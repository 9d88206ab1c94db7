/** Layout grouping of backend/scripts/fields_extracting.py: words to columns, columns to lines, lines to blocks
    and cells.  Coordinates are real numbers. */
module Layout {
  import opened Prelude

  datatype Word = Word(
    text: string, x0: real, x1: real, top: real, bottom: real, size: Option<real>, fontname: Option<string>)

  datatype Line = Line(words: seq<Word>)

  datatype Block = Block(lines: seq<Line>)

  // ----- stable sorting, as Python's sorted() does it

  function Insert<T>(x: T, s: seq<T>, le: (T, T) -> bool): (r: seq<T>)
    ensures multiset(r) == multiset(s) + multiset{x}
  {
    if s == [] || le(s[|s| - 1], x) then s + [x]
    else
      assert s == s[..|s| - 1] + [s[|s| - 1]];
      Insert(x, s[..|s| - 1], le) + [s[|s| - 1]]
  }

  function Sorted<T>(s: seq<T>, le: (T, T) -> bool): (r: seq<T>)
    ensures multiset(r) == multiset(s)
  {
    if s == [] then []
    else
      assert s == s[..|s| - 1] + [s[|s| - 1]];
      Insert(s[|s| - 1], Sorted(s[..|s| - 1], le), le)
  }

  ghost predicate Ordered<T>(s: seq<T>, le: (T, T) -> bool) {
    forall i, j | 0 <= i < j < |s| :: le(s[i], s[j])
  }

  ghost predicate TotalPreorder<T(!new)>(le: (T, T) -> bool) {
    && (forall a, b :: le(a, b) || le(b, a))
    && (forall a, b, c | le(a, b) && le(b, c) :: le(a, c))
  }

  lemma {:induction false} SortedIsOrdered<T(!new)>(s: seq<T>, le: (T, T) -> bool)
    requires TotalPreorder(le)
    ensures Ordered(Sorted(s, le), le)
  {
    if s != [] {
      SortedIsOrdered(s[..|s| - 1], le);
      InsertKeepsOrder(s[|s| - 1], Sorted(s[..|s| - 1], le), le);
    }
  }

  lemma {:induction false} InsertKeepsOrder<T(!new)>(x: T, s: seq<T>, le: (T, T) -> bool)
    requires TotalPreorder(le) && Ordered(s, le)
    ensures Ordered(Insert(x, s, le), le)
  {
    if s != [] && !le(s[|s| - 1], x) {
      var init, last := s[..|s| - 1], s[|s| - 1];
      InsertKeepsOrder(x, init, le);
      var r := Insert(x, init, le);
      hide Insert;
      forall i | 0 <= i < |r| ensures le(r[i], last) {
        assert r[i] in multiset(r);
        assert r[i] in init || r[i] == x;
      }
    }
  }

  /** The elements that le ranks with x, in their order. */
  ghost function Alike<T>(s: seq<T>, x: T, le: (T, T) -> bool): seq<T> {
    if s == [] then []
    else
      var last := s[|s| - 1];
      Alike(s[..|s| - 1], x, le) + if le(x, last) && le(last, x) then [last] else []
  }

  /** What ranks alike stays in its order. */
  lemma {:induction false} SortedIsStable<T(!new)>(s: seq<T>, x: T, le: (T, T) -> bool)
    requires TotalPreorder(le)
    ensures Alike(Sorted(s, le), x, le) == Alike(s, x, le)
  {
    if s != [] {
      SortedIsStable(s[..|s| - 1], x, le);
      InsertIsStable(s[|s| - 1], Sorted(s[..|s| - 1], le), x, le);
    }
  }

  lemma {:induction false} InsertIsStable<T(!new)>(y: T, s: seq<T>, x: T, le: (T, T) -> bool)
    requires TotalPreorder(le)
    ensures Alike(Insert(y, s, le), x, le) == Alike(s, x, le) + if le(x, y) && le(y, x) then [y] else []
  {
    hide Alike;
    if s == [] || le(s[|s| - 1], y) {
      AlikeAppend(s, y, x, le);
    } else {
      var init, last := s[..|s| - 1], s[|s| - 1];
      InsertIsStable(y, init, x, le);
      AlikeAppend(Insert(y, init, le), last, x, le);
      AlikeAppend(init, last, x, le);
      assert s == init + [last];
      assert !(le(x, y) && le(y, x)) || !(le(x, last) && le(last, x));
    }
  }

  lemma AlikeAppend<T>(s: seq<T>, y: T, x: T, le: (T, T) -> bool)
    ensures Alike(s + [y], x, le) == Alike(s, x, le) + if le(x, y) && le(y, x) then [y] else []
  {
    assert (s + [y])[..|s|] == s;
  }

  predicate ByTop(a: Word, b: Word) { a.top < b.top || (a.top == b.top && a.x0 <= b.x0) }

  predicate ByLeft(a: Word, b: Word) { a.x0 <= b.x0 }

  // ----- runs: how a sequence falls apart into consecutive groups

  function Flatten<T>(groups: seq<seq<T>>): seq<T> {
    if groups == [] then [] else groups[0] + Flatten(groups[1..])
  }

  lemma {:induction false} FlattenAppend<T>(groups: seq<seq<T>>, g: seq<T>)
    ensures Flatten(groups + [g]) == Flatten(groups) + g
  {
    if groups == [] {
      assert [g][1..] == [];
    } else {
      FlattenAppend(groups[1..], g);
      assert (groups + [g])[1..] == groups[1..] + [g];
    }
  }

  /** `stays(g, x)`: the group g read so far takes x as well. */
  ghost predicate Joined<T>(g: seq<T>, stays: (seq<T>, T) -> bool) {
    g != [] && forall k | 1 <= k < |g| :: stays(g[..k], g[k])
  }

  /** The groups are consecutive pieces of s, and s is cut exactly where the group read so far does not take the
      next element. */
  ghost predicate Runs<T>(s: seq<T>, groups: seq<seq<T>>, stays: (seq<T>, T) -> bool) {
    && Flatten(groups) == s
    && (forall i | 0 <= i < |groups| :: Joined(groups[i], stays))
    && (forall i | 1 <= i < |groups| :: !stays(groups[i - 1], groups[i][0]))
  }

  /** There is only one way to cut a sequence into runs. */
  lemma {:induction false} RunsAreUnique<T>(s: seq<T>, a: seq<seq<T>>, b: seq<seq<T>>, stays: (seq<T>, T) -> bool)
    requires Runs(s, a, stays) && Runs(s, b, stays)
    ensures a == b
    decreases |a|
  {
    FirstRun(s, a, stays);
    FirstRun(s, b, stays);
    if a != [] {
      var n := |a[0]|;
      assert n == |b[0]|;
      assert a[0] == s[..n] == b[0];
      TailRuns(s, a, stays);
      TailRuns(s, b, stays);
      RunsAreUnique(s[n..], a[1..], b[1..], stays);
      assert a == [a[0]] + a[1..] && b == [b[0]] + b[1..];
    }
  }

  /** The first run is the longest prefix that keeps taking the next element. */
  lemma FirstRun<T>(s: seq<T>, a: seq<seq<T>>, stays: (seq<T>, T) -> bool)
    requires Runs(s, a, stays)
    ensures a == [] <==> s == []
    ensures a != [] ==>
              var n := |a[0]|;
              && 1 <= n <= |s| && a[0] == s[..n]
              && (forall k | 1 <= k < n :: stays(s[..k], s[k]))
              && (n < |s| ==> !stays(s[..n], s[n]))
  {
    if a != [] {
      var n := |a[0]|;
      assert Joined(a[0], stays);
      assert s == a[0] + Flatten(a[1..]);
      forall k | 1 <= k < n ensures stays(s[..k], s[k]) {
        assert a[0][..k] == s[..k] && a[0][k] == s[k];
      }
      if n < |s| {
        assert Joined(a[1], stays);
        assert a[1..][0] == a[1];
        assert s[n] == a[1][0];
      }
    }
  }

  lemma TailRuns<T>(s: seq<T>, a: seq<seq<T>>, stays: (seq<T>, T) -> bool)
    requires Runs(s, a, stays) && a != []
    ensures |a[0]| <= |s| && Runs(s[|a[0]|..], a[1..], stays)
  {
    var rest := a[1..];
    assert s == a[0] + Flatten(rest);
    forall i | 0 <= i < |rest| ensures Joined(rest[i], stays) {
      assert rest[i] == a[i + 1];
    }
    forall i | 1 <= i < |rest| ensures !stays(rest[i - 1], rest[i][0]) {
      assert rest[i - 1] == a[i] && rest[i] == a[i + 1];
    }
  }

  lemma ExtendLastRun<T>(done: seq<seq<T>>, cur: seq<T>, x: T, s: seq<T>, stays: (seq<T>, T) -> bool)
    requires Runs(s, done + [cur], stays) && stays(cur, x)
    ensures Runs(s + [x], done + [cur + [x]], stays)
  {
    FlattenAppend(done, cur);
    FlattenAppend(done, cur + [x]);
    var before, after := done + [cur], done + [cur + [x]];
    assert Joined(before[|done|], stays);
    forall k | 1 <= k < |cur + [x]| ensures stays((cur + [x])[..k], (cur + [x])[k]) {
      assert (cur + [x])[..k] == cur[..k];
      if k == |cur| { assert cur[..k] == cur; }
    }
    forall i | 0 <= i < |after| ensures Joined(after[i], stays) {
      assert i < |done| ==> after[i] == before[i] && Joined(before[i], stays);
    }
    forall i | 1 <= i < |after| ensures !stays(after[i - 1], after[i][0]) {
      assert after[i - 1] == before[i - 1] && after[i][0] == before[i][0];
    }
  }

  lemma StartNewRun<T>(done: seq<seq<T>>, cur: seq<T>, x: T, s: seq<T>, stays: (seq<T>, T) -> bool)
    requires Runs(s, done + [cur], stays) && !stays(cur, x)
    ensures Runs(s + [x], done + [cur] + [[x]], stays)
  {
    var before, after := done + [cur], done + [cur] + [[x]];
    FlattenAppend(before, [x]);
    forall i | 0 <= i < |after| ensures Joined(after[i], stays) {
      assert i < |before| ==> after[i] == before[i] && Joined(before[i], stays);
    }
    forall i | 1 <= i < |after| ensures !stays(after[i - 1], after[i][0]) {
      assert i < |before| ==> after[i - 1] == before[i - 1] && after[i] == before[i];
    }
  }

  /** The runs of a sequence. */
  ghost function RunsOf<T(!new)>(s: seq<T>, stays: (seq<T>, T) -> bool): (groups: seq<seq<T>>)
    ensures Runs(s, groups, stays)
  {
    RunsExist(s, stays);
    var groups :| Runs(s, groups, stays);
    groups
  }

  lemma {:induction false} RunsExist<T>(s: seq<T>, stays: (seq<T>, T) -> bool)
    ensures exists groups :: Runs(s, groups, stays)
  {
    hide Runs;
    if s == [] {
      NoRuns(stays);
    } else {
      var init, x := s[..|s| - 1], s[|s| - 1];
      RunsExist(init, stays);
      var before :| Runs(init, before, stays);
      OneMoreRun(init, x, before, stays);
      assert s == init + [x];
    }
  }

  lemma OneMoreRun<T>(s: seq<T>, x: T, before: seq<seq<T>>, stays: (seq<T>, T) -> bool)
    requires Runs(s, before, stays)
    ensures before != [] && stays(before[|before| - 1], x) ==>
              Runs(s + [x], before[..|before| - 1] + [before[|before| - 1] + [x]], stays)
    ensures !(before != [] && stays(before[|before| - 1], x)) ==> Runs(s + [x], before + [[x]], stays)
  {
    hide Runs;
    if before == [] {
      NoWordsLeft(s, stays);
      SingleRun(x, stays);
      assert s + [x] == [x] && before + [[x]] == [[x]];
    } else {
      var done, cur := before[..|before| - 1], before[|before| - 1];
      assert before == done + [cur];
      if stays(cur, x) {
        ExtendLastRun(done, cur, x, s, stays);
      } else {
        StartNewRun(done, cur, x, s, stays);
      }
    }
  }

  lemma NoWordsLeft<T>(s: seq<T>, stays: (seq<T>, T) -> bool)
    ensures Runs(s, [], stays) ==> s == []
  {
  }

  lemma SingleRun<T>(x: T, stays: (seq<T>, T) -> bool)
    ensures Runs([x], [[x]], stays)
  {
    assert [[x]][1..] == [];
  }

  // ----- words to lines

  function Abs(r: real): real { if r < 0.0 then -r else r }

  /** The running average of a line's tops. */
  function Centre(line: seq<Word>): real
    requires line != []
  {
    if |line| == 1 then line[0].top else Centre(line[..|line| - 1]) * 0.8 + line[|line| - 1].top * 0.2
  }

  function SameLine(yTol: real): (seq<Word>, Word) -> bool {
    (line: seq<Word>, w: Word) => line != [] && Abs(w.top - Centre(line)) <= yTol
  }

  function LinesOf(raw: seq<seq<Word>>): seq<Line> {
    seq(|raw|, i requires 0 <= i < |raw| => Line(Sorted(raw[i], ByLeft)))
  }

  /** The words sorted by (top, x0) and cut into runs. */
  ghost function RawLines(words: seq<Word>, yTol: real): seq<seq<Word>> {
    RunsOf(Sorted(words, ByTop), SameLine(yTol))
  }

  /** Lines come from the runs of the words sorted by (top, x0); each is then sorted by x0. */
  method GroupWordsIntoLines(words: seq<Word>, yTol: real) returns (out: seq<Line>)
    ensures out == LinesOf(RawLines(words, yTol))
  {
    hide Runs, Sorted, Centre, SameLine, RunsOf;
    var ws := Sorted(words, ByTop);
    var lines: seq<seq<Word>> := [];
    var cur: seq<Word> := [];
    var curY := 0.0;
    for i := 0 to |ws|
      invariant i == 0 ==> lines == [] && cur == []
      invariant i > 0 ==> cur != [] && curY == Centre(cur) && Runs(ws[..i], lines + [cur], SameLine(yTol))
    {
      var w := ws[i];
      assert ws[..i + 1] == ws[..i] + [w];
      if i == 0 {
        SingleRun(w, SameLine(yTol));
        assert [] + [[w]] == [[w]];
        curY := w.top;
        cur := [w];
        NextCentre(cur);
      } else if Abs(w.top - curY) <= yTol {
        SameLineTest(cur, w, yTol);
        ExtendLastRun(lines, cur, w, ws[..i], SameLine(yTol));
        assert (cur + [w])[..|cur|] == cur;
        NextCentre(cur + [w]);
        cur := cur + [w];
        curY := curY * 0.8 + w.top * 0.2;
      } else {
        SameLineTest(cur, w, yTol);
        StartNewRun(lines, cur, w, ws[..i], SameLine(yTol));
        NextCentre([w]);
        lines := lines + [cur];
        cur := [w];
        curY := w.top;
      }
    }
    assert ws[..|ws|] == ws;
    NoRuns(SameLine(yTol));
    if cur != [] {
      lines := lines + [cur];
    }
    RunsAreUnique(ws, lines, RawLines(words, yTol), SameLine(yTol));
    out := LinesOf(lines);
  }

  ghost predicate LeftToRight(words: seq<Word>) {
    forall j, k | 0 <= j < k < |words| :: words[j].x0 <= words[k].x0
  }

  ghost predicate TopToBottom(words: seq<Word>) {
    forall j, k | 0 <= j < k < |words| ::
      words[j].top < words[k].top || (words[j].top == words[k].top && words[j].x0 <= words[k].x0)
  }

  /** Every line holds the words of its run, from left to right. */
  lemma LinesReadLeftToRight(words: seq<Word>, yTol: real)
    ensures var raw, out := RawLines(words, yTol), LinesOf(RawLines(words, yTol));
            && |out| == |raw|
            && forall i | 0 <= i < |out| ::
                 LeftToRight(out[i].words) && multiset(out[i].words) == multiset(raw[i])
  {
    hide RunsOf, Runs, Sorted, LeftToRight;
    var raw := RawLines(words, yTol);
    forall i | 0 <= i < |raw| ensures LeftToRight(Sorted(raw[i], ByLeft)) {
      SortedLeftToRight(raw[i]);
    }
  }

  lemma SortedLeftToRight(words: seq<Word>)
    ensures LeftToRight(Sorted(words, ByLeft))
  {
    SortedIsOrdered(words, ByLeft);
    hide Sorted;
    var s := Sorted(words, ByLeft);
    forall j, k | 0 <= j < k < |s| ensures s[j].x0 <= s[k].x0 {
      assert ByLeft(s[j], s[k]);
    }
  }

  lemma SortedTopToBottom(words: seq<Word>)
    ensures TopToBottom(Sorted(words, ByTop))
  {
    SortedIsOrdered(words, ByTop);
    hide Sorted;
    var s := Sorted(words, ByTop);
    forall j, k | 0 <= j < k < |s|
      ensures s[j].top < s[k].top || (s[j].top == s[k].top && s[j].x0 <= s[k].x0)
    {
      assert ByTop(s[j], s[k]);
    }
  }

  ghost predicate StaysNear(line: seq<Word>, yTol: real) {
    forall k | 1 <= k < |line| :: Centre(line[..k]) - yTol <= line[k].top <= Centre(line[..k]) + yTol
  }

  /** The runs take the words from top to bottom, and at one height from left to right; a word joins the line exactly
      when its top is within the tolerance of the line's running centre. */
  lemma RunsFollowTheCentre(words: seq<Word>, yTol: real)
    ensures var raw := RawLines(words, yTol);
            && multiset(Flatten(raw)) == multiset(words) && TopToBottom(Flatten(raw))
            && (forall i | 0 <= i < |raw| :: raw[i] != [] && StaysNear(raw[i], yTol))
            && (forall i | 1 <= i < |raw| ::
                  raw[i][0].top < Centre(raw[i - 1]) - yTol || raw[i][0].top > Centre(raw[i - 1]) + yTol)
  {
    hide RunsOf, Sorted, TopToBottom, Centre, StaysNear, Joined;
    SortedTopToBottom(words);
    var raw := RawLines(words, yTol);
    forall i | 0 <= i < |raw| ensures raw[i] != [] && StaysNear(raw[i], yTol) {
      NotEmpty(raw[i], SameLine(yTol));
      JoinedStaysNear(raw[i], yTol);
    }
  }

  lemma JoinedStaysNear(line: seq<Word>, yTol: real)
    requires Joined(line, SameLine(yTol))
    ensures StaysNear(line, yTol)
  {
    hide Centre;
    forall k | 1 <= k < |line| ensures Centre(line[..k]) - yTol <= line[k].top <= Centre(line[..k]) + yTol {
      SameLineTest(line[..k], line[k], yTol);
    }
  }

  lemma SameLineTest(line: seq<Word>, w: Word, yTol: real)
    ensures line != [] ==> (SameLine(yTol)(line, w) <==> Abs(w.top - Centre(line)) <= yTol)
  {
  }

  lemma NoRuns<T>(stays: (seq<T>, T) -> bool)
    ensures Runs([], [], stays)
  {
  }

  ghost predicate TopsAscend(line: seq<Word>) {
    forall i, j | 0 <= i < j < |line| :: line[i].top <= line[j].top
  }

  /** How far the centre may have moved after so many words. */
  function Drift(yTol: real, words: int): real { 0.2 * yTol * words as real }

  lemma NextDrift(yTol: real, words: int)
    ensures Drift(yTol, words + 1) == Drift(yTol, words) + 0.2 * yTol && Drift(yTol, 0) == 0.0
  {
  }

  /** The running centre lags the last top by at most 0.8*yTol, and advances by at most 0.2*yTol a word. */
  lemma {:induction false} CentreLags(line: seq<Word>, yTol: real)
    requires Joined(line, SameLine(yTol)) && TopsAscend(line) && yTol >= 0.0
    ensures 0.0 <= line[|line| - 1].top - Centre(line) <= 0.8 * yTol
    ensures Centre(line) <= line[0].top + Drift(yTol, |line| - 1)
  {
    hide Centre, SameLine, Joined, Abs, Drift, TopsAscend;
    assert line != [] by { NotEmpty(line, SameLine(yTol)); }
    var n := |line| - 1;
    NextDrift(yTol, 0);
    NextCentre(line);
    if n > 0 {
      var init := line[..n];
      PrefixJoined(line, SameLine(yTol), n);
      PrefixAscends(line, n);
      CentreLags(init, yTol);
      JoinedStep(line, SameLine(yTol), n);
      SameLineTest(init, line[n], yTol);
      AbsOfAscent(line[n].top - Centre(init));
      CentreStep(line[0].top, Centre(init), line[n].top, yTol, n);
    }
  }

  lemma NotEmpty<T>(g: seq<T>, stays: (seq<T>, T) -> bool)
    ensures Joined(g, stays) ==> g != []
  {
  }

  lemma AbsOfAscent(r: real)
    ensures 0.0 <= r ==> Abs(r) == r
  {
  }

  lemma NextCentre(line: seq<Word>)
    ensures line != [] ==>
              (Centre(line) == if |line| == 1 then line[0].top
              else Centre(line[..|line| - 1]) * 0.8 + line[|line| - 1].top * 0.2)
  {
  }

  lemma JoinedStep<T>(g: seq<T>, stays: (seq<T>, T) -> bool, k: nat)
    ensures Joined(g, stays) && 1 <= k < |g| ==> stays(g[..k], g[k])
  {
  }

  lemma PrefixJoined<T>(g: seq<T>, stays: (seq<T>, T) -> bool, n: nat)
    requires Joined(g, stays) && 1 <= n <= |g|
    ensures Joined(g[..n], stays)
  {
    forall k | 1 <= k < n ensures stays(g[..n][..k], g[..n][k]) {
      assert g[..n][..k] == g[..k];
    }
  }

  lemma CentreStep(first: real, centre: real, top: real, yTol: real, n: int)
    requires 0.0 <= top - centre <= yTol
    requires centre <= first + Drift(yTol, n - 1)
    ensures 0.0 <= top - (centre * 0.8 + top * 0.2) <= 0.8 * yTol
    ensures centre * 0.8 + top * 0.2 <= first + Drift(yTol, n)
  {
    hide Drift;
    NextDrift(yTol, n - 1);
  }

  /** Within a line neighbouring tops differ by at most yTol, and a line of n >= 2 words is no taller than
      yTol*(1 + 0.2*(n-2)): the centre lets a line drift, but slowly. */
  lemma LineSpacing(line: seq<Word>, yTol: real, k: nat)
    requires Joined(line, SameLine(yTol)) && TopsAscend(line) && 1 <= k < |line| && yTol >= 0.0
    ensures 0.0 <= line[k].top - line[k - 1].top <= yTol
    ensures line[k].top - line[0].top <= yTol + Drift(yTol, k - 1)
  {
    hide Centre, SameLine, Joined, Abs, Drift, TopsAscend;
    var init := line[..k];
    PrefixJoined(line, SameLine(yTol), k);
    PrefixAscends(line, k);
    CentreLags(init, yTol);
    JoinedStep(line, SameLine(yTol), k);
    SameLineTest(init, line[k], yTol);
    WithinTolerance(init[0].top, init[k - 1].top, line[k].top, Centre(init), yTol, k);
  }

  lemma PrefixAscends(line: seq<Word>, k: nat)
    ensures TopsAscend(line) && 1 <= k <= |line| ==>
              (TopsAscend(line[..k]) && (k < |line| ==> line[k - 1].top <= line[k].top))
  {
  }

  lemma WithinTolerance(first: real, last: real, top: real, centre: real, yTol: real, k: int)
    requires 0.0 <= last - centre && last <= top && Abs(top - centre) <= yTol
    requires centre <= first + Drift(yTol, k - 1)
    ensures top - last <= yTol && top - first <= yTol + Drift(yTol, k - 1)
  {
    hide Drift;
  }

  /** Neighbouring tops differ by at most yTol, words k apart by at most yTol*(1 + 0.2*(k-1)), and the running centre
      lags the last top by at most 0.8*yTol. */
  ghost predicate Tight(line: seq<Word>, yTol: real) {
    && line != [] && 0.0 <= line[|line| - 1].top - Centre(line) <= 0.8 * yTol
    && forall k | 1 <= k < |line| ::
         && 0.0 <= line[k].top - line[k - 1].top <= yTol
         && line[k].top - line[0].top <= yTol + Drift(yTol, k - 1)
  }

  /** Every line of a page is tight. */
  lemma LinesAreTight(words: seq<Word>, yTol: real)
    requires yTol >= 0.0
    ensures forall i | 0 <= i < |RawLines(words, yTol)| :: Tight(RawLines(words, yTol)[i], yTol)
  {
    hide RunsOf, Runs, Sorted, SameLine, Centre, Drift, TopsAscend, Joined;
    forall i | 0 <= i < |RawLines(words, yTol)| ensures Tight(RawLines(words, yTol)[i], yTol) {
      var line := RawLines(words, yTol)[i];
      RunsAscend(words, RawLines(words, yTol), yTol, i);
      NotEmpty(line, SameLine(yTol));
      CentreLags(line, yTol);
      forall k | 1 <= k < |line|
        ensures 0.0 <= line[k].top - line[k - 1].top <= yTol
        ensures line[k].top - line[0].top <= yTol + Drift(yTol, k - 1)
      {
        LineSpacing(line, yTol, k);
      }
    }
  }

  lemma RunsAscend(words: seq<Word>, raw: seq<seq<Word>>, yTol: real, i: nat)
    requires Runs(Sorted(words, ByTop), raw, SameLine(yTol)) && i < |raw|
    ensures Joined(raw[i], SameLine(yTol)) && TopsAscend(raw[i])
  {
    hide Sorted, SameLine, Offset, Flatten, Joined;
    SortedIsOrdered(words, ByTop);
    GroupIsSlice(raw, i);
    assert forall j | 0 <= j < |raw[i]| :: raw[i][j] == Sorted(words, ByTop)[Offset(raw, i) + j];
  }

  function Offset<T>(groups: seq<seq<T>>, i: nat): nat
    requires i < |groups|
  {
    if i == 0 then 0 else |groups[0]| + Offset(groups[1..], i - 1)
  }

  lemma {:induction false} GroupIsSlice<T>(groups: seq<seq<T>>, i: nat)
    requires i < |groups|
    ensures Offset(groups, i) + |groups[i]| <= |Flatten(groups)|
    ensures groups[i] == Flatten(groups)[Offset(groups, i)..Offset(groups, i) + |groups[i]|]
  {
    if i > 0 {
      GroupIsSlice(groups[1..], i - 1);
      assert groups[1..][i - 1] == groups[i];
      assert Flatten(groups)[|groups[0]|..] == Flatten(groups[1..]);
    }
  }

  // ----- lines to blocks, and words to cells

  /** The one loop of group_lines_into_blocks and split_by_x_gaps: a new group starts at every cut. */
  method SplitRuns<T>(s: seq<T>, cut: (T, T) -> bool) returns (groups: seq<seq<T>>)
    ensures Runs(s, groups, NotCut(cut))
  {
    hide Runs, NotCut;
    groups := [];
    NoRuns(NotCut(cut));
    if s == [] {
      return;
    }
    SingleRun(s[0], NotCut(cut));
    var done, last := [], [s[0]];
    assert done + [last] == [[s[0]]] && s[..1] == [s[0]];
    for i := 1 to |s|
      invariant last != [] && Runs(s[..i], done + [last], NotCut(cut))
    {
      var x := s[i];
      assert s[..i + 1] == s[..i] + [x];
      NotCutTest(cut, last, x);
      if cut(last[|last| - 1], x) {
        StartNewRun(done, last, x, s[..i], NotCut(cut));
        done, last := done + [last], [x];
      } else {
        ExtendLastRun(done, last, x, s[..i], NotCut(cut));
        last := last + [x];
      }
    }
    assert s[..|s|] == s;
    groups := done + [last];
  }

  function NotCut<T>(cut: (T, T) -> bool): (seq<T>, T) -> bool {
    (g: seq<T>, x: T) => g != [] && !cut(g[|g| - 1], x)
  }

  lemma NotCutTest<T>(cut: (T, T) -> bool, g: seq<T>, x: T)
    ensures g != [] ==> (NotCut(cut)(g, x) <==> !cut(g[|g| - 1], x))
  {
  }

  function Top(line: Line): (top: real)
    requires line.words != []
    ensures (forall w | w in line.words :: top <= w.top) && exists w | w in line.words :: top == w.top
  {
    LeastOf(line.words, (w: Word) => w.top)
  }

  function Bottom(line: Line): (bottom: real)
    requires line.words != []
    ensures (forall w | w in line.words :: w.bottom <= bottom) && exists w | w in line.words :: bottom == w.bottom
  {
    -LeastOf(line.words, (w: Word) => -w.bottom)
  }

  function LeastOf<T>(ws: seq<T>, key: T -> real): (m: real)
    requires ws != []
    ensures (forall w | w in ws :: m <= key(w)) && exists w | w in ws :: m == key(w)
  {
    if |ws| == 1 then key(ws[0]) else Min(key(ws[0]), LeastOf(ws[1..], key))
  }

  predicate ByLineTop(a: Line, b: Line) {
    if a.words == [] || b.words == [] then a.words == [] else Top(a) <= Top(b)
  }

  /** The vertical gap between two lines reaches the tolerance. */
  function GapCut(gapTol: real): (Line, Line) -> bool {
    (prev: Line, next: Line) => prev.words != [] && next.words != [] && Top(next) - Bottom(prev) >= gapTol
  }

  function LinesIn(blocks: seq<Block>): seq<seq<Line>> {
    seq(|blocks|, i requires 0 <= i < |blocks| => blocks[i].lines)
  }

  /** The blocks are the runs of the lines sorted by top. */
  ghost predicate BlocksOf(lines: seq<Line>, gapTol: real, blocks: seq<Block>) {
    LinesIn(blocks) == RunsOf(Sorted(lines, ByLineTop), NotCut(GapCut(gapTol)))
  }

  method GroupLinesIntoBlocks(lines: seq<Line>, gapTol: real) returns (blocks: seq<Block>)
    requires forall line | line in lines :: line.words != []
    ensures BlocksOf(lines, gapTol, blocks)
  {
    var groups := SplitRuns(Sorted(lines, ByLineTop), GapCut(gapTol));
    var ls, stays := Sorted(lines, ByLineTop), NotCut(GapCut(gapTol));
    RunsAreUnique(ls, groups, RunsOf(ls, stays), stays);
    blocks := seq(|groups|, i requires 0 <= i < |groups| => Block(groups[i]));
    assert LinesIn(blocks) == groups;
  }

  function Last<T>(s: seq<T>): T
    requires s != []
  {
    s[|s| - 1]
  }

  ghost predicate Uncut<T>(g: seq<T>, cut: (T, T) -> bool) {
    forall k | 1 <= k < |g| :: !cut(g[k - 1], g[k])
  }

  /** A cut between neighbours: within a group there is none, from one group to the next there is one. */
  ghost predicate CutBetween<T>(groups: seq<seq<T>>, cut: (T, T) -> bool) {
    && (forall i | 0 <= i < |groups| :: groups[i] != [] && Uncut(groups[i], cut))
    && (forall i | 1 <= i < |groups| :: cut(Last(groups[i - 1]), groups[i][0]))
  }

  /** Blocks are the pieces of the sorted lines that are cut exactly where the gap between neighbouring lines is at
      least the tolerance. */
  lemma {:induction false} CutsAreGaps<T>(s: seq<T>, groups: seq<seq<T>>, cut: (T, T) -> bool)
    ensures Runs(s, groups, NotCut(cut)) <==> Flatten(groups) == s && CutBetween(groups, cut)
  {
    hide NotCut, Joined, Flatten, Uncut;
    forall i | 0 <= i < |groups|
      ensures Joined(groups[i], NotCut(cut))
              <==> groups[i] != [] && Uncut(groups[i], cut)
    {
      JoinedIffUncut(groups[i], cut);
    }
    forall i | 1 <= i < |groups| && groups[i - 1] != [] && groups[i] != []
      ensures cut(Last(groups[i - 1]), groups[i][0]) <==> !NotCut(cut)(groups[i - 1], groups[i][0])
    {
      NotCutTest(cut, groups[i - 1], groups[i][0]);
    }
    assert (forall i | 0 <= i < |groups| :: Joined(groups[i], NotCut(cut))) ==>
        forall i | 0 <= i < |groups| :: groups[i] != [];
  }

  /** Every word of the next line begins at least gapTol below every word of this one. */
  ghost predicate FarBelow(line: Line, next: Line, gapTol: real) {
    forall v, w | v in line.words && w in next.words :: w.top - v.bottom >= gapTol
  }

  /** Some word of this line is at least as high as the whole next line. */
  ghost predicate StartsAbove(line: Line, next: Line) {
    exists v | v in line.words :: forall w | w in next.words :: v.top <= w.top
  }

  ghost predicate Written(lines: seq<Line>) { forall line | line in lines :: line.words != [] }

  /** The blocks hold the lines, in the order in which they start, and are cut exactly where the next line is far
      below the last one. */
  lemma BlocksAreSpaced(lines: seq<Line>, gapTol: real, blocks: seq<Block>)
    requires Written(lines) && BlocksOf(lines, gapTol, blocks)
    ensures var ls := Flatten(LinesIn(blocks));
            multiset(ls) == multiset(lines) && forall j, k | 0 <= j < k < |ls| :: StartsAbove(ls[j], ls[k])
    ensures CutBetween(LinesIn(blocks), (line: Line, next: Line) => FarBelow(line, next, gapTol))
  {
    hide Sorted, Runs, RunsOf, NotCut, GapCut, LinesIn, Flatten, CutBetween, FarBelow, StartsAbove, ByLineTop, Written;
    var ls, groups := Sorted(lines, ByLineTop), LinesIn(blocks);
    LinesStartInOrder(lines);
    CutsAreGaps(ls, groups, GapCut(gapTol));
    var far := (line: Line, next: Line) => FarBelow(line, next, gapTol);
    forall x, y | x in Flatten(groups) && y in Flatten(groups) ensures GapCut(gapTol)(x, y) <==> far(x, y) {
      assert x in multiset(lines) && y in multiset(lines);
      WrittenLine(lines, x);
      WrittenLine(lines, y);
      GapCutIsFarBelow(x, y, gapTol);
    }
    SameCuts(groups, GapCut(gapTol), far);
  }

  /** Tests that agree on neighbours cut alike. */
  lemma SameCuts<T>(groups: seq<seq<T>>, a: (T, T) -> bool, b: (T, T) -> bool)
    requires CutBetween(groups, a)
    requires forall x, y | x in Flatten(groups) && y in Flatten(groups) :: a(x, y) <==> b(x, y)
    ensures CutBetween(groups, b)
  {
    forall i, k | 0 <= i < |groups| && 0 <= k < |groups[i]| ensures groups[i][k] in Flatten(groups) {
      GroupIsSlice(groups, i);
    }
    hide Flatten;
    forall i | 0 <= i < |groups| ensures Uncut(groups[i], b) {
      assert Uncut(groups[i], a);
    }
  }

  lemma LinesStartInOrder(lines: seq<Line>)
    requires Written(lines)
    ensures var ls := Sorted(lines, ByLineTop);
            multiset(ls) == multiset(lines) && forall j, k | 0 <= j < k < |ls| :: StartsAbove(ls[j], ls[k])
  {
    hide Sorted, ByLineTop, StartsAbove;
    LineTopIsPreorder();
    SortedIsOrdered(lines, ByLineTop);
    var ls := Sorted(lines, ByLineTop);
    forall j, k | 0 <= j < k < |ls| ensures StartsAbove(ls[j], ls[k]) {
      assert ls[j] in multiset(lines) && ls[k] in multiset(lines);
      HigherStartsAbove(ls[j], ls[k]);
    }
  }

  lemma WrittenLine(lines: seq<Line>, line: Line)
    ensures Written(lines) && line in lines ==> line.words != []
  {
  }

  lemma LineTopIsPreorder()
    ensures TotalPreorder(ByLineTop)
  {
    hide Top;
  }

  lemma HigherStartsAbove(a: Line, b: Line)
    requires a.words != [] && b.words != [] && ByLineTop(a, b)
    ensures StartsAbove(a, b)
  {
    var v := HighestWord(a);
  }

  lemma GapCutIsFarBelow(line: Line, next: Line, gapTol: real)
    requires line.words != [] && next.words != []
    ensures GapCut(gapTol)(line, next) <==> FarBelow(line, next, gapTol)
  {
    hide Top, Bottom;
    var v := LowestWord(line);
    var w := HighestWord(next);
    assert Top(next) - Bottom(line) == w.top - v.bottom;
  }

  lemma HighestWord(line: Line) returns (w: Word)
    requires line.words != []
    ensures w in line.words && w.top == Top(line)
  {
    var top := Top(line);
    w :| w in line.words && top == w.top;
  }

  lemma LowestWord(line: Line) returns (w: Word)
    requires line.words != []
    ensures w in line.words && w.bottom == Bottom(line)
  {
    var bottom := Bottom(line);
    w :| w in line.words && bottom == w.bottom;
  }

  lemma JoinedIffUncut<T>(g: seq<T>, cut: (T, T) -> bool)
    ensures Joined(g, NotCut(cut)) <==> g != [] && Uncut(g, cut)
  {
    hide NotCut;
    if Joined(g, NotCut(cut)) {
      forall k | 1 <= k < |g| ensures !cut(g[k - 1], g[k]) {
        JoinedStep(g, NotCut(cut), k);
        NotCutTest(cut, g[..k], g[k]);
      }
    }
    if g != [] && Uncut(g, cut) {
      forall k | 1 <= k < |g| ensures NotCut(cut)(g[..k], g[k]) {
        assert !cut(g[k - 1], g[k]);
        NotCutTest(cut, g[..k], g[k]);
      }
    }
  }

  /** Cells take the words from left to right and are cut exactly where a word begins at least `gap` beyond the end of
      the one before. */
  method SplitByXGaps(words: seq<Word>, gap: real) returns (cells: seq<seq<Word>>)
    ensures Runs(Sorted(words, ByLeft), cells, NotCut((prev: Word, next: Word) => next.x0 - prev.x1 >= gap))
    ensures multiset(Flatten(cells)) == multiset(words) && LeftToRight(Flatten(cells))
    ensures forall i | 0 <= i < |cells| ::
              cells[i] != [] && forall k | 1 <= k < |cells[i]| :: cells[i][k].x0 - cells[i][k - 1].x1 < gap
    ensures forall i | 1 <= i < |cells| :: cells[i][0].x0 - Last(cells[i - 1]).x1 >= gap
  {
    hide Sorted, LeftToRight, Runs, NotCut, Flatten;
    var cut := (prev: Word, next: Word) => next.x0 - prev.x1 >= gap;
    cells := SplitRuns(Sorted(words, ByLeft), cut);
    SortedLeftToRight(words);
    CutsAreGaps(Sorted(words, ByLeft), cells, cut);
    forall i, k | 0 <= i < |cells| && 1 <= k < |cells[i]| ensures cells[i][k].x0 - cells[i][k - 1].x1 < gap {
      assert Uncut(cells[i], cut);
    }
  }

  // ----- conservation

  function WordsOfLines(lines: seq<Line>): seq<Word> {
    if lines == [] then [] else lines[0].words + WordsOfLines(lines[1..])
  }

  function WordsOfBlocks(blocks: seq<Block>): seq<Word> {
    if blocks == [] then [] else WordsOfLines(blocks[0].lines) + WordsOfBlocks(blocks[1..])
  }

  /** Lines keep the multiset of words. */
  lemma {:induction false} LinesConserveWords(raw: seq<seq<Word>>)
    ensures multiset(WordsOfLines(LinesOf(raw))) == multiset(Flatten(raw))
  {
    hide Sorted;
    if raw != [] {
      hide LinesOf;
      LinesConserveWords(raw[1..]);
      NextLine(raw);
      SameTogether(Sorted(raw[0], ByLeft), WordsOfLines(LinesOf(raw[1..])), raw[0], Flatten(raw[1..]));
    }
  }

  lemma NextLine(raw: seq<seq<Word>>)
    requires raw != []
    ensures WordsOfLines(LinesOf(raw)) == Sorted(raw[0], ByLeft) + WordsOfLines(LinesOf(raw[1..]))
  {
    hide Sorted, ByLeft;
    assert LinesOf(raw)[1..] == LinesOf(raw[1..]);
  }

  lemma SameTogether<T>(a: seq<T>, b: seq<T>, c: seq<T>, d: seq<T>)
    requires multiset(a) == multiset(c) && multiset(b) == multiset(d)
    ensures multiset(a + b) == multiset(c + d)
  {
  }

  lemma {:induction false} WordsOfConcat(a: seq<Line>, b: seq<Line>)
    ensures WordsOfLines(a + b) == WordsOfLines(a) + WordsOfLines(b)
  {
    var whole := a + b;
    if a == [] {
      assert whole == b;
    } else {
      WordsOfConcat(a[1..], b);
      assert whole[0] == a[0] && whole[1..] == a[1..] + b;
      Reassociate(a[0].words, WordsOfLines(a[1..]), WordsOfLines(b));
    }
  }

  lemma Reassociate<T>(x: seq<T>, y: seq<T>, z: seq<T>)
    ensures x + (y + z) == (x + y) + z
  {
  }

  lemma {:induction false} BlocksFlatten(blocks: seq<Block>)
    ensures WordsOfBlocks(blocks) == WordsOfLines(Flatten(LinesIn(blocks)))
  {
    var groups := LinesIn(blocks);
    if blocks != [] {
      BlocksFlatten(blocks[1..]);
      assert groups[1..] == LinesIn(blocks[1..]);
      WordsOfConcat(blocks[0].lines, Flatten(groups[1..]));
    }
  }

  lemma SameRemainder<T>(x: multiset<T>, y: multiset<T>, z: multiset<T>)
    requires z + x == y + z
    ensures x == y
  {
    assert x == (z + x) - z;
  }

  /** Reordering lines reorders their words. */
  lemma {:induction false} PermutedLines(a: seq<Line>, b: seq<Line>)
    requires multiset(a) == multiset(b)
    ensures multiset(WordsOfLines(a)) == multiset(WordsOfLines(b))
  {
    if a == [] {
      assert |multiset(a)| == 0 && |multiset(b)| == |b|;
    } else {
      assert a[0] in multiset(a) && a[0] in multiset(b);
      var i :| 0 <= i < |b| && b[i] == a[0];
      var rest := b[..i] + b[i + 1..];
      RemoveLine(b, i);
      assert a == [a[0]] + a[1..];
      SameRemainder(multiset(a[1..]), multiset(rest), multiset{a[0]});
      PermutedLines(a[1..], rest);
    }
  }

  lemma RemoveLine(b: seq<Line>, i: nat)
    requires i < |b|
    ensures var rest := b[..i] + b[i + 1..];
            && multiset(b) == multiset(rest) + multiset{b[i]}
            && multiset(WordsOfLines(b)) == multiset(b[i].words + WordsOfLines(rest))
  {
    assert b == b[..i] + ([b[i]] + b[i + 1..]);
    WordsOfConcat(b[..i], [b[i]] + b[i + 1..]);
    WordsOfConcat(b[..i], b[i + 1..]);
    assert ([b[i]] + b[i + 1..])[1..] == b[i + 1..];
  }

  /** Grouping keeps the words: the blocks of the lines of some words hold exactly these words, each once, whatever
      the tolerances. */
  lemma BlocksConserveWords(words: seq<Word>, yTol: real, gapTol: real)
    ensures forall blocks | BlocksOf(LinesOf(RawLines(words, yTol)), gapTol, blocks) ::
              multiset(WordsOfBlocks(blocks)) == multiset(words)
  {
    hide RunsOf, Sorted, LinesOf, BlocksOf;
    var raw := RawLines(words, yTol);
    LinesConserveWords(raw);
    BlocksConserveLines(LinesOf(raw), gapTol);
  }

  lemma BlocksConserveLines(lines: seq<Line>, gapTol: real)
    ensures forall blocks | BlocksOf(lines, gapTol, blocks) ::
              multiset(WordsOfBlocks(blocks)) == multiset(WordsOfLines(lines))
  {
    hide RunsOf, Sorted, WordsOfBlocks, WordsOfLines;
    forall blocks | BlocksOf(lines, gapTol, blocks)
      ensures multiset(WordsOfBlocks(blocks)) == multiset(WordsOfLines(lines))
    {
      BlocksFlatten(blocks);
      PermutedLines(Sorted(lines, ByLineTop), lines);
    }
  }

  lemma LinesAreNotEmpty(words: seq<Word>, yTol: real)
    ensures forall line | line in LinesOf(RawLines(words, yTol)) :: line.words != []
  {
    hide Sorted, RunsOf, SameLine;
    var raw := RawLines(words, yTol);
    var lines := LinesOf(raw);
    forall i | 0 <= i < |lines| ensures lines[i].words != [] {
      assert Joined(raw[i], SameLine(yTol));
      assert raw[i][0] in multiset(raw[i]);
      assert multiset(lines[i].words) == multiset(raw[i]);
    }
  }
}
