/** The columns of a page: a search for two clusters of x-centres, and the split between them
    (backend/scripts/fields_extracting.py). */
module PageColumns {
  import opened Prelude
  import opened Layout

  // ----- two clusters

  const FEWEST := 50
  const SPREAD := 0.000001
  const SETTLED := 0.05
  const ROUNDS := 12

  function Sum(xs: seq<real>): real { if xs == [] then 0.0 else Sum(xs[..|xs| - 1]) + xs[|xs| - 1] }

  function Mean(xs: seq<real>): real
    requires xs != []
  {
    Sum(xs) / |xs| as real
  }

  function Lower(xs: seq<real>, m: real): seq<real> {
    if xs == [] then [] else Lower(xs[..|xs| - 1], m) + if xs[|xs| - 1] <= m then [xs[|xs| - 1]] else []
  }

  function Upper(xs: seq<real>, m: real): seq<real> {
    if xs == [] then [] else Upper(xs[..|xs| - 1], m) + if xs[|xs| - 1] <= m then [] else [xs[|xs| - 1]]
  }

  function Middle(c1: real, c2: real): real { (c1 + c2) / 2.0 }

  /** The search as a sequence of thresholds: cut midway between the centres, take the means of both sides. */
  function Search(xs: seq<real>, c1: real, c2: real, rounds: nat): Option<(real, real)>
    decreases rounds
  {
    if rounds == 0 then Some((c1, c2))
    else
      var lower, upper := Lower(xs, Middle(c1, c2)), Upper(xs, Middle(c1, c2));
      if lower == [] || upper == [] then None
      else if Abs(Mean(lower) - c1) < SETTLED && Abs(Mean(upper) - c2) < SETTLED then Some((Mean(lower), Mean(upper)))
      else Search(xs, Mean(lower), Mean(upper), rounds - 1)
  }

  function Width(xs: seq<real>): real
    requires xs != []
  {
    -LeastOf(xs, (x: real) => -x) - LeastOf(xs, (x: real) => x)
  }

  predicate UpTo(a: real, b: real) { a <= b }

  function Quartiles(xs: seq<real>): (real, real)
    requires xs != []
  {
    SameLength(xs);
    var sorted := Sorted(xs, UpTo);
    (sorted[|xs| / 4], sorted[|xs| * 3 / 4])
  }

  lemma SameLength(xs: seq<real>)
    ensures |Sorted(xs, UpTo)| == |xs|
  {
    assert |multiset(Sorted(xs, UpTo))| == |multiset(xs)|;
  }

  function TwoMeans(xs: seq<real>): Option<(real, real)> {
    if |xs| < FEWEST || Width(xs) < SPREAD then None
    else
      var (c1, c2) := Quartiles(xs);
      if Abs(c2 - c1) < SPREAD then None else Search(xs, c1, c2, ROUNDS)
  }

  lemma TooFew(xs: seq<real>)
    ensures |xs| < FEWEST ==> TwoMeans(xs) == None
  {
  }

  /** Each point goes to the nearer centre; the means of both groups are the next centres. */
  method TwoClusters(xs: seq<real>) returns (centers: Option<(real, real)>)
    ensures centers == TwoMeans(xs)
  {
    hide Sorted, Quartiles, Lower, Upper, Sum, Middle;
    if |xs| < FEWEST {
      return None;
    }
    if Width(xs) < SPREAD {
      return None;
    }
    QuartilesAscend(xs);
    var (c1, c2) := Quartiles(xs);
    if Abs(c2 - c1) < SPREAD {
      return None;
    }
    var round := 0;
    while round < ROUNDS
      invariant 0 <= round <= ROUNDS && c1 < c2
      invariant TwoMeans(xs) == Search(xs, c1, c2, ROUNDS - round)
      decreases ROUNDS - round
    {
      var g1, g2 := Assign(xs, c1, c2);
      if g1 == [] || g2 == [] {
        return None;
      }
      var new1, new2 := Mean(g1), Mean(g2);
      MeansStraddle(xs, Middle(c1, c2));
      var settled := Abs(new1 - c1) < SETTLED && Abs(new2 - c2) < SETTLED;
      c1, c2 := new1, new2;
      round := round + 1;
      if settled {
        break;
      }
    }
    if c1 > c2 {
      c1, c2 := c2, c1;
    }
    centers := Some((c1, c2));
  }

  method Assign(xs: seq<real>, c1: real, c2: real) returns (g1: seq<real>, g2: seq<real>)
    requires c1 < c2
    ensures g1 == Lower(xs, Middle(c1, c2)) && g2 == Upper(xs, Middle(c1, c2))
  {
    g1, g2 := [], [];
    for i := 0 to |xs|
      invariant g1 == Lower(xs[..i], Middle(c1, c2)) && g2 == Upper(xs[..i], Middle(c1, c2))
    {
      assert xs[..i + 1][..i] == xs[..i];
      NearerIsBelow(xs[i], c1, c2);
      if Abs(xs[i] - c1) <= Abs(xs[i] - c2) {
        g1 := g1 + [xs[i]];
      } else {
        g2 := g2 + [xs[i]];
      }
    }
    assert xs[..|xs|] == xs;
  }

  /** Nearer to the smaller centre means at most midway. */
  lemma NearerIsBelow(x: real, c1: real, c2: real)
    requires c1 < c2
    ensures Abs(x - c1) <= Abs(x - c2) <==> x <= Middle(c1, c2)
  {
  }

  lemma QuartilesAscend(xs: seq<real>)
    requires xs != []
    ensures Quartiles(xs).0 <= Quartiles(xs).1
  {
    SortedIsOrdered(xs, UpTo);
    SameLength(xs);
    hide Sorted;
    var sorted := Sorted(xs, UpTo);
    assert |xs| / 4 <= |xs| * 3 / 4;
    assert |xs| / 4 < |xs| * 3 / 4 ==> UpTo(sorted[|xs| / 4], sorted[|xs| * 3 / 4]);
  }

  /** The means of the two sides of a threshold lie on their own side of it. */
  lemma MeansStraddle(xs: seq<real>, m: real)
    ensures Lower(xs, m) != [] ==> Mean(Lower(xs, m)) <= m
    ensures Upper(xs, m) != [] ==> Mean(Upper(xs, m)) > m
  {
    hide Lower, Upper, Sum;
    SumStraddles(xs, m);
    if Lower(xs, m) != [] { QuotientBelow(Sum(Lower(xs, m)), |Lower(xs, m)| as real, m); }
    if Upper(xs, m) != [] { QuotientAbove(Sum(Upper(xs, m)), |Upper(xs, m)| as real, m); }
  }

  /** n points at m. */
  function Level(m: real, n: nat): real { m * n as real }

  lemma {:induction false} SumStraddles(xs: seq<real>, m: real)
    ensures Sum(Lower(xs, m)) <= Level(m, |Lower(xs, m)|)
    ensures Sum(Upper(xs, m)) >= Level(m, |Upper(xs, m)|)
    ensures Upper(xs, m) != [] ==> Sum(Upper(xs, m)) > Level(m, |Upper(xs, m)|)
  {
    hide Level, Sum;
    if xs != [] {
      var init, x := xs[..|xs| - 1], xs[|xs| - 1];
      SumStraddles(init, m);
      SumAppend(Lower(init, m), x);
      SumAppend(Upper(init, m), x);
      OneMoreTimes(m, |Lower(init, m)|);
      OneMoreTimes(m, |Upper(init, m)|);
      assert Lower(xs, m) == if x <= m then Lower(init, m) + [x] else Lower(init, m);
      assert Upper(xs, m) == if x <= m then Upper(init, m) else Upper(init, m) + [x];
    } else {
      NoSum(m);
    }
  }

  lemma NoSum(m: real)
    ensures Sum([]) == 0.0 && Level(m, 0) == 0.0
  {
  }

  lemma SumAppend(xs: seq<real>, x: real)
    ensures Sum(xs + [x]) == Sum(xs) + x
  {
    assert (xs + [x])[..|xs|] == xs;
  }

  lemma OneMoreTimes(m: real, n: nat)
    ensures Level(m, n + 1) == Level(m, n) + m && Level(m, 0) == 0.0
  {
    assert (n + 1) as real == n as real + 1.0;
  }

  lemma QuotientBelow(sum: real, n: real, m: real)
    requires n > 0.0 && sum <= m * n
    ensures sum / n <= m
  {
  }

  lemma QuotientAbove(sum: real, n: real, m: real)
    requires n > 0.0 && sum > m * n
    ensures sum / n > m
  {
  }

  /** Whatever the search returns, its centres are the means of the points up to some threshold and of those beyond it,
      one on each side of it: in particular they are in order, and neither side is empty. */
  lemma TwoMeansSeparate(xs: seq<real>) returns (m: real)
    ensures TwoMeans(xs).Some? ==>
              var (c1, c2) := TwoMeans(xs).value;
              && Lower(xs, m) != [] && c1 == Mean(Lower(xs, m)) && c1 <= m
              && Upper(xs, m) != [] && c2 == Mean(Upper(xs, m)) && m < c2
  {
    hide Sorted, Quartiles, Lower, Upper, Sum;
    if TwoMeans(xs).Some? {
      m := SearchSeparates(xs, Quartiles(xs).0, Quartiles(xs).1, ROUNDS);
    } else {
      m := 0.0;
    }
  }

  lemma {:induction false} SearchSeparates(xs: seq<real>, c1: real, c2: real, rounds: nat) returns (m: real)
    requires rounds > 0 && Search(xs, c1, c2, rounds).Some?
    ensures var (d1, d2) := Search(xs, c1, c2, rounds).value;
            && Lower(xs, m) != [] && d1 == Mean(Lower(xs, m)) && d1 <= m
            && Upper(xs, m) != [] && d2 == Mean(Upper(xs, m)) && m < d2
    decreases rounds
  {
    hide Lower, Upper, Sum, Mean;
    m := Middle(c1, c2);
    MeansStraddle(xs, m);
    var d1, d2 := Mean(Lower(xs, m)), Mean(Upper(xs, m));
    if !(Abs(d1 - c1) < SETTLED && Abs(d2 - c2) < SETTLED) && rounds > 1 {
      m := SearchSeparates(xs, d1, d2, rounds - 1);
    }
  }

  // ----- the search, round by round

  /** The second pair holds the means of both sides of the midpoint of the first. */
  ghost predicate NextRound(xs: seq<real>, before: (real, real), after: (real, real)) {
    var m := (before.0 + before.1) / 2.0;
    Lower(xs, m) != [] && Upper(xs, m) != [] && after == (Mean(Lower(xs, m)), Mean(Upper(xs, m)))
  }

  ghost predicate Rounds(xs: seq<real>, centers: seq<(real, real)>) {
    centers != [] && forall k | 1 <= k < |centers| :: NextRound(xs, centers[k - 1], centers[k])
  }

  /** Neither centre has moved by 0.05. */
  predicate Still(before: (real, real), after: (real, real)) {
    -0.05 < after.0 - before.0 < 0.05 && -0.05 < after.1 - before.1 < 0.05
  }

  /** The search goes on from the first centres until they stand still, a side is empty, or the rounds are used up. */
  lemma {:induction false} SearchIsRounds(xs: seq<real>, c1: real, c2: real, rounds: nat)
    returns (centers: seq<(real, real)>)
    ensures Rounds(xs, centers) && centers[0] == (c1, c2) && |centers| <= rounds + 1
    ensures forall k | 1 <= k < |centers| - 1 :: !Still(centers[k - 1], centers[k])
    ensures var n, last := |centers| - 1, centers[|centers| - 1];
            match Search(xs, c1, c2, rounds)
            case Some(found) => found == last && (n == rounds || (n > 0 && Still(centers[n - 1], last)))
            case None =>
              && n < rounds && (n > 0 ==> !Still(centers[n - 1], last))
              && var m := (last.0 + last.1) / 2.0;
                 OneSided(xs, m)
    decreases rounds
  {
    hide Lower, Upper, Sum, Mean;
    centers := [(c1, c2)];
    if rounds > 0 {
      var m := (c1 + c2) / 2.0;
      assert m == Middle(c1, c2);
      if Lower(xs, m) != [] && Upper(xs, m) != [] {
        var d1, d2 := Mean(Lower(xs, m)), Mean(Upper(xs, m));
        if Still((c1, c2), (d1, d2)) {
          centers := [(c1, c2), (d1, d2)];
        } else {
          var rest := SearchIsRounds(xs, d1, d2, rounds - 1);
          centers := [(c1, c2)] + rest;
          EarlierRound(xs, (c1, c2), rest);
        }
      }
    }
  }

  lemma EarlierRound(xs: seq<real>, c: (real, real), rest: seq<(real, real)>)
    requires Rounds(xs, rest) && NextRound(xs, c, rest[0])
    ensures Rounds(xs, [c] + rest)
  {
    hide NextRound;
    var all := [c] + rest;
    forall k | 1 <= k < |all| ensures NextRound(xs, all[k - 1], all[k]) {
      assert all[k] == rest[k - 1];
      if k > 1 { assert all[k - 1] == rest[k - 2]; }
    }
  }

  /** How many points lie below c, and how many at or below it. */
  function Below(xs: seq<real>, c: real): nat {
    if xs == [] then 0 else Below(xs[..|xs| - 1], c) + if xs[|xs| - 1] < c then 1 else 0
  }

  function UpToCount(xs: seq<real>, c: real): nat {
    if xs == [] then 0 else UpToCount(xs[..|xs| - 1], c) + if xs[|xs| - 1] <= c then 1 else 0
  }

  /** c stands at position k when the points are sorted. */
  predicate HasRank(xs: seq<real>, c: real, k: nat) { Below(xs, c) <= k < UpToCount(xs, c) }

  lemma {:induction false} InsertCounts(x: real, s: seq<real>, c: real)
    ensures Below(Insert(x, s, UpTo), c) == Below(s, c) + if x < c then 1 else 0
    ensures UpToCount(Insert(x, s, UpTo), c) == UpToCount(s, c) + if x <= c then 1 else 0
  {
    var r := Insert(x, s, UpTo);
    if s == [] || s[|s| - 1] <= x {
      assert r[..|s|] == s;
    } else {
      InsertCounts(x, s[..|s| - 1], c);
      assert r[..|r| - 1] == Insert(x, s[..|s| - 1], UpTo);
    }
  }

  lemma {:induction false} SortedCounts(xs: seq<real>, c: real)
    ensures Below(Sorted(xs, UpTo), c) == Below(xs, c) && UpToCount(Sorted(xs, UpTo), c) == UpToCount(xs, c)
  {
    if xs != [] {
      SortedCounts(xs[..|xs| - 1], c);
      InsertCounts(xs[|xs| - 1], Sorted(xs[..|xs| - 1], UpTo), c);
    }
  }

  lemma {:induction false} CountsInOrder(s: seq<real>, c: real, k: nat)
    ensures (forall j | k <= j < |s| :: c <= s[j]) ==> Below(s, c) <= k
    ensures k <= |s| && (forall j | 0 <= j < k :: s[j] <= c) ==> k <= UpToCount(s, c)
  {
    if s != [] {
      CountsInOrder(s[..|s| - 1], c, k);
      if k > 0 { CountsInOrder(s[..|s| - 1], c, k - 1); }
    }
  }

  /** What stands at position k of the sorted points has rank k. */
  lemma SortedHasRank(xs: seq<real>, k: nat)
    requires k < |xs|
    ensures |Sorted(xs, UpTo)| == |xs| && HasRank(xs, Sorted(xs, UpTo)[k], k)
  {
    SameLength(xs);
    SortedIsOrdered(xs, UpTo);
    var s := Sorted(xs, UpTo);
    SortedCounts(xs, s[k]);
    hide Sorted;
    forall j | 0 <= j < |s| ensures (j <= k ==> s[j] <= s[k]) && (k <= j ==> s[k] <= s[j]) {
      if j < k { assert UpTo(s[j], s[k]); }
      if k < j { assert UpTo(s[k], s[j]); }
    }
    CountsInOrder(s, s[k], k);
    CountsInOrder(s, s[k], k + 1);
  }

  /** The whole search: nothing for fewer than 50 points, for points or quartiles closer than a millionth; else up to
      twelve rounds from the quartiles, until the centres stand still or a side is empty. */
  lemma CentersAreFound(xs: seq<real>) returns (centers: seq<(real, real)>)
    ensures |xs| < 50 || (forall a, b | a in xs && b in xs :: b - a < 0.000001) ==> TwoMeans(xs) == None
    ensures |xs| >= 50 && (exists a, b :: a in xs && b in xs && b - a >= 0.000001) ==>
              && Rounds(xs, centers) && |centers| <= 13
              && HasRank(xs, centers[0].0, |xs| / 4) && HasRank(xs, centers[0].1, |xs| * 3 / 4)
              && var n, last := |centers| - 1, centers[|centers| - 1];
                 var settled := n > 0 && Still(centers[n - 1], last);
                 && (forall k | 1 <= k < n :: !Still(centers[k - 1], centers[k]))
                 && match TwoMeans(xs)
                    case Some(found) => found == last && (n == 12 || settled)
                    case None =>
                      || (n == 0 && last.1 - last.0 < 0.000001)
                      || (n < 12 && !settled && OneSided(xs, (last.0 + last.1) / 2.0))
  {
    hide Lower, Upper, Sum, Mean, HasRank, Search, Sorted, Quartiles, Rounds;
    centers := [];
    if |xs| >= 50 {
      WidthIsSpread(xs);
      var (c1, c2) := Quartiles(xs);
      QuartilesAscend(xs);
      QuartilesHaveRank(xs);
      if c2 - c1 < 0.000001 {
        centers := [(c1, c2)];
        OneRound(xs, (c1, c2));
      } else {
        centers := SearchIsRounds(xs, c1, c2, 12);
      }
    }
  }

  predicate OneSided(xs: seq<real>, m: real) { Lower(xs, m) == [] || Upper(xs, m) == [] }

  lemma OneRound(xs: seq<real>, c: (real, real))
    ensures Rounds(xs, [c])
  {
  }

  lemma QuartilesHaveRank(xs: seq<real>)
    requires xs != []
    ensures HasRank(xs, Quartiles(xs).0, |xs| / 4) && HasRank(xs, Quartiles(xs).1, |xs| * 3 / 4)
  {
    SortedHasRank(xs, |xs| / 4);
    SortedHasRank(xs, |xs| * 3 / 4);
  }

  lemma WidthIsSpread(xs: seq<real>)
    requires xs != []
    ensures Width(xs) < SPREAD <==> forall a, b | a in xs && b in xs :: b - a < 0.000001
  {
    var most, least := LeastOf(xs, (x: real) => -x), LeastOf(xs, (x: real) => x);
    var b :| b in xs && most == -b;
    var a :| a in xs && least == a;
    assert Width(xs) == b - a;
  }

  // ----- columns

  function XCenter(w: Word): real { (w.x0 + w.x1) / 2.0 }

  function XCenters(words: seq<Word>): seq<real> {
    seq(|words|, i requires 0 <= i < |words| => XCenter(words[i]))
  }

  function Keep(ws: seq<Word>, keep: Word -> bool): seq<Word> {
    if ws == [] then []
    else Keep(ws[..|ws| - 1], keep) + if keep(ws[|ws| - 1]) then [ws[|ws| - 1]] else []
  }

  function Not(keep: Word -> bool): Word -> bool { w => !keep(w) }

  function AtMost(x: real): Word -> bool { w => XCenter(w) <= x }

  lemma {:induction false} KeepPartitions(ws: seq<Word>, keep: Word -> bool)
    ensures multiset(Keep(ws, keep)) + multiset(Keep(ws, Not(keep))) == multiset(ws)
    ensures (forall w | w in Keep(ws, keep) :: keep(w)) && forall w | w in Keep(ws, Not(keep)) :: !keep(w)
  {
    if ws != [] {
      var init, w := ws[..|ws| - 1], ws[|ws| - 1];
      KeepPartitions(init, keep);
      assert ws == init + [w];
      OneMore(Keep(init, keep), Keep(init, Not(keep)), init, w);
      assert Keep(ws, keep) == if keep(w) then Keep(init, keep) + [w] else Keep(init, keep);
      assert Keep(ws, Not(keep)) == if keep(w) then Keep(init, Not(keep)) else Keep(init, Not(keep)) + [w];
    }
  }

  lemma OneMore<T>(a: seq<T>, b: seq<T>, c: seq<T>, x: T)
    ensures multiset(a) + multiset(b) == multiset(c) ==>
              multiset(a + [x]) + multiset(b) == multiset(c + [x]) == multiset(a) + multiset(b + [x])
  {
  }

  function IntMax(a: int, b: int): int { if a >= b then a else b }

  /** The split the code settles on: midway between the centres, if they are far enough apart and each side
      gets enough words; otherwise everything stays left. */
  ghost predicate Columns(words: seq<Word>, pageWidth: real, left: seq<Word>, right: seq<Word>, split: Option<real>) {
    var centers := TwoMeans(XCenters(words));
    match split
    case Some(x) =>
      && centers.Some? && x == Midway(centers.value)
      && FarApart(centers.value, pageWidth)
      && left == Keep(words, AtMost(x)) && right == Keep(words, Not(AtMost(x)))
      && |left| >= Enough(|words|) && |right| >= Enough(|words|)
    case None =>
      && left == words && right == []
      && (centers.Some? && FarApart(centers.value, pageWidth) ==>
            var x := Midway(centers.value);
            |Keep(words, AtMost(x))| < Enough(|words|) || |Keep(words, Not(AtMost(x)))| < Enough(|words|))
  }

  function Midway(centers: (real, real)): real { Middle(centers.0, centers.1) }

  /** The fewest words a column may have on a page of n words. */
  function Enough(n: nat): (least: int)
    ensures least > 0
  {
    IntMax(40, n * 15 / 100)
  }

  predicate FarApart(centers: (real, real), pageWidth: real) { centers.1 - centers.0 >= pageWidth * 0.22 }

  /** How many words have their x-centre at or left of half that sum. */
  function LeftOf(words: seq<Word>, sum: real): nat {
    if words == [] then 0
    else
      var last := words[|words| - 1];
      LeftOf(words[..|words| - 1], sum) + if last.x0 + last.x1 <= sum then 1 else 0
  }

  /** At least 40 words, and no fewer than 15 percent of all, rounded down. */
  predicate FillsColumn(n: int, all: nat) { n >= 40 && 100 * (n + 1) > 15 * all }

  /** A page is split exactly when the centres are at least 22 percent of its width apart and both sides of the midpoint
      hold enough words; a word then goes left exactly when its x-centre does not pass the midpoint. */
  lemma SplitIff(words: seq<Word>, pageWidth: real, left: seq<Word>, right: seq<Word>, split: Option<real>)
    requires Columns(words, pageWidth, left, right, split)
    ensures match TwoMeans(XCenters(words))
            case None => split.None?
            case Some((c1, c2)) =>
              var n := LeftOf(words, c1 + c2);
              && (split.Some? <==>
                    c2 - c1 >= 0.22 * pageWidth && FillsColumn(n, |words|) && FillsColumn(|words| - n, |words|))
              && (split.Some? ==>
                    && split.value == (c1 + c2) / 2.0
                    && (forall w | w in left :: w.x0 + w.x1 <= c1 + c2)
                    && (forall w | w in right :: w.x0 + w.x1 > c1 + c2)
                    && multiset(left) + multiset(right) == multiset(words))
    ensures split.None? ==> left == words && right == []
  {
    hide Keep, TwoMeans, LeftOf, XCenters;
    if TwoMeans(XCenters(words)).Some? {
      var (c1, c2) := TwoMeans(XCenters(words)).value;
      var x := (c1 + c2) / 2.0;
      CountLeft(words, c1 + c2);
      KeepPartitions(words, AtMost(x));
      assert |multiset(Keep(words, AtMost(x))) + multiset(Keep(words, Not(AtMost(x))))| == |multiset(words)|;
    }
  }

  lemma {:induction false} CountLeft(words: seq<Word>, sum: real)
    ensures LeftOf(words, sum) == |Keep(words, AtMost(sum / 2.0))|
  {
    if words != [] { CountLeft(words[..|words| - 1], sum); }
  }

  /** The words kept are in their order: positions in the page ascend with positions in the column. */
  lemma {:induction false} KeepKeepsOrder(ws: seq<Word>, keep: Word -> bool) returns (at: seq<nat>)
    ensures |at| == |Keep(ws, keep)|
    ensures forall k | 0 <= k < |at| :: at[k] < |ws| && Keep(ws, keep)[k] == ws[at[k]]
    ensures forall j, k | 0 <= j < k < |at| :: at[j] < at[k]
  {
    if ws == [] {
      at := [];
    } else {
      var n := |ws| - 1;
      at := KeepKeepsOrder(ws[..n], keep);
      if keep(ws[n]) {
        at := at + [n];
      }
    }
  }

  method SplitWordsIntoColumns(words: seq<Word>, pageWidth: real)
    returns (left: seq<Word>, right: seq<Word>, split: Option<real>)
    ensures Columns(words, pageWidth, left, right, split)
    ensures multiset(left) + multiset(right) == multiset(words)
  {
    hide Keep, AtMost, Not, FarApart, Midway, Enough, TwoMeans;
    NothingKept();
    if words == [] {
      TooFew(XCenters(words));
      return [], [], None;
    }
    var centers := TwoClusters(XCenters(words));
    if centers.None? {
      return words, [], None;
    }
    if !FarApart(centers.value, pageWidth) {
      return words, [], None;
    }
    var xSplit := Midway(centers.value);
    left, right := [], [];
    for i := 0 to |words|
      invariant left == Keep(words[..i], AtMost(xSplit))
      invariant right == Keep(words[..i], Not(AtMost(xSplit)))
    {
      var w := words[i];
      KeepNext(words, i, xSplit);
      if XCenter(w) <= xSplit {
        left := left + [w];
      } else {
        right := right + [w];
      }
    }
    assert words[..|words|] == words;
    KeepPartitions(words, AtMost(xSplit));
    if |left| < Enough(|words|) || |right| < Enough(|words|) {
      return words, [], None;
    }
    split := Some(xSplit);
  }

  lemma KeepNext(words: seq<Word>, i: nat, x: real)
    requires i < |words|
    ensures var below, above := AtMost(x), Not(AtMost(x));
            var w := words[i];
            && Keep(words[..i + 1], below) == Keep(words[..i], below) + (if XCenter(w) <= x then [w] else [])
            && Keep(words[..i + 1], above) == Keep(words[..i], above) + (if XCenter(w) <= x then [] else [w])
  {
    assert words[..i + 1][..i] == words[..i];
  }

  lemma NothingKept()
    ensures forall keep :: Keep([], keep) == []
  {
  }
}
