/** Splitting a column of lines into modules, and the table that pulls its rows together
    (backend/scripts/fields_extracting.py).  What the text tests say about a line is given as a tag. */
module PageModules {
  import opened Prelude
  import opened Layout
  import opened PageColumns

  datatype Tag = Tag(
    header: bool,     // in the top region of the page, where nothing starts a module
    heading: bool,    // reads like a section heading
    anchor: bool,     // a unit tag such as "($MILL.)"
    business: bool,   // the BUSINESS heading
    row: bool,        // looks like a row of figures
    namesake: bool)   // as a heading it would name its module like the financial table
  {
    predicate IsHeading() { heading && !header }

    predicate IsAnchor() { anchor && !header }

    /** A module starts here. */
    predicate Starts() { IsHeading() || IsAnchor() }

    /** The module that starts here is a financial table. */
    predicate StartsTable() { Starts() && (anchor || namesake) }

    /** The financial table reaches no further than this line. */
    predicate Stops() { IsHeading() && !business }

    predicate Pullable() { anchor || row }
  }

  /** A module as the positions of its lines. */
  datatype Section = Section(financial: bool, lines: seq<nat>)

  function Range(lo: nat, hi: nat): (s: seq<nat>)
    requires lo <= hi
    ensures |s| == hi - lo && forall i | 0 <= i < |s| :: s[i] == lo + i
  {
    seq(hi - lo, i requires 0 <= i < hi - lo => lo + i)
  }

  // ----- cutting at headings and unit tags

  /** The modules of the first n lines: each line that starts a module does, every other line joins the last. */
  function Cut(tags: seq<Tag>, n: nat): (sections: seq<Section>)
    requires n <= |tags|
    ensures n > 0 ==> sections != []
  {
    if n == 0 then [] else Place(tags, n - 1, Cut(tags, n - 1))
  }

  function Place(tags: seq<Tag>, k: nat, before: seq<Section>): (sections: seq<Section>)
    requires k < |tags|
    ensures sections != []
  {
    if before == [] || tags[k].Starts() then before + [Section(tags[k].StartsTable(), [k])]
    else
      var last := before[|before| - 1];
      before[..|before| - 1] + [last.(lines := last.lines + [k])]
  }

  /** Line k belongs to a module that started as a financial table. */
  predicate InTable(tags: seq<Tag>, k: nat)
    requires k < |tags|
  {
    if tags[k].Starts() then tags[k].StartsTable() else k > 0 && InTable(tags, k - 1)
  }

  function Positions(sections: seq<Section>): seq<nat> {
    if sections == [] then [] else Positions(sections[..|sections| - 1]) + sections[|sections| - 1].lines
  }

  /** How often line k occurs in tables, or outside them. */
  function Times(sections: seq<Section>, k: nat, financial: bool): nat {
    if sections == [] then 0
    else
      var last := sections[|sections| - 1];
      Times(sections[..|sections| - 1], k, financial)
      + if last.financial == financial then multiset(last.lines)[k] else 0
  }

  function Tables(sections: seq<Section>): nat {
    if sections == [] then 0
    else Tables(sections[..|sections| - 1]) + if sections[|sections| - 1].financial then 1 else 0
  }

  /** How many of the first n lines start a table. */
  function TableStarts(tags: seq<Tag>, n: nat): nat
    requires n <= |tags|
  {
    if n == 0 then 0 else TableStarts(tags, n - 1) + if tags[n - 1].StartsTable() then 1 else 0
  }

  /** Cutting puts every line into one module, into a table exactly if it belongs to one. */
  lemma {:induction false} CutPlacesOnce(tags: seq<Tag>, n: nat, k: nat)
    requires n <= |tags| && k < |tags|
    ensures Times(Cut(tags, n), k, true) == if k < n && InTable(tags, k) then 1 else 0
    ensures Times(Cut(tags, n), k, false) == if k < n && !InTable(tags, k) then 1 else 0
    ensures Tables(Cut(tags, n)) == TableStarts(tags, n)
    ensures n > 0 ==> Cut(tags, n)[|Cut(tags, n)| - 1].financial == InTable(tags, n - 1)
  {
    if n > 0 {
      CutPlacesOnce(tags, n - 1, k);
      OneMoreLine(tags, n);
      hide Cut, Times, Tables, Place;
      PlaceCounts(tags, n - 1, Cut(tags, n - 1), k);
    }
  }

  /** Placing one more line counts it once, in the module it belongs to. */
  lemma PlaceCounts(tags: seq<Tag>, x: nat, before: seq<Section>, k: nat)
    requires x < |tags|
    requires before == [] ==> x == 0
    requires before != [] ==> x > 0 && before[|before| - 1].financial == InTable(tags, x - 1)
    ensures var after := Place(tags, x, before);
            && after[|after| - 1].financial == InTable(tags, x)
            && (forall t ::
                  Times(after, k, t) == Times(before, k, t) + if InTable(tags, x) == t && x == k then 1 else 0)
            && Tables(after) == Tables(before) + if tags[x].StartsTable() then 1 else 0
  {
    hide Times, Tables;
    if before == [] || tags[x].Starts() {
      NewSection(before, Section(tags[x].StartsTable(), [x]), k);
    } else {
      GrowLast(before, x, k);
    }
  }

  lemma OneMoreLine(tags: seq<Tag>, n: nat)
    requires 0 < n <= |tags|
    ensures Cut(tags, n) == Place(tags, n - 1, Cut(tags, n - 1))
    ensures Cut(tags, n - 1) == [] ==> n == 1
  {
  }

  lemma NewSection(before: seq<Section>, added: Section, k: nat)
    ensures var after := before + [added];
            && (forall t ::
                  Times(after, k, t)
                  == Times(before, k, t) + if added.financial == t then multiset(added.lines)[k] else 0)
            && Tables(after) == Tables(before) + if added.financial then 1 else 0
  {
    assert (before + [added])[..|before|] == before;
  }

  lemma GrowLast(before: seq<Section>, x: nat, k: nat)
    requires before != []
    ensures var last := before[|before| - 1];
            var after := before[..|before| - 1] + [last.(lines := last.lines + [x])];
            && (forall t ::
                  Times(after, k, t) == Times(before, k, t) + if last.financial == t && x == k then 1 else 0)
            && Tables(after) == Tables(before)
  {
    var last := before[|before| - 1];
    var after := before[..|before| - 1] + [last.(lines := last.lines + [x])];
    assert after[..|after| - 1] == before[..|before| - 1];
  }

  // ----- pulling the rows of the financial table together

  predicate IsFirstAnchor(tags: seq<Tag>, a: nat) {
    a < |tags| && tags[a].IsAnchor() && forall k | 0 <= k < a :: !tags[k].IsAnchor()
  }

  predicate HasAnchor(tags: seq<Tag>) { exists k | 0 <= k < |tags| :: tags[k].IsAnchor() }

  /** A row or unit tag between the first unit tag and the next heading other than BUSINESS. */
  predicate Pulled(tags: seq<Tag>, k: nat) {
    && k < |tags| && tags[k].Pullable()
    && exists a | 0 <= a <= k :: IsFirstAnchor(tags, a) && forall h | a < h <= k :: !tags[h].Stops()
  }

  function Filter(s: seq<nat>, keep: nat -> bool): seq<nat> {
    if s == [] then [] else Filter(s[..|s| - 1], keep) + if keep(s[|s| - 1]) then [s[|s| - 1]] else []
  }

  function IsPulled(tags: seq<Tag>): nat -> bool { (k: nat) => Pulled(tags, k) }

  function NotPulled(tags: seq<Tag>): nat -> bool { (k: nat) => !Pulled(tags, k) }

  function PulledLines(tags: seq<Tag>): seq<nat> { Filter(Range(0, |tags|), IsPulled(tags)) }

  /** Every table becomes the pulled lines, and every other module gives them up. */
  function PullAll(tags: seq<Tag>, cut: seq<Section>): (sections: seq<Section>)
    ensures |sections| == |cut|
  {
    seq(|cut|, i requires 0 <= i < |cut| =>
      if cut[i].financial then Section(true, PulledLines(tags))
        else Section(false, Filter(cut[i].lines, NotPulled(tags))))
  }

  function Modules(tags: seq<Tag>): seq<Section> {
    var cut := Cut(tags, |tags|);
    if HasAnchor(tags) then PullAll(tags, cut) else cut
  }

  lemma {:induction false} FilterCounts(s: seq<nat>, keep: nat -> bool, k: nat)
    ensures multiset(Filter(s, keep))[k] == if keep(k) then multiset(s)[k] else 0
  {
    if s != [] {
      FilterCounts(s[..|s| - 1], keep, k);
      assert s == s[..|s| - 1] + [s[|s| - 1]];
    }
  }

  lemma {:induction false} RangeCounts(lo: nat, hi: nat, k: nat)
    requires lo <= hi
    ensures multiset(Range(lo, hi))[k] == if lo <= k < hi then 1 else 0
    decreases hi
  {
    if lo < hi {
      RangeCounts(lo, hi - 1, k);
      assert Range(lo, hi) == Range(lo, hi - 1) + [hi - 1];
    }
  }

  /** A pulled line ends up in every table, any other line outside the tables if it was outside before. */
  lemma {:induction false} PullCounts(tags: seq<Tag>, cut: seq<Section>, k: nat)
    requires k < |tags|
    ensures multiset(Positions(PullAll(tags, cut)))[k] == if Pulled(tags, k) then Tables(cut) else Times(cut, k, false)
  {
    if cut != [] {
      var init, last := cut[..|cut| - 1], cut[|cut| - 1];
      PullCounts(tags, init, k);
      hide Pulled;
      var after := PullAll(tags, cut);
      assert after[..|cut| - 1] == PullAll(tags, init);
      FilterCounts(last.lines, NotPulled(tags), k);
      FilterCounts(Range(0, |tags|), IsPulled(tags), k);
      RangeCounts(0, |tags|, k);
    }
  }

  lemma {:induction false} CutCounts(cut: seq<Section>, k: nat)
    ensures multiset(Positions(cut))[k] == Times(cut, k, false) + Times(cut, k, true)
  {
    if cut != [] { CutCounts(cut[..|cut| - 1], k); }
  }

  /** How often line k ends up in a module. */
  lemma PlacedCounts(tags: seq<Tag>, k: nat)
    requires k < |tags|
    ensures multiset(Positions(Modules(tags)))[k] ==
            if !HasAnchor(tags) then 1
            else if Pulled(tags, k) then TableStarts(tags, |tags|)
            else if InTable(tags, k) then 0
            else 1
  {
    hide Pulled, Cut, PullAll, InTable;
    var cut := Cut(tags, |tags|);
    CutPlacesOnce(tags, |tags|, k);
    CutCounts(cut, k);
    PullCounts(tags, cut, k);
  }

  // ----- the same on the tags themselves

  /** A heading or a unit tag below the top region. */
  predicate Opens(t: Tag) { (t.heading || t.anchor) && !t.header }

  /** The section is one stretch: it opens with its first line (the very first section need not), and with no other; it
      is a table if that line is a unit tag or names itself like the table. */
  predicate IsStretch(tags: seq<Tag>, section: Section, first: bool) {
    && section.lines != [] && (forall j | 0 <= j < |section.lines| :: section.lines[j] < |tags|)
    && (first || Opens(tags[section.lines[0]]))
    && (forall j | 1 <= j < |section.lines| :: !Opens(tags[section.lines[j]]))
    && var t := tags[section.lines[0]];
       section.financial == (Opens(t) && (t.anchor || t.namesake))
  }

  /** Cutting keeps the lines in order and starts a section at every heading and unit tag. */
  lemma {:induction false} CutInStretches(tags: seq<Tag>, n: nat)
    requires n <= |tags|
    ensures Positions(Cut(tags, n)) == Range(0, n)
    ensures forall i | 0 <= i < |Cut(tags, n)| :: IsStretch(tags, Cut(tags, n)[i], i == 0)
  {
    hide Cut, Place, Positions, IsStretch;
    if n == 0 {
      NothingCut(tags);
    } else {
      CutInStretches(tags, n - 1);
      OneMoreLine(tags, n);
      assert Range(0, n) == Range(0, n - 1) + [n - 1];
      PlaceInStretches(tags, n - 1, Cut(tags, n - 1));
    }
  }

  lemma NothingCut(tags: seq<Tag>)
    ensures Cut(tags, 0) == [] && Positions([]) == Range(0, 0)
  {
  }

  lemma PlaceInStretches(tags: seq<Tag>, k: nat, before: seq<Section>)
    requires k < |tags|
    requires forall i | 0 <= i < |before| :: IsStretch(tags, before[i], i == 0)
    ensures Positions(Place(tags, k, before)) == Positions(before) + [k]
    ensures forall i | 0 <= i < |Place(tags, k, before)| :: IsStretch(tags, Place(tags, k, before)[i], i == 0)
  {
    hide Positions, IsStretch;
    if before == [] || tags[k].Starts() {
      var added := Section(tags[k].StartsTable(), [k]);
      OpenStretch(tags, k, before == []);
      PositionsAppend(before, added);
    } else {
      var init, last := before[..|before| - 1], before[|before| - 1];
      GrowStretch(tags, last, k, |before| == 1);
      PositionsAppend(init, last);
      PositionsAppend(init, last.(lines := last.lines + [k]));
      assert before == init + [last];
    }
  }

  lemma OpenStretch(tags: seq<Tag>, k: nat, first: bool)
    requires k < |tags| && (first || tags[k].Starts())
    ensures IsStretch(tags, Section(tags[k].StartsTable(), [k]), first)
  {
  }

  lemma GrowStretch(tags: seq<Tag>, section: Section, k: nat, first: bool)
    requires k < |tags| && !tags[k].Starts() && IsStretch(tags, section, first)
    ensures IsStretch(tags, section.(lines := section.lines + [k]), first)
  {
  }

  lemma PositionsAppend(sections: seq<Section>, added: Section)
    ensures Positions(sections + [added]) == Positions(sections) + added.lines
  {
    assert (sections + [added])[..|sections|] == sections;
  }

  /** A pulled line is a row or unit tag, and between it and the first unit tag stands no heading but BUSINESS. */
  lemma PulledExactly(tags: seq<Tag>, k: nat)
    requires k < |tags|
    ensures Pulled(tags, k) <==>
              && (tags[k].anchor || tags[k].row)
              && exists a ::
                   && 0 <= a <= k && tags[a].anchor && !tags[a].header
                   && (forall b | 0 <= b < a :: !tags[b].anchor || tags[b].header)
                   && (forall h | a < h <= k :: !tags[h].heading || tags[h].header || tags[h].business)
  {
    assert forall a | 0 <= a <= k ::
        IsFirstAnchor(tags, a) <==>
        tags[a].anchor && !tags[a].header && forall b | 0 <= b < a :: !tags[b].anchor || tags[b].header;
  }

  ghost predicate Ascending(s: seq<nat>) { forall i, j | 0 <= i < j < |s| :: s[i] < s[j] }

  /** With a unit tag every table is made of exactly the pulled lines, every other section keeps exactly its lines that
      are not pulled, and all keep their order; without one the sections stay as they were cut. */
  lemma ModulesExactly(tags: seq<Tag>, i: nat)
    requires i < |Cut(tags, |tags|)|
    ensures var cut, modules := Cut(tags, |tags|), Modules(tags);
            && |modules| == |cut| && modules[i].financial == cut[i].financial
            && Ascending(modules[i].lines)
            && forall k: nat :: k in modules[i].lines <==>
                 if exists a | 0 <= a < |tags| :: tags[a].anchor && !tags[a].header
                 then
                   && k < |tags|
                   && if cut[i].financial then Pulled(tags, k) else k in cut[i].lines && !Pulled(tags, k)
                 else k in cut[i].lines
  {
    hide Cut, Pulled, Positions, Ascending, Filter;
    var cut := Cut(tags, |tags|);
    CutInStretches(tags, |tags|);
    LinesAreBelow(tags, cut[i], i == 0);
    RangeAscends(|tags|);
    PartOf(cut, i);
    FilterKeeps(Range(0, |tags|), IsPulled(tags));
    FilterKeeps(cut[i].lines, NotPulled(tags));
  }

  lemma RangeAscends(n: nat)
    ensures Ascending(Range(0, n)) && forall k: nat :: k in Range(0, n) <==> k < n
  {
    forall k: nat | k < n ensures k in Range(0, n) {
      assert Range(0, n)[k] == k;
    }
  }

  lemma LinesAreBelow(tags: seq<Tag>, section: Section, first: bool)
    ensures IsStretch(tags, section, first) ==> forall k | k in section.lines :: k < |tags|
  {
  }

  lemma {:induction false} FilterKeeps(s: seq<nat>, keep: nat -> bool)
    ensures forall k :: k in Filter(s, keep) <==> k in s && keep(k)
    ensures Ascending(s) ==> Ascending(Filter(s, keep))
  {
    if s != [] {
      FilterKeeps(s[..|s| - 1], keep);
      assert s == s[..|s| - 1] + [s[|s| - 1]];
      var init := Filter(s[..|s| - 1], keep);
      assert forall k | 0 <= k < |init| :: init[k] in init;
    }
  }

  lemma {:induction false} PartOf(sections: seq<Section>, i: nat)
    requires i < |sections|
    ensures Ascending(Positions(sections)) ==> Ascending(sections[i].lines)
  {
    var init, last := sections[..|sections| - 1], sections[|sections| - 1];
    assert Positions(sections) == Positions(init) + last.lines;
    hide Positions, Ascending;
    AscendingParts(Positions(init), last.lines);
    if i < |init| {
      PartOf(init, i);
    }
  }

  lemma AscendingParts(s: seq<nat>, t: seq<nat>)
    ensures Ascending(s + t) ==> Ascending(s) && Ascending(t)
  {
    if Ascending(s + t) {
      forall i, j | 0 <= i < j < |t| ensures t[i] < t[j] {
        assert (s + t)[|s| + i] == t[i] && (s + t)[|s| + j] == t[j];
      }
      forall i, j | 0 <= i < j < |s| ensures s[i] < s[j] {
        assert (s + t)[i] == s[i] && (s + t)[j] == s[j];
      }
    }
  }

  // ----- when every line is kept

  ghost predicate EachLineOnce(tags: seq<Tag>) {
    forall k | 0 <= k < |tags| :: multiset(Positions(Modules(tags)))[k] == 1
  }

  /** Without a unit tag nothing is pulled; with one, it starts the only table, and that table holds nothing but
      rows and unit tags. */
  predicate Undisturbed(tags: seq<Tag>) {
    HasAnchor(tags) ==>
      && (forall s | 0 <= s < |tags| && tags[s].StartsTable() :: IsFirstAnchor(tags, s))
      && (forall k | 0 <= k < |tags| && InTable(tags, k) :: tags[k].Pullable())
  }

  /** Every line of a column ends up in exactly one module, exactly when pulling does not disturb the table. */
  lemma EachLineOnceIff(tags: seq<Tag>)
    ensures EachLineOnce(tags) <==> Undisturbed(tags)
  {
    hide Modules, Pulled, InTable, TableStarts;
    forall k: nat | k < |tags| { PlacedCounts(tags, k); }
    if HasAnchor(tags) {
      var a := FirstAnchorOf(tags);
      FirstIsPulled(tags, a);
      if Undisturbed(tags) {
        OneTable(tags, a, |tags|);
        forall k: nat | k < |tags| && InTable(tags, k) ensures Pulled(tags, k) {
          TableIsPulled(tags, a, k);
        }
      }
      if EachLineOnce(tags) {
        forall s: nat | s < |tags| && tags[s].StartsTable() ensures s == a {
          StartsDiffer(tags, a, s, |tags|);
        }
        forall k: nat | k < |tags| && InTable(tags, k) ensures tags[k].Pullable() {
          PulledIsPullable(tags, k);
        }
      }
    }
  }

  lemma FirstAnchorOf(tags: seq<Tag>) returns (a: nat)
    requires HasAnchor(tags)
    ensures IsFirstAnchor(tags, a)
  {
    a :| a < |tags| && tags[a].IsAnchor();
    while exists k: nat :: k < a && tags[k].IsAnchor()
      invariant a < |tags| && tags[a].IsAnchor()
      decreases a
    {
      var k: nat :| k < a && tags[k].IsAnchor();
      a := k;
    }
  }

  lemma FirstIsPulled(tags: seq<Tag>, a: nat)
    ensures IsFirstAnchor(tags, a) ==> Pulled(tags, a) && tags[a].StartsTable()
  {
  }

  lemma PulledIsPullable(tags: seq<Tag>, k: nat)
    ensures Pulled(tags, k) ==> k < |tags| && tags[k].Pullable()
  {
  }

  lemma {:induction false} OneTable(tags: seq<Tag>, a: nat, n: nat)
    requires n <= |tags| && IsFirstAnchor(tags, a)
    requires forall s | 0 <= s < |tags| && tags[s].StartsTable() :: IsFirstAnchor(tags, s)
    ensures TableStarts(tags, n) == if a < n then 1 else 0
  {
    if n > 0 { OneTable(tags, a, n - 1); }
  }

  /** With one table start, the table's lines lie between it and the next heading. */
  lemma {:induction false} TableIsPulled(tags: seq<Tag>, a: nat, k: nat)
    requires k < |tags| && IsFirstAnchor(tags, a) && InTable(tags, k) && Undisturbed(tags)
    ensures Pulled(tags, k)
  {
    TableStretch(tags, a, k);
  }

  lemma {:induction false} TableStretch(tags: seq<Tag>, a: nat, k: nat)
    requires k < |tags| && IsFirstAnchor(tags, a) && InTable(tags, k)
    requires forall s | 0 <= s < |tags| && tags[s].StartsTable() :: IsFirstAnchor(tags, s)
    ensures a <= k && forall h | a < h <= k :: !tags[h].Stops()
  {
    if !tags[k].Starts() {
      TableStretch(tags, a, k - 1);
    }
  }

  lemma {:induction false} StartsDiffer(tags: seq<Tag>, a: nat, s: nat, n: nat)
    requires a < |tags| && s < |tags| && tags[a].StartsTable() && tags[s].StartsTable() && n <= |tags|
    ensures TableStarts(tags, n) >= (if a < n then 1 else 0) + if s < n && s != a then 1 else 0
  {
    if n > 0 { StartsDiffer(tags, a, s, n - 1); }
  }

  const UNIT := Tag(false, false, true, false, false, false)
  const ROW := Tag(false, false, false, false, true, false)
  const NOTE := Tag(false, false, false, false, false, false)

  /** A footnote below a unit tag ends up in no module. */
  lemma NoteIsLost()
    ensures multiset(Positions(Modules([UNIT, ROW, NOTE])))[2] == 0
  {
    hide Modules, Pulled, Positions;
    var tags := [UNIT, ROW, NOTE];
    assert tags[0].IsAnchor();
    PlacedCounts(tags, 2);
    assert !Pulled(tags, 2) by {
      if Pulled(tags, 2) { PulledIsPullable(tags, 2); }
    }
    assert InTable(tags, 0) && InTable(tags, 1) && InTable(tags, 2);
  }

  /** With two unit tags every row ends up twice. */
  lemma RowIsRepeated()
    ensures multiset(Positions(Modules([UNIT, ROW, UNIT])))[1] == 2
  {
    hide Modules, Positions, InTable;
    var tags := [UNIT, ROW, UNIT];
    assert tags[0].IsAnchor() && IsFirstAnchor(tags, 0);
    PlacedCounts(tags, 1);
    assert Pulled(tags, 1);
    assert TableStarts(tags, 1) == 1 && TableStarts(tags, 2) == 1 && TableStarts(tags, 3) == 2;
  }

  // ----- the code as it runs

  /** The positions below n where p holds, in order. */
  ghost predicate Found(tags: seq<Tag>, p: Tag -> bool, n: nat, found: seq<nat>)
    requires n <= |tags|
  {
    && (forall i, j | 0 <= i < j < |found| :: found[i] < found[j])
    && (forall i | 0 <= i < |found| :: found[i] < n && p(tags[found[i]]))
    && (forall k | 0 <= k < n && p(tags[k]) :: k in found)
  }

  method PositionsWhere(tags: seq<Tag>, p: Tag -> bool) returns (found: seq<nat>)
    ensures Found(tags, p, |tags|, found)
  {
    found := [];
    for k := 0 to |tags|
      invariant Found(tags, p, k, found)
    {
      if p(tags[k]) {
        found := found + [k];
      }
    }
  }

  function Starting(): Tag -> bool { (t: Tag) => t.Starts() }

  function Anchoring(): Tag -> bool { (t: Tag) => t.IsAnchor() }

  function Heading(): Tag -> bool { (t: Tag) => t.IsHeading() }

  /** Slices between neighbouring starts, with the lines before the first start as a module of their own. */
  method CutIntoModules(tags: seq<Tag>) returns (sections: seq<Section>)
    ensures sections == Cut(tags, |tags|)
  {
    hide Cut;
    var n := |tags|;
    Nothing(tags);
    var starts := PositionsWhere(tags, Starting());
    if starts == [] {
      if n == 0 {
        return [];
      }
      NextSection(tags, 0, n);
      return [Section(false, Range(0, n))];
    }
    sections := [];
    if starts[0] != 0 {
      NextSection(tags, 0, starts[0]);
      sections := [Section(false, Range(0, starts[0]))];
    }
    for pos := 0 to |starts|
      invariant pos < |starts| ==> starts[pos] <= n
      invariant sections == Cut(tags, if pos < |starts| then starts[pos] else n)
    {
      var start, end := starts[pos], if pos + 1 < |starts| then starts[pos + 1] else n;
      NextSection(tags, start, end);
      sections := sections + [Section(tags[start].StartsTable(), Range(start, end))];
    }
  }

  lemma Nothing(tags: seq<Tag>)
    ensures Cut(tags, 0) == []
  {
  }

  lemma {:induction false} NextSection(tags: seq<Tag>, start: nat, end: nat)
    requires start < end <= |tags| && (start == 0 || tags[start].Starts())
    requires forall k | start < k < end :: !tags[k].Starts()
    ensures Cut(tags, end) == Cut(tags, start) + [Section(tags[start].StartsTable(), Range(start, end))]
    decreases end
  {
    hide Cut, Place, Tag.StartsTable;
    OneMoreLine(tags, end);
    var table := tags[start].StartsTable();
    if end == start + 1 {
      Nothing(tags);
      PlaceStarts(tags, start, Cut(tags, start));
      assert Range(start, end) == [start];
    } else {
      NextSection(tags, start, end - 1);
      PlaceExtends(tags, end - 1, Cut(tags, start), Section(table, Range(start, end - 1)));
      assert Range(start, end) == Range(start, end - 1) + [end - 1];
    }
  }

  lemma PlaceStarts(tags: seq<Tag>, k: nat, before: seq<Section>)
    ensures (k < |tags| && (before == [] || tags[k].Starts())) ==>
              Place(tags, k, before) == before + [Section(tags[k].StartsTable(), [k])]
  {
  }

  lemma PlaceExtends(tags: seq<Tag>, k: nat, done: seq<Section>, last: Section)
    ensures k < |tags| && !tags[k].Starts() ==>
              Place(tags, k, done + [last]) == done + [last.(lines := last.lines + [k])]
  {
  }

  /** After cutting, the financial rows after the first unit tag replace the lines of every table and leave the other
      modules.  The unit tag starts a table itself, so there always is one. */
  method FormModules(tags: seq<Tag>) returns (sections: seq<Section>)
    ensures sections == Modules(tags)
  {
    hide Cut;
    var cut := CutIntoModules(tags);
    var anchors := PositionsWhere(tags, Anchoring());
    assert HasAnchor(tags) <==> anchors != [] by { AnchorsFound(tags, anchors); }
    if anchors == [] {
      return cut;
    }
    assert IsFirstAnchor(tags, anchors[0]) by { AnchorsFound(tags, anchors); }
    var rows := FinancialRows(tags, anchors[0]);
    sections := [];
    for i := 0 to |cut|
      invariant sections == PullAll(tags, cut)[..i]
    {
      if cut[i].financial {
        sections := sections + [Section(true, rows)];
      } else {
        sections := sections + [Section(false, Filter(cut[i].lines, NotPulled(tags)))];
      }
    }
  }

  lemma AnchorsFound(tags: seq<Tag>, anchors: seq<nat>)
    requires Found(tags, Anchoring(), |tags|, anchors)
    ensures HasAnchor(tags) <==> anchors != []
    ensures anchors != [] ==> IsFirstAnchor(tags, anchors[0])
  {
    forall k: nat | k < |tags| && tags[k].IsAnchor() ensures k in anchors {
      assert Anchoring()(tags[k]);
    }
    assert anchors != [] ==> Anchoring()(tags[anchors[0]]);
  }

  method FinancialRows(tags: seq<Tag>, anchor: nat) returns (rows: seq<nat>)
    requires IsFirstAnchor(tags, anchor)
    ensures rows == PulledLines(tags)
  {
    var headings := PositionsWhere(tags, Heading());
    var end := EndOfRows(tags, anchor, headings);
    hide Pulled, Found, IsFirstAnchor;
    rows := [];
    for k := anchor to end
      invariant rows == Filter(Range(anchor, k), IsPulled(tags))
    {
      assert Range(anchor, k + 1)[..k - anchor] == Range(anchor, k);
      PulledIff(tags, anchor, end, k);
      if tags[k].anchor || tags[k].row {
        rows := rows + [k];
      }
    }
    OnlyBetween(tags, anchor, end);
  }

  /** The rows end before the first heading other than BUSINESS. */
  ghost predicate RowsEnd(tags: seq<Tag>, anchor: nat, end: nat) {
    && anchor < end <= |tags| && (end < |tags| ==> tags[end].Stops())
    && forall h | anchor < h < end :: !tags[h].Stops()
  }

  method EndOfRows(tags: seq<Tag>, anchor: nat, headings: seq<nat>) returns (end: nat)
    requires anchor < |tags| && Found(tags, Heading(), |tags|, headings)
    ensures RowsEnd(tags, anchor, end)
  {
    end := |tags|;
    for i := 0 to |headings|
      invariant end == |tags|
      invariant forall j | 0 <= j < i :: headings[j] <= anchor || tags[headings[j]].business
    {
      if headings[i] > anchor && !tags[headings[i]].business {
        end := headings[i];
        assert Heading()(tags[end]);
        return;
      }
    }
  }

  lemma PulledIff(tags: seq<Tag>, anchor: nat, end: nat, k: nat)
    requires IsFirstAnchor(tags, anchor) && RowsEnd(tags, anchor, end)
    ensures Pulled(tags, k) <==> anchor <= k < end && tags[k].Pullable()
  {
    if Pulled(tags, k) {
      var a :| 0 <= a <= k && IsFirstAnchor(tags, a) && forall h | a < h <= k :: !tags[h].Stops();
      assert a == anchor;
    }
  }

  lemma OnlyBetween(tags: seq<Tag>, anchor: nat, end: nat)
    requires IsFirstAnchor(tags, anchor) && RowsEnd(tags, anchor, end)
    ensures PulledLines(tags) == Filter(Range(anchor, end), IsPulled(tags))
  {
    hide Filter, Pulled;
    var n, keep := |tags|, IsPulled(tags);
    forall k: nat { PulledIff(tags, anchor, end, k); }
    assert Range(0, n) == Range(0, anchor) + (Range(anchor, end) + Range(end, n));
    FilterConcat(Range(0, anchor), Range(anchor, end) + Range(end, n), keep);
    FilterConcat(Range(anchor, end), Range(end, n), keep);
    FilterNone(Range(0, anchor), keep);
    FilterNone(Range(end, n), keep);
  }

  lemma {:induction false} FilterConcat(s: seq<nat>, t: seq<nat>, keep: nat -> bool)
    ensures Filter(s + t, keep) == Filter(s, keep) + Filter(t, keep)
  {
    if t == [] {
      assert s + t == s;
    } else {
      FilterConcat(s, t[..|t| - 1], keep);
      assert (s + t)[..|s + t| - 1] == s + t[..|t| - 1];
    }
  }

  lemma {:induction false} FilterNone(s: seq<nat>, keep: nat -> bool)
    requires forall i | 0 <= i < |s| :: !keep(s[i])
    ensures Filter(s, keep) == []
  {
    if s != [] { FilterNone(s[..|s| - 1], keep); }
  }

  // ----- the words of a column

  datatype Module = Module(financial: bool, blocks: seq<Block>)

  predicate AllBelow(at: seq<nat>, n: nat) { forall i | 0 <= i < |at| :: at[i] < n }

  ghost predicate Within(sections: seq<Section>, n: nat) {
    forall i | 0 <= i < |sections| :: AllBelow(sections[i].lines, n)
  }

  /** The lines at these positions. */
  function Gather(ls: seq<Line>, at: seq<nat>): seq<Line>
    requires AllBelow(at, |ls|)
  {
    seq(|at|, i requires 0 <= i < |at| => ls[at[i]])
  }

  function TagsOf(ls: seq<Line>, classify: Line -> Tag): (tags: seq<Tag>)
    ensures |tags| == |ls|
  {
    seq(|ls|, i requires 0 <= i < |ls| => classify(ls[i]))
  }

  /** The modules are the sections that have lines, each grouped into blocks. */
  ghost predicate ModulesOf(ls: seq<Line>, sections: seq<Section>, gapTol: real, modules: seq<Module>)
    requires Within(sections, |ls|)
  {
    if sections == [] then modules == []
    else
      var init, last := sections[..|sections| - 1], sections[|sections| - 1];
      if last.lines == [] then ModulesOf(ls, init, gapTol, modules)
      else
        && modules != []
        && modules[|modules| - 1].financial == last.financial
        && BlocksOf(Gather(ls, last.lines), gapTol, modules[|modules| - 1].blocks)
        && ModulesOf(ls, init, gapTol, modules[..|modules| - 1])
  }

  function WordsOfModules(modules: seq<Module>): seq<Word> {
    if modules == [] then []
    else WordsOfModules(modules[..|modules| - 1]) + WordsOfBlocks(modules[|modules| - 1].blocks)
  }

  method AssignLinesToModules(lines: seq<Line>, classify: Line -> Tag, gapTol: real) returns (modules: seq<Module>)
    requires forall line | line in lines :: line.words != []
    ensures var ls := Sorted(lines, ByLineTop);
            && Within(Modules(TagsOf(ls, classify)), |ls|)
            && ModulesOf(ls, Modules(TagsOf(ls, classify)), gapTol, modules)
  {
    hide Sorted, Modules, BlocksOf;
    var ls := Sorted(lines, ByLineTop);
    var tags := TagsOf(ls, classify);
    var sections := FormModules(tags);
    ModulesWithin(tags);
    modules := [];
    for i := 0 to |sections|
      invariant Within(sections[..i], |ls|) && ModulesOf(ls, sections[..i], gapTol, modules)
    {
      assert sections[..i + 1] == sections[..i] + [sections[i]];
      if sections[i].lines != [] {
        var segment := Gather(ls, sections[i].lines);
        StillNotEmpty(lines, ls, segment);
        var blocks := GroupLinesIntoBlocks(segment, gapTol);
        modules := modules + [Module(sections[i].financial, blocks)];
      }
    }
    assert sections[..|sections|] == sections;
  }

  lemma StillNotEmpty(lines: seq<Line>, ls: seq<Line>, segment: seq<Line>)
    requires forall line | line in lines :: line.words != []
    requires multiset(ls) == multiset(lines) && forall i | 0 <= i < |segment| :: segment[i] in ls
    ensures forall line | line in segment :: line.words != []
  {
    forall line | line in segment ensures line.words != [] {
      assert line in multiset(ls);
    }
  }

  lemma ModulesWithin(tags: seq<Tag>)
    ensures Within(Modules(tags), |tags|)
  {
    hide Cut, AllBelow, Filter;
    CutWithin(tags, |tags|);
    var cut := Cut(tags, |tags|);
    FilterBelow(Range(0, |tags|), IsPulled(tags), |tags|);
    forall i | 0 <= i < |cut| ensures AllBelow(Filter(cut[i].lines, NotPulled(tags)), |tags|) {
      FilterBelow(cut[i].lines, NotPulled(tags), |tags|);
    }
  }

  lemma {:induction false} CutWithin(tags: seq<Tag>, n: nat)
    requires n <= |tags|
    ensures Within(Cut(tags, n), |tags|)
  {
    hide Cut, AllBelow, Within, Place;
    if n == 0 {
      Nothing(tags);
      NothingWithin(|tags|);
    } else {
      CutWithin(tags, n - 1);
      OneMoreLine(tags, n);
      PlaceBelow(tags, n - 1, Cut(tags, n - 1));
    }
  }

  lemma NothingWithin(n: nat)
    ensures Within([], n)
  {
  }

  lemma PlaceBelow(tags: seq<Tag>, k: nat, before: seq<Section>)
    requires k < |tags| && Within(before, |tags|)
    ensures Within(Place(tags, k, before), |tags|)
  {
    hide AllBelow;
    AppendBelow([], k, |tags|);
    assert [] + [k] == [k];
    if before != [] {
      AppendBelow(before[|before| - 1].lines, k, |tags|);
    }
  }

  lemma AppendBelow(at: seq<nat>, k: nat, n: nat)
    requires AllBelow(at, n) && k < n
    ensures AllBelow(at + [k], n)
  {
  }

  lemma {:induction false} FilterBelow(s: seq<nat>, keep: nat -> bool, n: nat)
    requires AllBelow(s, n)
    ensures AllBelow(Filter(s, keep), n)
  {
    if s != [] { FilterBelow(s[..|s| - 1], keep, n); }
  }

  lemma {:induction false} PositionsBelow(sections: seq<Section>, n: nat)
    requires Within(sections, n)
    ensures AllBelow(Positions(sections), n)
  {
    if sections != [] {
      PositionsBelow(sections[..|sections| - 1], n);
      assert AllBelow(sections[|sections| - 1].lines, n);
    }
  }

  /** The words of the gathered lines. */
  function GatheredWords(ls: seq<Line>, at: seq<nat>): multiset<Word>
    requires AllBelow(at, |ls|)
  {
    multiset(WordsOfLines(Gather(ls, at)))
  }

  lemma GatherConcat(ls: seq<Line>, a: seq<nat>, b: seq<nat>)
    requires AllBelow(a, |ls|) && AllBelow(b, |ls|)
    ensures AllBelow(a + b, |ls|)
    ensures GatheredWords(ls, a + b) == GatheredWords(ls, a) + GatheredWords(ls, b)
  {
    hide WordsOfLines;
    assert Gather(ls, a + b) == Gather(ls, a) + Gather(ls, b);
    WordsOfConcat(Gather(ls, a), Gather(ls, b));
  }

  /** The modules hold the words of the lines that were placed into them. */
  lemma {:induction false} ModulesHoldPlacedWords(
      ls: seq<Line>, sections: seq<Section>, gapTol: real, modules: seq<Module>)
    requires Within(sections, |ls|)
    ensures AllBelow(Positions(sections), |ls|)
    ensures ModulesOf(ls, sections, gapTol, modules) ==>
              multiset(WordsOfModules(modules)) == GatheredWords(ls, Positions(sections))
    decreases |sections|
  {
    hide BlocksOf, WordsOfBlocks, WordsOfLines, AllBelow;
    PositionsBelow(sections, |ls|);
    if sections != [] {
      var init, last := sections[..|sections| - 1], sections[|sections| - 1];
      assert AllBelow(last.lines, |ls|);
      PositionsBelow(init, |ls|);
      if last.lines == [] {
        ModulesHoldPlacedWords(ls, init, gapTol, modules);
        assert Positions(sections) == Positions(init);
      } else {
        GatherConcat(ls, Positions(init), last.lines);
        if ModulesOf(ls, sections, gapTol, modules) {
          ModulesHoldPlacedWords(ls, init, gapTol, modules[..|modules| - 1]);
          hide ModulesOf, Gather;
          BlocksConserveLines(Gather(ls, last.lines), gapTol);
        }
      }
    } else {
      NoWords(ls);
    }
  }

  lemma NoWords(ls: seq<Line>)
    ensures AllBelow([], |ls|) && GatheredWords(ls, []) == multiset{}
  {
  }

  // ----- words and lines

  predicate AllDifferent(words: seq<Word>) { forall w | w in words :: multiset(words)[w] == 1 }

  /** Word w stands once in line i and nowhere else; in no line, if i is none of them. */
  ghost predicate LivesIn(ls: seq<Line>, w: Word, i: nat) {
    forall k | 0 <= k < |ls| :: multiset(ls[k].words)[w] == if k == i then 1 else 0
  }

  /** Then it is gathered as often as line i is. */
  lemma {:induction false} WordFollowsLine(ls: seq<Line>, at: seq<nat>, w: Word, i: nat)
    requires LivesIn(ls, w, i) && AllBelow(at, |ls|)
    ensures GatheredWords(ls, at)[w] == multiset(at)[i]
  {
    if at != [] {
      var init, last := at[..|at| - 1], at[|at| - 1];
      WordFollowsLine(ls, init, w, i);
      assert at == init + [last];
      hide GatheredWords;
      GatherConcat(ls, init, [last]);
      OneLine(ls, last);
    } else {
      NoWords(ls);
    }
  }

  lemma OneLine(ls: seq<Line>, k: nat)
    requires k < |ls|
    ensures GatheredWords(ls, [k]) == multiset(ls[k].words)
  {
    assert Gather(ls, [k]) == [ls[k]];
    assert [ls[k]][1..] == [];
    assert WordsOfLines([ls[k]]) == ls[k].words + WordsOfLines([]);
  }

  lemma {:induction false} HomeOf(ls: seq<Line>, w: Word) returns (i: nat)
    requires multiset(WordsOfLines(ls))[w] <= 1
    ensures LivesIn(ls, w, i) && (i < |ls| <==> w in WordsOfLines(ls))
  {
    if ls == [] {
      i := 0;
    } else {
      assert multiset(WordsOfLines(ls)) == multiset(ls[0].words) + multiset(WordsOfLines(ls[1..]));
      i := HomeOf(ls[1..], w);
      if w in multiset(ls[0].words) {
        assert w !in multiset(WordsOfLines(ls[1..]));
        i := 0;
      } else {
        i := i + 1;
      }
    }
  }

  lemma {:induction false} WordOfLine(ls: seq<Line>, k: nat)
    requires k < |ls| && ls[k].words != []
    ensures ls[k].words[0] in WordsOfLines(ls)
  {
    if k > 0 { WordOfLine(ls[1..], k - 1); }
  }

  /** If no two words of a column are the same, its words survive exactly if every line is gathered once. */
  lemma WordsSurviveIffLinesDo(ls: seq<Line>, at: seq<nat>)
    requires AllDifferent(WordsOfLines(ls)) && AllBelow(at, |ls|)
    requires forall k | 0 <= k < |ls| :: ls[k].words != []
    ensures GatheredWords(ls, at) == multiset(WordsOfLines(ls))
            <==> forall k | 0 <= k < |ls| :: multiset(at)[k] == 1
  {
    hide WordsOfLines, GatheredWords, LivesIn, AllDifferent;
    var before, after := multiset(WordsOfLines(ls)), GatheredWords(ls, at);
    if forall k | 0 <= k < |ls| :: multiset(at)[k] == 1 {
      forall w ensures after[w] == before[w] {
        var i := CountsOf(ls, at, w);
      }
    }
    if after == before {
      forall k: nat | k < |ls| ensures multiset(at)[k] == 1 {
        LineCounts(ls, at, k);
      }
    }
  }

  lemma LineCounts(ls: seq<Line>, at: seq<nat>, k: nat)
    requires AllDifferent(WordsOfLines(ls)) && AllBelow(at, |ls|)
    requires k < |ls| && ls[k].words != []
    ensures var w := ls[k].words[0];
            multiset(WordsOfLines(ls))[w] == 1 && GatheredWords(ls, at)[w] == multiset(at)[k]
  {
    hide WordsOfLines, GatheredWords, AllDifferent;
    var w := ls[k].words[0];
    var i := CountsOf(ls, at, w);
    assert w in multiset(ls[k].words);
    assert i == k;
  }

  /** Whatever the words, they survive if every line is gathered once. */
  lemma WordsSurvive(ls: seq<Line>, at: seq<nat>)
    requires AllBelow(at, |ls|) && forall k | 0 <= k < |ls| :: multiset(at)[k] == 1
    ensures GatheredWords(ls, at) == multiset(WordsOfLines(ls))
  {
    hide WordsOfLines;
    var all: seq<nat> := Range(0, |ls|);
    assert Gather(ls, all) == ls;
    forall k: int ensures multiset(at)[k] == multiset(all)[k] {
      if 0 <= k < |ls| {
        RangeCounts(0, |ls|, k);
      }
    }
    SamePositions(ls, at, all);
  }

  /** The order of positions does not matter. */
  lemma {:induction false} SamePositions(ls: seq<Line>, a: seq<nat>, b: seq<nat>)
    requires AllBelow(a, |ls|) && AllBelow(b, |ls|) && multiset(a) == multiset(b)
    ensures GatheredWords(ls, a) == GatheredWords(ls, b)
    decreases |a|
  {
    hide GatheredWords, AllBelow;
    if a == [] {
      assert |multiset(a)| == 0 && |multiset(b)| == |b|;
    } else {
      assert a[0] in multiset(a) && a[0] in multiset(b);
      var j :| 0 <= j < |b| && b[j] == a[0];
      var rest := RemovePosition(ls, b, j);
      var tail := RemovePosition(ls, a, 0);
      SameRemainder(multiset(tail), multiset(rest), multiset{a[0]});
      SamePositions(ls, tail, rest);
    }
  }

  lemma RemovePosition(ls: seq<Line>, b: seq<nat>, j: nat) returns (rest: seq<nat>)
    requires AllBelow(b, |ls|) && j < |b|
    ensures AllBelow(rest, |ls|) && |rest| == |b| - 1
    ensures multiset(b) == multiset(rest) + multiset{b[j]}
    ensures b[j] < |ls| && AllBelow([b[j]], |ls|)
    ensures GatheredWords(ls, b) == GatheredWords(ls, rest) + GatheredWords(ls, [b[j]])
  {
    hide GatheredWords;
    rest := b[..j] + b[j + 1..];
    assert b == b[..j] + ([b[j]] + b[j + 1..]);
    GatherConcat(ls, b[..j], [b[j]] + b[j + 1..]);
    GatherConcat(ls, [b[j]], b[j + 1..]);
    GatherConcat(ls, b[..j], b[j + 1..]);
  }

  lemma CountsOf(ls: seq<Line>, at: seq<nat>, w: Word) returns (i: nat)
    requires AllDifferent(WordsOfLines(ls)) && AllBelow(at, |ls|)
    ensures LivesIn(ls, w, i) && GatheredWords(ls, at)[w] == multiset(at)[i]
    ensures if i < |ls| then multiset(WordsOfLines(ls))[w] == 1
            else multiset(WordsOfLines(ls))[w] == 0 && multiset(at)[i] == 0
  {
    hide WordsOfLines, GatheredWords, LivesIn;
    i := HomeOf(ls, w);
    WordFollowsLine(ls, at, w, i);
  }

  // ----- a page

  const Y_TOL := 2.0
  const BLOCK_GAP_TOL := 4.0

  function LeftOf(words: seq<Word>, split: Option<real>): seq<Word> {
    if split.None? then words else Keep(words, AtMost(split.value))
  }

  function RightOf(words: seq<Word>, split: Option<real>): seq<Word> {
    if split.None? then [] else Keep(words, Not(AtMost(split.value)))
  }

  /** The left column's lines from top to bottom. */
  ghost function ColumnLines(words: seq<Word>): seq<Line> {
    Sorted(LinesOf(RawLines(words, Y_TOL)), ByLineTop)
  }

  /** The modules are those of the column's lines. */
  ghost predicate InModules(words: seq<Word>, classify: Line -> Tag, modules: seq<Module>) {
    var ls := ColumnLines(words);
    var sections := Modules(TagsOf(ls, classify));
    Within(sections, |ls|) && ModulesOf(ls, sections, BLOCK_GAP_TOL, modules)
  }

  /** Pulling rows together loses and repeats nothing in this column. */
  ghost predicate ColumnUndisturbed(words: seq<Word>, classify: Line -> Tag) {
    Undisturbed(TagsOf(ColumnLines(words), classify))
  }

  /** All words of a page as it comes out. */
  function PageWords(modules: seq<Module>, rightBlocks: seq<Block>): multiset<Word> {
    multiset(WordsOfModules(modules)) + multiset(WordsOfBlocks(rightBlocks))
  }

  /** The left column goes into modules, the right column into blocks.  The page's words come out, each once, if
      pulling does not disturb the left column; and only then, if no two words of the page are the same. */
  method LayOutPage(words: seq<Word>, pageWidth: real, classify: Line -> Tag)
    returns (modules: seq<Module>, rightBlocks: seq<Block>, split: Option<real>)
    ensures Columns(words, pageWidth, LeftOf(words, split), RightOf(words, split), split)
    ensures InModules(LeftOf(words, split), classify, modules)
    ensures BlocksOf(LinesOf(RawLines(RightOf(words, split), Y_TOL)), BLOCK_GAP_TOL, rightBlocks)
    ensures ColumnUndisturbed(LeftOf(words, split), classify) ==> PageWords(modules, rightBlocks) == multiset(words)
    ensures AllDifferent(words) && PageWords(modules, rightBlocks) == multiset(words) ==>
              ColumnUndisturbed(LeftOf(words, split), classify)
  {
    hide RunsOf, Sorted, InModules, BlocksOf, AllDifferent, ColumnUndisturbed, LinesOf, RawLines, WordsOfModules,
      WordsOfBlocks;
    var left, right;
    left, right, split := SplitWordsIntoColumns(words, pageWidth);
    SplitSides(words, pageWidth, left, right, split);
    hide Columns, LeftOf, RightOf;
    modules := LayOutLeftColumn(left, classify);
    LinesAreNotEmpty(right, Y_TOL);
    var rightLines := GroupWordsIntoLines(right, Y_TOL);
    rightBlocks := GroupLinesIntoBlocks(rightLines, BLOCK_GAP_TOL);
    BlocksConserveWords(right, Y_TOL, BLOCK_GAP_TOL);
    WholeIffPart(multiset(WordsOfModules(modules)), multiset(left), multiset(right), multiset(words));
    ColumnSurvivesIff(left, classify, modules);
    if AllDifferent(words) {
      StillDifferent(words, left, right);
    }
  }

  lemma SplitSides(
      words: seq<Word>, pageWidth: real, left: seq<Word>, right: seq<Word>, split: Option<real>)
    requires Columns(words, pageWidth, left, right, split)
    ensures left == LeftOf(words, split) && right == RightOf(words, split)
  {
  }

  lemma WholeIffPart(a: multiset<Word>, left: multiset<Word>, right: multiset<Word>, words: multiset<Word>)
    requires left + right == words
    ensures a + right == words <==> a == left
  {
    if a + right == words {
      assert a == (a + right) - right && left == (left + right) - right;
    }
  }

  method LayOutLeftColumn(words: seq<Word>, classify: Line -> Tag) returns (modules: seq<Module>)
    ensures InModules(words, classify, modules)
  {
    hide RunsOf, Sorted, Modules, ModulesOf, LinesOf, Within;
    LinesAreNotEmpty(words, Y_TOL);
    var lines := GroupWordsIntoLines(words, Y_TOL);
    modules := AssignLinesToModules(lines, classify, BLOCK_GAP_TOL);
  }

  lemma StillDifferent(words: seq<Word>, left: seq<Word>, right: seq<Word>)
    requires AllDifferent(words) && multiset(left) + multiset(right) == multiset(words)
    ensures AllDifferent(left)
  {
    forall w | w in left ensures multiset(left)[w] == 1 {
      assert w in multiset(words);
    }
  }

  /** The modules of a column hold exactly its words if pulling does not disturb it, and only then if no two of its
      words are the same. */
  lemma ColumnSurvivesIff(words: seq<Word>, classify: Line -> Tag, modules: seq<Module>)
    ensures InModules(words, classify, modules) ==>
              && (ColumnUndisturbed(words, classify) ==> multiset(WordsOfModules(modules)) == multiset(words))
              && (AllDifferent(words) && multiset(WordsOfModules(modules)) == multiset(words) ==>
                    ColumnUndisturbed(words, classify))
  {
    hide ColumnLines, Modules, ModulesOf, AllDifferent, Undisturbed, Within, WordsOfLines, WordsOfModules, Positions,
      AllBelow;
    var ls := ColumnLines(words);
    var tags := TagsOf(ls, classify);
    ModulesWithin(tags);
    ModulesHoldPlacedWords(ls, Modules(tags), BLOCK_GAP_TOL, modules);
    ColumnHoldsWords(words);
    EachLineOnceIff(tags);
    if EachLineOnce(tags) {
      WordsSurvive(ls, Positions(Modules(tags)));
    }
    if AllDifferent(words) {
      SameCounts(words, WordsOfLines(ls));
      WordsSurviveIffLinesDo(ls, Positions(Modules(tags)));
    }
  }

  lemma ColumnHoldsWords(words: seq<Word>)
    ensures multiset(WordsOfLines(ColumnLines(words))) == multiset(words)
    ensures forall k | 0 <= k < |ColumnLines(words)| :: ColumnLines(words)[k].words != []
  {
    hide RunsOf, Sorted, LinesOf, WordsOfLines;
    var lines := LinesOf(RawLines(words, Y_TOL));
    LinesConserveWords(RawLines(words, Y_TOL));
    PermutedLines(Sorted(lines, ByLineTop), lines);
    LinesAreNotEmpty(words, Y_TOL);
    StillNotEmpty(lines, ColumnLines(words), ColumnLines(words));
  }

  lemma SameCounts(a: seq<Word>, b: seq<Word>)
    requires multiset(a) == multiset(b) && AllDifferent(a)
    ensures AllDifferent(b)
  {
    forall w | w in b ensures multiset(b)[w] == 1 {
      assert w in multiset(a);
    }
  }
}
