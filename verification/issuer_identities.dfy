/** Issuer identities and filings of backend/alembic/versions/20260827120000-sec-financial-lineage.py.  Both tables
    are append-only; the guard's advisory locks serialize inserts that share a stock or a CIK, so a table is the
    sequence of its rows in insertion order.  `knownAt` of an identity is chosen by the caller. */
module IssuerIdentities {
  import opened Prelude

  datatype Status = Reviewed | NeedsReview | Retired

  datatype Identity = Identity(
    id: int, stock: int, cik: string, status: Status, reason: Option<string>,
    effective: Interval, knownAt: int, supersedes: Option<int>)

  predicate Share(a: Identity, b: Identity) { a.stock == b.stock || a.cik == b.cik }

  /** Two rows that must not both be in force. */
  predicate Clash(a: Identity, b: Identity) { Share(a, b) && a.effective.Overlaps(b.effective) }

  predicate HasChild(log: seq<Identity>, row: Identity) {
    exists k | 0 <= k < |log| :: log[k].supersedes == Some(row.id)
  }

  // ----- admission

  predicate Blank(s: string) { forall c | c in s :: c == ' ' }

  /** The check constraints.  A missing reason makes the reason check unknown, which a database accepts. */
  predicate WellShaped(row: Identity) {
    row.effective.WellShaped() && (row.status.NeedsReview? || row.reason.None? || !Blank(row.reason.value))
  }

  predicate UniqueKeys(log: seq<Identity>, row: Identity) {
    && (forall k | 0 <= k < |log| :: log[k].id != row.id)
    && (row.supersedes.Some? ==> forall k | 0 <= k < |log| :: log[k].supersedes != row.supersedes)
    && (forall k | 0 <= k < |log| ::
          !(log[k].stock == row.stock && log[k].cik == row.cik
            && log[k].effective.start == row.effective.start && log[k].knownAt == row.knownAt))
  }

  predicate ValidSupersession(log: seq<Identity>, row: Identity) {
    && (row.status.Retired? ==> row.supersedes.Some?)
    && (row.supersedes.Some? ==>
          exists i | 0 <= i < |log| :: CanSupersede(log[i], row) && !HasChild(log, log[i]))
  }

  predicate CanSupersede(earlier: Identity, row: Identity) {
    row.supersedes == Some(earlier.id) && earlier.stock == row.stock && earlier.knownAt < row.knownAt
  }

  predicate Blocks(log: seq<Identity>, existing: Identity, row: Identity) {
    && existing.status in {Reviewed, Retired}
    && row.supersedes != Some(existing.id)
    && !HasChild(log, existing)
    && Clash(existing, row)
  }

  predicate GuardAdmits(log: seq<Identity>, row: Identity) {
    && ValidSupersession(log, row)
    && (row.status.Reviewed? ==> forall i | 0 <= i < |log| :: !Blocks(log, log[i], row))
  }

  predicate Admissible(log: seq<Identity>, row: Identity) {
    WellShaped(row) && UniqueKeys(log, row) && GuardAdmits(log, row)
  }

  ghost predicate History(log: seq<Identity>) {
    log == [] || (History(log[..|log| - 1]) && Admissible(log[..|log| - 1], log[|log| - 1]))
  }

  class IdentityTable {
    var log: seq<Identity>

    ghost predicate Valid()
      reads this
    {
      History(log)
    }

    constructor ()
      ensures Valid() && log == []
    {
      log := [];
    }

    method Insert(row: Identity) returns (admitted: bool)
      requires Valid()
      modifies this
      ensures Valid()
      ensures admitted <==> Admissible(old(log), row)
      ensures log == if admitted then old(log) + [row] else old(log)
    {
      if row.status.Retired? && row.supersedes.None? {
        return false;
      }
      if row.supersedes.Some? {
        if !(exists i | 0 <= i < |log| :: CanSupersede(log[i], row) && !HasChild(log, log[i])) {
          return false;
        }
      }
      if row.status.Reviewed? && exists i | 0 <= i < |log| :: Blocks(log, log[i], row) {
        return false;
      }
      if !WellShaped(row) || !UniqueKeys(log, row) {
        return false;
      }
      assert (log + [row])[..|log|] == log;
      log := log + [row];
      admitted := true;
    }
  }

  // ----- what every history keeps

  ghost predicate KeysUnique(log: seq<Identity>) {
    && (forall i, j | 0 <= i < j < |log| :: log[i].id != log[j].id)
    && (forall i, j | 0 <= i < j < |log| && log[j].supersedes.Some? :: log[i].supersedes != log[j].supersedes)
  }

  /** A superseding row names an earlier row of the same stock that was known strictly before it. */
  ghost predicate Linked(log: seq<Identity>) {
    forall j | 0 <= j < |log| && log[j].supersedes.Some? :: exists i: nat :: i < j && CanSupersede(log[i], log[j])
  }

  predicate SupersededUpTo(log: seq<Identity>, i: nat, j: nat)
    requires i < |log| && j < |log|
  {
    exists k | 0 <= k <= j :: log[k].supersedes == Some(log[i].id)
  }

  /** A reviewed or retired row that clashes with a later reviewed one had been superseded when that was admitted, or
      was by it. */
  ghost predicate Resolved(log: seq<Identity>) {
    forall i, j | 0 <= i < j < |log| && !log[i].status.NeedsReview? && log[j].status.Reviewed?
      && Clash(log[i], log[j]) ::
      SupersededUpTo(log, i, j)
  }

  lemma {:induction false} HistoryKeeps(log: seq<Identity>)
    requires History(log)
    ensures KeysUnique(log) && Linked(log) && Resolved(log)
  {
    hide Linked, Resolved, WellShaped, GuardAdmits;
    if log == [] {
      EmptyTableKeeps();
    } else {
      var earlier, row := log[..|log| - 1], log[|log| - 1];
      HistoryKeeps(earlier);
      assert log == earlier + [row];
      AppendKeepsLinked(earlier, row);
      AppendKeepsResolved(earlier, row);
    }
  }

  lemma EmptyTableKeeps()
    ensures Linked([]) && Resolved([])
  {
  }

  lemma AppendKeepsLinked(log: seq<Identity>, row: Identity)
    requires Linked(log) && GuardAdmits(log, row)
    ensures Linked(log + [row])
  {
    var after := log + [row];
    forall j | 0 <= j < |after| && after[j].supersedes.Some?
      ensures exists i: nat :: i < j && CanSupersede(after[i], after[j])
    {
      if j < |log| {
        var i: nat :| i < j && CanSupersede(log[i], log[j]);
        assert CanSupersede(after[i], after[j]);
      } else {
        var i :| 0 <= i < |log| && CanSupersede(log[i], row) && !HasChild(log, log[i]);
        assert CanSupersede(after[i], after[j]);
      }
    }
  }

  lemma AppendKeepsResolved(log: seq<Identity>, row: Identity)
    requires Resolved(log) && GuardAdmits(log, row)
    ensures Resolved(log + [row])
  {
    hide Clash;
    var after := log + [row];
    forall i, j | 0 <= i < j < |after| && !after[i].status.NeedsReview? && after[j].status.Reviewed?
      && Clash(after[i], after[j])
      ensures SupersededUpTo(after, i, j)
    {
      if j < |log| {
        var k :| 0 <= k <= j && log[k].supersedes == Some(log[i].id);
        assert after[k].supersedes == Some(after[i].id);
      } else {
        assert !Blocks(log, log[i], row);
        if HasChild(log, log[i]) {
          var k :| 0 <= k < |log| && log[k].supersedes == Some(log[i].id);
          assert after[k].supersedes == Some(after[i].id);
        } else {
          assert after[j].supersedes == Some(after[i].id);
        }
      }
    }
  }

  predicate OnDate(row: Identity, date: int) {
    row.effective.start <= date && (row.effective.end.None? || date <= row.effective.end.value)
  }

  /** In every reachable table a reviewed row that shares a stock or a CIK and a date with an earlier reviewed or
      retired row finds that row superseded, or supersedes it. */
  lemma {:induction false} StandingRowsAreRespected(log: seq<Identity>, i: nat, j: nat, date: int)
    requires History(log) && i < j < |log|
    requires log[i].status in {Reviewed, Retired} && log[j].status == Reviewed
    requires (log[i].stock == log[j].stock || log[i].cik == log[j].cik) && OnDate(log[i], date) && OnDate(log[j], date)
    ensures exists k :: 0 <= k <= j && log[k].supersedes == Some(log[i].id)
  {
    HistoryKeeps(log);
    assert Clash(log[i], log[j]);
    assert SupersededUpTo(log, i, j);
  }

  /** Nothing has superseded row i, and `row` does not. */
  predicate Stands(log: seq<Identity>, i: nat, row: Identity)
    requires i < |log|
  {
    (forall k | 0 <= k < |log| :: log[k].supersedes != Some(log[i].id)) && row.supersedes != Some(log[i].id)
  }

  /** Exactly what is admitted: a row with an ordered interval, a reason that is not blank unless it needs review, and
      unique keys; that retires or supersedes only an unsuperseded row of its stock known before it; and that, if
      reviewed, shares no stock or CIK on any date with a reviewed or retired row that stands. */
  lemma {:induction false} AdmittedExactly(log: seq<Identity>, row: Identity)
    requires History(log)
    ensures Admissible(log, row) <==>
              && (row.effective.end.Some? ==> row.effective.start <= row.effective.end.value)
              && (row.status == NeedsReview || row.reason.None? || exists c :: c in row.reason.value && c != ' ')
              && (forall k | 0 <= k < |log| ::
                    && log[k].id != row.id && (row.supersedes.Some? ==> log[k].supersedes != row.supersedes)
                    && (log[k].stock != row.stock || log[k].cik != row.cik
                        || log[k].effective.start != row.effective.start || log[k].knownAt != row.knownAt))
              && (row.supersedes.None? ==> row.status != Retired)
              && (row.supersedes.Some? ==>
                    exists i | 0 <= i < |log| ::
                      row.supersedes == Some(log[i].id) && log[i].stock == row.stock && log[i].knownAt < row.knownAt)
              && (row.status == Reviewed ==>
                    forall i, date | 0 <= i < |log| && log[i].status in {Reviewed, Retired}
                      && (log[i].stock == row.stock || log[i].cik == row.cik)
                      && OnDate(log[i], date) && OnDate(row, date) :: !Stands(log, i, row))
  {
    forall i | 0 <= i < |log| ensures log[i].effective.WellShaped() {
      RowsAreWellShaped(log, i);
    }
    if row.effective.WellShaped() {
      forall i | 0 <= i < |log|
        ensures log[i].effective.Overlaps(row.effective) <==> exists date :: OnDate(log[i], date) && OnDate(row, date)
      {
        OverlapIsCommonDate(log[i], row);
      }
    }
    assert row.supersedes.Some? && (forall k | 0 <= k < |log| :: log[k].supersedes != row.supersedes) ==>
        forall i | 0 <= i < |log| && row.supersedes == Some(log[i].id) :: !HasChild(log, log[i]);
  }

  lemma {:induction false} RowsAreWellShaped(log: seq<Identity>, i: nat)
    requires History(log) && i < |log|
    ensures log[i].effective.WellShaped()
  {
    if i < |log| - 1 {
      RowsAreWellShaped(log[..|log| - 1], i);
    }
  }

  lemma OverlapIsCommonDate(a: Identity, b: Identity)
    requires a.effective.WellShaped() && b.effective.WellShaped()
    ensures a.effective.Overlaps(b.effective) <==> exists date :: OnDate(a, date) && OnDate(b, date)
  {
    if a.effective.Overlaps(b.effective) {
      var date := if a.effective.start >= b.effective.start then a.effective.start else b.effective.start;
      assert OnDate(a, date) && OnDate(b, date);
    }
  }

  /** In every reachable table no two reviewed rows in force share a stock or a CIK on a common date. */
  lemma {:induction false} ReviewedRowsAreDisjoint(log: seq<Identity>)
    requires History(log)
    ensures forall i, j | 0 <= i < j < |log| && log[i].status.Reviewed? && log[j].status.Reviewed?
              && !HasChild(log, log[i]) && !HasChild(log, log[j]) :: !Clash(log[i], log[j])
  {
    hide Clash;
    HistoryKeeps(log);
    forall i, j | 0 <= i < j < |log| && log[i].status.Reviewed? && log[j].status.Reviewed? && !HasChild(log, log[i])
      ensures !Clash(log[i], log[j])
    {
      assert !SupersededUpTo(log, i, j);
    }
  }

  // ----- supersession chains

  ghost function Parent(log: seq<Identity>, j: nat): (i: nat)
    requires Linked(log) && j < |log| && log[j].supersedes.Some?
    ensures i < j && CanSupersede(log[i], log[j])
  {
    var i: nat :| i < j && CanSupersede(log[i], log[j]);
    i
  }

  /** Row j is reached from row i by superseding zero or more times. */
  ghost predicate Descends(log: seq<Identity>, i: nat, j: nat)
    requires Linked(log) && i < |log| && j < |log|
    decreases j
  {
    i == j || (log[j].supersedes.Some? && Descends(log, i, Parent(log, j)))
  }

  /** A chain stays on one stock and strictly increases in known_at. */
  lemma {:induction false} ChainAscends(log: seq<Identity>, i: nat, j: nat)
    requires Linked(log) && i < |log| && j < |log| && Descends(log, i, j)
    ensures log[i].stock == log[j].stock && i <= j
    ensures i != j ==> log[i].knownAt < log[j].knownAt
    decreases j
  {
    if i != j { ChainAscends(log, i, Parent(log, j)); }
  }

  /** A chain never forks: of two rows that descend from one row, one descends from the other. */
  lemma {:induction false} ChainIsLinear(log: seq<Identity>, root: nat, a: nat, b: nat)
    requires History(log) && Linked(log) && root < |log| && a < |log| && b < |log|
    requires Descends(log, root, a) && Descends(log, root, b)
    ensures Descends(log, a, b) || Descends(log, b, a)
    decreases a + b
  {
    HistoryKeeps(log);
    if a != root && b != root {
      var pa, pb := Parent(log, a), Parent(log, b);
      ChainIsLinear(log, root, pa, pb);
      if Descends(log, pa, pb) {
        OnlyChild(log, pa, a, b);
      } else {
        OnlyChild(log, pb, b, a);
      }
    }
  }

  /** Whatever properly descends from a row descends from the one row that supersedes it. */
  lemma {:induction false} OnlyChild(log: seq<Identity>, p: nat, child: nat, j: nat)
    requires Linked(log) && KeysUnique(log) && p < |log| && child < |log| && j < |log|
    requires log[child].supersedes.Some? && Parent(log, child) == p
    requires log[j].supersedes.Some? && Descends(log, p, Parent(log, j))
    ensures Descends(log, child, j)
    decreases j
  {
    var q := Parent(log, j);
    if q == p {
      assert log[j].supersedes == log[child].supersedes == Some(log[p].id);
      assert j == child;
    } else {
      OnlyChild(log, p, child, q);
    }
  }

  // ----- point in time

  predicate SupersededAsOf(log: seq<Identity>, row: Identity, cutoff: int) {
    exists k | 0 <= k < |log| :: log[k].supersedes == Some(row.id) && log[k].knownAt <= cutoff
  }

  predicate InForce(log: seq<Identity>, row: Identity, cutoff: int) {
    row.status.Reviewed? && row.knownAt <= cutoff && !SupersededAsOf(log, row, cutoff)
  }

  ghost predicate DisjointAsOf(log: seq<Identity>, cutoff: int) {
    forall i, j | 0 <= i < j < |log| && InForce(log, log[i], cutoff) && InForce(log, log[j], cutoff) ::
      !Clash(log[i], log[j])
  }

  ghost predicate AlwaysDisjoint(log: seq<Identity>) { forall cutoff :: DisjointAsOf(log, cutoff) }

  /** With non-decreasing known_at the same disjointness holds as of every cutoff. */
  lemma MonotoneIsAlwaysDisjoint(log: seq<Identity>)
    requires History(log)
    requires forall i, j | 0 <= i < j < |log| :: log[i].knownAt <= log[j].knownAt
    ensures AlwaysDisjoint(log)
  {
    hide Clash, History, KeysUnique, Linked;
    HistoryKeeps(log);
    forall cutoff, i, j
      | 0 <= i < j < |log| && log[i].status.Reviewed? && log[j].status.Reviewed? && Clash(log[i], log[j])
        && log[j].knownAt <= cutoff
      ensures SupersededAsOf(log, log[i], cutoff)
    {
      assert SupersededUpTo(log, i, j);
    }
  }

  /** The row is dated before the supersession of a reviewed row with which it clashes. */
  ghost predicate BackdatedBehind(log: seq<Identity>, row: Identity, i: nat, k: nat)
    requires i < |log| && k < |log|
  {
    log[i].status.Reviewed? && Clash(log[i], row) && log[k].supersedes == Some(log[i].id)
      && row.knownAt < log[k].knownAt
  }

  /** Exactly when an admitted row keeps every cutoff disjoint: unless it is a reviewed row dated before the
      supersession of a reviewed row with which it clashes.  The guard does not test this. */
  lemma BackdatedInsert(log: seq<Identity>, row: Identity)
    requires History(log) && Admissible(log, row) && AlwaysDisjoint(log)
    ensures AlwaysDisjoint(log + [row]) <==>
            !(row.status.Reviewed? && exists i: nat, k: nat | i < |log| && k < |log| :: BackdatedBehind(log, row, i, k))
  {
    HistoryKeeps(log);
    if row.status.Reviewed? && exists i: nat, k: nat | i < |log| && k < |log| :: BackdatedBehind(log, row, i, k) {
      var i: nat, k: nat :| i < |log| && k < |log| && BackdatedBehind(log, row, i, k);
      BackdatedBreaks(log, row, i, k);
    } else {
      forall cutoff ensures DisjointAsOf(log + [row], cutoff) {
        OtherwiseDisjoint(log, row, cutoff);
      }
    }
  }

  lemma BackdatedBreaks(log: seq<Identity>, row: Identity, i: nat, k: nat)
    requires KeysUnique(log) && Linked(log) && UniqueKeys(log, row)
    requires forall m | 0 <= m < |log + [row]| :: (log + [row])[m].supersedes != Some(row.id)
    requires row.status.Reviewed? && i < |log| && k < |log| && BackdatedBehind(log, row, i, k)
    ensures !AlwaysDisjoint(log + [row])
  {
    hide Clash;
    var after := log + [row];
    var cutoff := if log[i].knownAt >= row.knownAt then log[i].knownAt else row.knownAt;
    var p: nat :| p < k && CanSupersede(log[p], log[k]);
    assert p == i;
    forall m | 0 <= m < |after| && after[m].supersedes == Some(log[i].id) ensures after[m].knownAt > cutoff {
      assert m < |log| ==> m == k;
    }
    assert after[i] == log[i] && after[|log|] == row;
    assert InForce(after, after[i], cutoff) && InForce(after, after[|log|], cutoff);
    assert !DisjointAsOf(after, cutoff);
  }

  lemma OtherwiseDisjoint(log: seq<Identity>, row: Identity, cutoff: int)
    requires Admissible(log, row) && DisjointAsOf(log, cutoff)
    requires row.status.Reviewed? ==> forall i: nat, k: nat | i < |log| && k < |log| :: !BackdatedBehind(log, row, i, k)
    ensures DisjointAsOf(log + [row], cutoff)
  {
    hide Clash, WellShaped, ValidSupersession;
    var after := log + [row];
    forall i, j | 0 <= i < j < |after| && InForce(after, after[i], cutoff) && InForce(after, after[j], cutoff)
      ensures !Clash(after[i], after[j])
    {
      AlsoInForceBefore(log, row, i, cutoff);
      if j < |log| {
        AlsoInForceBefore(log, row, j, cutoff);
      } else {
        assert !Blocks(log, log[i], row);
        assert after[j].supersedes != Some(log[i].id);
        if HasChild(log, log[i]) {
          var k :| 0 <= k < |log| && log[k].supersedes == Some(log[i].id);
          assert after[k] == log[k];
          assert !BackdatedBehind(log, row, i, k);
        }
      }
    }
  }

  lemma AlsoInForceBefore(log: seq<Identity>, row: Identity, i: nat, cutoff: int)
    requires i < |log|
    ensures InForce(log + [row], log[i], cutoff) ==> InForce(log, log[i], cutoff)
  {
    if SupersededAsOf(log, log[i], cutoff) {
      var k :| 0 <= k < |log| && log[k].supersedes == Some(log[i].id) && log[k].knownAt <= cutoff;
      assert (log + [row])[k] == log[k];
    }
  }

  /** The guard admits such a history: a decision, its later replacement, and a third row dated in between. */
  lemma BackdatedExample()
    ensures var a := Identity(1, 1, "1", Reviewed, None, Interval(0, None), 1, None);
            var b := Identity(2, 1, "1", NeedsReview, None, Interval(0, None), 10, Some(1));
            var c := Identity(3, 1, "2", Reviewed, None, Interval(0, None), 5, None);
            History([a, b, c]) && !AlwaysDisjoint([a, b, c])
  {
    var a := Identity(1, 1, "1", Reviewed, None, Interval(0, None), 1, None);
    var b := Identity(2, 1, "1", NeedsReview, None, Interval(0, None), 10, Some(1));
    var c := Identity(3, 1, "2", Reviewed, None, Interval(0, None), 5, None);
    assert [a, b, c][..2] == [a, b] && [a, b][..1] == [a] && [a][..0] == [];
    assert CanSupersede([a][0], b) && !HasChild([a], a);
    assert [a, b][1].supersedes == Some(a.id);
    assert Admissible([], a) && Admissible([a], b) && Admissible([a, b], c);
    assert History([]) && History([a]) && History([a, b]);
    var log := [a, b, c];
    assert log[0] == a && log[2] == c;
    assert InForce(log, log[0], 5) && InForce(log, log[2], 5) && Clash(a, c);
    assert !DisjointAsOf(log, 5);
  }

  // ----- filings: each needs an issuer identity in force, and an amendment links to its original

  datatype Filing = Filing(
    id: int, identityId: int, accession: string, form: string, isAmendment: bool,
    filedOn: int, reportDate: Option<int>, acceptedAt: int, knownAt: int, amends: Option<int>)

  const FORMS := ["10-K", "10-K/A", "10-Q", "10-Q/A", "20-F", "20-F/A", "6-K"]

  predicate EndsWithSlashA(form: string) { |form| >= 2 && form[|form| - 2..] == "/A" }

  /** The date that the identity must cover. */
  function SubjectDate(f: Filing): int { if f.reportDate.Some? then f.reportDate.value else f.filedOn }

  /** Check and unique constraints. */
  predicate ShapedAndUnique(filings: seq<Filing>, f: Filing) {
    && f.form in FORMS
    && f.isAmendment == EndsWithSlashA(f.form)
    && forall k | 0 <= k < |filings| :: filings[k].id != f.id && filings[k].accession != f.accession
  }

  predicate Authorizes(log: seq<Identity>, identity: Identity, f: Filing) {
    && identity.id == f.identityId
    && InForce(log, identity, f.knownAt)
    && identity.effective.Covers(SubjectDate(f))
  }

  predicate SameIssuer(log: seq<Identity>, a: int, b: int) {
    exists i, j | 0 <= i < |log| && 0 <= j < |log| ::
      log[i].id == a && log[j].id == b && log[i].stock == log[j].stock && log[i].cik == log[j].cik
  }

  predicate Amends(log: seq<Identity>, amended: Filing, f: Filing) {
    && f.amends == Some(amended.id)
    && f.isAmendment
    && |f.form| >= 2 && amended.form == f.form[..|f.form| - 2]
    && amended.reportDate == f.reportDate
    && amended.acceptedAt < f.acceptedAt
    && SameIssuer(log, amended.identityId, f.identityId)
  }

  predicate AdmitsFiling(log: seq<Identity>, filings: seq<Filing>, f: Filing) {
    && (exists i | 0 <= i < |log| :: Authorizes(log, log[i], f))
    && (f.amends.Some? ==> exists k | 0 <= k < |filings| :: Amends(log, filings[k], f))
  }

  /** `seen[k]` is the identity table as it stood when filing k was admitted. */
  ghost predicate FilingHistory(seen: seq<seq<Identity>>, filings: seq<Filing>) {
    && |seen| == |filings|
    && forall k | 0 <= k < |filings| ::
         AdmitsFiling(seen[k], filings[..k], filings[k]) && ShapedAndUnique(filings[..k], filings[k])
  }

  class FilingTable {
    var filings: seq<Filing>
    ghost var seen: seq<seq<Identity>>

    ghost predicate Valid()
      reads this
    {
      FilingHistory(seen, filings)
    }

    constructor ()
      ensures Valid() && filings == []
    {
      filings, seen := [], [];
    }

    /** What was admitted keeps every amendment flat: see AmendmentsAreFlat. */
    method Insert(log: seq<Identity>, f: Filing) returns (admitted: bool)
      requires Valid()
      modifies this
      ensures Valid()
      ensures admitted <==> AdmitsFiling(log, old(filings), f) && ShapedAndUnique(old(filings), f)
      ensures filings == if admitted then old(filings) + [f] else old(filings)
      ensures seen == if admitted then old(seen) + [log] else old(seen)
    {
      if !(exists i | 0 <= i < |log| :: Authorizes(log, log[i], f)) {
        return false;
      }
      if f.amends.Some? && !(exists k | 0 <= k < |filings| :: Amends(log, filings[k], f)) {
        return false;
      }
      if !ShapedAndUnique(filings, f) {
        return false;
      }
      HistoryGrows(seen, filings, log, f);
      filings, seen := filings + [f], seen + [log];
      admitted := true;
    }
  }

  lemma HistoryGrows(seen: seq<seq<Identity>>, filings: seq<Filing>, log: seq<Identity>, f: Filing)
    requires FilingHistory(seen, filings) && AdmitsFiling(log, filings, f) && ShapedAndUnique(filings, f)
    ensures FilingHistory(seen + [log], filings + [f])
  {
    hide AdmitsFiling, ShapedAndUnique;
    var longer := filings + [f];
    assert longer[..|filings|] == filings;
    assert forall k | 0 <= k < |filings| :: longer[..k] == filings[..k];
  }

  /** Row i of the identity table is the one that the filing names, reviewed, known by then, not superseded by then, and
      effective on the date that the filing reports about (or, without one, on which it was filed). */
  predicate Vouches(log: seq<Identity>, i: nat, f: Filing)
    requires i < |log|
  {
    && log[i].id == f.identityId && log[i].status == Reviewed && log[i].knownAt <= f.knownAt
    && (forall k | 0 <= k < |log| && log[k].supersedes == Some(log[i].id) :: log[k].knownAt > f.knownAt)
    && match f.reportDate
       case Some(date) => OnDate(log[i], date)
       case None => OnDate(log[i], f.filedOn)
  }

  /** The form is that of `original` with /A after it; both report the same date, the original was accepted first, and
      the identities that they name have one stock and one CIK. */
  ghost predicate IsAmendmentOf(log: seq<Identity>, original: Filing, f: Filing) {
    && f.amends == Some(original.id) && f.form == original.form + "/A"
    && original.reportDate == f.reportDate && original.acceptedAt < f.acceptedAt
    && exists i, j | 0 <= i < |log| && 0 <= j < |log| ::
         && log[i].id == original.identityId && log[j].id == f.identityId
         && log[i].stock == log[j].stock && log[i].cik == log[j].cik
  }

  /** Exactly the filings that are admitted: of a known form, flagged as an amendment if that ends with /A, with new
      keys, vouched for by an identity, and, if it amends a filing, amending one of the table. */
  lemma FilingAdmittedExactly(log: seq<Identity>, filings: seq<Filing>, f: Filing)
    ensures AdmitsFiling(log, filings, f) && ShapedAndUnique(filings, f) <==>
              && f.form in {"10-K", "10-K/A", "10-Q", "10-Q/A", "20-F", "20-F/A", "6-K"}
              && (f.isAmendment <==> f.form in {"10-K/A", "10-Q/A", "20-F/A"})
              && (forall k | 0 <= k < |filings| :: filings[k].id != f.id && filings[k].accession != f.accession)
              && (exists i :: 0 <= i < |log| && Vouches(log, i, f))
              && (f.amends.Some? ==> exists k :: 0 <= k < |filings| && IsAmendmentOf(log, filings[k], f))
  {
    hide ShapedAndUnique, Amends, IsAmendmentOf, Authorizes, Vouches;
    ShapeIsKnown(filings, f);
    forall i | 0 <= i < |log| ensures Authorizes(log, log[i], f) <==> Vouches(log, i, f) {
      AuthorizesIff(log, i, f);
    }
    if ShapedAndUnique(filings, f) {
      ShapeOf(filings, f);
      forall k | 0 <= k < |filings| ensures Amends(log, filings[k], f) <==> IsAmendmentOf(log, filings[k], f) {
        AmendsIff(log, filings[k], f);
      }
    }
  }

  lemma ShapeIsKnown(filings: seq<Filing>, f: Filing)
    ensures ShapedAndUnique(filings, f) <==>
              && f.form in {"10-K", "10-K/A", "10-Q", "10-Q/A", "20-F", "20-F/A", "6-K"}
              && (f.isAmendment <==> f.form in {"10-K/A", "10-Q/A", "20-F/A"})
              && (forall k | 0 <= k < |filings| :: filings[k].id != f.id && filings[k].accession != f.accession)
  {
    hide EndsWithSlashA;
    SlashForms();
  }

  lemma SlashForms()
    ensures EndsWithSlashA("10-K/A") && EndsWithSlashA("10-Q/A") && EndsWithSlashA("20-F/A")
    ensures !EndsWithSlashA("10-K") && !EndsWithSlashA("10-Q") && !EndsWithSlashA("20-F") && !EndsWithSlashA("6-K")
  {
  }

  lemma AuthorizesIff(log: seq<Identity>, i: nat, f: Filing)
    requires i < |log|
    ensures Authorizes(log, log[i], f) <==> Vouches(log, i, f)
  {
  }

  lemma AmendsIff(log: seq<Identity>, original: Filing, f: Filing)
    requires f.isAmendment == EndsWithSlashA(f.form)
    ensures Amends(log, original, f) <==> IsAmendmentOf(log, original, f)
  {
    if Amends(log, original, f) {
      assert f.form == original.form + "/A";
    }
    if IsAmendmentOf(log, original, f) {
      assert f.form[|f.form| - 2..] == "/A" && f.form[..|f.form| - 2] == original.form;
    }
  }

  /** A filing names the only identity of its stock and of its CIK that is in force, as of the filing's own
      known_at, on the date it reports about - as long as identities are disjoint as of that instant - and no
      identity recorded as known later can take that away. */
  lemma FilingNamesTheIdentityInForce(
      log: seq<Identity>, more: seq<Identity>, filings: seq<Filing>, f: Filing, i: nat)
    requires History(log + more) && AdmitsFiling(log, filings, f)
    requires DisjointAsOf(log + more, f.knownAt)
    requires forall k | 0 <= k < |more| :: more[k].knownAt > f.knownAt
    requires i < |log| && log[i].id == f.identityId
    ensures Authorizes(log + more, log[i], f)
    ensures forall j | 0 <= j < |log + more| && j != i && Share((log + more)[j], log[i]) ::
              !(InForce(log + more, (log + more)[j], f.knownAt) && (log + more)[j].effective.Covers(SubjectDate(f)))
  {
    hide History;
    var all := log + more;
    HistoryKeeps(all);
    var w :| 0 <= w < |log| && Authorizes(log, log[w], f);
    assert all[w].id == all[i].id;
    assert w == i;
    assert forall j | 0 <= j < |all| && j != i && Share(all[j], log[i]) && InForce(all, all[j], f.knownAt) ::
        !Clash(all[j], all[i]);
  }

  // ----- amendments

  /** Amendments are one level deep: the one filing of the table that an amendment names is an earlier original of the
      same form family, report date and issuer, accepted before it, and itself amends nothing. */
  lemma {:induction false} AmendmentsAreFlat(seen: seq<seq<Identity>>, filings: seq<Filing>, k: nat)
    requires FilingHistory(seen, filings) && k < |filings| && filings[k].amends.Some?
    ensures exists m: nat :: m < k && filings[k].amends == Some(filings[m].id)
    ensures forall j: nat | j < |filings| && filings[k].amends == Some(filings[j].id) ::
              j < k && IsAmendmentOf(seen[k], filings[j], filings[k])
              && !filings[j].isAmendment && filings[j].amends.None?
  {
    hide ShapedAndUnique, Authorizes;
    var m :| 0 <= m < |filings[..k]| && Amends(seen[k], filings[..k][m], filings[k]);
    assert filings[..k][m] == filings[m];
    ShapeOf(filings[..m], filings[m]);
    ShapeOf(filings[..k], filings[k]);
    BaseFormIsOriginal(filings[k].form);
    AmendsIff(seen[k], filings[m], filings[k]);
    forall j: nat | j < |filings| && j != m ensures filings[j].id != filings[m].id {
      if j < m { IdsDiffer(seen, filings, j, m); } else { IdsDiffer(seen, filings, m, j); }
    }
  }

  lemma IdsDiffer(seen: seq<seq<Identity>>, filings: seq<Filing>, i: nat, j: nat)
    requires FilingHistory(seen, filings) && i < j < |filings|
    ensures filings[i].id != filings[j].id
  {
    hide AdmitsFiling;
    assert filings[..j][i] == filings[i];
  }

  lemma ShapeOf(earlier: seq<Filing>, f: Filing)
    ensures ShapedAndUnique(earlier, f) ==> f.form in FORMS && f.isAmendment == EndsWithSlashA(f.form)
  {
  }

  lemma BaseFormIsOriginal(form: string)
    requires form in FORMS && EndsWithSlashA(form)
    ensures !EndsWithSlashA(form[..|form| - 2])
  {
    assert form in ["10-K/A", "10-Q/A", "20-F/A"] by {
      assert !EndsWithSlashA("10-K") && !EndsWithSlashA("10-Q") && !EndsWithSlashA("20-F") && !EndsWithSlashA("6-K");
    }
    assert "10-K/A"[..4] == "10-K" && "10-Q/A"[..4] == "10-Q" && "20-F/A"[..4] == "20-F";
  }
}
