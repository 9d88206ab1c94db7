/** The bitemporal review tables guarded by guard_sec_method_authority_insert
    (backend/alembic/versions/20260901140000-sec-method-gate.py).  Tables are append-only, so the rows in insertion
    order are the whole history of a table.  Inserts are serial; dates and instants are integers. */
module ReviewLog {
  import opened Prelude

  /** What a review is about: sec_economic_classification_reviews or sec_economic_risk_attribute_reviews. */
  datatype Subject = Classification(stock: int) | Risk(stock: int, attribute: string)

  datatype Review = Review(
    id: int, subject: Subject, verdict: string,
    effective: Interval,
    knownAt: int, supersedes: Option<int>)

  // ----- intervals and supersession

  predicate Covers(r: Review, date: int) { r.effective.Covers(date) }

  /** daterange(from, coalesce(to, infinity), '[]') && the same of the other row */
  predicate Overlaps(a: Review, b: Review) { a.effective.Overlaps(b.effective) }

  predicate Supersedes(later: Review, r: Review, at: int) { later.supersedes == Some(r.id) && later.knownAt <= at }

  predicate Superseded(log: seq<Review>, r: Review, at: int) {
    exists k | 0 <= k < |log| :: Supersedes(log[k], r, at)
  }

  // ----- admission

  predicate WellShaped(r: Review) {
    && r.effective.WellShaped()
    && match r.subject
       case Classification(_) => r.verdict in ["ordinary", "bank", "insurer", "reit", "other_financial", "unclassified"]
       case Risk(_, attribute) =>
         attribute in ["high_sbc", "acquisitive", "cyclical", "commodity_exposed"] && r.verdict in ["true", "false"]
  }

  /** A row that the guard's query finds: the same subject, an overlapping interval, not superseded by now. */
  predicate Conflicts(log: seq<Review>, i: nat, row: Review)
    requires i < |log|
  {
    log[i].subject == row.subject && Overlaps(log[i], row) && !Superseded(log, log[i], row.knownAt)
  }

  ghost function Conflicting(log: seq<Review>, row: Review): set<nat> {
    set i: nat | i < |log| && Conflicts(log, i, row)
  }

  /** No conflict and nothing superseded, or exactly the one earlier-known conflict superseded. */
  ghost predicate GuardAdmits(log: seq<Review>, row: Review) {
    || (Conflicting(log, row) == {} && row.supersedes.None?)
    || exists i: nat ::
         && i < |log| && Conflicting(log, row) == {i}
         && row.supersedes == Some(log[i].id) && log[i].knownAt < row.knownAt
  }

  predicate UniqueKeys(log: seq<Review>, row: Review) {
    && (forall k | 0 <= k < |log| :: log[k].id != row.id)
    && (row.supersedes.Some? ==> forall k | 0 <= k < |log| :: log[k].supersedes != row.supersedes)
  }

  /** The extra unique constraint of the risk table. */
  predicate RiskKeyUnique(log: seq<Review>, row: Review) {
    row.subject.Risk? ==> forall k | 0 <= k < |log| ::
      !(log[k].subject == row.subject && log[k].effective.start == row.effective.start && log[k].knownAt == row.knownAt)
  }

  ghost predicate Admissible(log: seq<Review>, row: Review) {
    WellShaped(row) && GuardAdmits(log, row) && UniqueKeys(log, row) && RiskKeyUnique(log, row)
  }

  /** A history in which every row was admitted after the rows before it. */
  ghost predicate History(log: seq<Review>) {
    log == [] || (History(log[..|log| - 1]) && Admissible(log[..|log| - 1], log[|log| - 1]))
  }

  class ReviewTable {
    var log: seq<Review>

    ghost predicate Valid()
      reads this
    {
      History(log)
    }

    constructor ()
      ensures Valid() && log == []
    {
      log := [];
    }

    /** The trigger stamps the row with the clock, aggregates the conflicting rows, and admits or rejects. */
    method Insert(proposed: Review, clock: int) returns (admitted: bool)
      requires Valid()
      modifies this
      ensures Valid()
      ensures admitted <==> Admissible(old(log), proposed.(knownAt := clock))
      ensures log == if admitted then old(log) + [proposed.(knownAt := clock)] else old(log)
    {
      hide Conflicting, WellShaped, GuardAdmits, UniqueKeys, RiskKeyUnique;
      var row := proposed.(knownAt := clock);
      var overlapCount, overlapId, priorKnown := Aggregate(log, row);
      GuardDecision(log, row, overlapCount, overlapId, priorKnown);
      if overlapCount > 0
        && !(overlapCount == 1 && row.supersedes.Some? && row.supersedes == overlapId && priorKnown.value < clock)
      {
        return false;
      }
      if row.supersedes.Some? && (overlapCount != 1 || row.supersedes != overlapId) {
        return false;
      }
      if !WellShaped(row) || !UniqueKeys(log, row) || !RiskKeyUnique(log, row) {
        return false;
      }
      assert (log + [row])[..|log|] == log;
      log := log + [row];
      admitted := true;
    }
  }

  ghost predicate IsAggregate(log: seq<Review>, row: Review, count: nat, id: Option<int>, known: Option<int>) {
    && count == |Conflicting(log, row)|
    && (count > 0 ==> id.Some? && known.Some?)
    && forall i: nat | i < |log| && Conflicting(log, row) == {i} ::
       id == Some(log[i].id) && known == Some(log[i].knownAt)
  }

  /** SELECT count(*), min(id), min(known_at) over the conflicting rows. */
  method Aggregate(log: seq<Review>, row: Review) returns (count: nat, id: Option<int>, known: Option<int>)
    ensures IsAggregate(log, row, count, id, known)
  {
    hide Conflicts;
    count, id, known := 0, None, None;
    ghost var seen: set<nat> := {};
    for i := 0 to |log|
      invariant seen == set k: nat | k < |log| && k < i && Conflicts(log, k, row)
      invariant count == |seen|
      invariant count > 0 ==> id.Some? && known.Some?
      invariant count == 0 ==> id.None? && known.None?
      invariant forall k: nat | k < |log| && seen == {k} :: id == Some(log[k].id) && known == Some(log[k].knownAt)
    {
      if Conflicts(log, i, row) {
        count := count + 1;
        id := Some(if id.None? || log[i].id < id.value then log[i].id else id.value);
        known := Some(if known.None? || log[i].knownAt < known.value then log[i].knownAt else known.value);
        if seen != {} { AddedIsNotAlone(seen, i); }
        seen := seen + {i};
      }
    }
    assert seen == Conflicting(log, row);
  }

  /** The guard's two tests reject exactly what GuardAdmits does not admit. */
  lemma GuardDecision(log: seq<Review>, row: Review, count: nat, id: Option<int>, known: Option<int>)
    requires IsAggregate(log, row, count, id, known)
    ensures GuardAdmits(log, row) <==>
      && !(count > 0 && !(count == 1 && row.supersedes.Some? && row.supersedes == id && known.value < row.knownAt))
      && !(row.supersedes.Some? && (count != 1 || row.supersedes != id))
  {
    hide Conflicting;
    OneConflict(log, row);
  }

  lemma AddedIsNotAlone(s: set<nat>, i: nat)
    ensures s != {} && i !in s ==> |s + {i}| > 1
  {
  }

  lemma OneConflict(log: seq<Review>, row: Review)
    ensures |Conflicting(log, row)| == 0 <==> Conflicting(log, row) == {}
    ensures |Conflicting(log, row)| == 1 ==> exists i: nat :: i < |log| && Conflicting(log, row) == {i}
    ensures forall i: nat | Conflicting(log, row) == {i} :: |Conflicting(log, row)| == 1
  {
    var c := Conflicting(log, row);
    assert forall i | i in c :: i < |log|;
    hide Conflicting;
    if |c| == 1 {
      var i :| i in c;
      assert |c - {i}| == 0;
      assert c == {i};
    }
  }

  // ----- what every history keeps

  /** Of two overlapping reviews of one subject, the earlier was superseded no later than the other was known. */
  ghost predicate Resolved(log: seq<Review>) {
    forall i, j | 0 <= i < j < |log| && log[i].subject == log[j].subject && Overlaps(log[i], log[j]) ::
      Superseded(log, log[i], log[j].knownAt)
  }

  /** A superseding review names an earlier row of its subject that was known strictly before it. */
  ghost predicate Linked(log: seq<Review>) {
    forall j | 0 <= j < |log| && log[j].supersedes.Some? ::
      exists i: nat :: i < j && Links(log[i], log[j])
  }

  predicate Links(r: Review, later: Review) {
    later.supersedes == Some(r.id) && r.subject == later.subject && Overlaps(r, later) && r.knownAt < later.knownAt
  }

  ghost predicate KeysUnique(log: seq<Review>) {
    && (forall i, j | 0 <= i < j < |log| :: log[i].id != log[j].id)
    && (forall i, j | 0 <= i < j < |log| && log[j].supersedes.Some? :: log[i].supersedes != log[j].supersedes)
  }

  lemma {:induction false} HistoryKeeps(log: seq<Review>)
    requires History(log)
    ensures Resolved(log) && Linked(log) && KeysUnique(log)
    ensures forall i | 0 <= i < |log| :: WellShaped(log[i])
  {
    hide Resolved, Linked, KeysUnique, WellShaped, GuardAdmits, UniqueKeys, RiskKeyUnique;
    if log == [] {
      EmptyTableKeeps();
    } else {
      var earlier, row := log[..|log| - 1], log[|log| - 1];
      HistoryKeeps(earlier);
      assert log == earlier + [row];
      AppendKeepsResolved(earlier, row);
      AppendKeepsLinked(earlier, row);
      AppendKeepsKeys(earlier, row);
    }
  }

  lemma EmptyTableKeeps()
    ensures Resolved([]) && Linked([]) && KeysUnique([])
  {
  }

  lemma AppendKeepsKeys(log: seq<Review>, row: Review)
    ensures KeysUnique(log) && UniqueKeys(log, row) ==> KeysUnique(log + [row])
  {
  }

  lemma AppendKeepsResolved(log: seq<Review>, row: Review)
    requires Resolved(log) && GuardAdmits(log, row)
    ensures Resolved(log + [row])
  {
    hide Overlaps;
    var after := log + [row];
    forall i, j | 0 <= i < j < |after| && after[i].subject == after[j].subject && Overlaps(after[i], after[j])
      ensures Superseded(after, after[i], after[j].knownAt)
    {
      if j < |log| {
        SupersededStays(log, row, log[i], log[j].knownAt);
      } else if Conflicts(log, i, row) {
        assert i in Conflicting(log, row);
        assert Supersedes(after[j], after[i], after[j].knownAt);
      } else {
        SupersededStays(log, row, log[i], row.knownAt);
      }
    }
  }

  lemma AppendKeepsLinked(log: seq<Review>, row: Review)
    requires Linked(log) && GuardAdmits(log, row)
    ensures Linked(log + [row])
  {
    hide Overlaps;
    var after := log + [row];
    forall j | 0 <= j < |after| && after[j].supersedes.Some?
      ensures exists i: nat :: i < j && Links(after[i], after[j])
    {
      if j < |log| {
        var i: nat :| i < j && Links(log[i], log[j]);
        assert Links(after[i], after[j]);
      } else {
        var i: nat :| i < |log| && Conflicting(log, row) == {i} && row.supersedes == Some(log[i].id)
          && log[i].knownAt < row.knownAt;
        assert i in Conflicting(log, row);
        assert Links(after[i], after[j]);
      }
    }
  }

  lemma SupersededStays(log: seq<Review>, row: Review, r: Review, at: int)
    requires Superseded(log, r, at)
    ensures Superseded(log + [row], r, at)
  {
    var k :| 0 <= k < |log| && Supersedes(log[k], r, at);
    assert Supersedes((log + [row])[k], r, at);
  }

  predicate OnDate(r: Review, date: int) {
    r.effective.start <= date && (r.effective.end.None? || date <= r.effective.end.value)
  }

  /** Row i speaks about the row's subject on some date of the row, and nothing known by the row's stamp has superseded
      it. */
  ghost predicate InTheWay(log: seq<Review>, i: nat, row: Review)
    requires i < |log|
  {
    && log[i].subject == row.subject
    && (exists date :: OnDate(log[i], date) && OnDate(row, date))
    && forall k | 0 <= k < |log| && log[k].supersedes == Some(log[i].id) :: log[k].knownAt > row.knownAt
  }

  predicate Vocabulary(r: Review) {
    match r.subject
    case Classification(_) => r.verdict in {"ordinary", "bank", "insurer", "reit", "other_financial", "unclassified"}
    case Risk(_, attribute) =>
      attribute in {"high_sbc", "acquisitive", "cyclical", "commodity_exposed"} && r.verdict in {"true", "false"}
  }

  /** Exactly what is admitted: a row of the vocabulary with an ordered interval and unique keys that either supersedes
      nothing and has nothing in its way, or supersedes the one row in its way, known before it. */
  lemma AdmittedExactly(log: seq<Review>, row: Review)
    requires History(log)
    ensures Admissible(log, row) <==>
              && (row.effective.end.Some? ==> row.effective.start <= row.effective.end.value) && Vocabulary(row)
              && (forall k | 0 <= k < |log| ::
                    log[k].id != row.id && (row.supersedes.Some? ==> log[k].supersedes != row.supersedes))
              && match row.supersedes
                 case None => forall i: nat | i < |log| :: !InTheWay(log, i, row)
                 case Some(id) =>
                   exists i: nat ::
                     && i < |log| && log[i].id == id && log[i].knownAt < row.knownAt && InTheWay(log, i, row)
                     && forall j: nat | j < |log| && InTheWay(log, j, row) :: j == i
  {
    hide Conflicts, InTheWay, RiskKeyUnique, GuardAdmits, WellShaped;
    ShapeIsVocabulary(row);
    if WellShaped(row) {
      HistoryKeeps(log);
      forall i: nat | i < |log| ensures Conflicts(log, i, row) <==> InTheWay(log, i, row) {
        ConflictIsInTheWay(log, i, row);
      }
      AdmittedWithoutCounting(log, row);
      if GuardAdmits(log, row) {
        RiskKeyIsImplied(log, row);
      }
    }
  }

  lemma ShapeIsVocabulary(row: Review)
    ensures WellShaped(row) <==>
              (row.effective.end.Some? ==> row.effective.start <= row.effective.end.value) && Vocabulary(row)
  {
  }

  lemma ConflictIsInTheWay(log: seq<Review>, i: nat, row: Review)
    requires i < |log| && WellShaped(log[i]) && WellShaped(row)
    ensures Conflicts(log, i, row) <==> InTheWay(log, i, row)
  {
    if Overlaps(log[i], row) {
      var date := if log[i].effective.start >= row.effective.start then log[i].effective.start else row.effective.start;
      assert OnDate(log[i], date) && OnDate(row, date);
    }
    if !Superseded(log, log[i], row.knownAt) {
      assert forall k | 0 <= k < |log| :: !Supersedes(log[k], log[i], row.knownAt);
    }
  }

  lemma AdmittedWithoutCounting(log: seq<Review>, row: Review)
    ensures GuardAdmits(log, row) <==>
              match row.supersedes
              case None => forall i: nat | i < |log| :: !Conflicts(log, i, row)
              case Some(id) =>
                exists i: nat ::
                  && i < |log| && log[i].id == id && log[i].knownAt < row.knownAt && Conflicts(log, i, row)
                  && forall j: nat | j < |log| && Conflicts(log, j, row) :: j == i
  {
    hide Conflicts;
    if row.supersedes.Some? {
      forall i: nat | i < |log|
        ensures Conflicting(log, row) == {i}
                <==> Conflicts(log, i, row) && forall j: nat | j < |log| && Conflicts(log, j, row) :: j == i
      {
        assert Conflicts(log, i, row) <==> i in Conflicting(log, row);
        assert forall j: nat | j < |log| && Conflicts(log, j, row) :: j in Conflicting(log, row);
      }
    } else {
      assert forall i: nat | i < |log| && Conflicts(log, i, row) :: i in Conflicting(log, row);
    }
  }

  // ----- point-in-time answers

  /** The review governs the date as far as was known at the cutoff. */
  predicate Governs(log: seq<Review>, r: Review, subject: Subject, date: int, cutoff: int) {
    r.subject == subject && Covers(r, date) && r.knownAt <= cutoff && !Superseded(log, r, cutoff)
  }

  ghost function Answer(log: seq<Review>, subject: Subject, date: int, cutoff: int): set<Review> {
    set r | r in log && Governs(log, r, subject, date, cutoff)
  }

  /** For every subject, date and cutoff at most one review governs. */
  lemma AnswerIsSingleValued(log: seq<Review>, subject: Subject, date: int, cutoff: int)
    requires History(log)
    ensures forall a, b | a in Answer(log, subject, date, cutoff) && b in Answer(log, subject, date, cutoff) :: a == b
  {
    hide Linked, KeysUnique, WellShaped, Overlaps, Covers;
    HistoryKeeps(log);
    forall a, b | a in Answer(log, subject, date, cutoff) && b in Answer(log, subject, date, cutoff) ensures a == b {
      var i :| 0 <= i < |log| && log[i] == a;
      var j :| 0 <= j < |log| && log[j] == b;
      SharedDateOverlaps(a, b, date);
    }
  }

  lemma SharedDateOverlaps(a: Review, b: Review, date: int)
    ensures Covers(a, date) && Covers(b, date) ==> Overlaps(a, b) && Overlaps(b, a)
  {
  }

  /** Rows stamped after a cutoff never change the answer at that cutoff. */
  lemma {:induction false} AnswerIsStable(log: seq<Review>, more: seq<Review>, subject: Subject, date: int, cutoff: int)
    requires forall k | 0 <= k < |more| :: more[k].knownAt > cutoff
    ensures Answer(log + more, subject, date, cutoff) == Answer(log, subject, date, cutoff)
  {
    forall r: Review ensures Superseded(log + more, r, cutoff) <==> Superseded(log, r, cutoff) {
      LaterRowsDoNotCount(log, more, r, cutoff);
    }
    assert forall r | r in more :: r.knownAt > cutoff;
  }

  lemma LaterRowsDoNotCount(log: seq<Review>, more: seq<Review>, r: Review, cutoff: int)
    requires forall k | 0 <= k < |more| :: more[k].knownAt > cutoff
    ensures Superseded(log + more, r, cutoff) <==> Superseded(log, r, cutoff)
  {
    if Superseded(log, r, cutoff) {
      var k :| 0 <= k < |log| && Supersedes(log[k], r, cutoff);
      assert Supersedes((log + more)[k], r, cutoff);
    }
    if Superseded(log + more, r, cutoff) {
      assert forall k | |log| <= k < |log + more| :: (log + more)[k] == more[k - |log|];
      var k :| 0 <= k < |log + more| && Supersedes((log + more)[k], r, cutoff);
      assert Supersedes(log[k], r, cutoff);
    }
  }

  /** An admitted review is the answer, as of its own stamp, for every date it covers. */
  lemma AdmittedReviewGoverns(log: seq<Review>, row: Review, date: int)
    requires History(log) && Admissible(log, row) && Covers(row, date)
    ensures Answer(log + [row], row.subject, date, row.knownAt) == {row}
  {
    var after := log + [row];
    assert after[..|log|] == log;
    HistoryKeeps(after);
    assert after[|log|] == row;
    AnswerIsSingleValued(after, row.subject, date, row.knownAt);
  }

  /** The risk table's unique key never rejects anything that the guard admits. */
  lemma RiskKeyIsImplied(log: seq<Review>, row: Review)
    requires History(log) && WellShaped(row) && GuardAdmits(log, row)
    ensures RiskKeyUnique(log, row)
  {
    HistoryKeeps(log);
    forall k | 0 <= k < |log| && log[k].subject == row.subject && log[k].effective.start == row.effective.start
      ensures log[k].knownAt != row.knownAt
    {
      KnownBefore(log, row, k);
    }
  }

  /** Every overlapping review of the subject was known strictly before the admitted one. */
  lemma KnownBefore(log: seq<Review>, row: Review, k: nat)
    requires Linked(log) && KeysUnique(log) && GuardAdmits(log, row)
    requires k < |log| && log[k].subject == row.subject && Overlaps(log[k], row)
    ensures log[k].knownAt < row.knownAt
  {
    hide WellShaped, Overlaps;
    if Superseded(log, log[k], row.knownAt) {
      var j :| 0 <= j < |log| && Supersedes(log[j], log[k], row.knownAt);
    } else {
      assert k in Conflicting(log, row);
    }
  }

  // ----- inserts that do not see each other

  ghost predicate SingleValued(log: seq<Review>) {
    forall subject, date, cutoff, a, b ::
      a in Answer(log, subject, date, cutoff) && b in Answer(log, subject, date, cutoff) ==> a == b
  }

  /** The trigger takes no lock.  When two inserts each see only the rows before both, the answers stay
      single-valued exactly when the two rows do not overlap on one subject. */
  lemma UnseenInsert(log: seq<Review>, a: Review, b: Review)
    requires History(log) && Admissible(log, a) && Admissible(log, b) && UniqueKeys(log + [a], b)
    ensures SingleValued(log + [a] + [b]) <==> !(a.subject == b.subject && Overlaps(a, b))
  {
    hide Admissible, History;
    if a.subject == b.subject && Overlaps(a, b) {
      BothGovern(log, a, b);
    } else {
      SecondIsStillAdmissible(log, a, b);
      forall subject, date, cutoff, x, y
        | x in Answer(log + [a] + [b], subject, date, cutoff) && y in Answer(log + [a] + [b], subject, date, cutoff)
        ensures x == y
      {
        AnswerIsSingleValued(log + [a] + [b], subject, date, cutoff);
      }
    }
  }

  lemma SecondIsStillAdmissible(log: seq<Review>, a: Review, b: Review)
    requires History(log) && Admissible(log, a) && Admissible(log, b) && UniqueKeys(log + [a], b)
    requires !(a.subject == b.subject && Overlaps(a, b))
    ensures History(log + [a] + [b])
  {
    var next := log + [a];
    assert next[..|log|] == log && History(next);
    ConflictsUnchanged(log, a, b);
    RiskKeyIsImplied(next, b);
    assert (next + [b])[..|next|] == next;
  }

  lemma ConflictsUnchanged(log: seq<Review>, a: Review, b: Review)
    requires GuardAdmits(log, b) && UniqueKeys(log + [a], b)
    requires !(a.subject == b.subject && Overlaps(a, b))
    ensures Conflicting(log + [a], b) == Conflicting(log, b)
  {
    hide Overlaps;
    var next := log + [a];
    forall i: nat | i < |log| ensures Conflicts(next, i, b) <==> Conflicts(log, i, b) {
      if Superseded(log, log[i], b.knownAt) {
        SupersededStays(log, a, log[i], b.knownAt);
      }
      if Conflicts(log, i, b) {
        assert i in Conflicting(log, b);
        assert b.supersedes == Some(log[i].id);
        assert next[|log|].supersedes != b.supersedes;
        assert !Superseded(next, next[i], b.knownAt);
      }
    }
  }

  lemma BothGovern(log: seq<Review>, a: Review, b: Review)
    requires History(log) && Admissible(log, a) && Admissible(log, b) && UniqueKeys(log + [a], b)
    requires a.subject == b.subject && Overlaps(a, b)
    ensures !SingleValued(log + [a] + [b])
  {
    hide Conflicting, WellShaped, RiskKeyUnique, Resolved, Admissible;
    var all := log + [a] + [b];
    var date := if a.effective.start >= b.effective.start then a.effective.start else b.effective.start;
    var cutoff := if a.knownAt >= b.knownAt then a.knownAt else b.knownAt;
    AdmissibleParts(log, a);
    AdmissibleParts(log, b);
    HistoryKeeps(log);
    assert all[|log|] == a && all[|log| + 1] == b && a.id != b.id by { assert (log + [a])[|log|] == a; }
    assert UniqueKeys(log, b) by { assert forall k | 0 <= k < |log| :: (log + [a])[k] == log[k]; }
    forall k | 0 <= k < |all| ensures all[k].supersedes != Some(a.id) && all[k].supersedes != Some(b.id) {
      assert k < |log| ==> all[k] == log[k];
    }
    CoversLaterStart(a, b);
    assert a in Answer(all, a.subject, date, cutoff) && b in Answer(all, a.subject, date, cutoff);
  }

  lemma AdmissibleParts(log: seq<Review>, row: Review)
    ensures Admissible(log, row) ==> WellShaped(row) && GuardAdmits(log, row) && UniqueKeys(log, row)
  {
  }

  lemma CoversLaterStart(a: Review, b: Review)
    ensures WellShaped(a) && WellShaped(b) && Overlaps(a, b) ==>
              var date := if a.effective.start >= b.effective.start then a.effective.start else b.effective.start;
              Covers(a, date) && Covers(b, date)
  {
  }

  /** Such a pair exists: two open-ended classifications of one stock. */
  lemma UnseenInsertExample()
    ensures var a := Review(1, Classification(1), "bank", Interval(0, None), 1, None);
            var b := Review(2, Classification(1), "reit", Interval(0, None), 2, None);
            Admissible([], a) && Admissible([], b) && UniqueKeys([a], b) && !SingleValued([a, b])
  {
    var a := Review(1, Classification(1), "bank", Interval(0, None), 1, None);
    var b := Review(2, Classification(1), "reit", Interval(0, None), 2, None);
    assert Conflicting([], a) == {} && Conflicting([], b) == {};
    assert [] + [a] == [a] && [a] + [b] == [a, b];
    UnseenInsert([], a, b);
  }
}
