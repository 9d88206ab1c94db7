/** Parse runs, their artifact links and their facts
    (backend/alembic/versions/20260827120000-sec-financial-lineage.py).  A transaction sees the committed rows and
    its own; every step below is one statement, begin, commit or abort, and transactions interleave freely. */
module ParseRuns {
  import opened Prelude

  datatype ArtifactState = ManifestOnly | Retained | Unavailable | Rejected

  datatype Artifact = Artifact(filing: int, state: ArtifactState, knownAt: int)

  datatype RunStatus = Succeeded | Failed

  datatype ParseRun = ParseRun(
    filing: int, parserVersion: string, manifest: string, status: RunStatus,
    knownAt: int, factCount: int, error: Option<string>, txid: nat)

  datatype Link = Link(knownAt: int, txid: nat)

  datatype Fact = Fact(artifact: int, txid: nat)

  /** Links are keyed by run and artifact, facts by run and ordinal: their unique constraints. */
  datatype Tables = Tables(
    artifacts: map<int, Artifact>, runs: map<int, ParseRun>,
    links: map<(int, int), Link>, facts: map<(int, int), Fact>)
  {
    function Plus(other: Tables): Tables {
      Tables(artifacts + other.artifacts, runs + other.runs, links + other.links, facts + other.facts)
    }

    function FactsOf(run: int): set<(int, int)> { set k | k in facts && k.0 == run }

    function LinksOf(run: int): set<(int, int)> { set k | k in links && k.0 == run }
  }

  const NOTHING := Tables(map[], map[], map[], map[])

  /** `pending` holds the rows that each open transaction has added. */
  datatype Db = Db(committed: Tables, pending: map<nat, Tables>, nextTxid: nat)

  function Visible(db: Db, tx: nat): Tables
    requires tx in db.pending
  {
    db.committed.Plus(db.pending[tx])
  }

  /** A primary key that no committed row and no open transaction uses. */
  predicate FreshRun(db: Db, id: int) {
    id !in db.committed.runs && forall tx | tx in db.pending :: id !in db.pending[tx].runs
  }

  predicate FreshArtifact(db: Db, id: int) {
    id !in db.committed.artifacts && forall tx | tx in db.pending :: id !in db.pending[tx].artifacts
  }

  predicate SameInput(a: ParseRun, b: ParseRun) {
    a.filing == b.filing && a.parserVersion == b.parserVersion && a.manifest == b.manifest
  }

  predicate NewInput(db: Db, run: ParseRun) {
    && (forall r | r in db.committed.runs :: !SameInput(db.committed.runs[r], run))
    && forall tx | tx in db.pending :: forall r | r in db.pending[tx].runs :: !SameInput(db.pending[tx].runs[r], run)
  }

  /** Check constraints of a run: a result fits its status. */
  predicate WellShaped(run: ParseRun) {
    match run.status
    case Succeeded => run.error.None? && run.factCount > 0
    case Failed => run.error.Some? && run.factCount == 0
  }

  // ----- guards

  predicate LinkFits(run: ParseRun, artifact: Artifact, link: Link) {
    && run.filing == artifact.filing
    && artifact.state.Retained?
    && artifact.knownAt <= run.knownAt
    && link.knownAt == run.knownAt
    && link.txid == run.txid
  }

  predicate LinkAdmitted(db: Db, tx: nat, run: int, artifact: int, knownAt: int)
    requires tx in db.pending
  {
    var seen := Visible(db, tx);
    && run in seen.runs && artifact in seen.artifacts && (run, artifact) !in seen.links
    && LinkFits(seen.runs[run], seen.artifacts[artifact], Link(knownAt, tx))
  }

  /** Without a run or an artifact the guard's comparison is unknown and lets the row pass; the foreign keys then
      reject it.  They also require the link. */
  predicate FactAdmitted(db: Db, tx: nat, run: int, ordinal: int, artifact: int)
    requires tx in db.pending
  {
    var seen := Visible(db, tx);
    && run in seen.runs && seen.runs[run].status.Succeeded?
    && artifact in seen.artifacts && seen.artifacts[artifact].state.Retained?
    && seen.runs[run].txid == tx
    && |seen.FactsOf(run)| < seen.runs[run].factCount
    && (run, artifact) in seen.links && (run, ordinal) !in seen.facts
  }

  /** The deferred check of every run that the transaction inserted. */
  predicate CountsMatch(db: Db, tx: nat)
    requires tx in db.pending
  {
    forall r | r in db.pending[tx].runs ::
      |Visible(db, tx).FactsOf(r)|
      == if db.pending[tx].runs[r].status.Succeeded? then db.pending[tx].runs[r].factCount else 0
  }

  // ----- steps

  datatype Action =
    | Begin
    | InsertArtifact(tx: nat, artifactId: int, artifact: Artifact)
    | InsertRun(tx: nat, runId: int, run: ParseRun)
    | InsertLink(tx: nat, runId: int, artifactId: int, knownAt: int)
    | InsertFact(tx: nat, runId: int, ordinal: int, artifactId: int)
    | Commit(tx: nat)
    | Abort(tx: nat)

  predicate Enabled(db: Db, a: Action) {
    match a
    case Begin => true
    case InsertArtifact(tx, id, _) => tx in db.pending && FreshArtifact(db, id)
    case InsertRun(tx, id, run) => tx in db.pending && FreshRun(db, id) && WellShaped(run) && NewInput(db, run)
    case InsertLink(tx, run, artifact, knownAt) => tx in db.pending && LinkAdmitted(db, tx, run, artifact, knownAt)
    case InsertFact(tx, run, ordinal, artifact) => tx in db.pending && FactAdmitted(db, tx, run, ordinal, artifact)
    case Commit(tx) => tx in db.pending && CountsMatch(db, tx)
    case Abort(tx) => tx in db.pending
  }

  function Next(db: Db, a: Action): Db
    requires Enabled(db, a)
  {
    match a
    case Begin => Db(db.committed, db.pending[db.nextTxid := NOTHING], db.nextTxid + 1)
    case InsertArtifact(tx, id, artifact) =>
      var own := db.pending[tx];
      db.(pending := db.pending[tx := own.(artifacts := own.artifacts[id := artifact])])
    case InsertRun(tx, id, run) =>
      var own := db.pending[tx];
      db.(pending := db.pending[tx := own.(runs := own.runs[id := run.(txid := tx)])])
    case InsertLink(tx, run, artifact, knownAt) =>
      var own := db.pending[tx];
      db.(pending := db.pending[tx := own.(links := own.links[(run, artifact) := Link(knownAt, tx)])])
    case InsertFact(tx, run, ordinal, artifact) =>
      var own := db.pending[tx];
      db.(pending := db.pending[tx := own.(facts := own.facts[(run, ordinal) := Fact(artifact, tx)])])
    case Commit(tx) => db.(committed := Visible(db, tx), pending := db.pending - {tx})
    case Abort(tx) => db.(pending := db.pending - {tx})
  }

  class Database {
    var db: Db

    ghost predicate Valid()
      reads this
    {
      Inv(db)
    }

    constructor ()
      ensures Valid() && db == Db(NOTHING, map[], 0)
    {
      db := Db(NOTHING, map[], 0);
    }

    method InsertParseRunArtifact(tx: nat, run: int, artifact: int, knownAt: int) returns (admitted: bool)
      requires Valid() && tx in db.pending
      modifies this
      ensures Valid()
      ensures admitted <==> Enabled(old(db), InsertLink(tx, run, artifact, knownAt))
      ensures db == if admitted then Next(old(db), InsertLink(tx, run, artifact, knownAt)) else old(db)
    {
      var seen := Visible(db, tx);
      if run !in seen.runs || artifact !in seen.artifacts {
        return false;
      }
      var r, f := seen.runs[run], seen.artifacts[artifact];
      if r.filing != f.filing || !f.state.Retained? || f.knownAt > r.knownAt || knownAt != r.knownAt || tx != r.txid {
        return false;
      }
      if (run, artifact) in seen.links {
        return false;
      }
      StepKeepsInv(db, InsertLink(tx, run, artifact, knownAt));
      var own := db.pending[tx];
      db := db.(pending := db.pending[tx := own.(links := own.links[(run, artifact) := Link(knownAt, tx)])]);
      admitted := true;
    }

    method InsertRawFact(tx: nat, run: int, ordinal: int, artifact: int) returns (admitted: bool)
      requires Valid() && tx in db.pending
      modifies this
      ensures Valid()
      ensures admitted <==> Enabled(old(db), InsertFact(tx, run, ordinal, artifact))
      ensures db == if admitted then Next(old(db), InsertFact(tx, run, ordinal, artifact)) else old(db)
    {
      var seen := Visible(db, tx);
      if run in seen.runs && artifact in seen.artifacts {
        var r := seen.runs[run];
        if !r.status.Succeeded? || !seen.artifacts[artifact].state.Retained? || tx != r.txid
          || |seen.FactsOf(run)| >= r.factCount {
          return false;
        }
      }
      if run !in seen.runs || artifact !in seen.artifacts || (run, artifact) !in seen.links
        || (run, ordinal) in seen.facts {
        return false;
      }
      hide Inv;
      StepKeepsInv(db, InsertFact(tx, run, ordinal, artifact));
      var own := db.pending[tx];
      db := db.(pending := db.pending[tx := own.(facts := own.facts[(run, ordinal) := Fact(artifact, tx)])]);
      admitted := true;
    }

    /** Runs the deferred checks; a mismatch aborts the transaction. */
    method CommitTransaction(tx: nat) returns (committed: bool)
      requires Valid() && tx in db.pending
      modifies this
      ensures Valid()
      ensures committed <==> CountsMatch(old(db), tx)
      ensures db == if committed then Next(old(db), Commit(tx)) else Next(old(db), Abort(tx))
    {
      hide Inv, CountsMatch;
      committed := CountsMatch(db, tx);
      StepKeepsInv(db, if committed then Commit(tx) else Abort(tx));
      db := if committed then db.(committed := Visible(db, tx), pending := db.pending - {tx})
            else db.(pending := db.pending - {tx});
    }
  }

  // ----- invariant

  /** Links and facts belong to runs of the same set of rows, written by the run's own transaction; every fact has
      a link, and every link joins a run to a retained artifact of its filing known by then. */
  ghost predicate Grounded(own: Tables, artifacts: map<int, Artifact>) {
    && (forall k | k in own.links ::
          k.0 in own.runs && k.1 in artifacts && LinkFits(own.runs[k.0], artifacts[k.1], own.links[k]))
    && (forall k | k in own.facts ::
          && k.0 in own.runs && own.runs[k.0].status.Succeeded?
          && own.facts[k].txid == own.runs[k.0].txid
          && (k.0, own.facts[k].artifact) in own.links)
  }

  ghost predicate Sealed(t: Tables, r: int)
    requires r in t.runs
  {
    |t.FactsOf(r)| == if t.runs[r].status.Succeeded? then t.runs[r].factCount else 0
  }

  ghost predicate CommittedOk(t: Tables) {
    && Grounded(t, t.artifacts)
    && forall r | r in t.runs :: WellShaped(t.runs[r]) && Sealed(t, r)
  }

  ghost predicate Separate(a: Tables, b: Tables) { a.runs.Keys !! b.runs.Keys && a.artifacts.Keys !! b.artifacts.Keys }

  /** The rows of an open transaction hang on its own runs; the artifacts may be committed ones. */
  ghost predicate OwnRowsOk(committed: Tables, own: Tables, tx: nat) {
    && Separate(own, committed)
    && (forall r | r in own.runs :: own.runs[r].txid == tx && WellShaped(own.runs[r]))
    && Grounded(own, committed.artifacts + own.artifacts)
  }

  ghost predicate Inv(db: Db) {
    && CommittedOk(db.committed)
    && (forall r | r in db.committed.runs ::
         db.committed.runs[r].txid !in db.pending && db.committed.runs[r].txid < db.nextTxid)
    && (forall tx | tx in db.pending :: tx < db.nextTxid && OwnRowsOk(db.committed, db.pending[tx], tx))
    && (forall tx, other | tx in db.pending && other in db.pending && tx != other ::
         Separate(db.pending[tx], db.pending[other]))
  }

  lemma StepKeepsInv(db: Db, a: Action)
    requires Inv(db) && Enabled(db, a)
    ensures Inv(Next(db, a))
  {
    hide CommittedOk, OwnRowsOk, CountsMatch, LinkAdmitted, FactAdmitted, NewInput, WellShaped, FreshRun,
      FreshArtifact, Separate;
    match a
    case Begin => EmptyRowsOk(db);
    case InsertArtifact(tx, id, artifact) => OwnArtifact(db, tx, id, artifact); NewRows(db, a);
    case InsertRun(tx, id, run) => OwnRun(db, tx, id, run); NewRows(db, a);
    case InsertLink(tx, run, artifact, knownAt) => OwnLink(db, tx, run, artifact, knownAt); NewRows(db, a);
    case InsertFact(tx, run, ordinal, artifact) => OwnFact(db, tx, run, ordinal, artifact); NewRows(db, a);
    case Commit(tx) => CommitKeepsInv(db, tx);
    case Abort(tx) =>
  }

  predicate IsInsert(a: Action) { a.InsertArtifact? || a.InsertRun? || a.InsertLink? || a.InsertFact? }

  /** The keys of new rows are used by no other transaction. */
  lemma NewRows(db: Db, a: Action)
    requires Inv(db) && IsInsert(a) && Enabled(db, a)
    ensures var after := Next(db, a);
            && after.pending.Keys == db.pending.Keys
            && forall other | other in db.pending && other != a.tx ::
                 && Separate(after.pending[a.tx], db.pending[other])
                 && Separate(db.pending[other], after.pending[a.tx])
  {
    hide OwnRowsOk, CommittedOk, LinkAdmitted, FactAdmitted;
  }

  lemma EmptyRowsOk(db: Db)
    ensures OwnRowsOk(db.committed, NOTHING, db.nextTxid)
    ensures forall tx | tx in db.pending :: Separate(db.pending[tx], NOTHING) && Separate(NOTHING, db.pending[tx])
  {
  }

  lemma OwnArtifact(db: Db, tx: nat, id: int, artifact: Artifact)
    requires tx in db.pending && FreshArtifact(db, id) && OwnRowsOk(db.committed, db.pending[tx], tx)
    ensures var own := db.pending[tx]; OwnRowsOk(db.committed, own.(artifacts := own.artifacts[id := artifact]), tx)
  {
    var own := db.pending[tx];
    var before, after := db.committed.artifacts + own.artifacts, db.committed.artifacts + own.artifacts[id := artifact];
    assert forall k | k in before :: k in after && after[k] == before[k];
  }

  lemma StampKeepsShape(run: ParseRun, tx: nat)
    ensures WellShaped(run) ==> WellShaped(run.(txid := tx))
  {
  }

  lemma OwnRun(db: Db, tx: nat, id: int, run: ParseRun)
    requires tx in db.pending && FreshRun(db, id) && WellShaped(run) && OwnRowsOk(db.committed, db.pending[tx], tx)
    ensures var own := db.pending[tx]; OwnRowsOk(db.committed, own.(runs := own.runs[id := run.(txid := tx)]), tx)
  {
    hide LinkFits, WellShaped;
    StampKeepsShape(run, tx);
    var own := db.pending[tx];
    assert forall r | r in own.runs :: r != id;
  }

  lemma OwnLink(db: Db, tx: nat, run: int, artifact: int, knownAt: int)
    requires Inv(db) && tx in db.pending && LinkAdmitted(db, tx, run, artifact, knownAt)
    ensures var own := db.pending[tx];
            OwnRowsOk(db.committed, own.(links := own.links[(run, artifact) := Link(knownAt, tx)]), tx)
  {
    hide WellShaped, CommittedOk, OwnRowsOk, LinkFits;
    LinkNamesRunTxid(Visible(db, tx).runs[run], Visible(db, tx).artifacts[artifact], Link(knownAt, tx));
    OwnLinkFits(db.committed, db.pending[tx], tx, run, artifact, Link(knownAt, tx));
  }

  lemma OwnLinkFits(committed: Tables, own: Tables, tx: nat, run: int, artifact: int, link: Link)
    requires OwnRowsOk(committed, own, tx) && run in own.runs && artifact in committed.artifacts + own.artifacts
    requires LinkFits(own.runs[run], (committed.artifacts + own.artifacts)[artifact], link)
    ensures OwnRowsOk(committed, own.(links := own.links[(run, artifact) := link]), tx)
  {
    hide WellShaped, LinkFits;
  }

  lemma OwnFactFits(committed: Tables, own: Tables, tx: nat, run: int, ordinal: int, fact: Fact)
    requires OwnRowsOk(committed, own, tx) && run in own.runs && own.runs[run].status.Succeeded?
    requires fact.txid == own.runs[run].txid && (run, fact.artifact) in own.links
    ensures OwnRowsOk(committed, own.(facts := own.facts[(run, ordinal) := fact]), tx)
  {
    hide WellShaped, LinkFits;
  }

  lemma LinkNamesRunTxid(run: ParseRun, artifact: Artifact, link: Link)
    ensures LinkFits(run, artifact, link) ==> run.txid == link.txid
  {
  }

  lemma OwnFact(db: Db, tx: nat, run: int, ordinal: int, artifact: int)
    requires Inv(db) && tx in db.pending && FactAdmitted(db, tx, run, ordinal, artifact)
    ensures var own := db.pending[tx];
            OwnRowsOk(db.committed, own.(facts := own.facts[(run, ordinal) := Fact(artifact, tx)]), tx)
  {
    hide WellShaped, CommittedOk, OwnRowsOk, LinkFits;
    LinkIsOwn(db, tx, run, artifact);
    OwnFactFits(db.committed, db.pending[tx], tx, run, ordinal, Fact(artifact, tx));
  }

  lemma LinkIsOwn(db: Db, tx: nat, run: int, artifact: int)
    requires Inv(db) && tx in db.pending && run in db.pending[tx].runs && (run, artifact) in Visible(db, tx).links
    ensures (run, artifact) in db.pending[tx].links
  {
    assert OwnRowsOk(db.committed, db.pending[tx], tx);
  }

  lemma CommitKeepsInv(db: Db, tx: nat)
    requires Inv(db) && tx in db.pending && CountsMatch(db, tx)
    ensures Inv(Next(db, Commit(tx)))
  {
    hide WellShaped, CommittedOk, OwnRowsOk, CountsMatch;
    var all := Visible(db, tx);
    MergedIsOk(db, tx);
    OwnTxids(db.committed, db.pending[tx], tx);
    forall other | other in db.pending && other != tx ensures OwnRowsOk(all, db.pending[other], other) {
      OthersStayOk(db.committed, db.pending[tx], db.pending[other], other);
    }
  }

  lemma OwnTxids(committed: Tables, own: Tables, tx: nat)
    ensures OwnRowsOk(committed, own, tx) ==>
              Separate(own, committed) && forall r | r in own.runs :: own.runs[r].txid == tx && WellShaped(own.runs[r])
  {
  }

  lemma OthersStayOk(committed: Tables, merged: Tables, own: Tables, tx: nat)
    requires OwnRowsOk(committed, own, tx) && Separate(merged, own) && Separate(merged, committed)
    ensures OwnRowsOk(committed.Plus(merged), own, tx)
  {
    hide WellShaped, LinkFits;
    var before, after := committed.artifacts + own.artifacts, committed.Plus(merged).artifacts + own.artifacts;
    assert forall k | k in before :: k in after && after[k] == before[k];
  }

  lemma MergedIsOk(db: Db, tx: nat)
    requires Inv(db) && tx in db.pending && CountsMatch(db, tx)
    ensures CommittedOk(Visible(db, tx))
  {
    hide OwnRowsOk, Grounded, WellShaped;
    var own, all := db.pending[tx], Visible(db, tx);
    MergedIsGrounded(db.committed, own, tx);
    OwnTxids(db.committed, own, tx);
    forall r | r in all.runs ensures WellShaped(all.runs[r]) && Sealed(all, r) {
      if r in db.committed.runs {
        OldFactsStay(db.committed, own, tx, r);
      }
    }
  }

  lemma MergedIsGrounded(committed: Tables, own: Tables, tx: nat)
    requires OwnRowsOk(committed, own, tx) && Grounded(committed, committed.artifacts)
    ensures Grounded(committed.Plus(own), committed.Plus(own).artifacts)
  {
    hide WellShaped, LinkFits;
    var all := committed.Plus(own);
    forall k | k in all.links
      ensures k.0 in all.runs && k.1 in all.artifacts && LinkFits(all.runs[k.0], all.artifacts[k.1], all.links[k])
    {
      if k in own.links {
        assert k.0 in own.runs;
      } else {
        assert k in committed.links;
      }
    }
    forall k | k in all.facts
      ensures k.0 in all.runs && all.runs[k.0].status.Succeeded? && all.facts[k].txid == all.runs[k.0].txid
      ensures (k.0, all.facts[k].artifact) in all.links
    {
      if k in own.facts {
        assert k.0 in own.runs;
      } else {
        assert k in committed.facts;
      }
    }
  }

  /** Merging in the rows of a transaction adds no fact and no link to a committed run. */
  lemma OldFactsStay(committed: Tables, own: Tables, tx: nat, r: int)
    requires OwnRowsOk(committed, own, tx) && r in committed.runs
    ensures committed.Plus(own).FactsOf(r) == committed.FactsOf(r)
    ensures committed.Plus(own).LinksOf(r) == committed.LinksOf(r)
    ensures forall k | k in committed.FactsOf(r) :: committed.Plus(own).facts[k] == committed.facts[k]
    ensures forall k | k in committed.LinksOf(r) :: committed.Plus(own).links[k] == committed.links[k]
    ensures committed.Plus(own).runs[r] == committed.runs[r]
  {
    hide WellShaped, LinkFits;
  }

  // ----- what the guards come down to

  /** A transaction sees of its own runs exactly what it has written itself. */
  lemma OwnView(db: Db, tx: nat, run: int)
    requires Inv(db) && tx in db.pending
    ensures var seen, own := Visible(db, tx), db.pending[tx];
            && (run in seen.runs && seen.runs[run].txid == tx <==> run in own.runs)
            && (run in own.runs ==>
                  && seen.runs[run] == own.runs[run] && seen.FactsOf(run) == own.FactsOf(run)
                  && (forall k: (int, int) | k.0 == run :: k in seen.links <==> k in own.links)
                  && (forall k: (int, int) | k.0 == run :: k in seen.facts <==> k in own.facts))
  {
    hide WellShaped, LinkFits;
    assert OwnRowsOk(db.committed, db.pending[tx], tx);
    assert Grounded(db.committed, db.committed.artifacts);
  }

  /** A run is admitted exactly under a new key, with a result that fits its status, and for an input that no committed
      run and no open transaction parses with that version. */
  lemma RunIsAdmittedIff(db: Db, tx: nat, id: int, run: ParseRun)
    requires tx in db.pending
    ensures Enabled(db, InsertRun(tx, id, run)) <==>
              && (run.error.None? <==> run.status == Succeeded) && run.factCount >= 0
              && (run.factCount == 0 <==> run.status == Failed)
              && (forall t | t == db.committed || t in db.pending.Values ::
                    id !in t.runs && forall r | r in t.runs ::
                      t.runs[r].filing != run.filing || t.runs[r].parserVersion != run.parserVersion
                      || t.runs[r].manifest != run.manifest)
  {
    forall other | other in db.pending ensures db.pending[other] in db.pending.Values {
    }
  }

  /** A fact is admitted exactly by the transaction of its succeeded run, from a linked artifact, at a new ordinal, as
      long as the run lacks facts: the link already says that the artifact is retained. */
  lemma FactIsAdmittedIff(db: Db, tx: nat, run: int, ordinal: int, artifact: int)
    requires Inv(db) && tx in db.pending
    ensures var own := db.pending[tx];
            Enabled(db, InsertFact(tx, run, ordinal, artifact)) <==>
              && run in own.runs && own.runs[run].status == Succeeded
              && (run, artifact) in own.links && (run, ordinal) !in own.facts
              && |set k | k in own.facts && k.0 == run| < own.runs[run].factCount
  {
    hide WellShaped, CommittedOk, Inv;
    OwnView(db, tx, run);
    var seen, own := Visible(db, tx), db.pending[tx];
    if run in own.runs {
      assert own.FactsOf(run) == set k | k in own.facts && k.0 == run;
      assert ((run, artifact) in seen.links <==> (run, artifact) in own.links)
          && ((run, ordinal) in seen.facts <==> (run, ordinal) in own.facts);
      if (run, artifact) in own.links {
        LinkedIsRetained(db, tx, run, artifact);
      }
    }
  }

  lemma LinkedIsRetained(db: Db, tx: nat, run: int, artifact: int)
    requires Inv(db) && tx in db.pending && (run, artifact) in db.pending[tx].links
    ensures artifact in Visible(db, tx).artifacts && Visible(db, tx).artifacts[artifact].state.Retained?
  {
    assert OwnRowsOk(db.committed, db.pending[tx], tx);
  }

  /** A link is admitted exactly in the transaction of its run, once, to a retained artifact of the run's filing that
      was known by the run's time, which is the time of the link. */
  lemma LinkIsAdmittedIff(db: Db, tx: nat, run: int, artifact: int, knownAt: int)
    requires Inv(db) && tx in db.pending
    ensures var own, artifacts := db.pending[tx], db.committed.artifacts + db.pending[tx].artifacts;
            Enabled(db, InsertLink(tx, run, artifact, knownAt)) <==>
              && run in own.runs && artifact in artifacts && (run, artifact) !in own.links
              && artifacts[artifact].filing == own.runs[run].filing && artifacts[artifact].state == Retained
              && artifacts[artifact].knownAt <= own.runs[run].knownAt && knownAt == own.runs[run].knownAt
  {
    hide WellShaped, CommittedOk, Inv;
    OwnView(db, tx, run);
    assert run in db.pending[tx].runs ==>
        ((run, artifact) in Visible(db, tx).links <==> (run, artifact) in db.pending[tx].links);
  }

  /** A transaction commits exactly when each of its runs has as many facts as it declares. */
  lemma CommitsIff(db: Db, tx: nat)
    requires Inv(db) && tx in db.pending
    ensures var own := db.pending[tx];
            Enabled(db, Commit(tx)) <==>
            forall run | run in own.runs :: |set k | k in own.facts && k.0 == run| == own.runs[run].factCount
  {
    var own := db.pending[tx];
    forall run | run in own.runs
      ensures |Visible(db, tx).FactsOf(run)| == |set k | k in own.facts && k.0 == run|
      ensures own.runs[run].status.Failed? ==> own.runs[run].factCount == 0
    {
      OwnView(db, tx, run);
      OwnRunIsShaped(db, tx, run);
      assert own.FactsOf(run) == set k | k in own.facts && k.0 == run;
    }
    hide Inv;
  }

  lemma OwnRunIsShaped(db: Db, tx: nat, run: int)
    requires Inv(db) && tx in db.pending && run in db.pending[tx].runs
    ensures WellShaped(db.pending[tx].runs[run])
  {
    assert OwnRowsOk(db.committed, db.pending[tx], tx);
  }

  // ----- main results

  ghost predicate CanStep(before: Db, after: Db) { exists a :: Enabled(before, a) && after == Next(before, a) }

  /** Any interleaving of any number of transactions, from the empty database. */
  ghost predicate Trace(dbs: seq<Db>) {
    && dbs != [] && dbs[0] == Db(NOTHING, map[], 0)
    && forall k | 0 <= k < |dbs| - 1 :: CanStep(dbs[k], dbs[k + 1])
  }

  lemma {:induction false} TraceKeepsInv(dbs: seq<Db>, n: nat)
    requires Trace(dbs) && n < |dbs|
    ensures Inv(dbs[n])
  {
    hide CommittedOk, OwnRowsOk, Enabled, Next;
    if n == 0 {
      NothingIsOk();
    } else {
      TraceKeepsInv(dbs, n - 1);
      assert CanStep(dbs[n - 1], dbs[n - 1 + 1]);
      var a :| Enabled(dbs[n - 1], a) && dbs[n] == Next(dbs[n - 1], a);
      StepKeepsInv(dbs[n - 1], a);
    }
  }

  lemma NothingIsOk()
    ensures Inv(Db(NOTHING, map[], 0))
  {
  }

  /** A succeeded run with a linked artifact can always receive the facts that it lacks, the last one included, and its
      transaction changes nothing else on the way. */
  lemma {:induction false} RunCanBeCompleted(db: Db, tx: nat, run: int, artifact: int) returns (dbs: seq<Db>)
    requires Inv(db) && tx in db.pending
    requires run in db.pending[tx].runs && db.pending[tx].runs[run].status == Succeeded
    requires (run, artifact) in db.pending[tx].links
    requires |db.pending[tx].FactsOf(run)| <= db.pending[tx].runs[run].factCount
    ensures dbs != [] && dbs[0] == db && forall k | 0 <= k < |dbs| - 1 :: CanStep(dbs[k], dbs[k + 1])
    ensures var last := dbs[|dbs| - 1];
            && last.pending.Keys == db.pending.Keys && Inv(last)
            && last == db.(pending := db.pending[tx := db.pending[tx].(facts := last.pending[tx].facts)])
            && |last.pending[tx].FactsOf(run)| == db.pending[tx].runs[run].factCount
            && forall k: (int, int) | k.0 != run || k in db.pending[tx].facts ::
                 k in last.pending[tx].facts <==> k in db.pending[tx].facts
    decreases db.pending[tx].runs[run].factCount - |db.pending[tx].FactsOf(run)|
  {
    hide Inv, Enabled;
    var own := db.pending[tx];
    if |own.FactsOf(run)| == own.runs[run].factCount {
      dbs := [db];
      assert db == db.(pending := db.pending[tx := own.(facts := own.facts)]);
    } else {
      var ordinal := NewOrdinal(own.facts.Keys);
      FactIsAdmittedIff(db, tx, run, ordinal, artifact);
      assert own.FactsOf(run) == set k | k in own.facts && k.0 == run;
      var a := InsertFact(tx, run, ordinal, artifact);
      var after := Next(db, a);
      StepKeepsInv(db, a);
      OneMoreFact(own, run, ordinal, Fact(artifact, tx));
      assert CanStep(db, after);
      var rest := RunCanBeCompleted(after, tx, run, artifact);
      dbs := [db] + rest;
    }
  }

  lemma OneMoreFact(own: Tables, run: int, ordinal: int, fact: Fact)
    requires (run, ordinal) !in own.facts
    ensures |own.(facts := own.facts[(run, ordinal) := fact]).FactsOf(run)| == |own.FactsOf(run)| + 1
  {
    assert own.(facts := own.facts[(run, ordinal) := fact]).FactsOf(run) == own.FactsOf(run) + {(run, ordinal)};
  }

  lemma {:induction false} NewOrdinal(keys: set<(int, int)>) returns (ordinal: int)
    ensures forall k | k in keys :: k.1 < ordinal
    decreases |keys|
  {
    ordinal := 0;
    if keys != {} {
      var k :| k in keys;
      ordinal := NewOrdinal(keys - {k});
      assert forall x | x in keys :: x == k || x in keys - {k};
      if ordinal <= k.1 { ordinal := k.1 + 1; }
    }
  }

  /** What a committed run looks like, now and for ever. */
  ghost predicate IsSealed(t: Tables, r: int) {
    && r in t.runs
    && |t.FactsOf(r)| == (if t.runs[r].status.Succeeded? then t.runs[r].factCount else 0)
    && (t.runs[r].status.Succeeded? ==> t.runs[r].factCount > 0)
    && forall k | k in t.FactsOf(r) ::
         var artifact := t.facts[k].artifact;
         && t.facts[k].txid == t.runs[r].txid
         && (r, artifact) in t.links && t.links[(r, artifact)].txid == t.runs[r].txid
         && artifact in t.artifacts && t.artifacts[artifact].state.Retained?
         && t.artifacts[artifact].filing == t.runs[r].filing
         && t.artifacts[artifact].knownAt <= t.runs[r].knownAt
  }

  /** Every committed run is complete: a succeeded one has exactly its declared number of facts (at distinct
      ordinals, which key them), all written by its own transaction from linked, retained artifacts of its filing
      known by then; a failed one has none. */
  lemma CommittedRunsAreSealed(dbs: seq<Db>, n: nat)
    requires Trace(dbs) && n < |dbs|
    ensures forall r | r in dbs[n].committed.runs :: IsSealed(dbs[n].committed, r)
  {
    TraceKeepsInv(dbs, n);
    var t := dbs[n].committed;
    forall r | r in t.runs ensures IsSealed(t, r) {
      assert WellShaped(t.runs[r]) && Sealed(t, r);
      forall k | k in t.FactsOf(r)
        ensures (r, t.facts[k].artifact) in t.links && t.facts[k].txid == t.runs[r].txid
      {
        assert k in t.facts && k.0 == r;
      }
    }
  }

  ghost predicate InputsDiffer(a: Tables, b: Tables) {
    forall r, q | r in a.runs && q in b.runs && r != q :: !SameInput(a.runs[r], b.runs[q])
  }

  ghost predicate UniqueInputs(db: Db) {
    && InputsDiffer(db.committed, db.committed)
    && (forall tx | tx in db.pending :: InputsDiffer(db.committed, db.pending[tx]))
    && (forall tx, other | tx in db.pending && other in db.pending :: InputsDiffer(db.pending[tx], db.pending[other]))
  }

  lemma StepKeepsInputsUnique(db: Db, a: Action)
    requires UniqueInputs(db) && Enabled(db, a)
    ensures UniqueInputs(Next(db, a))
  {
    hide WellShaped, CountsMatch, LinkAdmitted, FactAdmitted, FreshRun, FreshArtifact;
  }

  /** However transactions interleave, no two committed runs parse the same input with the same parser version. */
  lemma {:induction false} OneRunPerInput(dbs: seq<Db>, n: nat)
    requires Trace(dbs) && n < |dbs|
    ensures UniqueInputs(dbs[n])
    ensures forall r, q | r in dbs[n].committed.runs && q in dbs[n].committed.runs && r != q ::
              var a, b := dbs[n].committed.runs[r], dbs[n].committed.runs[q];
              a.filing != b.filing || a.parserVersion != b.parserVersion || a.manifest != b.manifest
  {
    hide Enabled, Next;
    if n > 0 {
      OneRunPerInput(dbs, n - 1);
      assert CanStep(dbs[n - 1], dbs[n - 1 + 1]);
      var a :| Enabled(dbs[n - 1], a) && dbs[n] == Next(dbs[n - 1], a);
      StepKeepsInputsUnique(dbs[n - 1], a);
    }
  }

  ghost predicate SameRun(a: Tables, b: Tables, r: int) {
    && r in a.runs && r in b.runs && a.runs[r] == b.runs[r]
    && a.FactsOf(r) == b.FactsOf(r) && a.LinksOf(r) == b.LinksOf(r)
    && (forall k | k in a.FactsOf(r) && k in b.facts :: a.facts[k] == b.facts[k])
    && (forall k | k in a.LinksOf(r) && k in b.links :: a.links[k] == b.links[k])
  }

  /** No later step of any transaction adds, removes or changes a fact or a link of a committed run. */
  lemma {:induction false} SealedForEver(dbs: seq<Db>, m: nat, n: nat, r: int)
    requires Trace(dbs) && m <= n < |dbs| && r in dbs[m].committed.runs
    ensures SameRun(dbs[m].committed, dbs[n].committed, r)
    decreases n - m
  {
    hide Enabled, Next, Inv;
    if m < n {
      SealedForEver(dbs, m, n - 1, r);
      TraceKeepsInv(dbs, n - 1);
      assert CanStep(dbs[n - 1], dbs[n - 1 + 1]);
      StepKeepsRun(dbs[n - 1], dbs[n], r);
    }
  }

  lemma StepKeepsRun(before: Db, after: Db, r: int)
    requires Inv(before) && CanStep(before, after) && r in before.committed.runs
    ensures SameRun(before.committed, after.committed, r)
  {
    hide CommittedOk, OwnRowsOk;
    var a :| Enabled(before, a) && after == Next(before, a);
    if a.Commit? {
      OldFactsStay(before.committed, before.pending[a.tx], a.tx, r);
    }
  }
}
