/** Resumable paging over a fixed list of history references
    (backend/alembic/versions/20260831120000-sec-parser-v2-units.py): consumption claims, continuation cursors and
    their insert guards.  Both tables are append-only. */
module HistoryPaging {
  import opened Prelude
  import opened Identity

  // ----- JSON values, as far as the guards look at them

  datatype Json =
    | JNull
    | JString(s: string)
    | JRaw(text: string)
    | JArray(items: seq<Json>)
    | JObject(fields: map<string, Json>)

  /** `->>`: the text of a scalar; a null and a missing value have none.  No row of the tables looked up below is
      keyed by the text of an array or an object. */
  function AsText(j: Json): Option<string> {
    match j
    case JString(s) => Some(s)
    case JRaw(text) => Some(text)
    case _ => None
  }

  predicate SameText(a: Json, b: Json) {
    AsText(a) == AsText(b) && (a.JArray? || a.JObject? || b.JArray? || b.JObject? ==> a == b)
  }

  // ----- tables

  datatype Operation = Operation(issuer: int, txid: nat)

  datatype Snapshot = Snapshot(issuer: int, sha: string)

  datatype Claim = Claim(
    issuer: int, parent: Option<string>, mainSnapshot: int, manifest: string, selectionAsOf: Option<int>, target: Json,
    start: int, end: int, attempted: Json, outcomes: Json)

  datatype Cursor = Cursor(
    issuer: int, mainSnapshot: int, sourceOperation: string, parent: Option<string>, mainSha: string, manifest: string,
    references: Json, selectionAsOf: Option<int>, target: Json, next: int)

  /** The tables the guards read.  Claims are keyed by operation, cursors by id; `retained` holds (operation, issuer,
      url) of snapshots and `failures` (operation, url, error code) of acquisition failures. */
  datatype Db = Db(
    operations: map<string, Operation>, snapshots: map<int, Snapshot>, ciks: map<int, string>, available: set<string>,
    retained: set<(string, int, string)>, failures: set<(string, string, string)>,
    claims: map<string, Claim>, cursors: map<string, Cursor>)

  const SUBMISSIONS := "https://data.sec.gov/submissions/"

  // ----- claims

  predicate OutcomeOk(db: Db, operation: string, issuer: int, item: Json, expected: Json) {
    && item.JObject? && item.fields.Keys == {"outcome", "reference"}
    && SameText(item.fields["reference"], expected)
    && var outcome := AsText(item.fields["outcome"]);
       AsText(expected).Some? &&
       var url := SUBMISSIONS + AsText(expected).value;
       if outcome == Some("retained_and_parsed") then (operation, issuer, url) in db.retained
       else outcome.Some? && (operation, url, outcome.value) in db.failures
  }

  predicate ClaimBasics(db: Db, operation: string, c: Claim, txid: nat) {
    && operation in db.operations && db.operations[operation] == Operation(c.issuer, txid)
    && c.mainSnapshot in db.snapshots && db.snapshots[c.mainSnapshot].issuer == c.issuer
    && c.target.JObject? && c.attempted.JArray? && c.outcomes.JArray?
    && |c.attempted.items| == c.end - c.start && |c.outcomes.items| == c.end - c.start
  }

  predicate ClaimContinues(db: Db, c: Claim) {
    match c.parent
    case None => c.start == 0
    case Some(p) =>
      && p in db.cursors
      && var cursor := db.cursors[p];
         && cursor.issuer == c.issuer && cursor.mainSnapshot == c.mainSnapshot && cursor.manifest == c.manifest
         && cursor.selectionAsOf == c.selectionAsOf && cursor.target == c.target && cursor.next == c.start
  }

  predicate ClaimAdmitted(db: Db, operation: string, c: Claim, txid: nat) {
    && ClaimBasics(db, operation, c, txid)
    && ClaimContinues(db, c)
    && (forall i | 0 <= i < |c.outcomes.items| ::
         OutcomeOk(db, operation, c.issuer, c.outcomes.items[i], c.attempted.items[i]))
    && operation !in db.claims
    && 0 <= c.start < c.end <= c.start + 20
  }

  // ----- cursors

  predicate IsSha256(s: string) { |s| == 64 && forall i | 0 <= i < 64 :: IsLowerHex(s[i]) }

  /** CIK<cik>-submissions-[0-9]+.json */
  predicate IsReference(s: string, cik: string) {
    var head, tail := "CIK" + cik + "-submissions-", ".json";
    && |s| > |head| + |tail|
    && s[..|head|] == head && s[|s| - |tail|..] == tail
    && forall i | |head| <= i < |s| - |tail| :: '0' <= s[i] <= '9'
  }

  predicate ReferenceOk(r: Json, cik: string) { r.JString? && IsReference(r.s, cik) }

  predicate CursorBasics(db: Db, id: string, c: Cursor) {
    && IsUuid4(id)
    && c.mainSnapshot in db.snapshots && db.snapshots[c.mainSnapshot] == Snapshot(c.issuer, c.mainSha)
    && c.sourceOperation in db.operations && db.operations[c.sourceOperation].issuer == c.issuer
    && c.sourceOperation !in db.available
    && c.issuer in db.ciks
    && IsSha256(c.mainSha) && IsSha256(c.manifest)
    && c.references.JArray? && c.target.JObject?
    && c.next <= |c.references.items|
  }

  predicate CursorAdvances(db: Db, c: Cursor) {
    match c.parent
    case None => 1 <= c.next <= 20
    case Some(p) =>
      && p in db.cursors
      && var parent := db.cursors[p];
         && parent.issuer == c.issuer && parent.mainSnapshot == c.mainSnapshot && parent.mainSha == c.mainSha
         && parent.manifest == c.manifest && parent.references == c.references
         && parent.selectionAsOf == c.selectionAsOf && parent.target == c.target
         && parent.next < c.next <= parent.next + 20
  }

  /** The items at 1-based ordinals in (start, end]. */
  function Slice(items: seq<Json>, start: int, end: int): seq<Json>
    requires 0 <= start
  {
    var hi := if end <= |items| then end else |items|;
    if start <= hi then items[start..hi] else []
  }

  predicate CursorClaimed(claims: map<string, Claim>, c: Cursor)
    requires c.references.JArray?
  {
    && c.sourceOperation in claims
    && var claim := claims[c.sourceOperation];
       && claim.parent == c.parent && claim.mainSnapshot == c.mainSnapshot && claim.manifest == c.manifest
       && claim.end == c.next
       && claim.attempted.JArray? && claim.outcomes.JArray?
       && |claim.attempted.items| == |claim.outcomes.items| == claim.end - claim.start
       && 0 <= claim.start
       && claim.attempted.items == Slice(c.references.items, claim.start, claim.end)
  }

  predicate CursorKeysUnique(db: Db, id: string, c: Cursor) {
    && id !in db.cursors
    && (c.parent.Some? ==> forall k | k in db.cursors :: db.cursors[k].parent != c.parent)
    && 0 <= c.next
  }

  predicate CursorAdmitted(db: Db, id: string, c: Cursor) {
    && CursorBasics(db, id, c)
    && (forall i | 0 <= i < |c.references.items| :: ReferenceOk(c.references.items[i], db.ciks[c.issuer]))
    && CursorAdvances(db, c)
    && CursorClaimed(db.claims, c)
    && CursorKeysUnique(db, id, c)
  }

  // ----- the guards as they run

  class HistoryStore {
    var db: Db

    ghost predicate Valid()
      reads this
    {
      Inv(db)
    }

    constructor (initial: Db)
      requires initial.claims == map[] && initial.cursors == map[]
      ensures Valid() && db == initial
    {
      db := initial;
    }

    method InsertClaim(operation: string, c: Claim, txid: nat) returns (admitted: bool)
      requires Valid()
      modifies this
      ensures Valid()
      ensures admitted <==> ClaimAdmitted(old(db), operation, c, txid)
      ensures admitted ==>
                && operation in old(db).operations && old(db).operations[operation] == Operation(c.issuer, txid)
                && c.mainSnapshot in old(db).snapshots && old(db).snapshots[c.mainSnapshot].issuer == c.issuer
                && c.target.JObject? && operation !in old(db).claims
      ensures db == if admitted then old(db).(claims := old(db).claims[operation := c]) else old(db)
    {
      hide ClaimContinues, OutcomeOk, Inv;
      if !ClaimBasics(db, operation, c, txid) {
        return false;
      }
      if !ClaimContinues(db, c) {
        return false;
      }
      var idx := 0;
      while idx < |c.outcomes.items|
        invariant 0 <= idx <= |c.outcomes.items| && db == old(db)
        invariant forall i | 0 <= i < idx ::
                    OutcomeOk(db, operation, c.issuer, c.outcomes.items[i], c.attempted.items[i])
      {
        if !OutcomeOk(db, operation, c.issuer, c.outcomes.items[idx], c.attempted.items[idx]) {
          return false;
        }
        idx := idx + 1;
      }
      if operation in db.claims || !(0 <= c.start < c.end <= c.start + 20) {
        return false;
      }
      ClaimKeepsInv(db, operation, c, txid);
      db := db.(claims := db.claims[operation := c]);
      admitted := true;
    }

    method InsertCursor(id: string, c: Cursor) returns (admitted: bool)
      requires Valid()
      modifies this
      ensures Valid()
      ensures admitted <==> CursorAdmitted(old(db), id, c)
      ensures admitted ==>
                && id !in old(db).cursors && IsUuid4(id)
                && c.sourceOperation in old(db).operations && c.sourceOperation !in old(db).available
                && c.sourceOperation in old(db).claims && c.references.JArray? && 0 <= c.next <= |c.references.items|
      ensures db == if admitted then old(db).(cursors := old(db).cursors[id := c]) else old(db)
    {
      hide CursorAdvances, ReferenceOk, IsSha256, IsUuid4, Slice, Inv;
      if !CursorBasics(db, id, c) {
        return false;
      }
      for i := 0 to |c.references.items|
        invariant db == old(db)
        invariant forall k | 0 <= k < i :: ReferenceOk(c.references.items[k], db.ciks[c.issuer])
      {
        if !ReferenceOk(c.references.items[i], db.ciks[c.issuer]) {
          return false;
        }
      }
      if !CursorAdvances(db, c) || !CursorClaimed(db.claims, c) || !CursorKeysUnique(db, id, c) {
        return false;
      }
      CursorKeepsInv(db, id, c);
      db := db.(cursors := db.cursors[id := c]);
      admitted := true;
    }
  }

  // ----- invariant

  /** The outcome recorded for a reference names it, and there is durable evidence of that outcome: a snapshot retained
      by the operation, or its failure under that code. */
  ghost predicate Observed(
      retained: set<(string, int, string)>, failures: set<(string, string, string)>,
      operation: string, issuer: int, reference: Json, item: Json)
  {
    && item.JObject? && item.fields.Keys == {"outcome", "reference"}
    && AsText(reference).Some? && AsText(item.fields["reference"]) == AsText(reference)
    && AsText(item.fields["outcome"]).Some?
    && var url, outcome := SUBMISSIONS + AsText(reference).value, AsText(item.fields["outcome"]).value;
       && (outcome == "retained_and_parsed" ==> (operation, issuer, url) in retained)
       && (outcome != "retained_and_parsed" ==> (operation, url, outcome) in failures)
  }

  ghost predicate ClaimOk(db: Db, operation: string, c: Claim) {
    && 0 <= c.start < c.end <= c.start + 20
    && operation in db.operations && db.operations[operation].issuer == c.issuer
    && c.attempted.JArray? && c.outcomes.JArray? && |c.attempted.items| == |c.outcomes.items| == c.end - c.start
    && (forall i | 0 <= i < |c.attempted.items| ::
          Observed(db.retained, db.failures, operation, c.issuer, c.attempted.items[i], c.outcomes.items[i]))
    && match c.parent
       case None => c.start == 0
       case Some(p) => p in db.cursors && db.cursors[p].next == c.start && SameRequest(c, db.cursors[p])
  }

  /** The claim goes on with the cursor's own request. */
  ghost predicate SameRequest(c: Claim, cursor: Cursor) {
    && c.issuer == cursor.issuer && c.mainSnapshot == cursor.mainSnapshot && c.manifest == cursor.manifest
    && c.selectionAsOf == cursor.selectionAsOf && c.target == cursor.target
  }

  /** Two cursors page one list on the same authority. */
  ghost predicate SameAuthority(a: Cursor, b: Cursor) {
    && a.issuer == b.issuer && a.mainSnapshot == b.mainSnapshot && a.mainSha == b.mainSha && a.manifest == b.manifest
    && a.references == b.references && a.selectionAsOf == b.selectionAsOf && a.target == b.target
  }

  /** The authority that a cursor carries on to its successors. */
  ghost predicate Grounded(db: Db, c: Cursor) {
    && c.mainSnapshot in db.snapshots && db.snapshots[c.mainSnapshot] == Snapshot(c.issuer, c.mainSha)
    && IsSha256(c.mainSha) && IsSha256(c.manifest) && c.target.JObject? && c.references.JArray?
    && c.issuer in db.ciks
    && forall i | 0 <= i < |c.references.items| :: ReferenceOk(c.references.items[i], db.ciks[c.issuer])
  }

  ghost predicate CursorOk(db: Db, c: Cursor) {
    && c.references.JArray? && c.next <= |c.references.items|
    && Grounded(db, c)
    && CursorClaimed(db.claims, c)
    && c.sourceOperation in db.operations && db.operations[c.sourceOperation].issuer == c.issuer
    && (c.parent.Some? ==>
          && c.parent.value in db.cursors
          && SameAuthority(db.cursors[c.parent.value], c))
  }

  ghost predicate Inv(db: Db) {
    && (forall operation | operation in db.claims :: ClaimOk(db, operation, db.claims[operation]))
    && (forall id | id in db.cursors :: CursorOk(db, db.cursors[id]))
    && (forall a, b | a in db.cursors && b in db.cursors && db.cursors[a].parent.Some?
         && db.cursors[a].parent == db.cursors[b].parent :: a == b)
  }

  lemma OutcomeIsEvidence(db: Db, operation: string, issuer: int, item: Json, expected: Json)
    ensures OutcomeOk(db, operation, issuer, item, expected) ==>
              Observed(db.retained, db.failures, operation, issuer, expected, item)
  {
  }

  lemma ClaimKeepsInv(db: Db, operation: string, c: Claim, txid: nat)
    requires Inv(db) && ClaimAdmitted(db, operation, c, txid)
    ensures Inv(db.(claims := db.claims[operation := c]))
  {
    hide OutcomeOk, Slice, Observed;
    forall i | 0 <= i < |c.outcomes.items|
      ensures Observed(db.retained, db.failures, operation, c.issuer, c.attempted.items[i], c.outcomes.items[i])
    {
      OutcomeIsEvidence(db, operation, c.issuer, c.outcomes.items[i], c.attempted.items[i]);
    }
    var after := db.(claims := db.claims[operation := c]);
    forall id | id in after.cursors ensures CursorOk(after, after.cursors[id]) {
      assert CursorOk(db, db.cursors[id]);
      assert db.cursors[id].sourceOperation != operation;
    }
  }

  lemma ClaimsStayOk(db: Db, id: string, c: Cursor)
    requires id !in db.cursors
    ensures forall operation, claim | ClaimOk(db, operation, claim) ::
            ClaimOk(db.(cursors := db.cursors[id := c]), operation, claim)
  {
  }

  lemma CursorKeepsInv(db: Db, id: string, c: Cursor)
    requires Inv(db) && CursorAdmitted(db, id, c)
    ensures Inv(db.(cursors := db.cursors[id := c]))
  {
    hide IsSha256, ReferenceOk, Slice, IsUuid4, CursorClaimed, ClaimOk;
    ClaimsStayOk(db, id, c);
    var after := db.(cursors := db.cursors[id := c]);
    forall k | k in after.cursors ensures CursorOk(after, after.cursors[k]) {
      if k != id {
        assert CursorOk(db, db.cursors[k]);
      }
    }
  }

  // ----- chains

  ghost function ClaimOf(db: Db, id: string): Claim
    requires Inv(db) && id in db.cursors
  {
    assert CursorOk(db, db.cursors[id]);
    db.claims[db.cursors[id].sourceOperation]
  }

  /** A cursor goes on from its parent, or from the start. */
  lemma ClaimStartsAtParent(db: Db, id: string)
    requires Inv(db) && id in db.cursors
    ensures var c, claim := db.cursors[id], ClaimOf(db, id);
            && claim.end == c.next && claim.start < claim.end <= claim.start + 20
            && c.references.JArray? && claim.attempted == JArray(c.references.items[claim.start..claim.end])
            && match c.parent
               case None => claim.start == 0
               case Some(p) =>
                 && p in db.cursors && db.cursors[p].next == claim.start
                 && db.cursors[p].references == c.references
  {
    var c := db.cursors[id];
    assert CursorOk(db, c);
    assert ClaimOk(db, c.sourceOperation, db.claims[c.sourceOperation]);
  }

  /** Ids from the root cursor to this one. */
  ghost function Chain(db: Db, id: string): (chain: seq<string>)
    requires Inv(db) && id in db.cursors
    ensures chain != [] && chain[|chain| - 1] == id
    decreases db.cursors[id].next
  {
    ClaimStartsAtParent(db, id);
    ClaimsArePositive(db, id);
    match db.cursors[id].parent
    case None => [id]
    case Some(p) => Chain(db, p) + [id]
  }

  lemma ClaimsArePositive(db: Db, id: string)
    requires Inv(db) && id in db.cursors
    ensures 0 <= ClaimOf(db, id).start && 0 < db.cursors[id].next
  {
    assert CursorOk(db, db.cursors[id]);
    assert ClaimOk(db, db.cursors[id].sourceOperation, db.claims[db.cursors[id].sourceOperation]);
  }

  /** The attempted references of all claims along the chain, in order. */
  ghost function Consumed(db: Db, id: string): seq<Json>
    requires Inv(db) && id in db.cursors
    decreases db.cursors[id].next
  {
    ClaimStartsAtParent(db, id);
    ClaimsArePositive(db, id);
    match db.cursors[id].parent
    case None => ClaimOf(db, id).attempted.items
    case Some(p) => Consumed(db, p) + ClaimOf(db, id).attempted.items
  }

  lemma NextIsWithin(db: Db, id: string)
    requires Inv(db) && id in db.cursors
    ensures db.cursors[id].references.JArray? && db.cursors[id].next <= |db.cursors[id].references.items|
  {
    assert CursorOk(db, db.cursors[id]);
  }

  lemma SlicesMeet(items: seq<Json>, start: nat, end: nat)
    ensures start <= end <= |items| ==>
              items[..start] + items[start..end] == items[..end] && items[0..end] == items[..end]
  {
  }

  /** Paging is exactly-once: along a chain the claims attempt exactly the references before the cursor's index,
      each once and in order, and the chain has at most one cursor a reference and at least one for every 20. */
  lemma {:induction false} ExactlyOnce(db: Db, id: string)
    requires Inv(db) && id in db.cursors
    ensures var c := db.cursors[id];
            && c.references.JArray? && 0 <= c.next <= |c.references.items|
            && Consumed(db, id) == c.references.items[..c.next]
            && |Chain(db, id)| <= c.next <= 20 * |Chain(db, id)|
    decreases db.cursors[id].next
  {
    ClaimStartsAtParent(db, id);
    ClaimsArePositive(db, id);
    hide Inv, CursorClaimed;
    var c, claim := db.cursors[id], ClaimOf(db, id);
    NextIsWithin(db, id);
    SlicesMeet(c.references.items, 0, claim.end);
    if c.parent.Some? {
      ExactlyOnce(db, c.parent.value);
      SlicesMeet(c.references.items, claim.start, claim.end);
    }
  }

  /** Cursors of one root form a single line: of two chains with the same root one is a prefix of the other. */
  lemma {:induction false} ChainsNest(db: Db, a: string, b: string)
    requires Inv(db) && a in db.cursors && b in db.cursors
    ensures Chain(db, a)[0] == Chain(db, b)[0] && |Chain(db, a)| <= |Chain(db, b)| ==> Chain(db, a) <= Chain(db, b)
    decreases |Chain(db, b)|
  {
    hide Inv, Chain;
    ChainStep(db, a);
    ChainStep(db, b);
    if Chain(db, a)[0] == Chain(db, b)[0] && |Chain(db, a)| < |Chain(db, b)| {
      ChainsNest(db, a, db.cursors[b].parent.value);
    } else if Chain(db, a)[0] == Chain(db, b)[0] && 1 < |Chain(db, a)| == |Chain(db, b)| {
      var p, q := db.cursors[a].parent.value, db.cursors[b].parent.value;
      ChainsNest(db, p, q);
      assert Chain(db, p) == Chain(db, q);
      assert p == q;
      OneSuccessor(db, a, b);
    }
  }

  lemma OneSuccessor(db: Db, a: string, b: string)
    requires Inv(db) && a in db.cursors && b in db.cursors && db.cursors[a].parent.Some?
             && db.cursors[a].parent == db.cursors[b].parent
    ensures a == b
  {
  }

  lemma ChainStep(db: Db, id: string)
    requires Inv(db) && id in db.cursors
    ensures match db.cursors[id].parent
            case None => Chain(db, id) == [id]
            case Some(p) =>
              && p in db.cursors && Chain(db, id) == Chain(db, p) + [id]
              && db.cursors[p].next == ClaimOf(db, id).start
    ensures ClaimOf(db, id).start < ClaimOf(db, id).end == db.cursors[id].next
  {
    hide Inv;
    ClaimStartsAtParent(db, id);
    ClaimsArePositive(db, id);
  }

  /** Different cursors of one root took different references: their index ranges do not meet. */
  lemma RangesAreDisjoint(db: Db, a: string, b: string)
    requires Inv(db) && a in db.cursors && b in db.cursors && a != b
    ensures Chain(db, a)[0] == Chain(db, b)[0] ==>
              ClaimOf(db, a).end <= ClaimOf(db, b).start || ClaimOf(db, b).end <= ClaimOf(db, a).start
  {
    hide Inv, ClaimOf, Chain;
    ChainsNest(db, a, b);
    ChainsNest(db, b, a);
    AncestorEndsFirst(db, a, b);
    AncestorEndsFirst(db, b, a);
  }

  lemma {:induction false} AncestorEndsFirst(db: Db, a: string, b: string)
    requires Inv(db) && a in db.cursors && b in db.cursors && a != b
    ensures Chain(db, a) <= Chain(db, b) ==> ClaimOf(db, a).end <= ClaimOf(db, b).start
    decreases |Chain(db, b)|
  {
    hide Inv, ClaimOf, Chain;
    ChainStep(db, a);
    ChainStep(db, b);
    if Chain(db, a) <= Chain(db, b) {
      assert |Chain(db, a)| < |Chain(db, b)|;
      var p := db.cursors[b].parent.value;
      ChainStep(db, p);
      if p != a {
        AncestorEndsFirst(db, a, p);
      }
    }
  }

  // ----- runs

  /** One admitted insert, or growth of the other tables. */
  ghost predicate CanStep(before: Db, after: Db) {
    || (exists operation, c, txid: nat :: ClaimAdmitted(before, operation, c, txid)
         && after == before.(claims := before.claims[operation := c]))
    || (exists id, c :: CursorAdmitted(before, id, c) && after == before.(cursors := before.cursors[id := c]))
    || OthersGrow(before, after)
  }

  /** The other tables are append-only as far as they are evidence. */
  ghost predicate OthersGrow(before: Db, after: Db) {
    && after.claims == before.claims && after.cursors == before.cursors
    && (forall operation | operation in before.operations ::
          operation in after.operations && after.operations[operation] == before.operations[operation])
    && (forall id | id in before.snapshots :: id in after.snapshots && after.snapshots[id] == before.snapshots[id])
    && (forall issuer | issuer in before.ciks :: issuer in after.ciks && after.ciks[issuer] == before.ciks[issuer])
    && before.retained <= after.retained && before.failures <= after.failures
  }

  ghost predicate Trace(dbs: seq<Db>) {
    && dbs != [] && dbs[0].claims == map[] && dbs[0].cursors == map[]
    && forall k | 0 <= k < |dbs| - 1 :: CanStep(dbs[k], dbs[k + 1])
  }

  /** In every reachable state every cursor pages exactly once and has at most one successor. */
  lemma {:induction false} TracePagesExactlyOnce(dbs: seq<Db>, n: nat)
    requires Trace(dbs) && n < |dbs|
    ensures Inv(dbs[n])
    ensures forall id | id in dbs[n].cursors ::
              var c := dbs[n].cursors[id];
              && c.references.JArray? && 0 <= c.next <= |c.references.items|
              && Consumed(dbs[n], id) == c.references.items[..c.next]
    ensures forall a, b, p | a in dbs[n].cursors && b in dbs[n].cursors
              && dbs[n].cursors[a].parent == Some(p) && dbs[n].cursors[b].parent == Some(p) :: a == b
  {
    TraceKeepsInv(dbs, n);
    forall id | id in dbs[n].cursors
      ensures var c := dbs[n].cursors[id];
              && c.references.JArray? && 0 <= c.next <= |c.references.items|
              && Consumed(dbs[n], id) == c.references.items[..c.next]
    {
      ExactlyOnce(dbs[n], id);
    }
  }

  lemma {:induction false} TraceKeepsInv(dbs: seq<Db>, n: nat)
    requires Trace(dbs) && n < |dbs|
    ensures Inv(dbs[n])
  {
    if n > 0 {
      hide ClaimAdmitted, CursorAdmitted;
      TraceKeepsInv(dbs, n - 1);
      assert CanStep(dbs[n - 1], dbs[n - 1 + 1]);
      StepKeepsInv(dbs[n - 1], dbs[n]);
    }
  }

  lemma StepKeepsInv(before: Db, after: Db)
    requires Inv(before) && CanStep(before, after)
    ensures Inv(after)
  {
    hide ClaimAdmitted, CursorAdmitted;
    if operation, c, txid: nat :|
      ClaimAdmitted(before, operation, c, txid) && after == before.(claims := before.claims[operation := c])
    {
      ClaimKeepsInv(before, operation, c, txid);
    } else if id, c :| CursorAdmitted(before, id, c) && after == before.(cursors := before.cursors[id := c]) {
      CursorKeepsInv(before, id, c);
    } else {
      OtherTablesDoNotMatter(before, after);
    }
  }

  lemma OtherTablesDoNotMatter(before: Db, after: Db)
    requires Inv(before) && OthersGrow(before, after)
    ensures Inv(after)
  {
    hide CursorClaimed;
    forall operation | operation in after.claims ensures ClaimOk(after, operation, after.claims[operation]) {
      EvidenceStays(before, after, operation, before.claims[operation]);
    }
    forall id | id in after.cursors ensures CursorOk(after, after.cursors[id]) {
      assert CursorOk(before, before.cursors[id]);
    }
  }

  lemma EvidenceStays(before: Db, after: Db, operation: string, c: Claim)
    requires OthersGrow(before, after) && ClaimOk(before, operation, c)
    ensures ClaimOk(after, operation, c)
  {
    forall i | 0 <= i < |c.attempted.items|
      ensures Observed(after.retained, after.failures, operation, c.issuer, c.attempted.items[i], c.outcomes.items[i])
    {
      assert Observed(
          before.retained, before.failures, operation, c.issuer, c.attempted.items[i], c.outcomes.items[i]);
    }
  }

  /** The cursor of the chain that took entry k of the list. */
  lemma {:induction false} TakenBy(db: Db, id: string, k: nat) returns (source: string)
    requires Inv(db) && id in db.cursors && k < db.cursors[id].next
    ensures source in Chain(db, id) && source in db.cursors && ClaimOf(db, source).start <= k < ClaimOf(db, source).end
    ensures Chain(db, source)[0] == Chain(db, id)[0]
    ensures SameList(db, source, id) && db.cursors[source].issuer == db.cursors[id].issuer
    decreases db.cursors[id].next
  {
    hide Inv, Chain, ClaimOf;
    ClaimStartsAtParent(db, id);
    ClaimsArePositive(db, id);
    ChainStep(db, id);
    if k < ClaimOf(db, id).start {
      SameIssuer(db, id);
      source := TakenBy(db, db.cursors[id].parent.value, k);
    } else {
      source := id;
    }
  }

  /** Every reference before a cursor's index was attempted by an operation of the cursor's issuer, that of a cursor
      in its chain; the outcome that its claim records names the reference, and is either retained_and_parsed, with the
      document retained by that operation, or the error code of a failure that the operation had with it. */
  lemma ConsumedIsObserved(db: Db, id: string, k: nat) returns (source: string, reference: string, outcome: string)
    requires Inv(db) && id in db.cursors && k < db.cursors[id].next
    ensures source in Chain(db, id) && source in db.cursors && ClaimOf(db, source).start <= k < ClaimOf(db, source).end
    ensures db.cursors[id].references.JArray? && k < |db.cursors[id].references.items|
    ensures db.cursors[id].references.items[k] == JString(reference)
    ensures var c, operation := db.cursors[id], db.cursors[source].sourceOperation;
            && c.issuer in db.ciks && IsReference(reference, db.ciks[c.issuer])
            && operation in db.operations && db.operations[operation].issuer == c.issuer
            && operation in db.claims && db.claims[operation] == ClaimOf(db, source)
            && Recorded(db.claims[operation], k, reference, outcome)
            && var url := "https://data.sec.gov/submissions/" + reference;
               if outcome == "retained_and_parsed" then (operation, c.issuer, url) in db.retained
               else (operation, url, outcome) in db.failures
  {
    hide Inv, Observed, Chain, ClaimOf, Grounded;
    source := TakenBy(db, id, k);
    NextIsWithin(db, id);
    NextIsWithin(db, source);
    ClaimStartsAtParent(db, source);
    ClaimsArePositive(db, source);
    var claim := ClaimOf(db, source);
    ClaimIsEvidence(db, source, k - claim.start);
    ReferencesAreStrings(db, id, k);
    reference := db.cursors[id].references.items[k].s;
    assert claim.attempted.items[k - claim.start] == db.cursors[id].references.items[k];
    outcome := RecordedOutcome(db, db.cursors[source].sourceOperation, db.cursors[id].issuer, claim, k, reference);
  }

  /** The claim's outcome for entry k of the list. */
  predicate Recorded(claim: Claim, k: nat, reference: string, outcome: string) {
    && claim.outcomes.JArray? && 0 <= k - claim.start < |claim.outcomes.items|
    && var item := claim.outcomes.items[k - claim.start];
       && item.JObject? && "reference" in item.fields && "outcome" in item.fields
       && (item.fields["reference"] == JString(reference) || item.fields["reference"] == JRaw(reference))
       && (item.fields["outcome"] == JString(outcome) || item.fields["outcome"] == JRaw(outcome))
  }

  lemma RecordedOutcome(db: Db, operation: string, issuer: int, claim: Claim, k: nat, reference: string)
    returns (outcome: string)
    requires claim.outcomes.JArray? && 0 <= k - claim.start < |claim.outcomes.items|
    requires Observed(db.retained, db.failures, operation, issuer, JString(reference),
                      claim.outcomes.items[k - claim.start])
    ensures Recorded(claim, k, reference, outcome)
    ensures var url := "https://data.sec.gov/submissions/" + reference;
            if outcome == "retained_and_parsed" then (operation, issuer, url) in db.retained
            else (operation, url, outcome) in db.failures
  {
    outcome := AsText(claim.outcomes.items[k - claim.start].fields["outcome"]).value;
  }

  lemma ReferencesAreStrings(db: Db, id: string, k: nat)
    requires Inv(db) && id in db.cursors
    ensures var c := db.cursors[id];
            && c.issuer in db.ciks && c.references.JArray?
            && (k < |c.references.items| ==> ReferenceOk(c.references.items[k], db.ciks[c.issuer]))
  {
    assert CursorOk(db, db.cursors[id]);
  }

  /** What a hash looks like. */
  lemma HashSpelling(s: string)
    ensures IsSha256(s) <==> |s| == 64 && forall c | c in s :: c in "0123456789abcdef"
  {
    forall c: char ensures IsLowerHex(c) <==> c in "0123456789abcdef" {
      HexDigits(c);
    }
    assert forall i | 0 <= i < |s| :: s[i] in s;
  }

  /** What a reference looks like. */
  lemma ReferenceSpelling(s: string, cik: string)
    ensures IsReference(s, cik) <==>
            exists digits :: digits != "" && (forall c | c in digits :: '0' <= c <= '9')
              && s == "CIK" + cik + "-submissions-" + digits + ".json"
  {
    var head, tail := "CIK" + cik + "-submissions-", ".json";
    if IsReference(s, cik) {
      var digits := s[|head|..|s| - |tail|];
      assert s == head + digits + tail;
    }
    if digits :| digits != "" && (forall c | c in digits :: '0' <= c <= '9') && s == head + digits + tail {
      assert |s| == |head| + |digits| + |tail|;
      assert s[|s| - |tail|..] == tail && s[..|head|] == head;
      forall i | |head| <= i < |s| - |tail| ensures '0' <= s[i] <= '9' {
        assert s[i] == digits[i - |head|] && digits[i - |head|] in digits;
      }
    }
  }

  lemma SameIssuer(db: Db, id: string)
    requires Inv(db) && id in db.cursors && db.cursors[id].parent.Some?
    ensures var c := db.cursors[id];
            && c.parent.value in db.cursors && db.cursors[c.parent.value].issuer == c.issuer
            && db.cursors[c.parent.value].references == c.references
  {
    assert CursorOk(db, db.cursors[id]);
  }

  lemma ClaimIsEvidence(db: Db, id: string, i: nat)
    requires Inv(db) && id in db.cursors
    ensures var c, claim := db.cursors[id], ClaimOf(db, id);
            && c.sourceOperation in db.claims && db.claims[c.sourceOperation] == claim && claim.attempted.JArray?
            && c.sourceOperation in db.operations && db.operations[c.sourceOperation].issuer == c.issuer
            && claim.outcomes.JArray? && |claim.outcomes.items| == |claim.attempted.items|
            && (i < |claim.attempted.items| ==>
                  Observed(db.retained, db.failures, c.sourceOperation, c.issuer, claim.attempted.items[i],
                           claim.outcomes.items[i]))
  {
    var c := db.cursors[id];
    assert CursorOk(db, c);
    assert ClaimOk(db, c.sourceOperation, db.claims[c.sourceOperation]);
  }

  /** Every cursor of a chain pages the same list for the same issuer, snapshot, manifest, cut-off and target, and so do
      the claims under it; only the first claim's cut-off and target are its own. */
  lemma {:induction false} ChainHasOneAuthority(db: Db, id: string, x: string)
    requires Inv(db) && id in db.cursors && x in Chain(db, id)
    ensures x in db.cursors
    ensures var a, b, claim := db.cursors[x], db.cursors[id], ClaimOf(db, x);
            && a.issuer == b.issuer && a.mainSnapshot == b.mainSnapshot && a.mainSha == b.mainSha
            && a.manifest == b.manifest && a.references == b.references
            && a.selectionAsOf == b.selectionAsOf && a.target == b.target
            && claim.issuer == b.issuer && claim.mainSnapshot == b.mainSnapshot && claim.manifest == b.manifest
            && (a.parent.Some? ==> claim.selectionAsOf == b.selectionAsOf && claim.target == b.target)
    decreases db.cursors[id].next
  {
    ChainStep(db, id);
    ClaimsArePositive(db, id);
    NextAuthority(db, id);
    hide Inv, ClaimOf, Chain;
    if x != id {
      ChainHasOneAuthority(db, db.cursors[id].parent.value, x);
    }
  }

  lemma NextAuthority(db: Db, id: string)
    requires Inv(db) && id in db.cursors
    ensures var c, claim := db.cursors[id], ClaimOf(db, id);
            && claim.issuer == c.issuer && claim.mainSnapshot == c.mainSnapshot && claim.manifest == c.manifest
            && (c.parent.Some? ==>
                  && c.parent.value in db.cursors && SameAuthority(db.cursors[c.parent.value], c)
                  && SameRequest(claim, db.cursors[c.parent.value]))
  {
    var c := db.cursors[id];
    assert CursorOk(db, c);
    assert ClaimOk(db, c.sourceOperation, db.claims[c.sourceOperation]);
  }

  // ----- paging can go on

  /** The outcome entries of a claim: what became of each reference. */
  function Outcomes(references: seq<Json>, results: seq<string>): (items: seq<Json>)
    requires |references| == |results|
    ensures |items| == |results|
  {
    seq(|results|, i requires 0 <= i < |results| =>
      JObject(map["reference" := references[i], "outcome" := JString(results[i])]))
  }

  /** The operation has evidence of this result for the reference. */
  ghost predicate HasEvidence(db: Db, operation: string, issuer: int, reference: Json, result: string) {
    reference.JString? &&
    var url := "https://data.sec.gov/submissions/" + reference.s;
    (result == "retained_and_parsed" && (operation, issuer, url) in db.retained)
    || (result != "retained_and_parsed" && (operation, url, result) in db.failures)
  }

  /** Paging never gets stuck: from a cursor without a successor, an operation of its issuer that has claimed nothing,
      is not yet available, and has evidence about the next 1 to 20 references gets its claim admitted, and then the
      cursor after them. */
  lemma PagingGoesOn(
      db: Db, id: string, next: string, operation: string, txid: nat, n: nat, results: seq<string>)
    requires Inv(db) && id in db.cursors && forall k | k in db.cursors :: db.cursors[k].parent != Some(id)
    requires IsUuid4(next) && next !in db.cursors
    requires operation in db.operations && db.operations[operation] == Operation(db.cursors[id].issuer, txid)
    requires operation !in db.claims && operation !in db.available
    requires db.cursors[id].references.JArray?
    requires 0 < db.cursors[id].next < n <= db.cursors[id].next + 20 && n <= |db.cursors[id].references.items|
    requires |results| == n - db.cursors[id].next
    requires forall i | 0 <= i < |results| ::
               HasEvidence(db, operation, db.cursors[id].issuer,
                           db.cursors[id].references.items[db.cursors[id].next + i], results[i])
    ensures var c, claim := db.cursors[id], NextClaim(db.cursors[id], id, n, results);
            && ClaimAdmitted(db, operation, claim, txid)
            && CursorAdmitted(db.(claims := db.claims[operation := claim]), next,
                              c.(sourceOperation := operation, parent := Some(id), next := n))
  {
    hide IsUuid4, IsSha256, ReferenceOk, OutcomeOk, ClaimAdmitted, CursorAdmitted, HasEvidence;
    assert CursorOk(db, db.cursors[id]);
    hide Inv;
    NextClaimIsAdmitted(db, id, operation, txid, n, results);
    NextCursorIsAdmitted(db, id, next, operation, n, results);
  }

  /** The claim of the references from c's index up to n. */
  function NextClaim(c: Cursor, id: string, n: nat, results: seq<string>): Claim
    requires c.references.JArray? && 0 <= c.next <= n <= |c.references.items| && |results| == n - c.next
  {
    var references := c.references.items[c.next..n];
    Claim(c.issuer, Some(id), c.mainSnapshot, c.manifest, c.selectionAsOf, c.target, c.next, n,
          JArray(references), JArray(Outcomes(references, results)))
  }

  lemma NextClaimIsAdmitted(db: Db, id: string, operation: string, txid: nat, n: nat, results: seq<string>)
    requires id in db.cursors && Grounded(db, db.cursors[id])
    requires operation in db.operations && db.operations[operation] == Operation(db.cursors[id].issuer, txid)
    requires operation !in db.claims
    requires 0 < db.cursors[id].next < n <= db.cursors[id].next + 20 && n <= |db.cursors[id].references.items|
    requires |results| == n - db.cursors[id].next
    requires forall i | 0 <= i < |results| ::
               HasEvidence(db, operation, db.cursors[id].issuer,
                           db.cursors[id].references.items[db.cursors[id].next + i], results[i])
    ensures ClaimAdmitted(db, operation, NextClaim(db.cursors[id], id, n, results), txid)
  {
    hide ReferenceOk, IsSha256, OutcomeOk, HasEvidence;
    var c := db.cursors[id];
    var references := c.references.items[c.next..n];
    forall i | 0 <= i < |results|
      ensures OutcomeOk(db, operation, c.issuer, Outcomes(references, results)[i], references[i])
    {
      assert references[i] == c.references.items[c.next + i];
      EvidenceIsEnough(db, operation, c.issuer, references[i], results[i]);
    }
  }

  lemma NextCursorIsAdmitted(db: Db, id: string, next: string, operation: string, n: nat, results: seq<string>)
    requires id in db.cursors && Grounded(db, db.cursors[id])
    requires forall k | k in db.cursors :: db.cursors[k].parent != Some(id)
    requires IsUuid4(next) && next !in db.cursors
    requires operation in db.operations && db.operations[operation].issuer == db.cursors[id].issuer
    requires operation !in db.available
    requires 0 < db.cursors[id].next < n <= db.cursors[id].next + 20 && n <= |db.cursors[id].references.items|
    requires |results| == n - db.cursors[id].next
    ensures var c, claim := db.cursors[id], NextClaim(db.cursors[id], id, n, results);
            CursorAdmitted(db.(claims := db.claims[operation := claim]), next,
                           c.(sourceOperation := operation, parent := Some(id), next := n))
  {
    hide IsUuid4, IsSha256, ReferenceOk, Outcomes;
  }

  /** Paging starts in the same way: with evidence about the first 1 to 20 references, the claim and the root cursor
      are admitted. */
  lemma PagingStarts(db: Db, c: Cursor, first: string, txid: nat, results: seq<string>)
    requires Grounded(db, c) && c.parent.None? && 1 <= c.next <= 20 && c.next <= |c.references.items|
    requires IsUuid4(first) && first !in db.cursors
    requires c.sourceOperation in db.operations && db.operations[c.sourceOperation] == Operation(c.issuer, txid)
    requires c.sourceOperation !in db.claims && c.sourceOperation !in db.available
    requires |results| == c.next
    requires forall i | 0 <= i < |results| ::
               HasEvidence(db, c.sourceOperation, c.issuer, c.references.items[i], results[i])
    ensures var references := c.references.items[..c.next];
            var claim := Claim(c.issuer, None, c.mainSnapshot, c.manifest, c.selectionAsOf, c.target, 0, c.next,
                               JArray(references), JArray(Outcomes(references, results)));
            && ClaimAdmitted(db, c.sourceOperation, claim, txid)
            && CursorAdmitted(db.(claims := db.claims[c.sourceOperation := claim]), first, c)
  {
    hide ReferenceOk, IsSha256, OutcomeOk, HasEvidence, IsUuid4;
    var references := c.references.items[..c.next];
    forall i | 0 <= i < |results|
      ensures OutcomeOk(db, c.sourceOperation, c.issuer, Outcomes(references, results)[i], references[i])
    {
      EvidenceIsEnough(db, c.sourceOperation, c.issuer, references[i], results[i]);
    }
    assert c.references.items[0..c.next] == references;
  }

  lemma EvidenceIsEnough(db: Db, operation: string, issuer: int, reference: Json, result: string)
    requires HasEvidence(db, operation, issuer, reference, result)
    ensures OutcomeOk(db, operation, issuer,
                      JObject(map["reference" := reference, "outcome" := JString(result)]), reference)
  {
    assert map["reference" := reference, "outcome" := JString(result)].Keys == {"outcome", "reference"};
  }

  // ----- several roots

  /** A set of cursors that holds the parent of each of its members. */
  ghost predicate ParentClosed(db: Db, ids: set<string>) {
    && (forall id | id in ids :: id in db.cursors)
    && (forall id | id in ids && db.cursors[id].parent.Some? :: db.cursors[id].parent.value in ids)
  }

  predicate SameList(db: Db, a: string, b: string)
    requires a in db.cursors && b in db.cursors
  {
    db.cursors[a].references == db.cursors[b].references
  }

  /** No entry of any list is taken by two of the cursors. */
  ghost predicate EntriesTakenOnce(db: Db, ids: set<string>)
    requires Inv(db) && ParentClosed(db, ids)
  {
    forall a, b | a in ids && b in ids && a != b && SameList(db, a, b) :: Apart(db, a, b)
  }

  /** Their claims have no position of the list in common. */
  ghost predicate Apart(db: Db, a: string, b: string)
    requires Inv(db) && a in db.cursors && b in db.cursors
  {
    ClaimOf(db, a).end <= ClaimOf(db, b).start || ClaimOf(db, b).end <= ClaimOf(db, a).start
  }

  ghost predicate OneRoot(db: Db, ids: set<string>)
    requires ParentClosed(db, ids)
  {
    forall a, b | a in ids && b in ids && db.cursors[a].parent.None? && db.cursors[b].parent.None?
      && SameList(db, a, b) ::
      a == b
  }

  /** Cursors take every entry of a list at most once exactly when at most one of them starts that list. */
  lemma EntriesTakenOnceIffOneRoot(db: Db, ids: set<string>)
    requires Inv(db) && ParentClosed(db, ids)
    ensures EntriesTakenOnce(db, ids) <==> OneRoot(db, ids)
  {
    hide Inv, Apart;
    if OneRoot(db, ids) {
      forall a, b | a in ids && b in ids && a != b && SameList(db, a, b) ensures Apart(db, a, b) {
        SameRootApart(db, ids, a, b);
      }
    } else {
      var a, b :| a in ids && b in ids && db.cursors[a].parent.None? && db.cursors[b].parent.None?
        && SameList(db, a, b) && a != b;
      RootsMeet(db, a, b);
    }
  }

  lemma SameRootApart(db: Db, ids: set<string>, a: string, b: string)
    requires Inv(db) && ParentClosed(db, ids) && OneRoot(db, ids)
    requires a in ids && b in ids && a != b && SameList(db, a, b)
    ensures Apart(db, a, b)
  {
    hide Inv, Chain, ClaimOf, OneRoot;
    RootOf(db, ids, a);
    RootOf(db, ids, b);
    SameRoot(db, ids, Chain(db, a)[0], Chain(db, b)[0]);
    RangesAreDisjoint(db, a, b);
  }

  lemma SameRoot(db: Db, ids: set<string>, x: string, y: string)
    requires ParentClosed(db, ids) && OneRoot(db, ids) && x in ids && y in ids
    ensures x in db.cursors && y in db.cursors
    ensures db.cursors[x].parent.None? && db.cursors[y].parent.None? && SameList(db, x, y) ==> x == y
  {
  }

  lemma RootsMeet(db: Db, a: string, b: string)
    requires Inv(db) && a in db.cursors && b in db.cursors && db.cursors[a].parent.None? && db.cursors[b].parent.None?
    ensures !Apart(db, a, b)
  {
    hide Inv, ClaimOf;
    ClaimStartsAtParent(db, a);
    ClaimStartsAtParent(db, b);
  }

  lemma {:induction false} RootOf(db: Db, ids: set<string>, id: string)
    requires Inv(db) && ParentClosed(db, ids) && id in ids
    ensures var root := Chain(db, id)[0];
            root in ids && db.cursors[root].parent.None? && SameList(db, root, id)
    decreases db.cursors[id].next
  {
    hide Inv, ClaimOf;
    ClaimStartsAtParent(db, id);
    ClaimsArePositive(db, id);
    ChainStep(db, id);
    if db.cursors[id].parent.Some? {
      RootOf(db, ids, db.cursors[id].parent.value);
    }
  }

  // ----- references by value

  ghost function Attempted(db: Db, id: string): seq<Json>
    requires Inv(db) && id in db.cursors
  {
    ClaimStartsAtParent(db, id);
    ClaimOf(db, id).attempted.items
  }

  /** What the cursor and its ancestors have taken, read off its list. */
  ghost function Prefix(db: Db, id: string): seq<Json>
    requires Inv(db) && id in db.cursors
  {
    ExactlyOnce(db, id);
    db.cursors[id].references.items[..db.cursors[id].next]
  }

  /** No reference is attempted twice by the claims of these cursors, in whatever lists it stands. */
  ghost predicate AttemptedOnce(db: Db, ids: set<string>)
    requires Inv(db) && ParentClosed(db, ids)
  {
    forall a, i, b, j | a in ids && b in ids && 0 <= i < |Attempted(db, a)| && 0 <= j < |Attempted(db, b)|
      && Attempted(db, a)[i] == Attempted(db, b)[j] ::
      a == b && i == j
  }

  ghost predicate NoRepeats(s: seq<Json>) { forall i, j | 0 <= i < |s| && 0 <= j < |s| && s[i] == s[j] :: i == j }

  ghost predicate NothingShared(s: seq<Json>, t: seq<Json>) {
    forall i, j | 0 <= i < |s| && 0 <= j < |t| :: s[i] != t[j]
  }

  ghost predicate PrefixesDiffer(db: Db, ids: set<string>)
    requires Inv(db) && ParentClosed(db, ids)
  {
    && (forall id | id in ids :: NoRepeats(Prefix(db, id)))
    && (forall a, b | a in ids && b in ids && Chain(db, a)[0] != Chain(db, b)[0] ::
          NothingShared(Prefix(db, a), Prefix(db, b)))
  }

  /** Cursors attempt no reference twice exactly when no prefix taken repeats one and prefixes under different roots
      share none.  The guards ask for neither. */
  lemma AttemptedOnceIff(db: Db, ids: set<string>)
    requires Inv(db) && ParentClosed(db, ids)
    ensures AttemptedOnce(db, ids) <==> PrefixesDiffer(db, ids)
  {
    hide Inv, Chain, ClaimOf, Attempted, Prefix;
    if AttemptedOnce(db, ids) {
      forall a, p, b, q | a in ids && b in ids && 0 <= p < |Prefix(db, a)| && 0 <= q < |Prefix(db, b)|
        && Prefix(db, a)[p] == Prefix(db, b)[q]
        ensures Chain(db, a)[0] == Chain(db, b)[0] && p == q
      {
        PrefixIsAttempted(db, ids, a, p, b, q);
      }
    }
    if PrefixesDiffer(db, ids) {
      forall a, i, b, j | a in ids && b in ids && 0 <= i < |Attempted(db, a)| && 0 <= j < |Attempted(db, b)|
        && Attempted(db, a)[i] == Attempted(db, b)[j]
        ensures a == b && i == j
      {
        AttemptsDiffer(db, ids, a, i, b, j);
      }
    }
  }

  /** Prefixes of one list agree as far as they reach. */
  lemma PrefixesAgree(db: Db, a: string, b: string, p: nat)
    requires Inv(db) && a in db.cursors && b in db.cursors && SameList(db, a, b)
    requires p < |Prefix(db, a)| && p < |Prefix(db, b)|
    ensures Prefix(db, a)[p] == Prefix(db, b)[p]
  {
    hide Inv;
    ExactlyOnce(db, a);
    ExactlyOnce(db, b);
  }

  /** A cursor's own part of its prefix. */
  lemma AttemptedIsSlice(db: Db, id: string)
    requires Inv(db) && id in db.cursors
    ensures var claim := ClaimOf(db, id);
            && 0 <= claim.start < claim.end == |Prefix(db, id)| == db.cursors[id].next
            && Attempted(db, id) == Prefix(db, id)[claim.start..]
  {
    hide Inv, ClaimOf;
    ClaimStartsAtParent(db, id);
    ClaimsArePositive(db, id);
    ExactlyOnce(db, id);
  }

  lemma PrefixIsAttempted(db: Db, ids: set<string>, a: string, p: nat, b: string, q: nat)
    requires Inv(db) && ParentClosed(db, ids) && AttemptedOnce(db, ids) && a in ids && b in ids
    requires p < |Prefix(db, a)| && q < |Prefix(db, b)| && Prefix(db, a)[p] == Prefix(db, b)[q]
    ensures Chain(db, a)[0] == Chain(db, b)[0] && p == q
  {
    hide Inv, Chain, ClaimOf, AttemptedOnce, Attempted, Prefix, ParentClosed;
    var x := AttemptAt(db, ids, a, p);
    var y := AttemptAt(db, ids, b, q);
    var i, j := p - ClaimOf(db, x).start, q - ClaimOf(db, y).start;
    SameAttempt(db, ids, x, i, y, j);
  }

  lemma SameAttempt(db: Db, ids: set<string>, a: string, i: nat, b: string, j: nat)
    requires Inv(db) && ParentClosed(db, ids) && AttemptedOnce(db, ids) && a in ids && b in ids
    requires i < |Attempted(db, a)| && j < |Attempted(db, b)| && Attempted(db, a)[i] == Attempted(db, b)[j]
    ensures a == b && i == j
  {
  }

  /** Entry p of a prefix was attempted by a cursor of the set, under the same root. */
  lemma AttemptAt(db: Db, ids: set<string>, id: string, p: nat) returns (source: string)
    requires Inv(db) && ParentClosed(db, ids) && id in ids && p < |Prefix(db, id)|
    ensures source in ids && source in db.cursors && Chain(db, source)[0] == Chain(db, id)[0]
    ensures ClaimOf(db, source).start <= p
    ensures p - ClaimOf(db, source).start < |Attempted(db, source)|
    ensures Attempted(db, source)[p - ClaimOf(db, source).start] == Prefix(db, id)[p]
  {
    hide Inv, Chain, ClaimOf;
    AttemptedIsSlice(db, id);
    source := TakenBy(db, id, p);
    ChainWithin(db, ids, id);
    AttemptedIsSlice(db, source);
    hide Prefix, Attempted;
    PrefixesAgree(db, id, source, p);
  }

  lemma {:induction false} ChainWithin(db: Db, ids: set<string>, id: string)
    requires Inv(db) && ParentClosed(db, ids) && id in ids
    ensures forall x | x in Chain(db, id) :: x in ids
    decreases db.cursors[id].next
  {
    hide Inv, ClaimOf;
    ClaimsArePositive(db, id);
    ChainStep(db, id);
    if db.cursors[id].parent.Some? {
      ChainWithin(db, ids, db.cursors[id].parent.value);
    }
  }

  lemma AttemptsDiffer(db: Db, ids: set<string>, a: string, i: nat, b: string, j: nat)
    requires Inv(db) && ParentClosed(db, ids) && PrefixesDiffer(db, ids) && a in ids && b in ids
    requires i < |Attempted(db, a)| && j < |Attempted(db, b)| && Attempted(db, a)[i] == Attempted(db, b)[j]
    ensures a == b && i == j
  {
    hide Inv, Chain, ClaimOf, PrefixesDiffer;
    AttemptedIsSlice(db, a);
    AttemptedIsSlice(db, b);
    var p, q := ClaimOf(db, a).start + i, ClaimOf(db, b).start + j;
    PrefixEntriesDiffer(db, ids, a, p, b, q);
    if a != b {
      RangesAreDisjoint(db, a, b);
    }
  }

  lemma PrefixEntriesDiffer(db: Db, ids: set<string>, a: string, p: nat, b: string, q: nat)
    requires Inv(db) && ParentClosed(db, ids) && PrefixesDiffer(db, ids) && a in ids && b in ids
    requires p < |Prefix(db, a)| && q < |Prefix(db, b)| && Prefix(db, a)[p] == Prefix(db, b)[q]
    ensures Chain(db, a)[0] == Chain(db, b)[0] && p == q
  {
    hide Inv, Chain, ClaimOf;
    RootOf(db, ids, a);
    RootOf(db, ids, b);
    hide Prefix;
    if Chain(db, a)[0] == Chain(db, b)[0] {
      var longer := if |Prefix(db, a)| >= |Prefix(db, b)| then a else b;
      PrefixesAgree(db, a, longer, p);
      PrefixesAgree(db, b, longer, q);
      assert NoRepeats(Prefix(db, longer));
    }
  }

  /** Over one list: exactly when there is one root and the list repeats nothing before its furthest cursor. */
  lemma OneListAttemptedOnceIff(db: Db, ids: set<string>)
    requires Inv(db) && ParentClosed(db, ids) && forall a, b | a in ids && b in ids :: SameList(db, a, b)
    ensures AttemptedOnce(db, ids) <==> OneRoot(db, ids) && forall id | id in ids :: NoRepeats(Prefix(db, id))
  {
    hide Inv, Chain, AttemptedOnce, Prefix, NoRepeats, NothingShared, OneRoot, SameList;
    AttemptedOnceIff(db, ids);
    forall a, b | a in ids && b in ids && Chain(db, a)[0] != Chain(db, b)[0]
      ensures !OneRoot(db, ids) && !NothingShared(Prefix(db, a), Prefix(db, b))
    {
      DifferentRootsShare(db, ids, a, b);
    }
    if !OneRoot(db, ids) {
      var a, b := SeveralRoots(db, ids);
    }
  }

  lemma DifferentRootsShare(db: Db, ids: set<string>, a: string, b: string)
    requires Inv(db) && ParentClosed(db, ids) && a in ids && b in ids && SameList(db, a, b)
    requires Chain(db, a)[0] != Chain(db, b)[0]
    ensures !OneRoot(db, ids) && !NothingShared(Prefix(db, a), Prefix(db, b))
  {
    hide Inv, Chain, ClaimOf, Attempted, Prefix;
    RootOf(db, ids, a);
    RootOf(db, ids, b);
    AttemptedIsSlice(db, a);
    AttemptedIsSlice(db, b);
    PrefixesAgree(db, a, b, 0);
  }

  lemma SeveralRoots(db: Db, ids: set<string>) returns (a: string, b: string)
    requires Inv(db) && ParentClosed(db, ids) && !OneRoot(db, ids)
    ensures a in ids && b in ids && Chain(db, a)[0] != Chain(db, b)[0]
  {
    hide Inv, Chain, ClaimOf;
    a, b :| a in ids && b in ids && db.cursors[a].parent.None? && db.cursors[b].parent.None? && a != b;
    ChainStep(db, a);
    ChainStep(db, b);
  }

  // ----- reachable databases that take something twice

  /** Nothing ties a claim without a parent to one cursor: a second root over the same claim is admitted too. */
  lemma {:induction false} SecondRootIsAdmitted(db: Db, id: string, second: string, c: Cursor)
    requires CursorAdmitted(db, id, c) && c.parent.None?
    requires IsUuid4(second) && second !in db.cursors && second != id
    ensures CursorAdmitted(db.(cursors := db.cursors[id := c]), second, c)
  {
    hide IsUuid4, IsSha256, ReferenceOk, Slice;
  }

  const OPERATION := "operation"
  const LATER := "later"

  function Hash(): string { seq(64, _ => '0') }

  function OnlyReference(): (reference: Json)
    ensures ReferenceOk(reference, "1")
  {
    var head, tail := "CIK" + "1" + "-submissions-", ".json";
    assert (head + "1" + tail)[..|head|] == head && (head + "1" + tail)[|head| + 1..] == tail;
    JString(head + "1" + tail)
  }

  function Parsed(reference: Json): Json {
    JObject(map["reference" := reference, "outcome" := JString("retained_and_parsed")])
  }

  /** One filer with two operations, each of which has retained the one document. */
  function OneFiler(reference: Json): Db
    requires reference.JString?
  {
    var url := SUBMISSIONS + reference.s;
    Db(map[OPERATION := Operation(1, 0), LATER := Operation(1, 1)], map[1 := Snapshot(1, Hash())], map[1 := "1"], {},
       {(OPERATION, 1, url), (LATER, 1, url)}, {}, map[], map[])
  }

  /** Claim and cursor for one more entry of a list that holds the reference over and over. */
  function OneMoreClaim(reference: Json, parent: Option<string>, start: nat): Claim {
    Claim(1, parent, 1, Hash(), None, JObject(map[]), start, start + 1,
          JArray([reference]), JArray([Parsed(reference)]))
  }

  function OneMoreCursor(references: seq<Json>, parent: Option<string>, operation: string, start: nat): Cursor {
    Cursor(1, 1, operation, parent, Hash(), Hash(), JArray(references), None, JObject(map[]), start + 1)
  }

  lemma ClaimIsAdmitted(db: Db, reference: Json, operation: string, parent: Option<string>, start: nat, txid: nat)
    requires reference.JString? && operation in {OPERATION, LATER} && txid == (if operation == OPERATION then 0 else 1)
    requires db.(claims := map[], cursors := map[]) == OneFiler(reference) && operation !in db.claims
    requires ClaimContinues(db, OneMoreClaim(reference, parent, start))
    ensures ClaimAdmitted(db, operation, OneMoreClaim(reference, parent, start), txid)
  {
    hide IsSha256;
    assert Parsed(reference).fields.Keys == {"outcome", "reference"};
  }

  lemma CursorIsAdmitted(
      db: Db, id: string, reference: Json, copies: nat, operation: string, parent: Option<string>, start: nat)
    requires ReferenceOk(reference, "1") && operation in {OPERATION, LATER} && IsUuid4(id) && id !in db.cursors
    requires db.(claims := map[], cursors := map[]) == OneFiler(reference)
    requires operation in db.claims && db.claims[operation] == OneMoreClaim(reference, parent, start) && start < copies
    requires CursorAdvances(db, OneMoreCursor(seq(copies, _ => reference), parent, operation, start))
    requires parent.Some? ==> forall k | k in db.cursors :: db.cursors[k].parent != parent
    ensures CursorAdmitted(db, id, OneMoreCursor(seq(copies, _ => reference), parent, operation, start))
  {
    hide IsUuid4, IsReference;
    var references := seq(copies, _ => reference);
    assert references[start..start + 1] == [reference];
  }

  lemma OneMoreDb(dbs: seq<Db>, db: Db) returns (longer: seq<Db>)
    requires Trace(dbs) && CanStep(dbs[|dbs| - 1], db)
    ensures Trace(longer) && longer == dbs + [db]
  {
    hide CanStep;
    longer := dbs + [db];
    forall k | 0 <= k < |longer| - 1 ensures CanStep(longer[k], longer[k + 1]) {
      assert k < |dbs| - 1 ==> CanStep(dbs[k], dbs[k + 1]);
    }
  }

  /** The first claim and its root cursor. */
  lemma FirstPage(reference: Json, copies: nat) returns (dbs: seq<Db>)
    requires ReferenceOk(reference, "1") && copies > 0
    ensures Trace(dbs) && |dbs| == 3
    ensures var cursor := OneMoreCursor(seq(copies, _ => reference), None, OPERATION, 0);
            var claim := OneMoreClaim(reference, None, 0);
            && dbs[1] == OneFiler(reference).(claims := map[OPERATION := claim])
            && dbs[2] == dbs[1].(cursors := map[FIRST := cursor]) && CursorAdmitted(dbs[1], FIRST, cursor)
  {
    TwoIdentities();
    var claim := OneMoreClaim(reference, None, 0);
    var cursor := OneMoreCursor(seq(copies, _ => reference), None, OPERATION, 0);
    var db0 := OneFiler(reference);
    var db1 := db0.(claims := db0.claims[OPERATION := claim]);
    var db2 := db1.(cursors := db1.cursors[FIRST := cursor]);
    ClaimIsAdmitted(db0, reference, OPERATION, None, 0, 0);
    CursorIsAdmitted(db1, FIRST, reference, copies, OPERATION, None, 0);
    hide ClaimAdmitted, CursorAdmitted, IsUuid4, ReferenceOk;
    assert CanStep(db0, db1) && CanStep(db1, db2);
    dbs := [db0, db1, db2];
  }

  /** Two roots over one reference. */
  lemma TwoRoots() returns (dbs: seq<Db>)
    ensures Trace(dbs) && |dbs| == 4
    ensures dbs[3].cursors.Keys == {FIRST, SECOND}
    ensures Inv(dbs[3]) && ParentClosed(dbs[3], {FIRST, SECOND}) && !EntriesTakenOnce(dbs[3], {FIRST, SECOND})
  {
    TwoIdentities();
    var reference := OnlyReference();
    hide ReferenceOk, IsUuid4, Inv, CursorAdmitted, ClaimAdmitted;
    dbs := FirstPage(reference, 1);
    var cursor := OneMoreCursor(seq(1, _ => reference), None, OPERATION, 0);
    SecondRootIsAdmitted(dbs[1], FIRST, SECOND, cursor);
    var db3 := dbs[2].(cursors := dbs[2].cursors[SECOND := cursor]);
    assert dbs[2] == dbs[1].(cursors := dbs[1].cursors[FIRST := cursor]);
    assert CanStep(dbs[2], db3);
    hide Trace, CanStep;
    dbs := OneMoreDb(dbs, db3);
    TraceKeepsInv(dbs, 3);
    EntriesTakenOnceIffOneRoot(db3, {FIRST, SECOND});
    assert SameList(db3, FIRST, SECOND);
  }

  /** One root over a list that repeats its reference: both claims attempt it. */
  lemma RepeatedReference() returns (dbs: seq<Db>)
    ensures Trace(dbs) && |dbs| == 5
    ensures dbs[4].cursors.Keys == {FIRST, SECOND}
    ensures Inv(dbs[4]) && ParentClosed(dbs[4], {FIRST, SECOND})
    ensures OneRoot(dbs[4], {FIRST, SECOND}) && !AttemptedOnce(dbs[4], {FIRST, SECOND})
  {
    TwoIdentities();
    var reference := OnlyReference();
    hide ReferenceOk, IsUuid4, Inv, CursorAdmitted, ClaimAdmitted, AttemptedOnce, Prefix;
    dbs := FirstPage(reference, 2);
    dbs := SecondPage(reference, dbs);
    TraceKeepsInv(dbs, 4);
    OneListAttemptedOnceIff(dbs[4], {FIRST, SECOND});
    TwiceRepeats(dbs[4], SECOND, reference);
  }

  /** The second claim goes on from the root cursor, over the same reference. */
  lemma SecondPage(reference: Json, dbs: seq<Db>) returns (longer: seq<Db>)
    requires ReferenceOk(reference, "1") && Trace(dbs) && |dbs| == 3
    requires dbs[2] == OneFiler(reference).(
                         claims := map[OPERATION := OneMoreClaim(reference, None, 0)],
                         cursors := map[FIRST := OneMoreCursor(seq(2, _ => reference), None, OPERATION, 0)])
    ensures Trace(longer) && |longer| == 5
    ensures longer[4].cursors == map[FIRST := OneMoreCursor(seq(2, _ => reference), None, OPERATION, 0),
                                     SECOND := OneMoreCursor(seq(2, _ => reference), Some(FIRST), LATER, 1)]
  {
    TwoIdentities();
    var next := OneMoreClaim(reference, Some(FIRST), 1);
    var child := OneMoreCursor(seq(2, _ => reference), Some(FIRST), LATER, 1);
    var db3 := dbs[2].(claims := dbs[2].claims[LATER := next]);
    var db4 := db3.(cursors := db3.cursors[SECOND := child]);
    hide ReferenceOk, IsUuid4, CursorAdmitted, ClaimAdmitted, Trace;
    ClaimIsAdmitted(dbs[2], reference, LATER, Some(FIRST), 1, 1);
    CursorIsAdmitted(db3, SECOND, reference, 2, LATER, Some(FIRST), 1);
    assert CanStep(dbs[2], db3) && CanStep(db3, db4);
    longer := OneMoreDb(dbs, db3);
    longer := OneMoreDb(longer, db4);
  }

  lemma TwiceRepeats(db: Db, id: string, reference: Json)
    requires Inv(db) && id in db.cursors && db.cursors[id].next == 2
    requires db.cursors[id].references == JArray(seq(2, _ => reference))
    ensures !NoRepeats(Prefix(db, id))
  {
    hide Inv;
    assert Prefix(db, id)[0] == Prefix(db, id)[1];
  }
}
