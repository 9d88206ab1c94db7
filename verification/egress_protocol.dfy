/** Concurrent fetches of one upstream: every locked section, clock reading and request is one step, and an arbitrary
    scheduler interleaves the callers (rate-guard/app/gateway.py, bucket.py, cache.py, metrics.py). */
module EgressProtocol {
  import opened Prelude
  import opened TokenBuckets
  import opened Upstreams
  import opened Caching

  /** Attempt number `attempt`, from 0, of the fetch that missed the cache as number `fetch`. */
  datatype Attempt = Attempt(fetch: nat, attempt: nat)

  /** Where a caller stands.  A pause check reads the deadline, compares it with the clock, and reads the clock again
      to sleep for the difference; `seen` counts the pauses recorded before it read the deadline. */
  datatype Caller =
    | Idle
    | Checking(req: Request, no: Attempt)
    | Looking(req: Request, no: Attempt, found: Option<real>, seen: nat)
    | Waiting(req: Request, no: Attempt, deadline: real, seen: nat)
    | Paused(req: Request, no: Attempt, until: real, seen: nat)
    | Reserved(req: Request, no: Attempt, token: nat, seen: nat)
    | InFlight(req: Request, no: Attempt)
    | Answering(req: Request, no: Attempt, response: Response)
    | Pausing(req: Request, no: Attempt)
    | BackingOff(req: Request, no: Attempt, until: real)
    | Storing(req: Request, response: Response)

  datatype Send = Send(at: real, seen: nat, no: Attempt)

  /** A response put into the cache for a request. */
  datatype Stored = Stored(req: Request, response: Response, at: real)

  /** A cache hit: what was returned, to which request, when, and after how many stores. */
  datatype Hit = Hit(req: Request, response: Response, at: real, seen: nat)

  /** A 200 to a request that may be cached. */
  datatype Answer = Answer(req: Request, response: Response, at: real)

  datatype State = State(
    clock: real,
    arrivals: seq<real>, releases: seq<real>,       // the bucket
    sends: map<nat, Send>,                          // by token
    statuses: seq<int>, transportErrors: nat,       // metrics and log
    pauses: seq<real>, pauseUntil: Option<real>,    // deadlines recorded so far, and the one in force
    answers: seq<Answer>, stores: seq<Stored>,      // what came back, and what was cached, in order
    cache: map<string, Entry>, hits: seq<Hit>,
    fetches: nat, callers: seq<Caller>)

  datatype Action =
    | Tick(dt: real)
    | Begin(req: Request)
    | CheckPause
    | Compare
    | Nap
    | Acquire(release: real)
    | Transmit
    | Receive(outcome: Outcome)
    | Record
    | SetPause
    | Wake
    | Store

  function Retried(u: Upstream, s: State, c: Caller): Caller
    requires u.backoff != [] && (c.InFlight? || c.Answering? || c.Pausing?)
  {
    var next := c.no.attempt + 1;
    if next >= u.MaxCalls() then Idle else BackingOff(c.req, Attempt(c.no.fetch, next), s.clock + u.Backoff(next))
  }

  ghost predicate Enabled(u: Upstream, l: Limits, s: State, i: nat, a: Action) {
    && i < |s.callers|
    && var c := s.callers[i];
       match a
       case Tick(dt) => dt >= 0.0
       case Begin(req) => c.Idle? && req.upstream == u.name
       case CheckPause => c.Checking?
       case Compare => c.Looking?
       case Nap => c.Waiting?
       case Acquire(release) =>
         && c.Paused? && c.until <= s.clock
         && IsRelease(l, s.arrivals + [s.clock], |s.arrivals|, release)
       case Transmit => c.Reserved? && c.token < |s.releases| && s.releases[c.token] <= s.clock
       case Receive(_) => c.InFlight?
       case Record => c.Answering?
       case SetPause => c.Pausing?
       case Wake => c.BackingOff? && c.until <= s.clock
       case Store => c.Storing?
  }

  function Answered200(u: Upstream, s: State, req: Request, response: Response): seq<Answer> {
    if MayCache(u, req) && response.status == 200 then s.answers + [Answer(req, response, s.clock)] else s.answers
  }

  ghost function Next(u: Upstream, l: Limits, s: State, i: nat, a: Action): State
    requires u.Valid() && Enabled(u, l, s, i, a)
  {
    var c := s.callers[i];
    match a
    case Tick(dt) => s.(clock := s.clock + dt)
    case Begin(req) =>
      var found := if MayCache(u, req) then Lookup(s.cache, req.CacheKey(), TtlOf(u, req), s.clock) else None;
      if found.Some? then s.(hits := s.hits + [Hit(req, found.value.response, s.clock, |s.stores|)])
      else s.(fetches := s.fetches + 1, callers := s.callers[i := Checking(req, Attempt(s.fetches, 0))])
    case CheckPause => s.(callers := s.callers[i := Looking(c.req, c.no, s.pauseUntil, |s.pauses|)])
    case Compare =>
      s.(callers := s.callers[i :=
           if c.found.Some? && c.found.value > s.clock then Waiting(c.req, c.no, c.found.value, c.seen)
           else Paused(c.req, c.no, s.clock, c.seen)])
    case Nap =>
      // a deadline that has passed since makes the sleep negative, which raises
      s.(callers := s.callers[i :=
           if c.deadline < s.clock then Idle
           else Paused(c.req, c.no, s.clock + Min(c.deadline - s.clock, MAX_PAUSE_WAIT), c.seen)])
    case Acquire(release) =>
      s.(arrivals := s.arrivals + [s.clock], releases := s.releases + [release],
         callers := s.callers[i := Reserved(c.req, c.no, |s.arrivals|, c.seen)])
    case Transmit =>
      s.(sends := s.sends[c.token := Send(s.clock, c.seen, c.no)], callers := s.callers[i := InFlight(c.req, c.no)])
    case Receive(TransportError) =>
      s.(transportErrors := s.transportErrors + 1, callers := s.callers[i := Retried(u, s, c)])
    case Receive(Answered(response)) =>
      s.(answers := Answered200(u, s, c.req, response),
         callers := s.callers[i := Answering(c.req, c.no, response)])
    case Record =>
      var after := match Judge(Answered(c.response))
        case Forbidden => Idle
        case Return => if MayCache(u, c.req) && c.response.status == 200 then Storing(c.req, c.response) else Idle
        case Retry(pause) => if pause then Pausing(c.req, c.no) else Retried(u, s, c);
      s.(statuses := s.statuses + [c.response.status], callers := s.callers[i := after])
    case SetPause =>
      s.(pauses := s.pauses + [s.clock + u.pauseS], pauseUntil := Some(Extended(s.pauseUntil, s.clock, u.pauseS)),
         callers := s.callers[i := Retried(u, s, c)])
    case Wake => s.(callers := s.callers[i := Checking(c.req, c.no)])
    case Store =>
      s.(stores := s.stores + [Stored(c.req, c.response, s.clock)],
         cache := s.cache[c.req.CacheKey() := Entry(c.response, s.clock)], callers := s.callers[i := Idle])
  }

  ghost predicate Initial(s: State) {
    && s.clock >= 0.0 && s.arrivals == [] && s.releases == [] && s.sends == map[]
    && s.statuses == [] && s.transportErrors == 0
    && s.pauses == [] && s.pauseUntil == None && s.answers == [] && s.stores == [] && s.cache == map[] && s.hits == []
    && s.fetches == 0
    && forall i | 0 <= i < |s.callers| :: s.callers[i] == Idle
  }

  /** State k + 1 of a run is one enabled step after state k. */
  ghost predicate StepAt(u: Upstream, l: Limits, states: seq<State>, k: nat)
    requires u.Valid() && k + 1 < |states|
  {
    exists i: nat, a :: Enabled(u, l, states[k], i, a) && states[k + 1] == Next(u, l, states[k], i, a)
  }

  ghost predicate Trace(u: Upstream, l: Limits, states: seq<State>)
    requires u.Valid()
  {
    states != [] && Initial(states[0]) && forall k: nat | k + 1 < |states| :: StepAt(u, l, states, k)
  }

  // ----- accounting

  function Count(callers: seq<Caller>, p: Caller -> bool): nat {
    if callers == [] then 0 else Count(callers[..|callers| - 1], p) + if p(callers[|callers| - 1]) then 1 else 0
  }

  lemma {:induction false} CountUpdate(callers: seq<Caller>, i: nat, c: Caller, p: Caller -> bool)
    requires i < |callers|
    ensures Count(callers[i := c], p) == Count(callers, p) - (if p(callers[i]) then 1 else 0) + if p(c) then 1 else 0
  {
    var n := |callers| - 1;
    if i < n {
      CountUpdate(callers[..n], i, c, p);
      assert callers[i := c][..n] == callers[..n][i := c];
    } else {
      assert callers[i := c][..n] == callers[..n];
    }
  }

  function HoldsToken(): Caller -> bool { (c: Caller) => c.Reserved? }

  function Unrecorded(): Caller -> bool { (c: Caller) => c.InFlight? || c.Answering? }

  /** Tokens are spent one to a send, and every send ends as one recorded status or one transport error. */
  ghost predicate Accounted(s: State) {
    && |s.arrivals| == |s.releases| == |s.sends| + Count(s.callers, HoldsToken())
    && |s.sends| == |s.statuses| + s.transportErrors + Count(s.callers, Unrecorded())
  }

  // ----- the bucket and its tokens

  ghost predicate TokensFresh(s: State) {
    forall i | 0 <= i < |s.callers| && s.callers[i].Reserved? ::
      s.callers[i].token < |s.releases| && s.callers[i].token !in s.sends
  }

  ghost predicate TokensOk(l: Limits, s: State) {
    && IsSchedule(l, s.arrivals, s.releases)
    && TokensFresh(s)
    && (s.arrivals != [] ==> s.arrivals[|s.arrivals| - 1] <= s.clock)
    && (forall t | t in s.sends :: t < |s.releases| && s.releases[t] <= s.sends[t].at <= s.clock)
    && (forall i, j | 0 <= i < j < |s.callers| && s.callers[i].Reserved? && s.callers[j].Reserved? ::
          s.callers[i].token != s.callers[j].token)
  }

  // ----- pauses

  ghost predicate Before(pauses: seq<real>, seen: nat, at: real) {
    seen <= |pauses| && forall k | 0 <= k < seen :: pauses[k] <= at
  }

  /** The deadline covers all pauses recorded before it was read. */
  ghost predicate LookedOk(u: Upstream, s: State, c: Caller)
    requires c.Looking?
  {
    if c.found.None? then c.seen == 0
    else c.found.value <= s.clock + u.pauseS && Before(s.pauses, c.seen, c.found.value)
  }

  ghost predicate PausesOk(u: Upstream, s: State) {
    && s.clock >= 0.0
    && (s.pauses != [] ==> s.pauseUntil.Some?)
    && (s.pauseUntil.Some? ==> forall k | 0 <= k < |s.pauses| :: s.pauses[k] <= s.pauseUntil.value)
    && (s.pauseUntil.Some? ==> s.pauseUntil.value <= s.clock + u.pauseS)
    && (forall i | 0 <= i < |s.callers| && s.callers[i].Looking? :: LookedOk(u, s, s.callers[i]))
    && (forall i | 0 <= i < |s.callers| && s.callers[i].Waiting? ::
          && s.callers[i].deadline <= s.clock + u.pauseS
          && Before(s.pauses, s.callers[i].seen, s.callers[i].deadline))
    && (forall i | 0 <= i < |s.callers| && s.callers[i].Paused? ::
         Before(s.pauses, s.callers[i].seen, s.callers[i].until))
    && (forall i | 0 <= i < |s.callers| && s.callers[i].Reserved? ::
          s.callers[i].token < |s.releases| && Before(s.pauses, s.callers[i].seen, s.releases[s.callers[i].token]))
    && (forall t | t in s.sends :: Before(s.pauses, s.sends[t].seen, s.sends[t].at))
  }

  // ----- attempts

  /** The attempt a caller is about to send, or has sent last. */
  predicate Active(c: Caller) { !c.Idle? && !c.Storing? }

  predicate Sent(c: Caller) { c.InFlight? || c.Answering? || c.Pausing? }

  /** All sends of the caller's fetch were earlier attempts, or its present one if that is out. */
  ghost predicate AheadOfSends(s: State, c: Caller) {
    Active(c) ==>
      forall t | t in s.sends && s.sends[t].no.fetch == c.no.fetch ::
        s.sends[t].no.attempt < c.no.attempt || (Sent(c) && s.sends[t].no.attempt == c.no.attempt)
  }

  ghost predicate AttemptsOk(u: Upstream, s: State) {
    && (forall i | 0 <= i < |s.callers| && Active(s.callers[i]) ::
          && s.callers[i].no.fetch < s.fetches && s.callers[i].no.attempt < u.MaxCalls())
    && (forall i | 0 <= i < |s.callers| :: AheadOfSends(s, s.callers[i]))
    && (forall i, j | 0 <= i < j < |s.callers| && Active(s.callers[i]) && Active(s.callers[j]) ::
          s.callers[i].no.fetch != s.callers[j].no.fetch)
    && (forall t | t in s.sends :: s.sends[t].no.fetch < s.fetches && s.sends[t].no.attempt < u.MaxCalls())
    && (forall t, x | t in s.sends && x in s.sends && s.sends[t].no == s.sends[x].no :: t == x)
  }

  // ----- the cache

  /** The response was a 200 to this cacheable request, received by then. */
  ghost predicate WasAnswered(u: Upstream, s: State, req: Request, response: Response, until: real) {
    exists k :: 0 <= k < |s.answers| && IsAnswer(u, s.answers[k], req, response, until)
  }

  ghost predicate IsAnswer(u: Upstream, a: Answer, req: Request, response: Response, until: real) {
    && a.req == req && req.upstream == u.name && MayCache(u, req)
    && a.response == response && response.status == 200 && a.at <= until
  }

  /** Of the first `seen` stores, number j is the last one for this key. */
  ghost predicate Latest(stores: seq<Stored>, seen: nat, key: string, j: int) {
    && 0 <= j < seen <= |stores| && stores[j].req.CacheKey() == key
    && forall m | j < m < seen :: stores[m].req.CacheKey() != key
  }

  /** The cache holds the latest store for each key, and nothing else. */
  ghost predicate HoldsLatest(stores: seq<Stored>, cache: map<string, Entry>) {
    && (forall key, j | Latest(stores, |stores|, key, j) ::
          key in cache && cache[key] == Entry(stores[j].response, stores[j].at))
    && (forall key | key in cache :: exists j :: Latest(stores, |stores|, key, j))
  }

  ghost predicate CacheOk(u: Upstream, s: State) {
    && (forall i | 0 <= i < |s.callers| && !s.callers[i].Idle? :: s.callers[i].req.upstream == u.name)
    && (forall i | 0 <= i < |s.callers| && s.callers[i].Answering? && MayCache(u, s.callers[i].req)
                   && s.callers[i].response.status == 200 ::
          WasAnswered(u, s, s.callers[i].req, s.callers[i].response, s.clock))
    && (forall i | 0 <= i < |s.callers| && s.callers[i].Storing? ::
          WasAnswered(u, s, s.callers[i].req, s.callers[i].response, s.clock))
    && (forall j | 0 <= j < |s.stores| ::
          && s.stores[j].at <= s.clock
          && WasAnswered(u, s, s.stores[j].req, s.stores[j].response, s.stores[j].at))
    && HoldsLatest(s.stores, s.cache)
    && (forall h | 0 <= h < |s.hits| :: HitOk(u, s.stores, s.hits[h]))
  }

  /** A hit repeats the latest store for its key, which is no older than the ttl. */
  ghost predicate HitOk(u: Upstream, stores: seq<Stored>, h: Hit) {
    && h.req.upstream == u.name && MayCache(u, h.req) && TtlOf(u, h.req) > 0.0
    && exists j :: Repeats(u, stores, j, h)
  }

  ghost predicate Repeats(u: Upstream, stores: seq<Stored>, j: int, h: Hit) {
    && Latest(stores, h.seen, h.req.CacheKey(), j)
    && stores[j].response == h.response && stores[j].at <= h.at <= stores[j].at + TtlOf(u, h.req)
  }

  // ----- each step keeps each part

  lemma StepKeepsAccounts(u: Upstream, l: Limits, s: State, i: nat, a: Action)
    requires u.Valid() && Enabled(u, l, s, i, a) && Accounted(s) && TokensFresh(s)
    ensures Accounted(Next(u, l, s, i, a))
  {
    hide Lookup, Judge, IsRelease, Extended, Count, Retried, MayCache, TtlOf, Answered200;
    var t := Next(u, l, s, i, a);
    RetriedIsQuiet(u, s, s.callers[i]);
    if |t.callers| == |s.callers| && t.callers == s.callers[i := t.callers[i]] {
      CountUpdate(s.callers, i, t.callers[i], HoldsToken());
      CountUpdate(s.callers, i, t.callers[i], Unrecorded());
    }
  }

  lemma RetriedIsQuiet(u: Upstream, s: State, c: Caller)
    requires u.backoff != []
    ensures c.InFlight? || c.Answering? || c.Pausing? ==>
              Retried(u, s, c).Idle? || (Retried(u, s, c).BackingOff? && Retried(u, s, c).req == c.req)
  {
  }

  lemma StepKeepsAttempts(u: Upstream, l: Limits, s: State, i: nat, a: Action)
    requires u.Valid() && Enabled(u, l, s, i, a) && AttemptsOk(u, s) && TokensFresh(s)
    ensures AttemptsOk(u, Next(u, l, s, i, a))
  {
    hide Lookup, Judge, IsRelease, Extended, AttemptsOk, MayCache, TtlOf, Answered200;
    match a
    case Tick(_) => CallerMovesOn(u, s, Next(u, l, s, i, a), i);
    case Begin(_) => BeginKeepsAttempts(u, l, s, i, a);
    case Transmit => TransmitKeepsAttempts(u, l, s, i);
    case _ => CallerMovesOn(u, s, Next(u, l, s, i, a), i);
  }

  lemma BeginKeepsAttempts(u: Upstream, l: Limits, s: State, i: nat, a: Action)
    requires u.Valid() && a.Begin? && Enabled(u, l, s, i, a) && AttemptsOk(u, s)
    ensures AttemptsOk(u, Next(u, l, s, i, a))
  {
    hide Lookup;
  }

  lemma TransmitKeepsAttempts(u: Upstream, l: Limits, s: State, i: nat)
    requires u.Valid() && Enabled(u, l, s, i, Transmit) && AttemptsOk(u, s) && TokensFresh(s)
    ensures AttemptsOk(u, Next(u, l, s, i, Transmit))
  {
  }

  /** A step that sends nothing and begins nothing leaves caller i on its attempt, or moves it to the next one after
      the present one was sent. */
  lemma CallerMovesOn(u: Upstream, s: State, t: State, i: nat)
    requires AttemptsOk(u, s) && t.sends == s.sends && t.fetches == s.fetches && i < |s.callers| == |t.callers|
    requires t.callers == s.callers[i := t.callers[i]]
    requires var c, d := s.callers[i], t.callers[i];
             d == c || !Active(d) ||
             (Active(c) && d.no.fetch == c.no.fetch
              && (if d.no.attempt == c.no.attempt then Sent(c) ==> Sent(d)
                  else Sent(c) && d.no.attempt == c.no.attempt + 1 < u.MaxCalls()))
    ensures AttemptsOk(u, t)
  {
  }

  lemma StepKeepsTokens(u: Upstream, l: Limits, s: State, i: nat, a: Action)
    requires u.Valid() && l.Positive() && Enabled(u, l, s, i, a) && TokensOk(l, s)
    ensures TokensOk(l, Next(u, l, s, i, a))
  {
    hide IsRelease, IsSchedule, Lookup, Judge, Extended, Retried, MayCache, TtlOf, Answered200, TokensOk;
    RetriedIsQuiet(u, s, s.callers[i]);
    match a
    case Acquire(release) => AcquireKeepsTokens(u, l, s, i, release);
    case Transmit => TransmitKeepsTokens(u, l, s, i);
    case _ => TokensCarryOver(l, s, Next(u, l, s, i, a));
  }

  lemma AcquireKeepsTokens(u: Upstream, l: Limits, s: State, i: nat, release: real)
    requires u.Valid() && l.Positive() && Enabled(u, l, s, i, Acquire(release)) && TokensOk(l, s)
    ensures TokensOk(l, Next(u, l, s, i, Acquire(release)))
  {
    hide IsRelease, IsSchedule;
    ScheduledTogether(l, s.arrivals, s.releases);
    ScheduleGrows(l, s.arrivals, s.releases, s.clock, release);
  }

  lemma TransmitKeepsTokens(u: Upstream, l: Limits, s: State, i: nat)
    requires u.Valid() && l.Positive() && Enabled(u, l, s, i, Transmit) && TokensOk(l, s)
    ensures TokensOk(l, Next(u, l, s, i, Transmit))
  {
    hide IsSchedule;
  }

  /** A step that neither takes nor spends a token leaves nobody with a token who did not hold it before. */
  lemma TokensCarryOver(l: Limits, s: State, t: State)
    requires TokensOk(l, s) && s.clock <= t.clock
    requires t.arrivals == s.arrivals && t.releases == s.releases && t.sends == s.sends && |t.callers| == |s.callers|
    requires forall k | 0 <= k < |t.callers| && t.callers[k].Reserved? :: t.callers[k] == s.callers[k]
    ensures TokensOk(l, t)
  {
    hide IsSchedule;
  }

  lemma ScheduledTogether(l: Limits, arrivals: seq<real>, releases: seq<real>)
    ensures IsSchedule(l, arrivals, releases) ==> |arrivals| == |releases|
  {
  }

  lemma StepKeepsPauses(u: Upstream, l: Limits, s: State, i: nat, a: Action)
    requires u.Valid() && u.pauseS <= MAX_PAUSE_WAIT
    requires Enabled(u, l, s, i, a) && TokensFresh(s) && |s.arrivals| == |s.releases| && PausesOk(u, s)
    ensures PausesOk(u, Next(u, l, s, i, a))
  {
    hide PausesOk, Lookup, Judge, Retried, IsRelease, MayCache, TtlOf, Answered200;
    RetriedIsQuiet(u, s, s.callers[i]);
    match a
    case CheckPause => CheckKeepsPauses(u, l, s, i, a);
    case Compare => CheckKeepsPauses(u, l, s, i, a);
    case Nap => CheckKeepsPauses(u, l, s, i, a);
    case Acquire(release) => AcquireKeepsPauses(u, l, s, i, release);
    case Transmit => TransmitKeepsPauses(u, l, s, i);
    case SetPause => SetPauseKeepsPauses(u, l, s, i);
    case _ => PausesCarryOver(u, s, Next(u, l, s, i, a));
  }

  lemma BeforeLater(pauses: seq<real>, more: seq<real>, seen: nat, at: real, later: real)
    ensures Before(pauses, seen, at) && at <= later ==>
              Before(pauses + more, seen, later) && Before(pauses, seen, later)
  {
  }

  lemma AcquireKeepsPauses(u: Upstream, l: Limits, s: State, i: nat, release: real)
    requires u.Valid() && Enabled(u, l, s, i, Acquire(release))
    requires TokensFresh(s) && |s.arrivals| == |s.releases| && PausesOk(u, s)
    ensures PausesOk(u, Next(u, l, s, i, Acquire(release)))
  {
    hide Before;
    var t, c := Next(u, l, s, i, Acquire(release)), s.callers[i];
    assert s.clock <= release by { assert (s.arrivals + [s.clock])[|s.arrivals|] == s.clock; }
    BeforeLater(s.pauses, [], c.seen, c.until, release);
    forall k | 0 <= k < |t.callers| && t.callers[k].Reserved?
      ensures t.callers[k].token < |t.releases| && Before(t.pauses, t.callers[k].seen, t.releases[t.callers[k].token])
    {
      assert k != i ==> t.callers[k] == s.callers[k];
    }
  }

  lemma TransmitKeepsPauses(u: Upstream, l: Limits, s: State, i: nat)
    requires u.Valid() && Enabled(u, l, s, i, Transmit) && PausesOk(u, s)
    ensures PausesOk(u, Next(u, l, s, i, Transmit))
  {
    hide Before;
    var t, c := Next(u, l, s, i, Transmit), s.callers[i];
    BeforeLater(s.pauses, [], c.seen, s.releases[c.token], s.clock);
    forall x | x in t.sends ensures Before(t.pauses, t.sends[x].seen, t.sends[x].at) {
    }
  }

  lemma SetPauseKeepsPauses(u: Upstream, l: Limits, s: State, i: nat)
    requires u.Valid() && Enabled(u, l, s, i, SetPause) && PausesOk(u, s)
    ensures PausesOk(u, Next(u, l, s, i, SetPause))
  {
    hide Before, Retried;
    var t := Next(u, l, s, i, SetPause);
    RetriedIsQuiet(u, s, s.callers[i]);
    forall seen: nat, at | Before(s.pauses, seen, at) ensures Before(t.pauses, seen, at) {
      BeforeLater(s.pauses, [s.clock + u.pauseS], seen, at, at);
    }
    assert forall k | 0 <= k < |s.pauses| :: t.pauses[k] == s.pauses[k];
  }

  /** With pauses of at most two minutes the wait is never cut short. */
  lemma CheckKeepsPauses(u: Upstream, l: Limits, s: State, i: nat, a: Action)
    requires u.Valid() && u.pauseS <= MAX_PAUSE_WAIT && Enabled(u, l, s, i, a) && PausesOk(u, s)
    requires a in {CheckPause, Compare, Nap}
    ensures PausesOk(u, Next(u, l, s, i, a))
  {
    hide Before, IsRelease, Retried, Judge, MayCache, Lookup;
    var t, c := Next(u, l, s, i, a), s.callers[i];
    if a.CheckPause? && s.pauseUntil.Some? {
      AllBefore(s.pauses, s.pauseUntil.value);
    }
    if a.Compare? && t.callers[i].Paused? {
      if c.found.Some? {
        BeforeLater(s.pauses, [], c.seen, c.found.value, s.clock);
      } else {
        NoneBefore(s.pauses, s.clock);
      }
    }
  }

  lemma AllBefore(pauses: seq<real>, at: real)
    ensures (forall k | 0 <= k < |pauses| :: pauses[k] <= at) ==> Before(pauses, |pauses|, at)
  {
  }

  lemma NoneBefore(pauses: seq<real>, at: real)
    ensures Before(pauses, 0, at)
  {
  }

  predicate InCheck(c: Caller) { c.Looking? || c.Waiting? || c.Paused? || c.Reserved? }

  /** Steps that touch neither pauses nor tokens, and leave no caller paused or reserved that was not so before. */
  lemma PausesCarryOver(u: Upstream, s: State, t: State)
    requires PausesOk(u, s) && s.clock <= t.clock
    requires t.pauses == s.pauses && t.pauseUntil == s.pauseUntil && t.releases == s.releases && t.sends == s.sends
    requires |t.callers| == |s.callers|
    requires forall k | 0 <= k < |t.callers| && InCheck(t.callers[k]) :: t.callers[k] == s.callers[k]
    ensures PausesOk(u, t)
  {
    hide Before;
  }

  /** What was answered stays answered. */
  lemma AnsweredStays(u: Upstream, s: State, t: State, req: Request, response: Response, until: real, later: real)
    requires s.answers <= t.answers && until <= later
    ensures WasAnswered(u, s, req, response, until) ==> WasAnswered(u, t, req, response, later)
  {
    hide MayCache;
    if WasAnswered(u, s, req, response, until) {
      var k :| 0 <= k < |s.answers| && IsAnswer(u, s.answers[k], req, response, until);
      assert IsAnswer(u, t.answers[k], req, response, later);
    }
  }

  lemma StepKeepsCache(u: Upstream, l: Limits, s: State, i: nat, a: Action)
    requires u.Valid() && Enabled(u, l, s, i, a) && CacheOk(u, s)
    ensures CacheOk(u, Next(u, l, s, i, a))
  {
    hide WasAnswered, HitOk, HoldsLatest, Retried, IsRelease, MayCache, TtlOf, Request.CacheKey, Answered200;
    var t := Next(u, l, s, i, a);
    RetriedIsQuiet(u, s, s.callers[i]);
    if a.Receive? && a.outcome.Answered? {
      NewAnswer(u, s, t, s.callers[i].req, a.outcome.response);
    }
    forall req, response, until, later | until <= later && WasAnswered(u, s, req, response, until)
      ensures WasAnswered(u, t, req, response, later)
    {
      AnsweredStays(u, s, t, req, response, until, later);
    }
    forall h | HitOk(u, s.stores, h) ensures HitOk(u, t.stores, h) {
      HitStays(u, s.stores, t.stores, h);
    }
    if a.Begin? && t.hits != s.hits {
      NewHit(u, s, a.req);
    }
    if a.Store? {
      StoreIsLatest(s.stores, s.cache, t.stores[|s.stores|]);
    }
  }

  lemma HitStays(u: Upstream, before: seq<Stored>, after: seq<Stored>, h: Hit)
    requires before <= after
    ensures HitOk(u, before, h) ==> HitOk(u, after, h)
  {
    hide MayCache, TtlOf;
    if HitOk(u, before, h) {
      var j :| Repeats(u, before, j, h);
      assert Repeats(u, after, j, h);
    }
  }

  lemma NewAnswer(u: Upstream, s: State, t: State, req: Request, response: Response)
    requires t.answers == Answered200(u, s, req, response) && req.upstream == u.name
    ensures s.answers <= t.answers
    ensures MayCache(u, req) && response.status == 200 ==> WasAnswered(u, t, req, response, s.clock)
  {
    hide MayCache;
    if MayCache(u, req) && response.status == 200 {
      assert IsAnswer(u, t.answers[|s.answers|], req, response, s.clock);
    }
  }

  /** A store replaces the latest one of its key. */
  lemma StoreIsLatest(stores: seq<Stored>, cache: map<string, Entry>, added: Stored)
    requires HoldsLatest(stores, cache)
    ensures HoldsLatest(stores + [added], cache[added.req.CacheKey() := Entry(added.response, added.at)])
  {
    hide Request.CacheKey;
    var longer, n := stores + [added], |stores|;
    assert Latest(longer, n + 1, added.req.CacheKey(), n);
    forall key, j | key != added.req.CacheKey() ensures Latest(longer, n + 1, key, j) <==> Latest(stores, n, key, j) {
      assert Latest(stores, n, key, j) ==> forall m | j < m < n + 1 :: longer[m] == if m < n then stores[m] else added;
      assert Latest(longer, n + 1, key, j) ==> forall m | j < m < n :: stores[m] == longer[m];
    }
  }

  lemma NewHit(u: Upstream, s: State, req: Request)
    requires CacheOk(u, s) && req.upstream == u.name && MayCache(u, req)
    ensures var found := Lookup(s.cache, req.CacheKey(), TtlOf(u, req), s.clock);
            found.Some? ==> HitOk(u, s.stores, Hit(req, found.value.response, s.clock, |s.stores|))
  {
    hide WasAnswered, MayCache, TtlOf;
    var found := Lookup(s.cache, req.CacheKey(), TtlOf(u, req), s.clock);
    if found.Some? {
      var j :| Latest(s.stores, |s.stores|, req.CacheKey(), j);
      assert Repeats(u, s.stores, j, Hit(req, found.value.response, s.clock, |s.stores|));
    }
  }

  // ----- whole runs

  /** What holds in every state of every run; the pause part needs pauses of at most two minutes. */
  ghost predicate Inv(u: Upstream, l: Limits, s: State) {
    && Accounted(s) && TokensOk(l, s) && AttemptsOk(u, s) && CacheOk(u, s)
    && (u.pauseS <= MAX_PAUSE_WAIT ==> PausesOk(u, s))
  }

  lemma {:induction false} TraceKeepsInv(u: Upstream, l: Limits, states: seq<State>, n: nat)
    requires u.Valid() && l.Positive() && n < |states|
    requires Trace(u, l, states)
    ensures Inv(u, l, states[n])
  {
    hide Next, Enabled, Accounted, TokensOk, AttemptsOk, CacheOk, PausesOk, Initial;
    if n == 0 {
      InitialIsOk(u, l, states[0]);
    } else {
      TraceKeepsInv(u, l, states, n - 1);
      assert StepAt(u, l, states, n - 1);
      var i: nat, a :| Enabled(u, l, states[n - 1], i, a) && states[n] == Next(u, l, states[n - 1], i, a);
      StepKeepsInv(u, l, states[n - 1], i, a);
    }
  }

  lemma StepKeepsInv(u: Upstream, l: Limits, s: State, i: nat, a: Action)
    requires u.Valid() && l.Positive() && Enabled(u, l, s, i, a) && Inv(u, l, s)
    ensures Inv(u, l, Next(u, l, s, i, a))
  {
    hide Next, Enabled, AttemptsOk, CacheOk, PausesOk, IsSchedule;
    StepKeepsAttempts(u, l, s, i, a);
    StepKeepsAccounts(u, l, s, i, a);
    StepKeepsTokens(u, l, s, i, a);
    StepKeepsCache(u, l, s, i, a);
    if u.pauseS <= MAX_PAUSE_WAIT {
      StepKeepsPauses(u, l, s, i, a);
    }
  }

  lemma InitialIsOk(u: Upstream, l: Limits, s: State)
    requires Initial(s)
    ensures Inv(u, l, s)
  {
    AllIdle(s.callers);
  }

  lemma {:induction false} AllIdle(callers: seq<Caller>)
    requires forall i | 0 <= i < |callers| :: callers[i] == Idle
    ensures Count(callers, HoldsToken()) == 0 && Count(callers, Unrecorded()) == 0
  {
    if callers != [] { AllIdle(callers[..|callers| - 1]); }
  }

  /** Egress accounting: the tokens taken are exactly the sends plus the tokens in hand, the sends are exactly the
      recorded requests plus the transport errors and the calls not yet recorded, and every send used its own token. */
  lemma EgressIsAccounted(u: Upstream, l: Limits, states: seq<State>, n: nat)
    requires u.Valid() && l.Positive() && n < |states|
    requires Trace(u, l, states)
    ensures var s := states[n];
            && |s.arrivals| == |s.sends| + Count(s.callers, HoldsToken())
            && |s.sends| == |s.statuses| + s.transportErrors + Count(s.callers, Unrecorded())
            && |s.statuses| <= |s.sends| <= |s.arrivals|
            && forall t | t in s.sends :: t < |s.releases| && s.releases[t] <= s.sends[t].at
  {
    TraceKeepsInv(u, l, states, n);
  }

  // ----- backoff

  /** Attempt `no` comes next after this send, and may leave at `at`. */
  ghost predicate FollowsBackoff(u: Upstream, send: Send, no: Attempt, at: real)
    requires u.backoff != []
  {
    send.no.fetch == no.fetch && send.no.attempt + 1 == no.attempt ==> send.at + u.Backoff(no.attempt) <= at
  }

  /** When the caller can send at the earliest. */
  function Earliest(s: State, c: Caller): real { if c.BackingOff? then c.until else s.clock }

  ghost predicate BackoffOk(u: Upstream, s: State)
    requires u.backoff != []
  {
    && (forall t | t in s.sends :: s.sends[t].at <= s.clock)
    && (forall i, t | 0 <= i < |s.callers| && Active(s.callers[i]) && t in s.sends ::
          FollowsBackoff(u, s.sends[t], s.callers[i].no, Earliest(s, s.callers[i])))
    && (forall t, x | t in s.sends && x in s.sends :: FollowsBackoff(u, s.sends[t], s.sends[x].no, s.sends[x].at))
  }

  lemma StepKeepsBackoff(u: Upstream, l: Limits, s: State, i: nat, a: Action)
    requires u.Valid() && Enabled(u, l, s, i, a) && AttemptsOk(u, s) && TokensFresh(s) && BackoffOk(u, s)
    ensures BackoffOk(u, Next(u, l, s, i, a))
  {
    hide Lookup, Judge, IsRelease, Extended, MayCache, TtlOf, Answered200, AttemptsOk, TokensFresh, BackoffOk;
    match a
    case Begin(_) => BeginKeepsBackoff(u, l, s, i, a);
    case Transmit => TransmitKeepsBackoff(u, l, s, i);
    case _ => CallerKeepsBackoff(u, s, Next(u, l, s, i, a), i);
  }

  lemma BeginKeepsBackoff(u: Upstream, l: Limits, s: State, i: nat, a: Action)
    requires u.Valid() && a.Begin? && Enabled(u, l, s, i, a) && AttemptsOk(u, s) && BackoffOk(u, s)
    ensures BackoffOk(u, Next(u, l, s, i, a))
  {
    hide Lookup, MayCache, TtlOf;
  }

  lemma TransmitKeepsBackoff(u: Upstream, l: Limits, s: State, i: nat)
    requires u.Valid() && Enabled(u, l, s, i, Transmit) && AttemptsOk(u, s) && TokensFresh(s) && BackoffOk(u, s)
    ensures BackoffOk(u, Next(u, l, s, i, Transmit))
  {
    hide Upstream.Backoff;
  }

  /** A caller stays on its attempt, or backs off from one that it has sent. */
  lemma CallerKeepsBackoff(u: Upstream, s: State, t: State, i: nat)
    requires u.backoff != [] && AttemptsOk(u, s) && BackoffOk(u, s) && t.sends == s.sends && s.clock <= t.clock
    requires i < |s.callers| == |t.callers| && t.callers == s.callers[i := t.callers[i]]
    requires var c, d := s.callers[i], t.callers[i];
             d == c || !Active(d) ||
             (Active(c) && d.no.fetch == c.no.fetch
              && (if d.no.attempt == c.no.attempt then Earliest(s, c) <= Earliest(t, d)
                  else
                    && d.no.attempt == c.no.attempt + 1 && d.BackingOff?
                    && d.until == s.clock + u.Backoff(d.no.attempt)))
    ensures BackoffOk(u, t)
  {
    hide AttemptsOk, Upstream.Backoff;
  }

  lemma {:induction false} TraceKeepsBackoff(u: Upstream, l: Limits, states: seq<State>, n: nat)
    requires u.Valid() && l.Positive() && n < |states|
    requires Trace(u, l, states)
    ensures BackoffOk(u, states[n])
  {
    hide Next, Enabled, Accounted, TokensOk, AttemptsOk, CacheOk, PausesOk;
    if n > 0 {
      hide BackoffOk, Initial;
      TraceKeepsBackoff(u, l, states, n - 1);
      TraceKeepsInv(u, l, states, n - 1);
      assert StepAt(u, l, states, n - 1);
      var i: nat, a :| Enabled(u, l, states[n - 1], i, a) && states[n] == Next(u, l, states[n - 1], i, a);
      TokensAreFresh(l, states[n - 1]);
      StepKeepsBackoff(u, l, states[n - 1], i, a);
    }
  }

  lemma TokensAreFresh(l: Limits, s: State)
    ensures TokensOk(l, s) ==> TokensFresh(s)
  {
  }

  /** In any interleaving the next attempt of a fetch leaves no earlier than the one before plus its entry of the
      backoff table, whose last entry repeats. */
  lemma BackoffIsKept(u: Upstream, l: Limits, states: seq<State>, n: nat, t: nat, x: nat)
    requires u.Valid() && l.Positive() && n < |states|
    requires Trace(u, l, states) && t in states[n].sends && x in states[n].sends
    requires var a, b := states[n].sends[t].no, states[n].sends[x].no; a.fetch == b.fetch && a.attempt + 1 == b.attempt
    ensures var step := states[n].sends[t].no.attempt;
            states[n].sends[x].at >= states[n].sends[t].at
              + if step < |u.backoff| then u.backoff[step] else u.backoff[|u.backoff| - 1]
  {
    TraceKeepsBackoff(u, l, states, n);
    hide Trace;
    assert FollowsBackoff(u, states[n].sends[t], states[n].sends[x].no, states[n].sends[x].at);
  }

  /** In any interleaving a fetch that misses the cache makes at most max_retries + 1 calls. */
  lemma CallsPerFetch(u: Upstream, l: Limits, states: seq<State>, n: nat, fetch: nat)
    requires u.Valid() && l.Positive() && n < |states|
    requires Trace(u, l, states)
    ensures |CallsOf(states[n], fetch)| <= if u.maxRetries < 0 then 1 else u.maxRetries + 1
  {
    TraceKeepsInv(u, l, states, n);
    AttemptsBoundCalls(states[n], CallsOf(states[n], fetch), fetch, u.MaxCalls());
  }

  ghost function CallsOf(s: State, fetch: nat): set<nat> { set t | t in s.sends && s.sends[t].no.fetch == fetch }

  lemma {:induction false} AttemptsBoundCalls(s: State, calls: set<nat>, fetch: nat, max: nat)
    requires forall t | t in calls :: t in s.sends && s.sends[t].no.fetch == fetch && s.sends[t].no.attempt < max
    requires forall t, x | t in calls && x in calls && s.sends[t].no == s.sends[x].no :: t == x
    ensures |calls| <= max
    decreases max
  {
    if max > 0 && exists t :: t in calls && s.sends[t].no.attempt == max - 1 {
      var t :| t in calls && s.sends[t].no.attempt == max - 1;
      forall x | x in calls - {t} ensures s.sends[x].no.attempt < max - 1 {
        assert s.sends[x].no != s.sends[t].no;
      }
      AttemptsBoundCalls(s, calls - {t}, fetch, max - 1);
    } else if max > 0 {
      AttemptsBoundCalls(s, calls, fetch, max - 1);
    } else {
      assert forall t :: t !in calls;
      assert calls == {};
    }
  }

  /** The rate bound carries over from release instants to what leaves the building: in every run, if no caller is
      more than `late` behind its release, a window of length w sees at most capacity + rate*(w + late) requests. */
  lemma EgressRate(u: Upstream, l: Limits, states: seq<State>, n: nat, late: real, lo: real, hi: real)
    requires u.Valid() && l.Positive() && n < |states|
    requires lo <= hi && 0.0 <= late
    requires forall t | t in states[n].sends ::
             t < |states[n].releases| && states[n].sends[t].at <= states[n].releases[t] + late
    requires Trace(u, l, states)
    ensures |set t | t in states[n].sends && lo <= states[n].sends[t].at <= hi| as real
            <= l.capacity as real + Refill(l, hi - lo + late)
  {
    hide Refill;
    TraceKeepsInv(u, l, states, n);
    var s := states[n];
    var times := map t | t in s.sends :: s.sends[t].at;
    SendsInWindow(l, s.arrivals, s.releases, times, late, lo, hi);
    assert SentIn(times, lo, hi) == set t | t in s.sends && lo <= s.sends[t].at <= hi;
  }

  ghost predicate PauseSafe(u: Upstream, l: Limits)
    requires u.Valid()
  {
    forall states | Trace(u, l, states) :: HonoursPauses(states[|states| - 1])
  }

  /** No request left before a deadline that had been recorded before its own pause check. */
  ghost predicate HonoursPauses(s: State) {
    forall t | t in s.sends :: Before(s.pauses, s.sends[t].seen, s.sends[t].at)
  }

  /** Pauses are honoured in every run exactly when they last at most the two minutes a check is willing to wait. */
  lemma PauseSafeIffShort(u: Upstream, l: Limits)
    requires u.Valid() && l.Positive()
    ensures PauseSafe(u, l) <==> u.pauseS <= 120.0
  {
    if u.pauseS <= MAX_PAUSE_WAIT {
      forall states | Trace(u, l, states) ensures HonoursPauses(states[|states| - 1]) {
        TraceKeepsInv(u, l, states, |states| - 1);
      }
    } else {
      var states := LongPauseIsCutShort(u, l);
    }
  }

  lemma OneMoreStep(u: Upstream, l: Limits, states: seq<State>, i: nat, a: Action)
    returns (longer: seq<State>, t: State)
    requires u.Valid() && states != [] && Enabled(u, l, states[|states| - 1], i, a)
    requires Trace(u, l, states)
    ensures longer != [] && Trace(u, l, longer) && longer == states + [t] && t == Next(u, l, states[|states| - 1], i, a)
  {
    hide Enabled, Next;
    t := Next(u, l, states[|states| - 1], i, a);
    longer := states + [t];
    forall k: nat | k + 1 < |longer| ensures StepAt(u, l, longer, k) {
      if k + 1 < |states| {
        assert StepAt(u, l, states, k);
        assert longer[k] == states[k] && longer[k + 1] == states[k + 1];
      } else {
        assert Enabled(u, l, longer[k], i, a) && longer[k + 1] == Next(u, l, longer[k], i, a);
      }
    }
  }

  /** A request that is never cached. */
  function Plain(u: Upstream): (req: Request)
    ensures req.upstream == u.name && !MayCache(u, req)
  {
    assert Upper("PUT")[1] == 'U';
    Request(u.name, "PUT", Url("", "https", "", ""), "", None)
  }

  const TOO_MANY := Response(429, map[], "")

  function Fresh(callers: nat): State {
    State(0.0, [], [], map[], [], 0, [], None, [], [], map[], [], 0, seq(callers, _ => Idle))
  }

  lemma StartOf(u: Upstream, l: Limits)
    requires u.Valid()
    ensures Trace(u, l, [Fresh(2)])
  {
  }

  /** Caller i begins and passes the pause check. */
  lemma BeginAndCheck(u: Upstream, l: Limits, states: seq<State>, i: nat) returns (longer: seq<State>)
    requires u.Valid() && states != []
    requires var s := states[|states| - 1]; i < |s.callers| && s.callers[i].Idle?
    requires Trace(u, l, states)
    ensures longer != [] && Trace(u, l, longer)
    ensures var s := states[|states| - 1];
            longer[|longer| - 1] ==
              s.(fetches := s.fetches + 1,
                 callers := s.callers[i :=
                   Paused(Plain(u), Attempt(s.fetches, 0), s.clock + PauseWait(s.pauseUntil, s.clock), |s.pauses|)])
  {
    hide Trace;
    var t: State;
    longer, t := OneMoreStep(u, l, states, i, Begin(Plain(u)));
    longer, t := OneMoreStep(u, l, longer, i, CheckPause);
    longer, t := OneMoreStep(u, l, longer, i, Compare);
    if t.callers[i].Waiting? {
      longer, t := OneMoreStep(u, l, longer, i, Nap);
    }
  }

  /** Caller i takes a token and sends as soon as it may. */
  lemma AcquireNow(u: Upstream, l: Limits, states: seq<State>, i: nat, release: real) returns (longer: seq<State>)
    requires u.Valid() && states != []
    requires var s := states[|states| - 1]; i < |s.callers| && s.callers[i].Paused? && s.callers[i].until <= s.clock
    requires var s := states[|states| - 1]; IsRelease(l, s.arrivals + [s.clock], |s.arrivals|, release)
    requires Trace(u, l, states)
    ensures longer != [] && Trace(u, l, longer)
    ensures var s := states[|states| - 1];
            longer[|longer| - 1] == s.(arrivals := s.arrivals + [s.clock], releases := s.releases + [release],
              callers := s.callers[i := Reserved(s.callers[i].req, s.callers[i].no, |s.arrivals|, s.callers[i].seen)])
  {
    hide Trace, IsRelease;
    var t: State;
    longer, t := OneMoreStep(u, l, states, i, Acquire(release));
  }

  /** The call of caller i is answered with 429, which is recorded and pauses the upstream. */
  lemma AnsweredTooMany(u: Upstream, l: Limits, states: seq<State>, i: nat) returns (longer: seq<State>)
    requires u.Valid() && states != []
    requires var s := states[|states| - 1]; i < |s.callers| && s.callers[i].InFlight? && s.callers[i].req == Plain(u)
    requires Trace(u, l, states)
    ensures longer != [] && Trace(u, l, longer)
    ensures var s, t := states[|states| - 1], longer[|longer| - 1];
            && t.clock == s.clock && t.arrivals == s.arrivals && t.releases == s.releases && t.sends == s.sends
            && t.pauses == s.pauses + [s.clock + u.pauseS]
            && t.pauseUntil == Some(Extended(s.pauseUntil, s.clock, u.pauseS))
            && |t.callers| == |s.callers| && forall k | 0 <= k < |s.callers| && k != i :: t.callers[k] == s.callers[k]
  {
    hide Trace, Extended, Retried;
    var t: State;
    longer, t := OneMoreStep(u, l, states, i, Receive(Answered(TOO_MANY)));
    longer, t := OneMoreStep(u, l, longer, i, Record);
    longer, t := OneMoreStep(u, l, longer, i, SetPause);
  }

  /** A longer pause is not waited out: the second caller checks while it is in force and sends before its end. */
  lemma LongPauseIsCutShort(u: Upstream, l: Limits) returns (states: seq<State>)
    requires u.Valid() && l.Positive() && u.pauseS > MAX_PAUSE_WAIT
    ensures states != [] && Trace(u, l, states) && !HonoursPauses(states[|states| - 1])
  {
    hide Trace, IsRelease, Enabled, Next;
    var refill := 1.0 / l.rate;
    var t: State;
    FirstRelease(l, refill + MAX_PAUSE_WAIT);
    StartOf(u, l);
    states := BeginAndCheck(u, l, [Fresh(2)], 0);
    states := AcquireNow(u, l, states, 0, 0.0);
    states, t := SendNow(u, l, states, 0);
    states := Later(u, l, states, refill);
    states := AnsweredTooMany(u, l, states, 0);
    states := BeginAndCheck(u, l, states, 1);
    states := Later(u, l, states, MAX_PAUSE_WAIT);
    var now := refill + MAX_PAUSE_WAIT;
    assert states[|states| - 1].arrivals == [0.0] && states[|states| - 1].clock == now;
    assert [0.0] + [now] == [0.0, now];
    states := AcquireNow(u, l, states, 1, now);
    states, t := SendNow(u, l, states, 1);
    var s := states[|states| - 1];
    assert s.sends[1].at == now && s.sends[1].seen == 1 && s.pauses == [refill + u.pauseS];
    assert s.pauses[0] > now;
  }

  /** The first caller of a full bucket is released at once, and so is a second one after a full refill. */
  lemma FirstRelease(l: Limits, now: real)
    requires l.Positive() && now >= 1.0 / l.rate
    ensures IsRelease(l, [] + [0.0], 0, 0.0) && IsRelease(l, [0.0, now], 1, now)
  {
    WaitRefills(l, 1.0);
    RefillOrder(l, 1.0 / l.rate, now);
    RefillOrder(l, 0.0, 0.0);
    assert [] + [0.0] == [0.0];
    hide Refill;
    forall k | 0 <= k <= 1 ensures Deficit(l, k, 1) <= Refill(l, now - [0.0, now][k]) {
      assert now - [0.0, now][k] == if k == 0 then now else 0.0;
    }
    assert Deficit(l, 0, 0) <= Refill(l, 0.0 - [0.0][0]);
  }

  lemma SendNow(u: Upstream, l: Limits, states: seq<State>, i: nat) returns (longer: seq<State>, t: State)
    requires u.Valid() && states != []
    requires var s := states[|states| - 1];
             && i < |s.callers| && s.callers[i].Reserved?
             && s.callers[i].token < |s.releases| && s.releases[s.callers[i].token] <= s.clock
    requires Trace(u, l, states)
    ensures Trace(u, l, longer) && longer == states + [t]
    ensures var s := states[|states| - 1]; var c := s.callers[i];
            t == s.(sends := s.sends[c.token := Send(s.clock, c.seen, c.no)],
                    callers := s.callers[i := InFlight(c.req, c.no)])
  {
    hide Trace;
    longer, t := OneMoreStep(u, l, states, i, Transmit);
  }

  lemma Later(u: Upstream, l: Limits, states: seq<State>, dt: real) returns (longer: seq<State>)
    requires u.Valid() && states != [] && dt >= 0.0 && states[|states| - 1].callers != []
    requires Trace(u, l, states)
    ensures longer != [] && Trace(u, l, longer)
    ensures var s := states[|states| - 1]; longer[|longer| - 1] == s.(clock := s.clock + dt)
  {
    hide Trace;
    var t: State;
    longer, t := OneMoreStep(u, l, states, 0, Tick(dt));
  }

  /** The check is made before the token is taken: a pause recorded while a caller waits for its token does not hold
      that caller back, however short or long the pause. */
  lemma PauseAfterCheckIsMissed(u: Upstream, l: Limits) returns (states: seq<State>, token: nat)
    requires u.Valid() && l.Positive() && u.pauseS > 0.0
    ensures Trace(u, l, states) && |states| >= 2
    ensures var before, after := states[|states| - 2], states[|states| - 1];
            && token !in before.sends && token in after.sends
            && before.pauses == after.pauses && |after.pauses| == 1 && after.sends[token].at < after.pauses[0]
  {
    hide Trace, IsRelease, Enabled, Next;
    var releases, level := ScheduleExists(l, [0.0, 0.0]);
    var t: State;
    FirstRelease(l, 1.0 / l.rate);
    SecondRelease(l, releases);
    StartOf(u, l);
    states := BeginAndCheck(u, l, [Fresh(2)], 0);
    states := BeginAndCheck(u, l, states, 1);
    states := AcquireNow(u, l, states, 0, 0.0);
    assert states[|states| - 1].arrivals + [0.0] == [0.0, 0.0];
    states := AcquireNow(u, l, states, 1, releases[1]);
    states, t := SendNow(u, l, states, 0);
    states := Later(u, l, states, releases[1]);
    states := AnsweredTooMany(u, l, states, 0);
    token := 1;
    states, t := SendNow(u, l, states, 1);
  }

  /** No request leaves before any deadline recorded before the request itself. */
  ghost predicate StrictPauseSafe(u: Upstream, l: Limits)
    requires u.Valid()
  {
    forall states, k: nat | Trace(u, l, states) && k + 1 < |states| :: SendsAfterPauses(states[k], states[k + 1])
  }

  ghost predicate SendsAfterPauses(before: State, after: State) {
    forall token, j: nat | token in after.sends && token !in before.sends && j < |before.pauses| ::
      before.pauses[j] <= after.sends[token].at
  }

  /** That strict reading holds exactly for an upstream that never pauses. */
  lemma StrictPauseSafeIffNone(u: Upstream, l: Limits)
    requires u.Valid() && l.Positive()
    ensures StrictPauseSafe(u, l) <==> u.pauseS == 0.0
  {
    hide Trace, Next, Enabled;
    if u.pauseS == 0.0 {
      forall states, k: nat | Trace(u, l, states) && k + 1 < |states|
        ensures SendsAfterPauses(states[k], states[k + 1])
      {
        var i, a := StepOf(u, l, states, k);
        DeadlinesAreNear(u, l, states, k);
        OnlyTransmitSends(u, l, states[k], i, a);
      }
    } else {
      var states, token := PauseAfterCheckIsMissed(u, l);
      assert !SendsAfterPauses(states[|states| - 2], states[|states| - 2 + 1]);
    }
  }

  lemma StepOf(u: Upstream, l: Limits, states: seq<State>, k: nat) returns (i: nat, a: Action)
    requires u.Valid() && k + 1 < |states|
    requires Trace(u, l, states)
    ensures Enabled(u, l, states[k], i, a) && states[k + 1] == Next(u, l, states[k], i, a)
  {
    hide Enabled, Next;
    assert StepAt(u, l, states, k);
    i, a :| Enabled(u, l, states[k], i, a) && states[k + 1] == Next(u, l, states[k], i, a);
  }

  lemma OnlyTransmitSends(u: Upstream, l: Limits, s: State, i: nat, a: Action)
    requires u.Valid() && Enabled(u, l, s, i, a)
    ensures forall token | token in Next(u, l, s, i, a).sends && token !in s.sends ::
              Next(u, l, s, i, a).sends[token].at == s.clock
  {
    hide IsRelease, Retried, Lookup, Judge, MayCache;
  }

  /** No recorded deadline is further away than the length of a pause. */
  lemma {:induction false} DeadlinesAreNear(u: Upstream, l: Limits, states: seq<State>, n: nat)
    requires u.Valid() && n < |states|
    requires Trace(u, l, states)
    ensures forall j | 0 <= j < |states[n].pauses| :: states[n].pauses[j] <= states[n].clock + u.pauseS
  {
    hide Next, Enabled, StepAt;
    if n > 0 {
      DeadlinesAreNear(u, l, states, n - 1);
      var i, a := StepOf(u, l, states, n - 1);
      StepKeepsDeadlines(u, l, states[n - 1], i, a);
    }
  }

  lemma StepKeepsDeadlines(u: Upstream, l: Limits, s: State, i: nat, a: Action)
    requires u.Valid() && Enabled(u, l, s, i, a)
    requires forall j | 0 <= j < |s.pauses| :: s.pauses[j] <= s.clock + u.pauseS
    ensures var t := Next(u, l, s, i, a); forall j | 0 <= j < |t.pauses| :: t.pauses[j] <= t.clock + u.pauseS
  {
    hide IsRelease, Retried, Lookup, Judge, MayCache;
  }

  lemma SecondRelease(l: Limits, releases: seq<real>)
    requires IsSchedule(l, [0.0, 0.0], releases)
    ensures IsRelease(l, [0.0, 0.0], 1, releases[1]) && releases[1] >= 0.0
  {
    assert IsRelease(l, [0.0, 0.0], 1, releases[1]);
  }

  /** The cache is transparent: in every run a hit returns the response of the latest store for the same request - same
      upstream, method in upper case, url and body - made before it, at most min(configured ttl, override) earlier; and
      what was stored is an upstream 200 to that request, received before.  An override of zero never hits. */
  lemma HitsAreRepeats(u: Upstream, l: Limits, states: seq<State>, n: nat, h: nat) returns (j: nat, k: nat)
    requires u.Valid() && l.Positive() && n < |states| && h < |states[n].hits|
    requires NUL !in states[n].hits[h].req.url.text
    requires forall a | 0 <= a < |states[n].answers| :: NUL !in states[n].answers[a].req.url.text
    requires Trace(u, l, states)
    ensures j < states[n].hits[h].seen <= |states[n].stores| && k < |states[n].answers|
    ensures var hit, stored, answer := states[n].hits[h], states[n].stores[j], states[n].answers[k];
            var configured := ConfiguredTtl(u, hit.req.url.path);
            && SameRequest(stored.req, hit.req) && stored.response == hit.response && stored.at <= hit.at
            && (forall m | j < m < hit.seen :: !SameRequest(states[n].stores[m].req, hit.req))
            && 0.0 < configured && hit.at - stored.at <= configured
            && (hit.req.maxAge.Some? ==> 0.0 < hit.req.maxAge.value && hit.at - stored.at <= hit.req.maxAge.value)
            && answer.req == stored.req && answer.response == stored.response
            && answer.response.status == 200 && answer.at <= stored.at
  {
    TraceKeepsInv(u, l, states, n);
    hide Trace, Accounted, TokensOk, AttemptsOk, PausesOk, MayCache, ConfiguredTtl;
    var s := states[n];
    j := StoreBehind(u, s.stores, s.hits[h]);
    k := AnswerBehind(u, s, j);
    KeyNamesRequest(u, s.stores[j].req, s.hits[h].req);
  }

  lemma StoreBehind(u: Upstream, stores: seq<Stored>, hit: Hit) returns (j: nat)
    requires HitOk(u, stores, hit)
    ensures Repeats(u, stores, j, hit) && 0.0 < TtlOf(u, hit.req)
    ensures MayCache(u, hit.req) && hit.req.upstream == u.name
  {
    hide MayCache, TtlOf;
    var m :| Repeats(u, stores, m, hit);
    j := m;
  }

  lemma AnswerBehind(u: Upstream, s: State, j: nat) returns (k: nat)
    requires CacheOk(u, s) && j < |s.stores|
    ensures k < |s.answers| && IsAnswer(u, s.answers[k], s.stores[j].req, s.stores[j].response, s.stores[j].at)
  {
    hide HitOk, HoldsLatest, MayCache, IsAnswer;
    var stored := s.stores[j];
    assert WasAnswered(u, s, stored.req, stored.response, stored.at);
    k :| 0 <= k < |s.answers| && IsAnswer(u, s.answers[k], stored.req, stored.response, stored.at);
  }

  /** And it is used whenever it may be: a fetch hits exactly if the latest store for its key is young enough. */
  lemma HitsIffFresh(u: Upstream, l: Limits, states: seq<State>, n: nat, i: nat, req: Request)
    requires u.Valid() && l.Positive() && n < |states| && Enabled(u, l, states[n], i, Begin(req))
    requires Trace(u, l, states)
    ensures var s := states[n];
            Next(u, l, s, i, Begin(req)).hits != s.hits
            <==> MayCache(u, req) && 0.0 < TtlOf(u, req)
                 && exists j ::
                      Latest(s.stores, |s.stores|, req.CacheKey(), j) && s.clock - s.stores[j].at <= TtlOf(u, req)
  {
    TraceKeepsInv(u, l, states, n);
    hide Trace, Accounted, TokensOk, AttemptsOk, PausesOk, MayCache, TtlOf, HitOk, Latest;
    assert HoldsLatest(states[n].stores, states[n].cache);
  }
}
