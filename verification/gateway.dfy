/** One fetch through the gateway, start to end (rate-guard/app/gateway.py).  The clock and the upstream are objects
    whose behaviour is an arbitrary script. */
module Gateways {
  import opened Prelude
  import opened TokenBuckets
  import opened Upstreams
  import opened Caching
  import opened Metrics

  /** A clock that never goes back; each reading and each sleep may lag by an arbitrary amount. */
  class Clock {
    var now: real
    var lags: seq<nat>

    constructor (start: real, script: seq<nat>)
      ensures now == start
    {
      now, lags := start, script;
    }

    method Read() returns (t: real)
      modifies this
      ensures t == now && old(now) <= now
    {
      Sleep(0.0);
      t := now;
    }

    method Sleep(seconds: real)
      requires seconds >= 0.0
      modifies this
      ensures old(now) + seconds <= now
    {
      var lag := if lags == [] then 0 else lags[0];
      lags := if lags == [] then [] else lags[1..];
      now := now + seconds + lag as real;
    }
  }

  /** The upstream: the k-th call gets the k-th outcome of the script, and a transport error after its end. */
  class Wire {
    const script: seq<Outcome>
    var calls: nat

    constructor (script: seq<Outcome>)
      ensures calls == 0 && this.script == script
    {
      this.script := script;
      calls := 0;
    }

    function Reply(k: nat): Outcome { if k < |script| then script[k] else TransportError }

    method Request() returns (o: Outcome)
      modifies this
      ensures o == Reply(old(calls)) && calls == old(calls) + 1
    {
      o := Reply(calls);
      calls := calls + 1;
    }
  }

  datatype FetchError =
    | UnknownUpstream
    | SchemeNotAllowed
    | HostNotAllowed
    | BadMaxCacheAge
    | Upstream403
    | RetriesExhausted(last: Option<int>)
    | NegativeSleep

  datatype FetchResult = Fetched(response: Response, hit: bool) | Failed(error: FetchError)

  /** The refusals of `fetch` before it touches the cache or the upstream.  An override that is not a finite number
      is not a real number. */
  function Refusal(u: Upstream, req: Request): Option<FetchError> {
    if req.upstream != u.name then Some(UnknownUpstream)
    else if req.url.scheme != "https" then Some(SchemeNotAllowed)
    else if req.url.host !in u.allowedHosts then Some(HostNotAllowed)
    else if req.maxAge.Some? && !(0.0 <= req.maxAge.value <= MAX_CACHE_AGE_OVERRIDE) then Some(BadMaxCacheAge)
    else None
  }

  /** A request is let through exactly if it is for this upstream, over https, to an allowed host, with an override of
      at most an hour; and the first of these to fail is reported. */
  lemma UnrefusedIff(u: Upstream, req: Request)
    ensures Refusal(u, req).None? <==>
              && req.upstream == u.name && req.url.scheme == "https" && req.url.host in u.allowedHosts
              && (req.maxAge.Some? ==> 0.0 <= req.maxAge.value <= 3600.0)
    ensures req.upstream != u.name <==> Refusal(u, req) == Some(UnknownUpstream)
    ensures req.upstream == u.name && req.url.scheme != "https" <==> Refusal(u, req) == Some(SchemeNotAllowed)
    ensures req.upstream == u.name && req.url.scheme == "https" && req.url.host !in u.allowedHosts
            <==> Refusal(u, req) == Some(HostNotAllowed)
    ensures Refusal(u, req).Some? ==>
              Refusal(u, req).value in {UnknownUpstream, SchemeNotAllowed, HostNotAllowed, BadMaxCacheAge}
  {
  }

  /** The requests sent by one call of the retry loop, from call `first` on: all but the last were to be retried,
      and the last was final or used up the retries. */
  ghost predicate RetryRun(u: Upstream, wire: Wire, first: nat, calls: nat) {
    && 1 <= calls <= u.MaxCalls()
    && (forall k | first <= k < first + calls - 1 :: Judge(wire.Reply(k)).Retry?)
    && (!Judge(wire.Reply(first + calls - 1)).Retry? || calls == u.MaxCalls())
  }

  /** The requests sent before a pause check raised: all were to be retried, and retries were left. */
  ghost predicate Interrupted(u: Upstream, wire: Wire, first: nat, calls: nat) {
    calls < u.MaxCalls() && forall k | first <= k < first + calls :: Judge(wire.Reply(k)).Retry?
  }

  function RetryResult(last: Outcome): FetchResult {
    match Judge(last)
    case Return => Fetched(last.response, false)
    case Forbidden => Failed(Upstream403)
    case Retry(_) => Failed(RetriesExhausted(StatusOf(last)))
  }

  function Outcomes(wire: Wire, first: nat, calls: nat): (os: seq<Outcome>)
    ensures |os| == calls
  {
    seq(calls, k requires 0 <= k < calls => wire.Reply(first + k))
  }

  function RecordedStatuses(log: seq<Event>): (r: seq<int>)
    ensures |r| == |log|
  {
    seq(|log|, i requires 0 <= i < |log| => log[i].status)
  }

  lemma OneMoreStatus(wire: Wire, first: nat, n: nat)
    ensures Statuses(Outcomes(wire, first, 0)) == []
    ensures var o := wire.Reply(first + n);
            Statuses(Outcomes(wire, first, n + 1))
            == Statuses(Outcomes(wire, first, n)) + if o.Answered? then [o.response.status] else []
  {
    var os := Outcomes(wire, first, n + 1);
    assert os[..n] == Outcomes(wire, first, n) && os[n] == wire.Reply(first + n);
  }

  /** What one call of the retry loop returns for the requests it sent. */
  ghost predicate Returns(u: Upstream, wire: Wire, first: nat, calls: nat, result: FetchResult) {
    if result == Failed(NegativeSleep) then Interrupted(u, wire, first, calls)
    else RetryRun(u, wire, first, calls) && result == RetryResult(wire.Reply(first + calls - 1))
  }

  /** The loop ends with a final answer, out of retries, or in a raising pause check. */
  lemma LoopEnds(u: Upstream, wire: Wire, first: nat, n: nat)
    requires n < u.MaxCalls() && forall k | first <= k < first + n :: Judge(wire.Reply(k)).Retry?
    ensures ByStatus(u, wire, first, n, Failed(NegativeSleep))
    ensures !Judge(wire.Reply(first + n)).Retry? || n + 1 == u.MaxCalls() ==>
              ByStatus(u, wire, first, n + 1, RetryResult(wire.Reply(first + n)))
  {
    FetchedIsDefinitive(wire.Reply(first + n));
    assert Returns(u, wire, first, n, Failed(NegativeSleep));
    ReturnsByStatus(u, wire, first, n, Failed(NegativeSleep));
    if !Judge(wire.Reply(first + n)).Retry? || n + 1 == u.MaxCalls() {
      ReturnsByStatus(u, wire, first, n + 1, RetryResult(wire.Reply(first + n)));
    }
  }

  /** The same, read off the answers: a call is repeated after a transport error, a 429 or a status of 500 and more;
      any other status but 403 is returned as it is. */
  ghost predicate ByStatus(u: Upstream, wire: Wire, first: nat, calls: nat, result: FetchResult) {
    var most := if u.maxRetries < 0 then 1 else u.maxRetries + 1;
    && calls <= most
    && (forall k | first <= k < first + calls - 1 :: Repeatable(wire.Reply(k)))
    && if result == Failed(NegativeSleep)
       then calls < most && (calls > 0 ==> Repeatable(wire.Reply(first + calls - 1)))
       else
         && calls > 0
         && match wire.Reply(first + calls - 1)
            case TransportError => result == Failed(RetriesExhausted(None)) && calls == most
            case Answered(r) =>
              if r.status == 403 then result == Failed(Upstream403)
              else if r.status == 429 || r.status >= 500
              then result == Failed(RetriesExhausted(Some(r.status))) && calls == most
              else result == Fetched(r, false)
  }

  predicate Repeatable(o: Outcome) { o.TransportError? || o.response.status == 429 || o.response.status >= 500 }

  lemma ReturnsByStatus(u: Upstream, wire: Wire, first: nat, calls: nat, result: FetchResult)
    requires Returns(u, wire, first, calls, result)
    ensures ByStatus(u, wire, first, calls, result)
  {
  }

  /** How many of the statuses tell the gateway to slow down. */
  function Throttled(statuses: seq<int>): nat {
    if statuses == [] then 0
    else Throttled(statuses[..|statuses| - 1]) + if statuses[|statuses| - 1] in {429, 503} then 1 else 0
  }

  lemma ThrottledAppend(statuses: seq<int>, status: int)
    ensures Throttled(statuses + [status]) == Throttled(statuses) + if status in {429, 503} then 1 else 0
  {
    assert (statuses + [status])[..|statuses|] == statuses;
  }

  lemma RecordedAppend(log: seq<Event>, e: Event)
    ensures RecordedStatuses(log + [e]) == RecordedStatuses(log) + [e.status]
  {
  }

  lemma FetchedIsDefinitive(last: Outcome)
    ensures var r := RetryResult(last);
            && r != Failed(NegativeSleep)
            && (r.Fetched? ==>
                  !r.hit && r.response.status < 500 && r.response.status !in {403, 429} && last == Answered(r.response))
  {
  }

  /** A call that was made: for which request, when it left, and the pause deadline read before it. */
  datatype Call = Call(req: Request, sentAt: real, deadline: Option<real>)

  /** From call `first` on, every call left no earlier than the one before it plus the next entry of the backoff table,
      whose last entry repeats. */
  ghost predicate BackedOff(u: Upstream, made: seq<Call>, first: nat)
    requires u.backoff != []
  {
    forall k | first < k < |made| ::
      var step := k - first - 1;
      made[k].sentAt >= made[k - 1].sentAt + if step < |u.backoff| then u.backoff[step] else u.backoff[|u.backoff| - 1]
  }

  lemma NoCallYet(u: Upstream, made: seq<Call>)
    requires u.backoff != []
    ensures BackedOff(u, made, |made|)
  {
  }

  lemma OneMoreCall(u: Upstream, made: seq<Call>, call: Call, first: nat)
    requires u.backoff != [] && BackedOff(u, made, first)
    requires first < |made| ==> call.sentAt >= made[|made| - 1].sentAt + u.Backoff(|made| - first)
    ensures BackedOff(u, made + [call], first)
  {
  }

  /** Call k was made for a request with this key, may be cached, left before the entry was stored, and was answered
      200 with the entry's response. */
  ghost predicate Behind(u: Upstream, wire: Wire, made: seq<Call>, k: nat, key: string, entry: Entry) {
    && k < |made| && made[k].req.upstream == u.name && MayCache(u, made[k].req) && made[k].req.CacheKey() == key
    && made[k].sentAt <= entry.storedAt
    && wire.Reply(k) == Answered(entry.response) && entry.response.status == 200
  }

  /** Every cache entry is the answer to an earlier call for its key. */
  ghost predicate Grounded(u: Upstream, wire: Wire, made: seq<Call>, entries: map<string, Entry>, now: real) {
    forall key | key in entries ::
      entries[key].storedAt <= now && exists k :: Behind(u, wire, made, k, key, entries[key])
  }

  lemma StaysGrounded(
      u: Upstream, wire: Wire, made: seq<Call>, more: seq<Call>, entries: map<string, Entry>, now: real, later: real)
    requires Grounded(u, wire, made, entries, now) && made <= more && now <= later
    ensures Grounded(u, wire, more, entries, later)
  {
    hide MayCache;
    forall key | key in entries ensures exists k :: Behind(u, wire, more, k, key, entries[key]) {
      var k :| Behind(u, wire, made, k, key, entries[key]);
      assert Behind(u, wire, more, k, key, entries[key]);
    }
  }

  lemma PutIsGrounded(
      u: Upstream, wire: Wire, made: seq<Call>, entries: map<string, Entry>, now: real, response: Response)
    requires Grounded(u, wire, made, entries, now) && made != []
    requires var call := made[|made| - 1]; call.req.upstream == u.name && MayCache(u, call.req) && call.sentAt <= now
    requires wire.Reply(|made| - 1) == Answered(response) && response.status == 200
    ensures Grounded(u, wire, made, entries[made[|made| - 1].req.CacheKey() := Entry(response, now)], now)
  {
    hide MayCache;
    assert Behind(u, wire, made, |made| - 1, made[|made| - 1].req.CacheKey(), Entry(response, now));
  }

  class Gateway {
    const u: Upstream
    const bucket: TokenBucket
    const metrics: UpstreamMetrics
    const cache: ResponseCache
    const clock: Clock
    const wire: Wire
    ghost var made: seq<Call>

    ghost predicate Valid()
      reads this, bucket, metrics, cache, clock, wire
    {
      && u.Valid() && bucket.Valid() && metrics.Valid()
      && bucket.updated <= clock.now && 0.0 <= clock.now
      && |made| == wire.calls == |bucket.arrivals|
      && Grounded(u, wire, made, cache.entries, clock.now)
      && metrics.pauses == Throttled(RecordedStatuses(metrics.log))
      && (forall k | 0 <= k < |made| :: bucket.releases[k] <= made[k].sentAt <= clock.now)
      && (u.pauseS <= 120.0 ==> metrics.globalPauseUntil.Some? ==>
            metrics.globalPauseUntil.value <= clock.now + u.pauseS)
      && (u.pauseS <= 120.0 ==> forall k | 0 <= k < |made| && made[k].deadline.Some? ::
            made[k].deadline.value <= made[k].sentAt)
    }

    constructor (u: Upstream, clock: Clock, wire: Wire)
      requires u.Valid() && wire.calls == 0 && clock.now >= 0.0
      ensures Valid() && fresh(bucket) && fresh(metrics) && fresh(cache)
      ensures this.u == u && this.clock == clock && this.wire == wire
    {
      this.u, this.clock, this.wire := u, clock, wire;
      bucket := new TokenBucket(u.limits.rate, u.limits.capacity, clock.now);
      metrics := new UpstreamMetrics(60.0);
      cache := new ResponseCache();
      made := [];
    }

    /** The retry loop: a pause check and one token before every call. */
    method RequestWithRetry(ghost req: Request) returns (result: FetchResult)
      requires Valid()
      modifies this`made, bucket, metrics, clock, wire
      ensures Valid() && old(clock.now) <= clock.now
      ensures metrics.cacheHits == old(metrics.cacheHits) && metrics.cacheMisses == old(metrics.cacheMisses)
      ensures old(wire.calls) <= wire.calls && !(result.Fetched? && result.hit)
      ensures var first, calls := old(wire.calls), wire.calls - old(wire.calls);
              && |bucket.arrivals| == |old(bucket.arrivals)| + calls && old(made) <= made
              && RecordedStatuses(metrics.log)
                 == RecordedStatuses(old(metrics.log)) + Statuses(Outcomes(wire, first, calls))
              && ByStatus(u, wire, first, calls, result)
      ensures BackedOff(u, made, |old(made)|)
      ensures result == Failed(NegativeSleep) ==> metrics.globalPauseUntil.Some?
      ensures result.Fetched? ==>
                && wire.calls > 0 && made[|made| - 1].req == req
                && wire.Reply(wire.calls - 1) == Answered(result.response)
                && result.response.status < 500 && result.response.status !in {403, 429}
    {
      hide Grounded, Outcomes, Statuses, RecordedStatuses, Judge, RetryResult, ByStatus, Throttled, IsLevel, IsRelease,
        Kept, Occurrences, Sum, BackedOff, Valid;
      ghost var first, before := wire.calls, RecordedStatuses(metrics.log);
      CallsAreCounted();
      OneMoreStatus(wire, first, 0);
      NoCallYet(u, made);
      var attempt := 0;
      while true
        invariant Valid() && old(clock.now) <= clock.now
        invariant 0 <= attempt < u.MaxCalls() && |made| == wire.calls == first + attempt
        invariant forall k | first <= k < first + attempt :: Judge(wire.Reply(k)).Retry?
        invariant |bucket.arrivals| == |old(bucket.arrivals)| + attempt && old(made) <= made
        invariant BackedOff(u, made, |old(made)|)
        invariant attempt > 0 ==> clock.now >= made[|made| - 1].sentAt + u.Backoff(attempt)
        invariant RecordedStatuses(metrics.log) == before + Statuses(Outcomes(wire, first, attempt))
        invariant metrics.cacheHits == old(metrics.cacheHits) && metrics.cacheMisses == old(metrics.cacheMisses)
        decreases u.MaxCalls() - attempt
      {
        LoopEnds(u, wire, first, attempt);
        ghost var earlier := made;
        var sent := Attempt(req);
        if sent.None? {
          return Failed(NegativeSleep);
        }
        var outcome := sent.value;
        OneMoreCall(u, earlier, made[|made| - 1], |old(made)|);
        OneMoreStatus(wire, first, attempt);
        FetchedIsDefinitive(outcome);
        if !Judge(outcome).Retry? {
          return RetryResult(outcome);
        }
        attempt := attempt + 1;
        if attempt > u.maxRetries {
          return RetryResult(outcome);
        }
        BackOff(attempt);
      }
    }

    lemma CallsAreCounted()
      requires Valid()
      ensures u.Valid() && |made| == wire.calls
    {
    }

    /** The sleep before the next attempt. */
    method BackOff(attempt: nat)
      requires Valid() && attempt > 0
      modifies clock
      ensures Valid() && old(clock.now) + u.Backoff(attempt) <= clock.now
    {
      hide Grounded, Throttled, RecordedStatuses, IsLevel, IsRelease, Kept, Occurrences, Sum;
      clock.Sleep(u.Backoff(attempt));
      StaysGrounded(u, wire, made, made, cache.entries, old(clock.now), clock.now);
    }

    /** One attempt: a request, if the pause check lets it go, and what its outcome leaves behind. */
    method Attempt(ghost req: Request) returns (outcome: Option<Outcome>)
      requires Valid()
      modifies this`made, bucket, metrics, clock, wire
      ensures Valid() && old(clock.now) <= clock.now
      ensures metrics.cacheHits == old(metrics.cacheHits) && metrics.cacheMisses == old(metrics.cacheMisses)
      ensures outcome.None? ==>
                && wire.calls == old(wire.calls) && |bucket.arrivals| == |old(bucket.arrivals)| && made == old(made)
                && metrics.globalPauseUntil.Some? && RecordedStatuses(metrics.log) == RecordedStatuses(old(metrics.log))
      ensures outcome.Some? ==>
                && wire.calls == old(wire.calls) + 1 && outcome.value == wire.Reply(old(wire.calls))
                && |bucket.arrivals| == |old(bucket.arrivals)| + 1
                && made == old(made) + [made[|made| - 1]] && made[|made| - 1].req == req
                && old(clock.now) <= made[|made| - 1].sentAt <= clock.now
                && RecordedStatuses(metrics.log)
                   == RecordedStatuses(old(metrics.log))
                      + if outcome.value.Answered? then [outcome.value.response.status] else []
    {
      hide Grounded, Throttled, RecordedStatuses, IsLevel, IsRelease, Kept, Occurrences, Sum;
      outcome := SendOnce(req);
      if outcome.Some? {
        Settle(outcome.value);
      }
    }

    /** An answer is recorded, and a 429 or 503 pauses the upstream. */
    method Settle(outcome: Outcome)
      requires Valid()
      modifies metrics, clock
      ensures Valid() && old(clock.now) <= clock.now
      ensures RecordedStatuses(metrics.log)
              == RecordedStatuses(old(metrics.log)) + if outcome.Answered? then [outcome.response.status] else []
      ensures metrics.cacheHits == old(metrics.cacheHits) && metrics.cacheMisses == old(metrics.cacheMisses)
      ensures if outcome.Answered? && outcome.response.status in {429, 503}
              then metrics.globalPauseUntil.Some? && old(clock.now) + u.pauseS <= metrics.globalPauseUntil.value
              else metrics.globalPauseUntil == old(metrics.globalPauseUntil)
    {
      hide Grounded, RecordedStatuses, Throttled, IsLevel, IsRelease, Kept, Occurrences, Sum;
      if outcome.Answered? {
        var recordedAt := clock.Read();
        ThrottledAppend(RecordedStatuses(metrics.log), outcome.response.status);
        RecordedAppend(metrics.log, Event(recordedAt, outcome.response.status));
        metrics.Record(outcome.response.status, recordedAt);
      }
      if Judge(outcome) == Retry(true) {
        var pausedAt := clock.Read();
        metrics.Pause(u.pauseS, pausedAt);
      }
      StaysGrounded(u, wire, made, made, cache.entries, old(clock.now), clock.now);
    }

    /** The deadline is waited for if the clock has not reached it; should the clock pass it between that comparison
        and the reading that computes the sleep, the sleep is negative and raises. */
    method RespectPause() returns (raised: bool)
      requires Valid()
      modifies clock
      ensures Valid() && old(clock.now) <= clock.now
      ensures raised ==> metrics.globalPauseUntil.Some? && old(clock.now) < metrics.globalPauseUntil.value < clock.now
      ensures !raised && u.pauseS <= 120.0 && metrics.globalPauseUntil.Some? ==>
                metrics.globalPauseUntil.value <= clock.now
    {
      hide Grounded, Throttled, RecordedStatuses, IsLevel, IsRelease, Kept, Occurrences, Sum;
      raised := false;
      var pause := metrics.globalPauseUntil;
      if pause.Some? {
        var comparedAt := clock.Read();
        if pause.value > comparedAt {
          var readAt := clock.Read();
          var wait := Min(pause.value - readAt, MAX_PAUSE_WAIT);
          if wait < 0.0 {
            raised := true;
          } else {
            clock.Sleep(wait);
          }
        }
      }
      StaysGrounded(u, wire, made, made, cache.entries, old(clock.now), clock.now);
    }

    /** One pause check, one token, one request; nothing is sent if the pause check raises. */
    method SendOnce(ghost req: Request) returns (outcome: Option<Outcome>)
      requires Valid()
      modifies this`made, bucket, clock, wire
      ensures Valid() && old(clock.now) <= clock.now
      ensures outcome.None? ==>
                && wire.calls == old(wire.calls) && |bucket.arrivals| == |old(bucket.arrivals)| && made == old(made)
                && metrics.globalPauseUntil.Some? && old(clock.now) < metrics.globalPauseUntil.value < clock.now
      ensures outcome.Some? ==>
                && wire.calls == old(wire.calls) + 1 && outcome.value == wire.Reply(old(wire.calls))
                && |bucket.arrivals| == |old(bucket.arrivals)| + 1
                && made == old(made) + [Call(req, clock.now, metrics.globalPauseUntil)]
    {
      hide Grounded, Throttled, RecordedStatuses, IsLevel, IsRelease, Kept, Occurrences, Sum;
      var raised := RespectPause();
      if raised {
        return None;
      }
      ghost var checkedAt := clock.now;
      var acquiredAt := clock.Read();
      var wait := bucket.Acquire(acquiredAt);
      clock.Sleep(wait);
      ghost var call := Call(req, clock.now, metrics.globalPauseUntil);
      StaysGrounded(u, wire, made, made + [call], cache.entries, checkedAt, clock.now);
      made := made + [call];
      var reply := wire.Request();
      return Some(reply);
    }

    /** A hit makes no call and repeats the 200 of an earlier call for its key; a miss makes one retry run, and a
        fresh 200 to a cacheable request is stored. */
    method Fetch(req: Request) returns (result: FetchResult)
      requires Valid()
      modifies this`made, bucket, metrics, cache, clock, wire
      ensures Valid()
      ensures Refusal(u, req).Some? ==>
                && result == Failed(Refusal(u, req).value)
                && wire.calls == old(wire.calls) && cache.entries == old(cache.entries)
      ensures wire.calls > old(wire.calls) || result.Fetched? ==>
                && req.upstream == u.name && req.url.scheme == "https" && req.url.host in u.allowedHosts
                && (req.maxAge.Some? ==> 0.0 <= req.maxAge.value <= 3600.0)
      ensures result.Fetched? && result.hit ==>
                && wire.calls == old(wire.calls) && cache.entries == old(cache.entries)
                && MayCache(u, req) && TtlOf(u, req) > 0.0 && req.CacheKey() in cache.entries
                && var entry := cache.entries[req.CacheKey()];
                   && result.response == entry.response && clock.now - entry.storedAt <= TtlOf(u, req)
                   && exists k :: Behind(u, wire, made, k, req.CacheKey(), entry)
      ensures Refusal(u, req).None? && !(result.Fetched? && result.hit) ==>
                && old(wire.calls) <= wire.calls
                && ByStatus(u, wire, old(wire.calls), wire.calls - old(wire.calls), result)
                && if MayCache(u, req) && result.Fetched? && result.response.status == 200
                   then cache.entries == old(cache.entries)[req.CacheKey() := Entry(result.response, clock.now)]
                   else cache.entries == old(cache.entries)
      ensures result.Fetched? && !result.hit ==> result.response.status < 500 && result.response.status !in {403, 429}
      ensures metrics.cacheHits - old(metrics.cacheHits) == if result.Fetched? && result.hit then 1 else 0
      ensures metrics.cacheMisses - old(metrics.cacheMisses) ==
              if Refusal(u, req).None? && MayCache(u, req) && !(result.Fetched? && result.hit) then 1 else 0
    {
      UnrefusedIff(u, req);
      hide Grounded, Request.CacheKey, TtlOf, Refusal, MayCache, ByStatus, Throttled, RecordedStatuses, Judge,
        IsLevel, IsRelease, Kept, Occurrences, Sum;
      if Refusal(u, req).Some? {
        return Failed(Refusal(u, req).value);
      }
      var ttl := TtlOf(u, req);
      var cacheable := MayCache(u, req);
      var key := req.CacheKey();
      if cacheable {
        var readAt := clock.Read();
        StaysGrounded(u, wire, made, made, cache.entries, old(clock.now), clock.now);
        var cached := cache.Get(key, ttl, readAt);
        if cached.Some? {
          metrics.CacheHit();
          EntryIsGrounded(key);
          return Fetched(cached.value.response, true);
        }
        metrics.CacheMiss();
      }
      result := FetchFresh(req);
    }

    /** One retry run, whose 200 to a cacheable request is stored. */
    method FetchFresh(req: Request) returns (result: FetchResult)
      requires Valid() && req.upstream == u.name
      modifies this`made, bucket, metrics, cache, clock, wire
      ensures Valid() && old(wire.calls) <= wire.calls
      ensures metrics.cacheHits == old(metrics.cacheHits) && metrics.cacheMisses == old(metrics.cacheMisses)
      ensures ByStatus(u, wire, old(wire.calls), wire.calls - old(wire.calls), result)
      ensures result.Fetched? ==> !result.hit && result.response.status < 500 && result.response.status !in {403, 429}
      ensures cache.entries ==
              if MayCache(u, req) && result.Fetched? && result.response.status == 200
              then old(cache.entries)[req.CacheKey() := Entry(result.response, clock.now)]
              else old(cache.entries)
    {
      hide Grounded, Request.CacheKey, MayCache, ByStatus, Throttled, RecordedStatuses, Judge, IsLevel, IsRelease, Kept;
      hide Occurrences, Sum;
      result := RequestWithRetry(req);
      if MayCache(u, req) && result.Fetched? && result.response.status == 200 {
        ghost var answeredAt := clock.now;
        var storedAt := clock.Read();
        StaysGrounded(u, wire, made, made, cache.entries, answeredAt, clock.now);
        PutIsGrounded(u, wire, made, cache.entries, storedAt, result.response);
        cache.Put(req.CacheKey(), result.response, storedAt);
      }
    }

    lemma EntryIsGrounded(key: string)
      requires Grounded(u, wire, made, cache.entries, clock.now) && key in cache.entries
      ensures exists k :: Behind(u, wire, made, k, key, cache.entries[key])
    {
    }
  }
}
