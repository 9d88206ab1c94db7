/** Per-upstream configuration and the outcome of one upstream call (rate-guard/app/config.py, gateway.py). */
module Upstreams {
  import opened Prelude
  import opened TokenBuckets

  datatype Upstream = Upstream(
    name: string, allowedHosts: set<string>, limits: Limits, maxRetries: int, backoff: seq<real>, pauseS: real,
    cacheTtl: real, cacheLongPrefixes: seq<string>, cacheLongTtl: real)
  {
    /** A retry indexes the backoff table, which must not be empty; sleeps are not negative. */
    ghost predicate Valid() {
      && backoff != [] && (forall k | 0 <= k < |backoff| :: backoff[k] >= 0.0)
      && pauseS >= 0.0
    }

    /** At least one call is made, whatever max_retries says. */
    function MaxCalls(): nat { if maxRetries < 0 then 1 else maxRetries + 1 }

    function Backoff(attempt: int): real
      requires attempt >= 1 && backoff != []
    {
      backoff[if attempt - 1 <= |backoff| - 1 then attempt - 1 else |backoff| - 1]
    }
  }

  /** The response body stands for its base64 text, which encodes it one to one. */
  datatype Response = Response(status: int, headers: map<string, string>, body: string)

  datatype Outcome = TransportError | Answered(response: Response)

  datatype Verdict = Return | Forbidden | Retry(pause: bool)

  function Judge(o: Outcome): Verdict {
    match o
    case TransportError => Retry(false)
    case Answered(r) =>
      if r.status == 403 then Forbidden
      else if r.status == 429 || r.status == 503 then Retry(true)
      else if r.status < 500 then Return
      else Retry(false)
  }

  function StatusOf(o: Outcome): Option<int> { if o.Answered? then Some(o.response.status) else None }

  /** The statuses that are recorded for a sequence of outcomes. */
  function Statuses(os: seq<Outcome>): seq<int> {
    if os == [] then []
    else Statuses(os[..|os| - 1]) + if os[|os| - 1].Answered? then [os[|os| - 1].response.status] else []
  }

  const MAX_PAUSE_WAIT := 120.0
  const MAX_CACHE_AGE_OVERRIDE := 3600.0

  /** How long a pause check waits that finds this deadline and reads this clock both times. */
  function PauseWait(pauseUntil: Option<real>, now: real): (wait: real)
    ensures wait >= 0.0
  {
    if pauseUntil.Some? && pauseUntil.value > now then Min(pauseUntil.value - now, MAX_PAUSE_WAIT) else 0.0
  }

  function Extended(pauseUntil: Option<real>, now: real, seconds: real): real {
    Max(if pauseUntil.Some? then pauseUntil.value else 0.0, now + seconds)
  }

  predicate StartsWith(path: string, prefix: string) { |prefix| <= |path| && path[..|prefix|] == prefix }

  function ConfiguredTtl(u: Upstream, path: string): real {
    if exists k | 0 <= k < |u.cacheLongPrefixes| :: StartsWith(path, u.cacheLongPrefixes[k])
    then u.cacheLongTtl
    else u.cacheTtl
  }
}
