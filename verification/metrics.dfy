/** Request metrics and the global pause of one upstream (rate-guard/app/metrics.py). */
module Metrics {
  import opened Prelude
  import opened Upstreams

  const MAX_EVENTS := 5000

  datatype Event = Event(at: real, status: int)

  ghost function Pick<T>(s: set<T>): (r: T)
    requires s != {}
    ensures r in s
  {
    var k :| k in s; k
  }

  /** The counts of all statuses together. */
  ghost function Sum(m: map<int, nat>): nat
    decreases m.Keys
  {
    if m.Keys == {} then 0 else var k := Pick(m.Keys); m[k] + Sum(m - {k})
  }

  lemma {:induction false} SumWithout(m: map<int, nat>, k: int)
    requires k in m
    ensures Sum(m) == m[k] + Sum(m - {k})
    decreases m.Keys
  {
    var x := Pick(m.Keys);
    if x != k {
      SumWithout(m - {x}, k);
      SumWithout(m - {k}, x);
      assert m - {x} - {k} == m - {k} - {x};
    }
  }

  /** Counting one more status adds one to the sum. */
  lemma SumAfterCount(m: map<int, nat>, k: int)
    ensures Sum(m[k := (if k in m then m[k] else 0) + 1]) == Sum(m) + 1
  {
    var after := m[k := (if k in m then m[k] else 0) + 1];
    SumWithout(after, k);
    if k in m {
      SumWithout(m, k);
      assert after - {k} == m - {k};
    } else {
      assert after - {k} == m;
    }
  }

  function Occurrences(log: seq<Event>, status: int): nat {
    if log == [] then 0 else Occurrences(log[..|log| - 1], status) + if log[|log| - 1].status == status then 1 else 0
  }

  /** The deque keeps the last MAX_EVENTS events. */
  function Kept(log: seq<Event>): seq<Event> { if |log| <= MAX_EVENTS then log else log[|log| - MAX_EVENTS..] }

  lemma AppendKeepsLast(log: seq<Event>, e: Event)
    ensures var appended := Kept(log) + [e];
            Kept(log + [e]) == if |appended| <= MAX_EVENTS then appended else appended[|appended| - MAX_EVENTS..]
  {
  }

  lemma AppendCounts(log: seq<Event>, e: Event)
    ensures forall s :: Occurrences(log + [e], s) == Occurrences(log, s) + if s == e.status then 1 else 0
  {
    assert (log + [e])[..|log|] == log;
  }

  function Since(events: seq<Event>, cutoff: real): nat {
    if events == [] then 0
    else Since(events[..|events| - 1], cutoff) + if events[|events| - 1].at >= cutoff then 1 else 0
  }

  ghost predicate InOrder(log: seq<Event>) { forall i, j | 0 <= i < j < |log| :: log[i].at <= log[j].at }

  lemma {:induction false} SinceSplit(log: seq<Event>, j: nat, cutoff: real)
    requires j <= |log|
    ensures Since(log, cutoff) == Since(log[..j], cutoff) + Since(log[j..], cutoff)
  {
    if j < |log| {
      var init := log[..|log| - 1];
      SinceSplit(init, j, cutoff);
      assert init[..j] == log[..j] && init[j..] == log[j..][..|log| - j - 1];
    } else {
      assert log[..j] == log;
    }
  }

  lemma {:induction false} AllSince(log: seq<Event>, cutoff: real)
    ensures Since(log, cutoff) <= |log|
    ensures (forall k | 0 <= k < |log| :: log[k].at >= cutoff) ==> Since(log, cutoff) == |log|
    ensures (forall k | 0 <= k < |log| :: log[k].at < cutoff) ==> Since(log, cutoff) == 0
  {
    if log != [] { AllSince(log[..|log| - 1], cutoff); }
  }

  /** With a clock that does not go back, the recent count is exact up to the deque's capacity. */
  lemma RecentCountIsExact(log: seq<Event>, cutoff: real)
    requires InOrder(log)
    ensures Since(Kept(log), cutoff) == if Since(log, cutoff) <= 5000 then Since(log, cutoff) else 5000
  {
    var j := if |log| <= MAX_EVENTS then 0 else |log| - MAX_EVENTS;
    assert log[0..] == log;
    SinceSplit(log, j, cutoff);
    AllSince(log[..j], cutoff);
    AllSince(log[j..], cutoff);
    if j < |log| && log[j].at < cutoff {
      assert forall k | 0 <= k < j :: log[k].at <= log[j].at;
    }
  }

  class UpstreamMetrics {
    const window: real
    var events: seq<Event>
    var globalPauseUntil: Option<real>
    var cacheHits: nat
    var cacheMisses: nat
    var totalRequestCount: nat
    var totalStatusCounts: map<int, nat>
    /** Everything ever recorded, and how often a pause was. */
    ghost var log: seq<Event>
    ghost var pauses: nat

    /** The total is the number of recorded requests and the sum of the status counts. */
    ghost predicate Valid()
      reads this
    {
      && events == Kept(log)
      && totalRequestCount == |log| == Sum(totalStatusCounts)
      && forall s :: (if s in totalStatusCounts then totalStatusCounts[s] else 0) == Occurrences(log, s)
    }

    constructor (windowS: real)
      ensures Valid() && log == [] && globalPauseUntil == None && cacheHits == cacheMisses == pauses == 0
    {
      window := windowS;
      events, globalPauseUntil, cacheHits, cacheMisses := [], None, 0, 0;
      totalRequestCount, totalStatusCounts := 0, map[];
      log, pauses := [], 0;
    }

    method Record(status: int, now: real)
      requires Valid()
      modifies this
      ensures Valid()
      ensures log == old(log) + [Event(now, status)]
      ensures globalPauseUntil == old(globalPauseUntil) && cacheHits == old(cacheHits)
              && cacheMisses == old(cacheMisses) && pauses == old(pauses)
    {
      hide Sum, Occurrences, Kept, Since;
      SumAfterCount(totalStatusCounts, status);
      AppendKeepsLast(log, Event(now, status));
      AppendCounts(log, Event(now, status));
      var appended := events + [Event(now, status)];
      events := if |appended| <= MAX_EVENTS then appended else appended[|appended| - MAX_EVENTS..];
      totalRequestCount := totalRequestCount + 1;
      totalStatusCounts := totalStatusCounts[status :=
        (if status in totalStatusCounts then totalStatusCounts[status] else 0) + 1];
      log := log + [Event(now, status)];
    }

    method CacheHit()
      requires Valid()
      modifies this`cacheHits
      ensures Valid() && cacheHits == old(cacheHits) + 1
    {
      cacheHits := cacheHits + 1;
    }

    method CacheMiss()
      requires Valid()
      modifies this`cacheMisses
      ensures Valid() && cacheMisses == old(cacheMisses) + 1
    {
      cacheMisses := cacheMisses + 1;
    }

    /** A pause never shortens the one in force, and lasts at least as long as asked. */
    method Pause(seconds: real, now: real)
      requires Valid()
      modifies this`globalPauseUntil, this`pauses
      ensures Valid() && pauses == old(pauses) + 1
      ensures globalPauseUntil == Some(Extended(old(globalPauseUntil), now, seconds))
      ensures old(globalPauseUntil).Some? ==> old(globalPauseUntil).value <= globalPauseUntil.value
      ensures now + seconds <= globalPauseUntil.value
    {
      var inForce := if globalPauseUntil.Some? then globalPauseUntil.value else 0.0;
      globalPauseUntil := Some(Max(inForce, now + seconds));
      pauses := pauses + 1;
    }

    /** The recent count of a snapshot; if the clock never went back, it is exact while no more than MAX_EVENTS
        requests fall into the window. */
    method RecentRequestCount(now: real) returns (recent: nat)
      requires Valid()
      ensures recent == Since(Kept(log), now - window)
      ensures InOrder(log) ==>
                recent == if Since(log, now - window) <= MAX_EVENTS then Since(log, now - window) else MAX_EVENTS
    {
      var cutoff := now - window;
      recent := 0;
      for i := 0 to |events|
        invariant recent == Since(events[..i], cutoff)
      {
        assert events[..i + 1][..i] == events[..i];
        if events[i].at >= cutoff {
          recent := recent + 1;
        }
      }
      assert events[..|events|] == events;
      if InOrder(log) {
        RecentCountIsExact(log, cutoff);
      }
    }
  }
}
