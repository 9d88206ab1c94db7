/** The reservation token bucket of rate-guard/app/bucket.py.

    Time is a real number read from a monotonic clock inside the lock, so the locked sections of any
    interleaving of callers form one sequence of arrivals.  A caller is released at `now + wait`; it sleeps
    outside the lock, so it sends at its release instant or later. */
module TokenBuckets {
  import opened Prelude

  datatype Limits = Limits(rate: real, capacity: nat) {
    ghost predicate Positive() { rate > 0.0 && capacity >= 1 }
  }

  /** Tokens added in `dt` seconds. */
  function Refill(l: Limits, dt: real): real { l.rate * dt }

  lemma RefillSum(l: Limits, x: real, y: real, z: real)
    ensures Refill(l, z - x) == Refill(l, y - x) + Refill(l, z - y)
  {
  }

  /** Refilling is strictly increasing, so it can be compared instead of time. */
  lemma RefillOrder(l: Limits, x: real, y: real)
    requires l.Positive()
    ensures x <= y <==> Refill(l, x) <= Refill(l, y)
    ensures x == 0.0 ==> Refill(l, x) == 0.0
  {
    if x < y {
      assert 0.0 < l.rate * (y - x);
    } else {
      assert 0.0 <= l.rate * (x - y);
    }
  }

  /** Refills that callers k..i need beyond the burst when the bucket is full at k's arrival. */
  function Deficit(l: Limits, k: int, i: int): real { (i - k + 1 - l.capacity) as real }

  /** `x` is neither before caller i's own arrival nor before the refills that callers k..i need. */
  ghost predicate Allowed(l: Limits, arrivals: seq<real>, i: nat, x: real)
    requires i < |arrivals|
  {
    && arrivals[i] <= x
    && forall k | 0 <= k <= i :: Deficit(l, k, i) <= Refill(l, x - arrivals[k])
  }

  /** `x` is the least allowed instant: max(a_i, max over k <= i of a_k + (i-k+1-capacity)/rate). */
  ghost predicate IsRelease(l: Limits, arrivals: seq<real>, i: nat, x: real)
    requires i < |arrivals|
  {
    && Allowed(l, arrivals, i, x)
    && (x == arrivals[i] || exists k :: 0 <= k <= i && Refill(l, x - arrivals[k]) == Deficit(l, k, i))
  }

  ghost predicate IsSchedule(l: Limits, arrivals: seq<real>, releases: seq<real>) {
    && |arrivals| == |releases|
    && NonDecreasing(arrivals)
    && forall i | 0 <= i < |arrivals| :: IsRelease(l, arrivals, i, releases[i])
  }

  /** Tokens left at instant t if the bucket was full just before caller k arrived and nothing overflowed since. */
  function LevelSince(l: Limits, arrivals: seq<real>, k: nat, t: real): real
    requires k < |arrivals|
  {
    Refill(l, t - arrivals[k]) - Deficit(l, k, |arrivals| - 1)
  }

  ghost predicate IsLevel(l: Limits, arrivals: seq<real>, t: real, tokens: real) {
    && (forall k | 0 <= k < |arrivals| :: tokens <= LevelSince(l, arrivals, k, t))
    && (if arrivals == [] then tokens == l.capacity as real
        else exists k :: 0 <= k < |arrivals| && tokens == LevelSince(l, arrivals, k, t))
  }

  class TokenBucket {
    const limits: Limits
    var tokens: real
    var updated: real
    ghost var arrivals: seq<real>
    ghost var releases: seq<real>

    ghost predicate Valid()
      reads this
    {
      && limits.Positive()
      && IsSchedule(limits, arrivals, releases)
      && IsLevel(limits, arrivals, updated, tokens)
      && (arrivals != [] ==> updated == arrivals[|arrivals| - 1])
    }

    constructor (ratePerSec: real, burst: int, now: real)
      ensures Valid()
      ensures limits.rate == Max(ratePerSec, 0.001) && limits.capacity as int == if burst >= 1 then burst else 1
      ensures arrivals == releases == [] && updated == now
    {
      limits := Limits(Max(ratePerSec, 0.001), if burst >= 1 then burst else 1);
      tokens := (if burst >= 1 then burst else 1) as real;
      updated := now;
      arrivals, releases := [], [];
    }

    /** The locked section of `acquire`; the caller then sleeps for `wait`. */
    method Acquire(now: real) returns (wait: real)
      requires Valid() && updated <= now
      modifies this
      ensures Valid()
      ensures 0.0 <= wait
      ensures updated == now
      ensures arrivals == old(arrivals) + [now] && releases == old(releases) + [now + wait]
    {
      hide Refill, IsRelease, IsSchedule, IsLevel;
      ScheduleIsOrdered(limits, arrivals, releases);
      ghost var level, since := tokens, updated;
      tokens := Min(limits.capacity as real, tokens + Refill(limits, now - updated));
      updated := now;
      wait := if tokens >= 1.0 then 0.0 else (1.0 - tokens) / limits.rate;
      tokens := tokens - 1.0;

      LevelAfterArrival(limits, arrivals, since, level, now);
      WaitRefills(limits, -tokens);
      ReleaseFromLevel(limits, arrivals + [now], tokens, wait);
      ScheduleGrows(limits, arrivals, releases, now, now + wait);
      arrivals, releases := arrivals + [now], releases + [now + wait];
    }
  }

  lemma LevelAfterArrival(l: Limits, arrivals: seq<real>, updated: real, tokens: real, now: real)
    requires l.Positive() && updated <= now
    requires IsLevel(l, arrivals, updated, tokens)
    ensures IsLevel(l, arrivals + [now], now, Min(l.capacity as real, tokens + Refill(l, now - updated)) - 1.0)
  {
    hide Refill;
    var extended, n := arrivals + [now], |arrivals|;
    RefillOrder(l, 0.0, now - updated);
    RefillOrder(l, 0.0, now - extended[n]);
    assert LevelSince(l, extended, n, now) == l.capacity as real - 1.0;
    forall k | 0 <= k < n
      ensures LevelSince(l, extended, k, now) == LevelSince(l, arrivals, k, updated) + Refill(l, now - updated) - 1.0
    {
      RefillSum(l, arrivals[k], updated, now);
    }
  }

  lemma ReleaseFromLevel(l: Limits, arrivals: seq<real>, tokens: real, wait: real)
    requires l.Positive() && NonDecreasing(arrivals) && arrivals != []
    requires IsLevel(l, arrivals, arrivals[|arrivals| - 1], tokens)
    requires if tokens >= 0.0 then wait == 0.0 else Refill(l, wait) == -tokens
    ensures 0.0 <= wait
    ensures IsRelease(l, arrivals, |arrivals| - 1, arrivals[|arrivals| - 1] + wait)
  {
    hide Refill;
    var i := |arrivals| - 1;
    var now := arrivals[i];
    RefillOrder(l, 0.0, wait);
    forall k | 0 <= k <= i
      ensures Refill(l, now + wait - arrivals[k]) - Deficit(l, k, i) == LevelSince(l, arrivals, k, now)
              + Refill(l, wait)
    {
      RefillSum(l, arrivals[k], now, now + wait);
    }
  }

  lemma ReleaseIgnoresLater(l: Limits, arrivals: seq<real>, now: real, i: nat, x: real)
    requires i < |arrivals|
    requires IsRelease(l, arrivals, i, x)
    ensures IsRelease(l, arrivals + [now], i, x)
  {
    hide Refill;
    var extended := arrivals + [now];
    assert forall k | 0 <= k <= i :: extended[k] == arrivals[k];
  }

  lemma ScheduleGrows(l: Limits, arrivals: seq<real>, releases: seq<real>, now: real, release: real)
    requires IsSchedule(l, arrivals, releases) && (arrivals != [] ==> arrivals[|arrivals| - 1] <= now)
    requires IsRelease(l, arrivals + [now], |arrivals|, release)
    ensures IsSchedule(l, arrivals + [now], releases + [release])
  {
    hide IsRelease;
    forall k: nat | k < |arrivals| ensures IsRelease(l, arrivals + [now], k, releases[k]) {
      ReleaseIgnoresLater(l, arrivals, now, k, releases[k]);
    }
  }

  lemma ScheduleIsOrdered(l: Limits, arrivals: seq<real>, releases: seq<real>)
    ensures IsSchedule(l, arrivals, releases) ==> NonDecreasing(arrivals)
  {
  }

  lemma WaitRefills(l: Limits, deficit: real)
    ensures l.Positive() ==> Refill(l, deficit / l.rate) == deficit
  {
  }

  lemma FullBucket(l: Limits, now: real)
    ensures IsLevel(l, [], now, l.capacity as real)
  {
  }

  /** Every sequence of arrivals has a schedule. */
  lemma ScheduleExists(l: Limits, arrivals: seq<real>) returns (releases: seq<real>, tokens: real)
    requires l.Positive() && NonDecreasing(arrivals)
    ensures IsSchedule(l, arrivals, releases)
    ensures arrivals != [] ==> IsLevel(l, arrivals, arrivals[|arrivals| - 1], tokens)
  {
    hide Refill, IsRelease, IsLevel;
    releases, tokens := [], l.capacity as real;
    if arrivals != [] {
      var n := |arrivals| - 1;
      var earlier, now := arrivals[..n], arrivals[n];
      assert arrivals == earlier + [now];
      releases, tokens := ScheduleExists(l, earlier);
      FullBucket(l, now);
      var updated := if n == 0 then now else earlier[n - 1];
      if n == 0 { tokens := l.capacity as real; }
      LevelAfterArrival(l, earlier, updated, tokens, now);
      tokens := Min(l.capacity as real, tokens + Refill(l, now - updated)) - 1.0;
      var wait := if tokens >= 0.0 then 0.0 else -tokens / l.rate;
      WaitRefills(l, -tokens);
      ReleaseFromLevel(l, arrivals, tokens, wait);
      forall i | 0 <= i < n ensures IsRelease(l, arrivals, i, releases[i]) {
        ReleaseIgnoresLater(l, earlier, now, i, releases[i]);
      }
      releases := releases + [now + wait];
    }
  }

  lemma ScheduleIsUnique(l: Limits, arrivals: seq<real>, releases: seq<real>, other: seq<real>)
    requires l.Positive() && IsSchedule(l, arrivals, releases) && IsSchedule(l, arrivals, other)
    ensures releases == other
  {
    hide Refill;
    forall i | 0 <= i < |arrivals| ensures other[i] == releases[i] {
      ReleaseIsLeast(l, arrivals, i, other[i], releases[i]);
      ReleaseIsLeast(l, arrivals, i, releases[i], other[i]);
    }
  }

  lemma ReleaseIsLeast(l: Limits, arrivals: seq<real>, i: nat, x: real, y: real)
    requires l.Positive() && i < |arrivals|
    requires IsRelease(l, arrivals, i, x) && Allowed(l, arrivals, i, y)
    ensures x <= y
  {
    hide Refill;
    if x != arrivals[i] {
      var k :| 0 <= k <= i && Refill(l, x - arrivals[k]) == Deficit(l, k, i);
      RefillOrder(l, x - arrivals[k], y - arrivals[k]);
    }
  }

  // ----- what the schedule promises

  /** Any caller is at least (j-i+1-capacity)/rate after an earlier one, and never before it. */
  lemma ReleaseSpacing(l: Limits, arrivals: seq<real>, releases: seq<real>, i: nat, j: nat)
    requires l.Positive() && IsSchedule(l, arrivals, releases) && i <= j < |arrivals|
    ensures releases[i] <= releases[j]
    ensures Deficit(l, i, j) <= Refill(l, releases[j] - releases[i])
  {
    hide Refill;
    var x, y := releases[i], releases[j];
    assert IsRelease(l, arrivals, i, x) && IsRelease(l, arrivals, j, y);
    if x == arrivals[i] {
      assert Deficit(l, i, j) <= Refill(l, y - arrivals[i]);
      assert arrivals[i] <= arrivals[j];
    } else {
      var k :| 0 <= k <= i && Refill(l, x - arrivals[k]) == Deficit(l, k, i);
      assert Deficit(l, k, j) <= Refill(l, y - arrivals[k]);
      RefillSum(l, arrivals[k], x, y);
      RefillOrder(l, 0.0, y - x);
    }
  }

  /** Sends by release index, each at most `late` after its release. */
  ghost predicate OnTime(releases: seq<real>, sends: map<nat, real>, late: real) {
    forall i | i in sends :: i < |releases| && releases[i] <= sends[i] <= releases[i] + late
  }

  /** The rate theorem for sends that are at most `late` after their release, in whatever order they happen. */
  lemma SendsInWindow(
      l: Limits, arrivals: seq<real>, releases: seq<real>, sends: map<nat, real>, late: real, lo: real, hi: real)
    requires l.Positive() && IsSchedule(l, arrivals, releases) && OnTime(releases, sends, late)
    requires lo <= hi && 0.0 <= late
    ensures |SentIn(sends, lo, hi)| as real <= l.capacity as real + Refill(l, hi - lo + late)
  {
    hide Refill;
    RefillOrder(l, 0.0, hi - lo + late);
    if SentIn(sends, lo, hi) != {} {
      var i, j := FirstAndLast(l, arrivals, releases, SentIn(sends, lo, hi));
      RefillOrder(l, releases[j] - releases[i], hi - lo + late);
    }
  }

  /** A half-open window holds strictly fewer. */
  lemma SendsBefore(
      l: Limits, arrivals: seq<real>, releases: seq<real>, sends: map<nat, real>, late: real, lo: real, hi: real)
    requires l.Positive() && IsSchedule(l, arrivals, releases) && OnTime(releases, sends, late)
    requires lo <= hi && 0.0 <= late
    ensures |SentBefore(sends, lo, hi)| as real < l.capacity as real + Refill(l, hi - lo + late)
  {
    hide Refill;
    RefillOrder(l, 0.0, hi - lo + late);
    if SentBefore(sends, lo, hi) != {} {
      var i, j := FirstAndLast(l, arrivals, releases, SentBefore(sends, lo, hi));
      RefillOrder(l, hi - lo + late, releases[j] - releases[i]);
    }
  }

  lemma FirstAndLast(l: Limits, arrivals: seq<real>, releases: seq<real>, some: set<nat>) returns (i: nat, j: nat)
    requires l.Positive() && IsSchedule(l, arrivals, releases)
    requires some != {} && forall k | k in some :: k < |releases|
    ensures i in some && j in some
    ensures |some| as real <= l.capacity as real + Refill(l, releases[j] - releases[i])
  {
    hide Refill;
    i, j := SpanOfSet(some);
    ReleaseSpacing(l, arrivals, releases, i, j);
  }

  ghost function SentIn(sends: map<nat, real>, lo: real, hi: real): set<nat> {
    set i | i in sends && lo <= sends[i] <= hi
  }

  ghost function SentBefore(sends: map<nat, real>, lo: real, hi: real): set<nat> {
    set i | i in sends && lo <= sends[i] < hi
  }

  ghost function InWindow(s: seq<real>, lo: real, hi: real): nat {
    |set i: nat | i < |s| && lo <= s[i] <= hi|
  }

  /** Every closed window of length w holds at most capacity + rate*w release instants. */
  lemma ReleasesInWindow(l: Limits, arrivals: seq<real>, releases: seq<real>, lo: real, hi: real)
    requires l.Positive() && IsSchedule(l, arrivals, releases) && lo <= hi
    ensures InWindow(releases, lo, hi) as real <= l.capacity as real + Refill(l, hi - lo)
  {
    hide Refill;
    var all := map i: nat | i < |releases| :: releases[i];
    SendsInWindow(l, arrivals, releases, all, 0.0, lo, hi);
    assert (set i: nat | i < |releases| && lo <= releases[i] <= hi) == SentIn(all, lo, hi);
  }

  ghost predicate WithinRate(l: Limits, s: seq<real>) {
    forall lo, hi | lo <= hi :: InWindow(s, lo, hi) as real <= l.capacity as real + Refill(l, hi - lo)
  }

  /** The bucket's own schedule keeps the order of arrival and the window bound. */
  lemma ScheduleIsWithinRate(l: Limits, arrivals: seq<real>, releases: seq<real>)
    requires l.Positive() && IsSchedule(l, arrivals, releases)
    ensures NonDecreasing(releases) && WithinRate(l, releases)
    ensures forall i | 0 <= i < |releases| :: arrivals[i] <= releases[i]
  {
    hide Refill;
    forall i, j | 0 <= i <= j < |releases| ensures releases[i] <= releases[j] {
      ReleaseSpacing(l, arrivals, releases, i, j);
    }
    forall lo, hi | lo <= hi
      ensures InWindow(releases, lo, hi) as real <= l.capacity as real + Refill(l, hi - lo)
    {
      ReleasesInWindow(l, arrivals, releases, lo, hi);
    }
    forall i | 0 <= i < |releases| ensures arrivals[i] <= releases[i] {
      assert IsRelease(l, arrivals, i, releases[i]);
    }
  }

  /** The bucket is optimal: no order-preserving schedule that respects arrivals and the window bound
      releases any caller earlier. */
  lemma EarliestSchedule(l: Limits, arrivals: seq<real>, releases: seq<real>, other: seq<real>)
    requires l.Positive() && IsSchedule(l, arrivals, releases)
    requires |other| == |arrivals| && NonDecreasing(other) && WithinRate(l, other)
    requires forall i | 0 <= i < |other| :: arrivals[i] <= other[i]
    ensures forall i | 0 <= i < |other| :: releases[i] <= other[i]
  {
    hide Refill;
    forall i | 0 <= i < |other| ensures releases[i] <= other[i] {
      forall k | 0 <= k <= i ensures Deficit(l, k, i) <= Refill(l, other[i] - arrivals[k]) {
        CallersInWindow(other, k, i);
        assert InWindow(other, other[k], other[i]) as real <= l.capacity as real + Refill(l, other[i] - other[k]);
        RefillOrder(l, other[i] - other[k], other[i] - arrivals[k]);
      }
      ReleaseIsLeast(l, arrivals, i, releases[i], other[i]);
    }
  }

  lemma InOrder(s: seq<real>, i: nat, j: nat)
    ensures NonDecreasing(s) && i <= j < |s| ==> s[i] <= s[j]
  {
  }

  lemma CallersInWindow(s: seq<real>, k: nat, i: nat)
    requires NonDecreasing(s) && k <= i < |s|
    ensures i - k + 1 <= InWindow(s, s[k], s[i])
  {
    hide NonDecreasing, Between;
    var window := set x: nat | x < |s| && s[k] <= s[x] <= s[i];
    BetweenSize(k, i + 1);
    forall x | x in Between(k, i + 1) ensures x in window {
      InOrder(s, k, x);
      InOrder(s, x, i);
    }
    SubsetSize(Between(k, i + 1), window);
  }

  /** When everyone arrives at once, every caller up to number capacity + rate*w is released within w. */
  lemma ReleasedTogether(l: Limits, arrivals: seq<real>, releases: seq<real>, start: real, w: real, n: nat)
    requires l.Positive() && IsSchedule(l, arrivals, releases) && 0.0 <= w
    requires n <= |arrivals| && forall i | 0 <= i < |arrivals| :: arrivals[i] == start
    requires n as real <= l.capacity as real + Refill(l, w)
    ensures forall i | 0 <= i < n :: start <= releases[i] <= start + w
  {
    hide Refill;
    forall i: nat | i < n ensures start <= releases[i] <= start + w {
      assert IsRelease(l, arrivals, i, releases[i]);
      if releases[i] != arrivals[i] {
        var k :| 0 <= k <= i && Refill(l, releases[i] - arrivals[k]) == Deficit(l, k, i);
        RefillOrder(l, releases[i] - start, w);
      }
    }
  }

  /** The bound is attained: the window of length w after that instant holds all these callers. */
  lemma BoundIsAttained(l: Limits, arrivals: seq<real>, releases: seq<real>, start: real, w: real, n: nat)
    requires l.Positive() && IsSchedule(l, arrivals, releases) && 0.0 <= w
    requires n <= |arrivals| && forall i | 0 <= i < |arrivals| :: arrivals[i] == start
    requires n as real <= l.capacity as real + Refill(l, w)
    ensures n <= InWindow(releases, start, start + w)
  {
    ReleasedTogether(l, arrivals, releases, start, w, n);
    BetweenSize(0, n);
    SubsetSize(Between(0, n), (set i: nat | i < |releases| && start <= releases[i] <= start + w));
  }

  // ----- central limiter and local fallback

  const CENTRAL := Limits(8.0, 1)
  const FALLBACK := Limits(1.0, 1)

  /** Sends of one limiter: its schedule, and when each released caller sent. */
  datatype Egress = Egress(arrivals: seq<real>, releases: seq<real>, sends: map<nat, real>) {
    ghost predicate Of(l: Limits, late: real) {
      IsSchedule(l, arrivals, releases) && OnTime(releases, sends, late)
    }
  }

  /** The most requests that one limiter lets out within x seconds. */
  function Most(l: Limits, x: real): int { (l.capacity as real + Refill(l, x)).Floor }

  lemma SendsAtMost(l: Limits, e: Egress, late: real, lo: real, hi: real)
    requires l.Positive() && e.Of(l, late) && lo <= hi && 0.0 <= late
    ensures |SentIn(e.sends, lo, hi)| <= Most(l, hi - lo + late)
    ensures |SentBefore(e.sends, lo, hi)| as real < l.capacity as real + Refill(l, hi - lo + late)
  {
    hide IsSchedule, OnTime, Refill;
    SendsInWindow(l, e.arrivals, e.releases, e.sends, late, lo, hi);
    SendsBefore(l, e.arrivals, e.releases, e.sends, late, lo, hi);
  }

  lemma NineOrEleven(x: real)
    requires 0.0 <= x
    ensures x < 1.0 ==> Most(CENTRAL, x) <= 8 && Most(FALLBACK, x) <= 1
    ensures 1.0 <= x ==> Most(CENTRAL, x) >= 9 && Most(FALLBACK, x) >= 2
    ensures Refill(CENTRAL, x) == 8.0 * x && Refill(FALLBACK, x) == x
  {
  }

  /** No closed window of length w ever holds more than both maxima together ... */
  lemma AggregateWindow(a: Egress, b: Egress, late: real, lo: real, hi: real)
    requires a.Of(CENTRAL, late) && b.Of(FALLBACK, late) && lo <= hi && 0.0 <= late
    ensures |SentIn(a.sends, lo, hi)| + |SentIn(b.sends, lo, hi)|
            <= Most(CENTRAL, hi - lo + late) + Most(FALLBACK, hi - lo + late)
  {
    hide IsSchedule, OnTime, Refill, Most, SentIn, SentBefore;
    SendsAtMost(CENTRAL, a, late, lo, hi);
    SendsAtMost(FALLBACK, b, late, lo, hi);
  }

  /** ... and for every w and lateness some window holds that many. */
  lemma AggregateIsAttained(late: real, w: real) returns (a: Egress, b: Egress)
    requires 0.0 <= w && 0.0 <= late
    ensures a.Of(CENTRAL, late) && b.Of(FALLBACK, late)
    ensures |SentIn(a.sends, late, late + w)| + |SentIn(b.sends, late, late + w)|
            == Most(CENTRAL, w + late) + Most(FALLBACK, w + late)
  {
    hide IsSchedule, OnTime, Refill, Most, SentIn, Egress.Of;
    a := Burst(CENTRAL, late, w);
    b := Burst(FALLBACK, late, w);
    AggregateWindow(a, b, late, late, late + w);
  }

  /** As many callers as can get out arrive at once, and all wake as late as `late` allows. */
  lemma Burst(l: Limits, late: real, w: real) returns (e: Egress)
    requires l.Positive() && 0.0 <= w && 0.0 <= late
    ensures e.Of(l, late) && Most(l, w + late) <= |SentIn(e.sends, late, late + w)|
    ensures forall i | i in e.sends :: e.sends[i] == Max(e.releases[i], late)
    ensures forall i | 0 <= i < Most(l, w + late) :: i in e.sends && 0.0 <= e.releases[i] <= w + late
  {
    hide Refill, IsRelease, IsLevel, Most;
    var n := MostIsNatural(l, w + late);
    var arrivals := seq(n, _ => 0.0);
    var releases, _ := ScheduleExists(l, arrivals);
    ReleasedTogether(l, arrivals, releases, 0.0, w + late, n);
    hide IsSchedule;
    e := Egress(arrivals, releases, map i: nat | i < n :: Max(releases[i], late));
    BetweenSize(0, n);
    SubsetSize(Between(0, n), SentIn(e.sends, late, late + w));
  }

  lemma MostIsNatural(l: Limits, x: real) returns (n: nat)
    requires l.Positive() && 0.0 <= x
    ensures n == Most(l, x) && n as real <= l.capacity as real + Refill(l, x)
  {
    RefillOrder(l, 0.0, x);
    n := Most(l, x);
  }

  /** The documented worst case of nine, for closed and for half-open windows of length w. */
  ghost predicate NineInClosed(w: real, late: real) {
    forall a: Egress, b: Egress, lo, hi | a.Of(CENTRAL, late) && b.Of(FALLBACK, late) && lo <= hi <= lo + w ::
      |SentIn(a.sends, lo, hi)| + |SentIn(b.sends, lo, hi)| <= 9
  }

  ghost predicate NineInHalfOpen(w: real, late: real) {
    forall a: Egress, b: Egress, lo, hi | a.Of(CENTRAL, late) && b.Of(FALLBACK, late) && lo <= hi <= lo + w ::
      |SentBefore(a.sends, lo, hi)| + |SentBefore(b.sends, lo, hi)| <= 9
  }

  /** In a closed window nine are kept exactly when the window and the lateness together are under a second. */
  lemma NineInClosedIff(w: real, late: real)
    requires 0.0 <= w && 0.0 <= late
    ensures NineInClosed(w, late) <==> w + late < 1.0
  {
    hide IsSchedule, OnTime, Refill, Most, SentIn, Egress.Of;
    if w + late < 1.0 {
      forall a: Egress, b: Egress, lo, hi | a.Of(CENTRAL, late) && b.Of(FALLBACK, late) && lo <= hi <= lo + w
        ensures |SentIn(a.sends, lo, hi)| + |SentIn(b.sends, lo, hi)| <= 9
      {
        AggregateWindow(a, b, late, lo, hi);
        NineOrEleven(hi - lo + late);
      }
    } else {
      NineOrEleven(w + late);
      var a, b := AggregateIsAttained(late, w);
      assert |SentIn(a.sends, late, late + w)| + |SentIn(b.sends, late, late + w)| > 9;
    }
  }

  /** In a half-open window they may fill the second: with sends on time, every [t, t+1) holds at most nine. */
  lemma NineInHalfOpenIff(w: real, late: real)
    requires 0.0 <= w && 0.0 <= late
    ensures NineInHalfOpen(w, late) <==> w == 0.0 || w + late <= 1.0
  {
    hide IsSchedule, OnTime, Refill, Most, SentIn, Egress.Of;
    if w == 0.0 || w + late <= 1.0 {
      forall a: Egress, b: Egress, lo, hi | a.Of(CENTRAL, late) && b.Of(FALLBACK, late) && lo <= hi <= lo + w
        ensures |SentBefore(a.sends, lo, hi)| + |SentBefore(b.sends, lo, hi)| <= 9
      {
        if w == 0.0 {
          assert SentBefore(a.sends, lo, hi) == SentBefore(b.sends, lo, hi) == {};
        } else {
          SendsAtMost(CENTRAL, a, late, lo, hi);
          SendsAtMost(FALLBACK, b, late, lo, hi);
          NineOrEleven(hi - lo + late);
        }
      }
    } else {
      var a, b := ElevenBefore(late, w);
    }
  }

  lemma ElevenBefore(late: real, w: real) returns (a: Egress, b: Egress)
    requires 0.0 < w && 0.0 <= late && w + late > 1.0
    ensures a.Of(CENTRAL, late) && b.Of(FALLBACK, late)
    ensures |SentBefore(a.sends, late, late + w)| + |SentBefore(b.sends, late, late + w)| >= 11
  {
    var x := if late <= 1.0 then 1.0 - late else 0.0;
    NineOrEleven(x + late);
    hide IsSchedule, OnTime, Refill, Most, Egress.Of, SentBefore;
    a := BurstBefore(CENTRAL, late, x, w, 9);
    b := BurstBefore(FALLBACK, late, x, w, 2);
  }

  lemma BurstBefore(l: Limits, late: real, x: real, w: real, n: nat) returns (e: Egress)
    requires l.Positive() && 0.0 <= x < w && 0.0 <= late && n <= Most(l, x + late)
    ensures e.Of(l, late) && n <= |SentBefore(e.sends, late, late + w)|
  {
    hide Refill, Most, IsSchedule, OnTime;
    e := Burst(l, late, x);
    BetweenSize(0, n);
    SubsetSize(Between(0, n), SentBefore(e.sends, late, late + w));
  }
}
