/** When the CDN origin scheduler fetches again, and how old a snapshot can get before it does.
    Durations and instants are in nanoseconds. */
module OriginSchedule {
  import opened Wrappers

  const SECOND := 1_000_000_000
  const HOUR := 3600 * SECOND

  // Backoff

  function Pow2(n: nat): (p: nat)
    ensures p >= 1
  {
    if n == 0 then 1 else 2 * Pow2(n - 1)
  }

  function Min(a: int, b: int): int {
    if a <= b then a else b
  }

  lemma {:induction false} Pow2Grows(m: nat, n: nat)
    requires m <= n
    ensures Pow2(m) <= Pow2(n)
  {
    if m < n {
      Pow2Grows(m, n - 1);
    }
  }

  lemma ScaledGrows(base: nat, m: nat, n: nat)
    requires m <= n
    ensures base * Pow2(m) <= base * Pow2(n)
  {
    Pow2Grows(m, n);
    ProductGrows(base, Pow2(m), Pow2(n));
  }

  lemma ProductGrows(a: nat, x: nat, y: nat)
    requires x <= y
    ensures a * x <= a * y
  {
  }

  /** Doubling per failure, capped from the second failure on. */
  function Backoff(failures: nat, base: nat, max: nat): nat {
    if failures == 0 then 0
    else if failures == 1 then base
    else Min(base * Pow2(failures - 1), max)
  }

  /** The loop of the source. With a base within the cap, every value it holds stays below twice the
      cap, so with a cap of at most 2^62 nothing overflows 64 bits. */
  method ComputeBackoff(failures: nat, base: nat, max: nat) returns (backoff: nat, ghost peak: nat)
    requires base > 0 && max > 0
    ensures backoff == Backoff(failures, base, max)
    ensures backoff <= peak && (base <= max ==> peak <= 2 * max)
  {
    backoff, peak := 0, 0;
    if failures > 0 {
      backoff, peak := base, base;
      var i := 1;
      while i < failures
        invariant 1 <= i <= failures
        invariant backoff == base * Pow2(i - 1) && (i > 1 ==> backoff < max)
        invariant backoff <= peak && (base <= max ==> peak <= 2 * max)
      {
        DoubleScaled(base, i);
        backoff := backoff * 2;
        peak := if backoff > peak then backoff else peak;
        if backoff >= max {
          ScaledGrows(base, i, failures - 1);
          return max, peak;
        }
        i := i + 1;
      }
    }
  }

  lemma DoubleScaled(base: nat, i: nat)
    requires i >= 1
    ensures base * Pow2(i) == base * Pow2(i - 1) * 2
  {
    Reassociate(base, Pow2(i - 1));
  }

  lemma Reassociate(a: nat, x: nat)
    ensures a * (2 * x) == a * x * 2
  {
  }

  /** The backoff never shrinks as failures accumulate exactly when the base does not exceed the cap. */
  lemma BackoffMonotoneIff(base: nat, max: nat)
    requires base > 0 && max > 0
    ensures (forall f: nat, g: nat :: f <= g ==> Backoff(f, base, max) <= Backoff(g, base, max)) <==> base <= max
  {
    if base <= max {
      forall f: nat, g: nat | f <= g ensures Backoff(f, base, max) <= Backoff(g, base, max) {
        BackoffGrows(base, max, f, g);
      }
    } else {
      DoubleScaled(base, 1);
      assert base * Pow2(0) == base;
      assert Backoff(1, base, max) > Backoff(2, base, max);
    }
  }

  lemma BackoffGrows(base: nat, max: nat, f: nat, g: nat)
    requires 0 < base <= max && f <= g
    ensures Backoff(f, base, max) <= Backoff(g, base, max)
  {
    if f >= 1 {
      ScaledGrows(base, f - 1, g - 1);
      ScaledGrows(base, 0, g - 1);
      assert base * Pow2(0) == base;
      hide Pow2;
    }
  }

  // Jitter

  /** Conversion of a floating-point number to a duration drops the fraction. */
  function Truncate(x: real): int {
    if x >= 0.0 then x.Floor else -((-x).Floor)
  }

  /** `draw` is the random number in [0, 1). */
  function JitterDuration(base: int, ratio: real, draw: real): int {
    if base <= 0 || ratio <= 0.0 then base
    else Shifted(base, Offset(base as real, ratio, draw))
  }

  function Offset(base: real, ratio: real, draw: real): real {
    (draw * 2.0 - 1.0) * base * ratio
  }

  function Shifted(base: int, offset: real): int {
    var next := Truncate(base as real + offset);
    if next < 0 then base else if next < SECOND then SECOND else next
  }

  lemma OffsetBounded(base: real, ratio: real, draw: real)
    requires 0.0 <= draw < 1.0 && base >= 0.0 && ratio >= 0.0
    ensures -(base * ratio) <= Offset(base, ratio, draw) <= base * ratio
  {
    var factor, scale := draw * 2.0 - 1.0, base * ratio;
    assert factor * base * ratio == factor * scale;
    ProductBounded(factor, scale);
  }

  lemma ProductBounded(factor: real, scale: real)
    requires -1.0 <= factor <= 1.0 && scale >= 0.0
    ensures -scale <= factor * scale <= scale
  {
  }

  lemma TruncateBounds(x: real)
    requires x >= 0.0
    ensures Truncate(x) as real <= x < Truncate(x) as real + 1.0
  {
  }

  lemma Scaled(b: real, ratio: real)
    requires b >= 0.0 && 0.0 <= ratio <= 1.0
    ensures b * (1.0 + ratio) == b + b * ratio && b * (1.0 - ratio) == b - b * ratio
    ensures 0.0 <= b * ratio <= b
  {
    assert b - b * ratio == b * (1.0 - ratio) >= 0.0;
  }

  lemma ShiftedClose(base: int, offset: real, scale: real)
    requires base >= SECOND && 0.0 <= scale <= base as real && -scale <= offset <= scale
    ensures var delay := Shifted(base, offset) as real;
            && delay <= base as real + scale
            && delay > base as real - scale - 1.0
            && delay >= SECOND as real
  {
    TruncateBounds(base as real + offset);
  }

  /** Jitter moves a delay of at least a second by at most its ratio, up or down, and never below a second. */
  lemma JitterStaysClose(base: int, ratio: real, draw: real)
    requires base >= SECOND && 0.0 <= ratio <= 1.0 && 0.0 <= draw < 1.0
    ensures var delay := JitterDuration(base, ratio, draw) as real;
            && delay <= base as real * (1.0 + ratio)
            && delay > base as real * (1.0 - ratio) - 1.0
            && delay >= SECOND as real
  {
    hide Offset, Shifted;
    Scaled(base as real, ratio);
    if ratio > 0.0 {
      OffsetBounded(base as real, ratio, draw);
      ShiftedClose(base, Offset(base as real, ratio, draw), base as real * ratio);
    }
  }

  // Due

  datatype Settings = Settings(refreshIntervalSeconds: int, maxStalenessSeconds: int)

  /** What the scheduler reads from the status table: the stored attempt time, if it can be parsed. */
  datatype Seen = Seen(lastAttempt: Option<int>, consecutiveFailures: nat)

  datatype Scheduler = Scheduler(jitterRatio: real, backoffBase: nat, backoffMax: nat)

  function Interval(settings: Settings): int {
    if settings.refreshIntervalSeconds > 0 then settings.refreshIntervalSeconds * SECOND else HOUR
  }

  /** Two random draws: one for the interval, one for the backoff. */
  datatype Draws = Draws(refresh: real, backoff: real)

  function NextDelay(s: Scheduler, settings: Settings, failures: nat, draws: Draws): int {
    var refresh := JitterDuration(Interval(settings), s.jitterRatio, draws.refresh);
    var backoff := if failures == 0 then 0
                   else JitterDuration(Backoff(failures, s.backoffBase, s.backoffMax), s.jitterRatio, draws.backoff);
    if 0 < backoff < refresh then backoff else refresh
  }

  predicate Due(s: Scheduler, now: int, settings: Settings, seen: Option<Seen>, draws: Draws) {
    || seen.None? || seen.value.lastAttempt.None?
    || now - seen.value.lastAttempt.value >= NextDelay(s, settings, seen.value.consecutiveFailures, draws)
  }

  method IsDue(s: Scheduler, now: int, settings: Settings, seen: Option<Seen>, draws: Draws) returns (due: bool)
    requires s.backoffBase > 0 && s.backoffMax > 0
    ensures due <==> Due(s, now, settings, seen, draws)
  {
    hide JitterDuration;
    var refreshInterval := HOUR;
    if settings.refreshIntervalSeconds > 0 {
      refreshInterval := settings.refreshIntervalSeconds * SECOND;
    }
    refreshInterval := JitterDuration(refreshInterval, s.jitterRatio, draws.refresh);
    if seen.None? || seen.value.lastAttempt.None? {
      return true;
    }
    var backoff := 0;
    if seen.value.consecutiveFailures > 0 {
      var raw;
      ghost var peak;
      raw, peak := ComputeBackoff(seen.value.consecutiveFailures, s.backoffBase, s.backoffMax);
      backoff := JitterDuration(raw, s.jitterRatio, draws.backoff);
    }
    var nextDelay := refreshInterval;
    if backoff > 0 && backoff < nextDelay {
      nextDelay := backoff;
    }
    return now - seen.value.lastAttempt.value >= nextDelay;
  }

  /** Without jitter, after f failures the delay is the interval or the doubled backoff, whichever is
      less, and never shrinks as failures accumulate. */
  lemma DelayWithoutJitter(s: Scheduler, settings: Settings, f: nat, g: nat, draws: Draws)
    requires s.jitterRatio == 0.0 && 0 < s.backoffBase <= s.backoffMax && 1 <= f <= g
    ensures NextDelay(s, settings, f, draws)
         == Min(Interval(settings), Min(s.backoffBase * Pow2(f - 1), s.backoffMax))
    ensures NextDelay(s, settings, f, draws) <= NextDelay(s, settings, g, draws)
  {
    BackoffMonotoneIff(s.backoffBase, s.backoffMax);
    assert s.backoffBase * Pow2(0) == s.backoffBase;
    ScaledGrows(s.backoffBase, 0, f - 1);
    ScaledGrows(s.backoffBase, 0, g - 1);
    assert Backoff(f, s.backoffBase, s.backoffMax) <= Backoff(g, s.backoffBase, s.backoffMax);
  }

  // Freshness

  /** The gateway's limit on the age of a snapshot. */
  function MaxStaleness(settings: Option<Settings>): int {
    match settings
    case Some(s) => if s.maxStalenessSeconds > 0 then s.maxStalenessSeconds * SECOND else Interval(s) * 3
    case None => 3 * HOUR
  }

  /** The gateway uses a snapshot while it is not older than the limit. */
  predicate Usable(now: int, lastSuccess: int, staleness: int) {
    !(staleness > 0 && now - lastSuccess > staleness)
  }

  /** Attempt times are stored to the second. */
  function Stored(t: nat): nat {
    t - t % SECOND
  }

  /** One tick: when it ran, when its fetch (if any) was published, and its random draws. */
  datatype Tick = Tick(at: nat, done: nat, draws: Draws)

  datatype Clock = Clock(scheduler: Scheduler, settings: Settings, maxGap: nat, maxFetch: nat)

  ghost predicate Ticking(c: Clock, ticks: seq<Tick>) {
    && (forall k :: 0 <= k < |ticks| ==> DrawsFine(ticks[k].draws) && ticks[k].at <= ticks[k].done <= ticks[k].at + c.maxFetch)
    && (forall j, k :: 0 <= j < k < |ticks| && k == j + 1 ==> ticks[j].done <= ticks[k].at <= ticks[j].at + c.maxGap)
  }

  ghost predicate DrawsFine(draws: Draws) {
    0.0 <= draws.refresh < 1.0 && 0.0 <= draws.backoff < 1.0
  }

  /** The last tick among the first n at which a fetch was attempted, or -1; every attempt succeeds. */
  function LastAttempt(c: Clock, ticks: seq<Tick>, n: nat): (k: int)
    requires n <= |ticks|
    ensures -1 <= k < n
  {
    if n == 0 then -1
    else
      var k := LastAttempt(c, ticks, n - 1);
      if Attempts(c, ticks, k, n - 1) then n - 1 else k
  }

  /** Whether tick n attempts, when tick k was the last to. */
  predicate Attempts(c: Clock, ticks: seq<Tick>, k: int, n: nat)
    requires -1 <= k < n < |ticks|
  {
    Due(c.scheduler, ticks[n].at, c.settings,
        if k < 0 then None else Some(Seen(Some(Stored(ticks[k].at)), 0)), ticks[n].draws)
  }

  /** The age at which the scheduler is sure to fetch again. */
  function Patience(c: Clock): real {
    Interval(c.settings) as real * (1.0 + c.scheduler.jitterRatio)
  }

  lemma WaitsNoLonger(c: Clock, ticks: seq<Tick>, k: nat, n: nat)
    requires Ticking(c, ticks) && 0.0 <= c.scheduler.jitterRatio <= 1.0
    requires k < n < |ticks| && !Attempts(c, ticks, k, n)
    ensures (ticks[n].at - ticks[k].at) as real < Patience(c)
  {
    assert DrawsFine(ticks[n].draws);
    assert Interval(c.settings) >= SECOND;
    JitterStaysClose(Interval(c.settings), c.scheduler.jitterRatio, ticks[n].draws.refresh);
    hide JitterDuration, Interval;
    var delay := NextDelay(c.scheduler, c.settings, 0, ticks[n].draws);
    assert delay == JitterDuration(Interval(c.settings), c.scheduler.jitterRatio, ticks[n].draws.refresh);
    assert ticks[n].at - Stored(ticks[k].at) < delay;
    assert Stored(ticks[k].at) <= ticks[k].at;
  }

  /** Through the n-th tick, the last attempt is less than the patience and one gap old. */
  lemma {:induction false} AttemptIsRecent(c: Clock, ticks: seq<Tick>, n: nat)
    requires Ticking(c, ticks) && 0.0 <= c.scheduler.jitterRatio <= 1.0 && n < |ticks|
    ensures LastAttempt(c, ticks, n + 1) >= 0
    ensures var k := LastAttempt(c, ticks, n + 1);
            k == n || (ticks[n].at - ticks[k].at) as real < Patience(c)
  {
    hide Due, Ticking;
    var k := LastAttempt(c, ticks, n);
    if n > 0 {
      AttemptIsRecent(c, ticks, n - 1);
    } else {
      FirstTickAttempts(c, ticks);
    }
    if !Attempts(c, ticks, k, n) {
      WaitsNoLonger(c, ticks, k, n);
    }
  }

  lemma FirstTickAttempts(c: Clock, ticks: seq<Tick>)
    requires |ticks| > 0
    ensures Attempts(c, ticks, -1, 0)
  {
  }

  /** The snapshot in force at an instant: the last one published by then. */
  ghost predicate InForce(c: Clock, ticks: seq<Tick>, t: nat, k: nat)
    requires k < |ticks|
  {
    && Attempted(c, ticks, k) && ticks[k].done <= t
    && (forall j :: k < j < |ticks| && Attempted(c, ticks, j) ==> t < ticks[j].done)
  }

  predicate Attempted(c: Clock, ticks: seq<Tick>, k: nat)
    requires k < |ticks|
  {
    LastAttempt(c, ticks, k + 1) == k
  }

  lemma {:induction false} QuietSince(c: Clock, ticks: seq<Tick>, k: nat, n: nat)
    requires k < n <= |ticks| && Attempted(c, ticks, k)
    requires forall j :: k < j < n ==> !Attempted(c, ticks, j)
    ensures LastAttempt(c, ticks, n) == k
  {
    hide Attempts;
    if n > k + 1 {
      QuietSince(c, ticks, k, n - 1);
      assert !Attempted(c, ticks, n - 1);
    }
  }

  /** The first tick after k that is not over before the instant. */
  lemma FirstNotOver(ticks: seq<Tick>, k: nat, t: nat) returns (n: nat)
    requires k + 1 < |ticks| && t <= ticks[|ticks| - 1].done
    ensures k < n < |ticks| && t <= ticks[n].done && forall j :: k < j < n ==> ticks[j].done < t
  {
    n := k + 1;
    while ticks[n].done < t
      invariant k < n < |ticks| && forall j :: k < j < n ==> ticks[j].done < t
      decreases |ticks| - n
    {
      n := n + 1;
    }
  }

  /** The snapshot in force is never older than the patience, one gap and one fetch. */
  lemma SnapshotAgeBounded(c: Clock, ticks: seq<Tick>, t: nat, k: nat)
    requires Ticking(c, ticks) && 0.0 <= c.scheduler.jitterRatio <= 1.0
    requires k < |ticks| && t <= ticks[|ticks| - 1].done && InForce(c, ticks, t, k)
    ensures (t - ticks[k].at) as real <= Patience(c) + c.maxGap as real + c.maxFetch as real
  {
    hide Due, Patience, LastAttempt;
    PatienceIsPositive(c);
    if k + 1 < |ticks| {
      var n := FirstNotOver(ticks, k, t);
      QuietSince(c, ticks, k, n);
      AttemptIsRecent(c, ticks, n - 1);
      assert ticks[n].at <= ticks[n - 1].at + c.maxGap;
      assert ticks[n].done <= ticks[n].at + c.maxFetch;
    }
  }

  lemma PatienceIsPositive(c: Clock)
    requires c.scheduler.jitterRatio >= 0.0
    ensures Patience(c) > 0.0
  {
  }

  /** No staleness limit of its own, jitter of at most nine tenths, and a gap and a fetch that take at most 1.1
      intervals together. */
  predicate KeepsPace(c: Clock) {
    && 0.0 <= c.scheduler.jitterRatio <= 0.9
    && c.settings.maxStalenessSeconds <= 0
    && (c.maxGap + c.maxFetch) as real <= 1.1 * Interval(c.settings) as real
  }

  /** The scheduler then keeps pace with the gateway, which never finds the published snapshot too old. */
  lemma SnapshotStaysUsable(c: Clock, ticks: seq<Tick>, t: nat, k: nat)
    requires Ticking(c, ticks) && KeepsPace(c)
    requires k < |ticks| && t <= ticks[|ticks| - 1].done && InForce(c, ticks, t, k)
    ensures Usable(t, ticks[k].at, MaxStaleness(Some(c.settings)))
  {
    assert 0.0 <= c.scheduler.jitterRatio <= 1.0;
    hide *;
    SnapshotAgeBounded(c, ticks, t, k);
    AgeWithinLimit(c, t - ticks[k].at);
    PacedLimit(c, t, ticks[k].at);
  }

  lemma AgeWithinLimit(c: Clock, age: int)
    requires KeepsPace(c) && age as real <= Patience(c) + c.maxGap as real + c.maxFetch as real
    ensures age <= 3 * Interval(c.settings)
  {
    assert Interval(c.settings) >= 0;
    hide Interval;
    WithinThreeIntervals(age, Interval(c.settings), c.scheduler.jitterRatio, c.maxGap, c.maxFetch);
  }

  lemma PacedLimit(c: Clock, now: int, lastSuccess: int)
    requires KeepsPace(c) && now - lastSuccess <= 3 * Interval(c.settings)
    ensures Usable(now, lastSuccess, MaxStaleness(Some(c.settings)))
  {
  }

  lemma WithinThreeIntervals(age: int, interval: nat, ratio: real, gap: nat, fetch: nat)
    requires ratio <= 0.9 && (gap + fetch) as real <= 1.1 * interval as real
    requires age as real <= interval as real * (1.0 + ratio) + gap as real + fetch as real
    ensures age <= 3 * interval
  {
    RatioScales(interval as real, ratio);
    assert (gap + fetch) as real == gap as real + fetch as real;
    assert age as real <= 3.0 * interval as real;
  }

  lemma RatioScales(interval: real, ratio: real)
    requires interval >= 0.0 && ratio <= 0.9
    ensures interval * (1.0 + ratio) <= 1.9 * interval
  {
    assert 1.9 * interval - interval * (1.0 + ratio) == interval * (0.9 - ratio);
  }
}
