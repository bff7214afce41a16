/** The fixed-window rate limiter of the administration interface. Instants are in nanoseconds. */
module RateLimiter {
  import opened Wrappers
  import opened Seqs

  const MINUTE := 60 * 1_000_000_000

  datatype Entry = Entry(count: int, reset: int)

  /** The settings: admissions per window, and the length of a window. */
  datatype Policy = Policy(limit: int, window: int)

  datatype Call = Call(key: string, now: int)

  datatype Verdict = Verdict(remaining: int, reset: int, allowed: bool)

  type Entries = map<string, Entry>

  /** The entry a call is judged by: the key's window, or a new one when that has passed. */
  function Opened(p: Policy, entries: Entries, call: Call): Entry {
    if call.key !in entries || call.now > entries[call.key].reset then Entry(0, call.now + p.window)
    else entries[call.key]
  }

  function Judge(p: Policy, entries: Entries, call: Call): Verdict {
    var entry := Opened(p, entries, call);
    if entry.count >= p.limit then Verdict(0, entry.reset, false)
    else Verdict(p.limit - (entry.count + 1), entry.reset, true)
  }

  function Next(p: Policy, entries: Entries, call: Call): Entries {
    var entry := Opened(p, entries, call);
    entries[call.key := if entry.count >= p.limit then entry else entry.(count := entry.count + 1)]
  }

  /** The entries after the first n calls, in the order they got the lock. */
  function After(p: Policy, calls: seq<Call>, n: nat): Entries
    requires n <= |calls|
  {
    if n == 0 then map[] else Next(p, After(p, calls, n - 1), calls[n - 1])
  }

  function VerdictAt(p: Policy, calls: seq<Call>, i: nat): Verdict
    requires i < |calls|
  {
    Judge(p, After(p, calls, i), calls[i])
  }

  class Limiter {
    const policy: Policy
    var entries: Entries
    ghost var calls: seq<Call>

    ghost predicate Valid()
      reads this
    {
      policy.limit > 0 && entries == After(policy, calls, |calls|)
    }

    constructor (limit: int, window: int)
      requires limit > 0
      ensures Valid() && calls == [] && policy == Policy(limit, window)
    {
      policy, entries, calls := Policy(limit, window), map[], [];
    }

    method Allow(key: string, now: int) returns (verdict: Verdict)
      requires Valid()
      modifies this
      ensures Valid() && calls == old(calls) + [Call(key, now)]
      ensures verdict == VerdictAt(policy, calls, |calls| - 1)
    {
      ghost var before := entries;
      if key !in entries || now > entries[key].reset {
        entries := entries[key := Entry(0, now + policy.window)];
      }
      var entry := entries[key];
      if entry.count >= policy.limit {
        verdict := Verdict(0, entry.reset, false);
      } else {
        entries := entries[key := entry.(count := entry.count + 1)];
        verdict := Verdict(policy.limit - entries[key].count, entry.reset, true);
      }
      ghost var call := Call(key, now);
      assert entries == Next(policy, before, call);
      AfterPrefix(policy, calls, [call], |calls|);
      calls := calls + [call];
    }
  }

  /** Without a positive limit there is no limiter. */
  method NewRateLimiter(limit: int, window: int) returns (l: Limiter?)
    ensures l == null <==> limit <= 0
    ensures l != null ==> fresh(l) && l.Valid() && l.calls == [] && l.policy == Policy(limit, window)
  {
    if limit <= 0 {
      return null;
    }
    l := new Limiter(limit, window);
  }

  /** What a request meets: everything passes where there is no limiter. */
  method Allow(l: Limiter?, key: string, now: int) returns (verdict: Verdict)
    requires l != null ==> l.Valid()
    modifies l
    ensures l == null ==> verdict == Verdict(0, now + MINUTE, true)
    ensures l != null ==> l.Valid() && l.calls == old(l.calls) + [Call(key, now)]
    ensures l != null ==> verdict == VerdictAt(l.policy, l.calls, |l.calls| - 1)
  {
    if l == null {
      return Verdict(0, now + MINUTE, true);
    }
    verdict := l.Allow(key, now);
  }

  lemma {:induction false} AfterPrefix(p: Policy, calls: seq<Call>, more: seq<Call>, n: nat)
    requires n <= |calls|
    ensures After(p, calls + more, n) == After(p, calls, n)
  {
    if n > 0 {
      AfterPrefix(p, calls, more, n - 1);
    }
  }

  // One window

  predicate AdmittedUnder(p: Policy, calls: seq<Call>, key: string, reset: int, i: nat)
    requires i < |calls|
  {
    calls[i].key == key && VerdictAt(p, calls, i).allowed && VerdictAt(p, calls, i).reset == reset
  }

  /** How many of the first n calls of the key were admitted by the window that ends at reset. */
  function AdmissionsUnder(p: Policy, calls: seq<Call>, key: string, reset: int, n: nat): nat
    requires n <= |calls|
  {
    if n == 0 then 0
    else AdmissionsUnder(p, calls, key, reset, n - 1)
         + if AdmittedUnder(p, calls, key, reset, n - 1) then 1 else 0
  }

  /** The clock is read before the lock is taken, but readings do not run backwards in lock order. */
  predicate Forward(calls: seq<Call>) {
    forall i, j :: 0 <= i <= j < |calls| ==> calls[i].now <= calls[j].now
  }

  /** The key's entry counts its window's admissions, and no later window has admitted anything. */
  lemma {:induction false} EntryCountsItsWindow(p: Policy, calls: seq<Call>, key: string, n: nat)
    requires p.limit > 0 && p.window >= 0 && Forward(calls) && n <= |calls|
    ensures var entries := After(p, calls, n);
            && (key !in entries ==> forall reset :: AdmissionsUnder(p, calls, key, reset, n) == 0)
            && (key in entries ==>
                  && n > 0
                  && 0 < entries[key].count <= p.limit
                  && entries[key].reset <= calls[n - 1].now + p.window
                  && entries[key].count == AdmissionsUnder(p, calls, key, entries[key].reset, n)
                  && forall reset :: reset > entries[key].reset ==> AdmissionsUnder(p, calls, key, reset, n) == 0)
  {
    if n > 0 {
      EntryCountsItsWindow(p, calls, key, n - 1);
    }
  }

  /** Every verdict is exact: what remains is the limit less what the window has admitted, this call included,
      and a call is refused only by a window that has admitted its full limit. */
  lemma VerdictsAreExact(p: Policy, calls: seq<Call>, i: nat)
    requires p.limit > 0 && p.window >= 0 && Forward(calls) && i < |calls|
    ensures var verdict := VerdictAt(p, calls, i);
            && verdict.remaining == p.limit - AdmissionsUnder(p, calls, calls[i].key, verdict.reset, i + 1)
            && 0 <= verdict.remaining
            && (!verdict.allowed ==> verdict.remaining == 0)
            && verdict.reset - p.window <= calls[i].now <= verdict.reset
  {
    EntryCountsItsWindow(p, calls, calls[i].key, i);
  }

  // Any interval

  predicate AdmittedWithin(p: Policy, calls: seq<Call>, key: string, from: int, i: nat)
    requires i < |calls|
  {
    calls[i].key == key && VerdictAt(p, calls, i).allowed && from <= calls[i].now <= from + p.window
  }

  /** How many of the first n calls of the key were admitted in the closed interval of one window's length. */
  function AdmissionsWithin(p: Policy, calls: seq<Call>, key: string, from: int, n: nat): nat
    requires n <= |calls|
  {
    if n == 0 then 0
    else AdmissionsWithin(p, calls, key, from, n - 1)
         + if AdmittedWithin(p, calls, key, from, n - 1) then 1 else 0
  }

  /** At most two windows reach into the interval, and the call that opened the first of two is not in it. */
  lemma {:induction false} TwoWindowsReachIn(p: Policy, calls: seq<Call>, key: string, from: int, n: nat)
    requires p.limit > 0 && p.window >= 0 && Forward(calls) && n <= |calls|
    ensures AdmissionsWithin(p, calls, key, from, n) < 2 * p.limit
    ensures var entries, admitted := After(p, calls, n), AdmissionsWithin(p, calls, key, from, n);
            && (key !in entries ==> admitted == 0)
            && (n > 0 && calls[n - 1].now < from ==> admitted == 0)
            && (key in entries ==>
                  var entry, start := entries[key], entries[key].reset - p.window;
                  && n > 0 && start <= calls[n - 1].now
                  && 0 < entry.count <= p.limit
                  && (start < from ==> admitted < entry.count)
                  && (from <= start <= from + p.window ==> admitted < p.limit + entry.count))
  {
    if n > 0 {
      TwoWindowsReachIn(p, calls, key, from, n - 1);
    }
  }

  /** No interval of one window's length, wherever it lies, admits twice the limit. */
  lemma IntervalsAdmitLessThanTwiceTheLimit(p: Policy, calls: seq<Call>, key: string, from: int)
    requires p.limit > 0 && p.window >= 0 && Forward(calls)
    ensures AdmissionsWithin(p, calls, key, from, |calls|) < 2 * p.limit
  {
    TwoWindowsReachIn(p, calls, key, from, |calls|);
    hide *;
  }

  /** One call opens a window, the rest of its limit comes at its end, and a full window follows. */
  function Burst(p: Policy, key: string): (calls: seq<Call>)
    requires p.limit > 0
    ensures |calls| == 2 * p.limit
  {
    seq(2 * p.limit, i => Call(key, if i == 0 then 0 else if i < p.limit then p.window else p.window + 1))
  }

  lemma BurstAt(p: Policy, key: string, i: nat)
    requires p.limit > 0 && i < 2 * p.limit
    ensures Burst(p, key)[i] == Call(key, if i == 0 then 0 else if i < p.limit then p.window else p.window + 1)
  {
  }

  lemma {:induction false} BurstEntries(p: Policy, key: string, n: nat)
    requires p.limit > 0 && p.window > 0 && 0 < n <= 2 * p.limit
    ensures After(p, Burst(p, key), n)
         == map[key := if n <= p.limit then Entry(n, p.window) else Entry(n - p.limit, 2 * p.window + 1)]
  {
    BurstAt(p, key, n - 1);
    hide Burst;
    if n > 1 {
      BurstEntries(p, key, n - 1);
    }
  }

  lemma {:induction false} BurstAdmissions(p: Policy, key: string, n: nat)
    requires p.limit > 0 && p.window > 0 && 0 < n <= 2 * p.limit
    ensures AdmissionsWithin(p, Burst(p, key), key, 1, n) == n - 1
  {
    BurstAt(p, key, n - 1);
    hide Burst, After;
    if n > 1 {
      BurstAdmissions(p, key, n - 1);
      BurstEntries(p, key, n - 1);
    } else {
      assert AdmissionsWithin(p, Burst(p, key), key, 1, 0) == 0;
    }
  }

  /** So no smaller bound holds: one less than twice the limit is admitted from the first instant on. */
  lemma BurstsReachTheBound(p: Policy, key: string)
    requires p.limit > 0 && p.window > 0
    ensures Forward(Burst(p, key))
    ensures AdmissionsWithin(p, Burst(p, key), key, 1, |Burst(p, key)|) == 2 * p.limit - 1
  {
    BurstAdmissions(p, key, 2 * p.limit);
    forall i, j | 0 <= i <= j < 2 * p.limit ensures Burst(p, key)[i].now <= Burst(p, key)[j].now {
      BurstAt(p, key, i);
      BurstAt(p, key, j);
      hide Burst;
    }
  }

  // Other keys

  predicate SameFor(key: string, a: Entries, b: Entries) {
    (key in a <==> key in b) && (key in a ==> a[key] == b[key])
  }

  lemma NextForKey(p: Policy, key: string, a: Entries, b: Entries, call: Call)
    requires SameFor(key, a, b)
    ensures call.key == key ==> SameFor(key, Next(p, a, call), Next(p, b, call))
    ensures call.key != key ==> SameFor(key, Next(p, a, call), b)
  {
  }

  lemma {:induction false} EntryIsOwn(p: Policy, calls: seq<Call>, key: string)
    ensures var own := Filter(calls, OfKey(key));
            SameFor(key, After(p, calls, |calls|), After(p, own, |own|))
  {
    if calls != [] {
      var front, last := calls[..|calls| - 1], calls[|calls| - 1];
      assert calls == front + [last];
      EntryIsOwn(p, front, key);
      var own := Filter(front, OfKey(key));
      FilterSnoc(front, last, OfKey(key));
      AfterSnoc(p, front, last);
      AfterSnoc(p, own, last);
      NextForKey(p, key, After(p, front, |front|), After(p, own, |own|), last);
      hide Next, After, Filter, SameFor;
      assert own + [] == own;
    }
  }

  function OfKey(key: string): Call -> bool {
    (call: Call) => call.key == key
  }

  /** A key's entry, and so every verdict on it, depends on that key's calls alone. */
  lemma KeysAreIndependent(p: Policy, calls: seq<Call>, key: string)
    ensures var own := Filter(calls, OfKey(key));
            var all, alone := After(p, calls, |calls|), After(p, own, |own|);
            && SameFor(key, all, alone)
            && forall now :: Judge(p, all, Call(key, now)) == Judge(p, alone, Call(key, now))
  {
    EntryIsOwn(p, calls, key);
    hide After, Filter;
  }

  lemma AfterSnoc(p: Policy, front: seq<Call>, last: Call)
    ensures After(p, front + [last], |front| + 1) == Next(p, After(p, front, |front|), last)
  {
    AfterPrefix(p, front, [last], |front|);
    hide Next;
  }
}
