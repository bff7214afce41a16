/** The scheduler and the status table together, for one site and provider: each tick decides from the row that
    the attempts before it left, and an attempt writes the row that the next tick reads. */
module OriginTrace {
  import opened Wrappers
  import opened OriginJobs
  import opened Seqs
  import OriginSchedule

  /** The ticks of a scheduler, and how the attempt of each one ends if it makes one. */
  datatype Trace = Trace(clock: OriginSchedule.Clock, ticks: seq<OriginSchedule.Tick>, attempts: seq<Attempt>)

  predicate Matched(tr: Trace) {
    |tr.attempts| == |tr.ticks|
  }

  function Failures(cell: Cell): int {
    if cell.status.Some? then cell.status.value.consecutiveFailures else 0
  }

  /** What the scheduler reads off a status row. */
  function SeenIn(cell: Cell): Option<OriginSchedule.Seen> {
    if cell.status.None? then None
    else Some(OriginSchedule.Seen(cell.status.value.lastAttempt, if Failures(cell) > 0 then Failures(cell) else 0))
  }

  predicate DueAfter(tr: Trace, cell: Cell, n: nat)
    requires n < |tr.ticks|
  {
    OriginSchedule.Due(tr.clock.scheduler, tr.ticks[n].at, tr.clock.settings, SeenIn(cell), tr.ticks[n].draws)
  }

  /** Status row and memory after the first n ticks. */
  function CellAfter(valid: CidrCheck, key: Key, tr: Trace, n: nat): Cell
    requires Matched(tr) && n <= |tr.ticks|
  {
    if n == 0 then EMPTY_CELL
    else
      var cell := CellAfter(valid, key, tr, n - 1);
      if DueAfter(tr, cell, n - 1)
      then AppliedAll(valid, cell, JobEffects(Job(key, tr.ticks[n - 1].at, Failures(cell)), tr.attempts[n - 1]))
      else cell
  }

  /** The attempts that the first n ticks made. */
  function EntriesAfter(valid: CidrCheck, key: Key, tr: Trace, n: nat): seq<Entry>
    requires Matched(tr) && n <= |tr.ticks|
  {
    if n == 0 then []
    else
      EntriesAfter(valid, key, tr, n - 1)
      + (if DueAfter(tr, CellAfter(valid, key, tr, n - 1), n - 1)
         then [Entry(tr.ticks[n - 1].at, tr.attempts[n - 1])] else [])
  }

  /** So the row and the memory tell the history of the attempts made. */
  lemma {:induction false} CellIsHistory(valid: CidrCheck, key: Key, tr: Trace, n: nat)
    requires Matched(tr) && n <= |tr.ticks|
    ensures CellAfter(valid, key, tr, n) == History(valid, key, EntriesAfter(valid, key, tr, n))
  {
    hide AppliedAll, JobEffects, OriginSchedule.Due;
    if n > 0 {
      CellIsHistory(valid, key, tr, n - 1);
      var front, e := EntriesAfter(valid, key, tr, n - 1), Entry(tr.ticks[n - 1].at, tr.attempts[n - 1]);
      if DueAfter(tr, CellAfter(valid, key, tr, n - 1), n - 1) {
        FrontOfSnoc(front, e);
        assert EntriesAfter(valid, key, tr, n) == front + [e];
      } else {
        assert EntriesAfter(valid, key, tr, n) == front;
      }
    }
  }

  predicate Publishes(valid: CidrCheck, attempt: Attempt) {
    attempt.Fetched? && AllCidrs(valid, attempt.cidrs)
  }

  /** Every attempt fetches a list that parses. */
  predicate AllPublish(valid: CidrCheck, tr: Trace) {
    forall n :: 0 <= n < |tr.attempts| ==> Publishes(valid, tr.attempts[n])
  }

  lemma StampIsStored(at: nat)
    ensures Stamp(at) == Some(OriginSchedule.Stored(at))
  {
  }

  /** While attempts succeed, the rows that the ticks read are those that the schedule's own account of its
      attempts goes by, and memory is the list of the last of them. */
  lemma {:induction false} TraceFollowsSchedule(valid: CidrCheck, key: Key, tr: Trace, n: nat)
    requires Matched(tr) && AllPublish(valid, tr) && n <= |tr.ticks|
    ensures var k, cell := OriginSchedule.LastAttempt(tr.clock, tr.ticks, n), CellAfter(valid, key, tr, n);
            && (k < 0 ==> cell == EMPTY_CELL)
            && (k >= 0 ==>
                  && SeenIn(cell) == Some(OriginSchedule.Seen(Some(OriginSchedule.Stored(tr.ticks[k].at)), 0))
                  && Publishes(valid, tr.attempts[k])
                  && cell.memory == Some(Memory(NonBlank(tr.attempts[k].cidrs), tr.ticks[k].at)))
  {
    if n > 0 {
      TraceFollowsSchedule(valid, key, tr, n - 1);
      var cell, at := CellAfter(valid, key, tr, n - 1), tr.ticks[n - 1].at;
      assert Publishes(valid, tr.attempts[n - 1]);
      AttemptOutcome(valid, cell, Job(key, at, Failures(cell)), tr.attempts[n - 1]);
      StampIsStored(at);
      hide AppliedAll, JobEffects, NonBlank, AllCidrs, OriginSchedule.Due, Stamp, OriginSchedule.Stored;
    }
  }

  /** So once a tick has attempted, memory holds the list of the last attempt. */
  lemma MemoryIsLastFetched(valid: CidrCheck, key: Key, tr: Trace, n: nat)
    requires Matched(tr) && AllPublish(valid, tr) && n <= |tr.ticks| && OriginSchedule.LastAttempt(tr.clock, tr.ticks, n) >= 0
    ensures var k, memory := OriginSchedule.LastAttempt(tr.clock, tr.ticks, n), CellAfter(valid, key, tr, n).memory;
            memory.Some? && memory.value.lastSuccess == tr.ticks[k].at
  {
    TraceFollowsSchedule(valid, key, tr, n);
    hide *;
  }

  /** The first n ticks are the ones over by the instant. */
  predicate OverBy(ticks: seq<OriginSchedule.Tick>, t: nat, n: nat) {
    && n <= |ticks|
    && (forall j :: 0 <= j < n ==> ticks[j].done <= t)
    && (n < |ticks| ==> t < ticks[n].done)
  }

  lemma {:induction false} DoneGrows(c: OriginSchedule.Clock, ticks: seq<OriginSchedule.Tick>, i: nat, j: nat)
    requires OriginSchedule.Ticking(c, ticks) && i <= j < |ticks|
    ensures ticks[i].done <= ticks[j].done
  {
    if i < j {
      DoneGrows(c, ticks, i, j - 1);
      assert ticks[j - 1].done <= ticks[j].at <= ticks[j].done;
    }
  }

  lemma {:induction false} LastAttemptIsLast(c: OriginSchedule.Clock, ticks: seq<OriginSchedule.Tick>, n: nat, j: nat)
    requires n <= |ticks|
    ensures var k := OriginSchedule.LastAttempt(c, ticks, n);
            && (k >= 0 ==> OriginSchedule.Attempted(c, ticks, k))
            && (j < n && OriginSchedule.Attempted(c, ticks, j) ==> j <= k)
  {
    hide OriginSchedule.Attempts;
    if n > 0 {
      LastAttemptIsLast(c, ticks, n - 1, j);
    }
  }

  /** The attempt that memory comes from is the one in force. */
  lemma MemoryIsInForce(c: OriginSchedule.Clock, ticks: seq<OriginSchedule.Tick>, t: nat, n: nat)
    requires OriginSchedule.Ticking(c, ticks) && OverBy(ticks, t, n) && n > 0
    ensures var k := OriginSchedule.LastAttempt(c, ticks, n);
            k >= 0 && OriginSchedule.InForce(c, ticks, t, k)
  {
    var k := OriginSchedule.LastAttempt(c, ticks, n);
    OriginSchedule.FirstTickAttempts(c, ticks);
    assert OriginSchedule.LastAttempt(c, ticks, 0) == -1;
    LastAttemptIsLast(c, ticks, n, 0);
    hide OriginSchedule.LastAttempt, OriginSchedule.Attempts;
    forall j | k < j < |ticks| && OriginSchedule.Attempted(c, ticks, j) ensures t < ticks[j].done {
      LastAttemptIsLast(c, ticks, n, j);
      DoneGrows(c, ticks, n, j);
    }
  }

  /** Which the gateway finds young enough. */
  lemma LastFetchIsUsable(c: OriginSchedule.Clock, ticks: seq<OriginSchedule.Tick>, t: nat, n: nat)
    requires OriginSchedule.Ticking(c, ticks) && OriginSchedule.KeepsPace(c)
    requires OverBy(ticks, t, n) && n > 0 && t <= ticks[|ticks| - 1].done
    ensures var k := OriginSchedule.LastAttempt(c, ticks, n);
            k >= 0 && OriginSchedule.Usable(t, ticks[k].at, OriginSchedule.MaxStaleness(Some(c.settings)))
  {
    MemoryIsInForce(c, ticks, t, n);
    var k := OriginSchedule.LastAttempt(c, ticks, n);
    assert k < n <= |ticks|;
    hide *;
    OriginSchedule.SnapshotStaysUsable(c, ticks, t, k);
  }

  /** The list last published is there and young enough. */
  lemma PublishedIsUsable(valid: CidrCheck, key: Key, tr: Trace, t: nat, n: nat)
    requires Matched(tr) && AllPublish(valid, tr) && OverBy(tr.ticks, t, n) && n > 0
    requires OriginSchedule.Ticking(tr.clock, tr.ticks) && OriginSchedule.KeepsPace(tr.clock)
    requires t <= tr.ticks[|tr.ticks| - 1].done
    ensures var memory := CellAfter(valid, key, tr, n).memory;
            memory.Some? && OriginSchedule.Usable(t, memory.value.lastSuccess, OriginSchedule.MaxStaleness(Some(tr.clock.settings)))
  {
    LastFetchIsUsable(tr.clock, tr.ticks, t, n);
    MemoryIsLastFetched(valid, key, tr, n);
    hide *;
  }
}
