/** What one run of a site's origin job writes, and what many such runs add up to. */
module OriginJobs {
  import opened Wrappers
  import opened Seqs
  import opened Text

  /** A site and a provider. */
  datatype Key = Key(site: string, provider: string)

  /** Instants as the status table stores them; None is the empty text. */
  type Instant = Option<int>

  datatype Status = Status(lastAttempt: Instant, lastSuccess: Instant, consecutiveFailures: int, lastError: string)

  datatype Update = Update(lastAttempt: Instant, lastSuccess: Instant, consecutiveFailures: int, lastError: string)

  /** The addresses the gateway checks against, and when they were fetched. */
  datatype Memory = Memory(cidrs: seq<string>, lastSuccess: int)

  /** Everything kept for one key. */
  datatype Cell = Cell(status: Option<Status>, memory: Option<Memory>)

  const EMPTY_CELL := Cell(None, None)

  type CidrCheck = string -> bool

  /** The upsert: a missing success time keeps the one already stored. */
  function Upserted(stored: Option<Status>, u: Update): Status {
    Status(u.lastAttempt,
           if u.lastSuccess.Some? then u.lastSuccess else if stored.Some? then stored.value.lastSuccess else None,
           u.consecutiveFailures, u.lastError)
  }

  function NonBlank(cidrs: seq<string>): seq<string> {
    if cidrs == [] then []
    else
      var k := |cidrs| - 1;
      NonBlank(cidrs[..k]) + (if Trim(cidrs[k]) == "" then [] else [Trim(cidrs[k])])
  }

  /** Every entry that is not blank is a CIDR. */
  predicate AllCidrs(valid: CidrCheck, cidrs: seq<string>) {
    forall c <- NonBlank(cidrs) :: valid(c)
  }

  datatype Effect = Put(update: Update) | Remember(cidrs: seq<string>, at: int)

  function Applied(valid: CidrCheck, cell: Cell, e: Effect): Cell {
    match e
    case Put(u) => cell.(status := Some(Upserted(cell.status, u)))
    case Remember(cidrs, at) =>
      if AllCidrs(valid, cidrs) then cell.(memory := Some(Memory(NonBlank(cidrs), at))) else cell
  }

  function AppliedAll(valid: CidrCheck, cell: Cell, es: seq<Effect>): Cell {
    if es == [] then cell else Applied(valid, AppliedAll(valid, cell, es[..|es| - 1]), es[|es| - 1])
  }

  /** How one attempt ends. */
  datatype Attempt =
    | Failed(error: string)
    | SaveFailed(error: string)
    | Fetched(cidrs: seq<string>)

  /** A job as it was built: when it runs and how many failures the table showed then. */
  datatype Job = Job(key: Key, at: int, prevFailures: int)

  /** Attempt and success times are stored to the second. */
  function Stamp(at: int): Instant {
    Some(at - at % 1_000_000_000)
  }

  /** The writes of one job, in order. */
  function JobEffects(job: Job, attempt: Attempt): seq<Effect> {
    [Put(Update(Stamp(job.at), None, job.prevFailures, ""))] +
    match attempt
    case Failed(error) => [Put(Update(Stamp(job.at), None, job.prevFailures + 1, error))]
    case SaveFailed(error) => [Put(Update(Stamp(job.at), None, job.prevFailures + 1, error))]
    case Fetched(cidrs) => [Put(Update(Stamp(job.at), Stamp(job.at), 0, "")), Remember(cidrs, job.at)]
  }

  /** The status table and the in-memory snapshots. */
  type World = map<Key, Cell>

  function At(w: World, key: Key): Cell {
    if key in w then w[key] else EMPTY_CELL
  }

  function NormalProvider(name: string): string {
    ToLower(Trim(name))
  }

  /** The key a site and a provider are stored under; None when either is blank. */
  function StoredKey(site: string, provider: string): Option<Key> {
    if Trim(site) == "" || NormalProvider(provider) == "" then None
    else Some(Key(Trim(site), NormalProvider(provider)))
  }

  /** A key that is stored under itself. */
  predicate IsStored(key: Key) {
    StoredKey(key.site, key.provider) == Some(key)
  }

  class OriginState {
    const valid: CidrCheck
    var world: World

    constructor (valid: CidrCheck)
      ensures this.valid == valid && world == map[]
    {
      this.valid, world := valid, map[];
    }

    method UpsertStatus(site: string, provider: string, u: Update) returns (ok: bool)
      modifies this
      ensures var key := StoredKey(site, provider);
              && (ok <==> key.Some?)
              && world == if ok then old(world)[key.value := Applied(valid, At(old(world), key.value), Put(u))] else old(world)
    {
      hide Trim, ToLower;
      var siteId, name := Trim(site), NormalProvider(provider);
      if siteId == "" || name == "" {
        return false;
      }
      var key := Key(siteId, name);
      var cell := At(world, key);
      var lastSuccess := u.lastSuccess;
      if lastSuccess.None? && cell.status.Some? {
        lastSuccess := cell.status.value.lastSuccess;
      }
      world := world[key := cell.(status := Some(Status(u.lastAttempt, lastSuccess, u.consecutiveFailures, u.lastError)))];
      return true;
    }

    method UpdateProviderSnapshot(site: string, provider: string, cidrs: seq<string>, lastSuccess: int) returns (ok: bool)
      modifies this
      ensures var key := StoredKey(site, provider);
              && (ok <==> key.Some? && AllCidrs(valid, cidrs))
              && world == if ok then old(world)[key.value := Applied(valid, At(old(world), key.value), Remember(cidrs, lastSuccess))]
                          else old(world)
    {
      hide Trim, NormalProvider;
      var siteId, name := Trim(site), NormalProvider(provider);
      if siteId == "" || name == "" {
        return false;
      }
      var prefixes: seq<string> := [];
      for n := 0 to |cidrs|
        invariant prefixes == NonBlank(cidrs[..n])
        invariant forall c <- prefixes :: valid(c)
        invariant world == old(world)
      {
        TakeSnoc(cidrs, n);
        FrontOfSnoc(cidrs[..n], cidrs[n]);
        var value := Trim(cidrs[n]);
        if value == "" {
          continue;
        }
        if !valid(value) {
          NonBlankKeeps(cidrs, n);
          return false;
        }
        prefixes := prefixes + [value];
      }
      TakeAll(cidrs);
      var key := Key(siteId, name);
      world := world[key := At(world, key).(memory := Some(Memory(prefixes, lastSuccess)))];
      return true;
    }

    /** One job; its writes are exactly its effects on its own key. */
    method RunJob(job: Job, attempt: Attempt)
      requires IsStored(job.key)
      modifies this
      ensures At(world, job.key) == AppliedAll(valid, At(old(world), job.key), JobEffects(job, attempt))
      ensures forall key :: key != job.key ==> At(world, key) == At(old(world), key)
    {
      hide AllCidrs, Stamp, StoredKey;
      var site, provider := job.key.site, job.key.provider;
      ghost var cell := At(world, job.key);
      ghost var first := Put(Update(Stamp(job.at), None, job.prevFailures, ""));
      var _ := UpsertStatus(site, provider, Update(Stamp(job.at), None, job.prevFailures, ""));
      match attempt
      case Failed(error) =>
        var _ := UpsertStatus(site, provider, Update(Stamp(job.at), None, job.prevFailures + 1, error));
        TwoEffects(valid, cell, first, Put(Update(Stamp(job.at), None, job.prevFailures + 1, error)));
      case SaveFailed(error) =>
        var _ := UpsertStatus(site, provider, Update(Stamp(job.at), None, job.prevFailures + 1, error));
        TwoEffects(valid, cell, first, Put(Update(Stamp(job.at), None, job.prevFailures + 1, error)));
      case Fetched(cidrs) =>
        var _ := UpsertStatus(site, provider, Update(Stamp(job.at), Stamp(job.at), 0, ""));
        var _ := UpdateProviderSnapshot(site, provider, cidrs, job.at);
        ThreeEffects(valid, cell, first, Put(Update(Stamp(job.at), Stamp(job.at), 0, "")), Remember(cidrs, job.at));
    }
  }

  lemma {:induction false} NonBlankKeeps(cidrs: seq<string>, n: nat)
    requires n < |cidrs| && Trim(cidrs[n]) != ""
    ensures Trim(cidrs[n]) in NonBlank(cidrs)
  {
    hide Trim;
    var k := |cidrs| - 1;
    if n < k {
      NonBlankKeeps(cidrs[..k], n);
    }
  }

  lemma TwoEffects(valid: CidrCheck, cell: Cell, a: Effect, b: Effect)
    ensures AppliedAll(valid, cell, [a] + [b]) == Applied(valid, Applied(valid, cell, a), b)
  {
    hide Applied;
    assert ([a] + [b])[..1] == [a] && [a][..0] == [];
    assert AppliedAll(valid, cell, []) == cell;
    assert AppliedAll(valid, cell, [a]) == Applied(valid, cell, a);
  }

  lemma ThreeEffects(valid: CidrCheck, cell: Cell, a: Effect, b: Effect, c: Effect)
    ensures AppliedAll(valid, cell, [a] + [b, c]) == Applied(valid, Applied(valid, Applied(valid, cell, a), b), c)
  {
    hide Applied;
    assert ([a] + [b, c])[..2] == [a] + [b];
    TwoEffects(valid, cell, a, b);
  }

  // Building the jobs of one tick

  method NormalizeProviders(items: seq<string>) returns (providers: seq<string>)
    ensures forall p :: p in providers <==> p != "" && exists item <- items :: NormalProvider(item) == p
    ensures forall i, j :: 0 <= i < j < |providers| ==> providers[i] != providers[j]
  {
    hide NormalProvider;
    providers := [];
    var seen: set<string> := {};
    for n := 0 to |items|
      invariant forall p :: p in providers <==> p in seen
      invariant forall p :: p in providers <==> p != "" && exists item <- items[..n] :: NormalProvider(item) == p
      invariant forall i, j :: 0 <= i < j < |providers| ==> providers[i] != providers[j]
    {
      TakeSnoc(items, n);
      var value := NormalProvider(items[n]);
      if value == "" || value in seen {
        continue;
      }
      seen := seen + {value};
      providers := providers + [value];
    }
    TakeAll(items);
  }

  /** A site with its configured providers and its rows of the status table. */
  datatype SiteRow = SiteRow(id: string, providers: seq<string>, statuses: map<string, Status>)

  function JobKey(job: Job): Key {
    job.key
  }

  function SiteId(site: SiteRow): string {
    site.id
  }

  function PrevFailures(site: SiteRow, provider: string): int {
    if provider in site.statuses then site.statuses[provider].consecutiveFailures else 0
  }

  /** The site asks for the provider and an attempt is due. */
  predicate Wants(due: (SiteRow, string) -> bool, site: SiteRow, provider: string) {
    provider != "" && (exists item <- site.providers :: NormalProvider(item) == provider) && due(site, provider)
  }

  /** One job per due pair of a site and a provider, so no two jobs of a tick share a key. */
  method BuildJobs(now: int, sites: seq<SiteRow>, due: (SiteRow, string) -> bool) returns (jobs: seq<Job>)
    requires Distinct(sites, SiteId)
    ensures Distinct(jobs, JobKey)
    ensures forall job <- jobs :: exists site <- sites ::
              && job.key.site == site.id && Wants(due, site, job.key.provider)
              && job == Job(job.key, now, PrevFailures(site, job.key.provider))
    ensures forall site <- sites, provider :: Wants(due, site, provider) ==>
              Job(Key(site.id, provider), now, PrevFailures(site, provider)) in jobs
    ensures (forall site <- sites :: site.id != "" && Trim(site.id) == site.id) ==> forall job <- jobs :: IsStored(job.key)
  {
    hide NormalProvider;
    jobs := [];
    for n := 0 to |sites|
      invariant Distinct(jobs, JobKey)
      invariant forall job <- jobs :: exists site <- sites[..n] ::
                  && job.key.site == site.id && Wants(due, site, job.key.provider)
                  && job == Job(job.key, now, PrevFailures(site, job.key.provider))
      invariant forall site <- sites[..n], provider :: Wants(due, site, provider) ==>
                  Job(Key(site.id, provider), now, PrevFailures(site, provider)) in jobs
    {
      TakeSnoc(sites, n);
      var site := sites[n];
      assert forall s <- sites[..n] :: s.id != site.id by { TakenDiffer(sites, n); }
      var fresh' := JobsOfSite(now, site, due);
      JobsTogether(jobs, fresh');
      jobs := jobs + fresh';
    }
    TakeAll(sites);
    if forall site <- sites :: site.id != "" && Trim(site.id) == site.id {
      forall job | job in jobs ensures IsStored(job.key) {
        WantedIsStored(due, sites, job);
      }
    }
  }

  lemma WantedIsStored(due: (SiteRow, string) -> bool, sites: seq<SiteRow>, job: Job)
    requires exists site <- sites :: job.key.site == site.id && Wants(due, site, job.key.provider)
    requires forall site <- sites :: site.id != "" && Trim(site.id) == site.id
    ensures IsStored(job.key)
  {
    var site :| site in sites && job.key.site == site.id && Wants(due, site, job.key.provider);
    var item :| item in site.providers && NormalProvider(item) == job.key.provider;
    TrimmedLowerIdempotent(item);
    hide Trim, NormalProvider;
  }

  lemma TakenDiffer(sites: seq<SiteRow>, n: nat)
    requires n < |sites| && Distinct(sites, SiteId)
    ensures forall s <- sites[..n] :: s.id != sites[n].id
  {
    forall s | s in sites[..n] ensures s.id != sites[n].id {
      var i :| 0 <= i < n && sites[i] == s;
      assert SiteId(sites[i]) != SiteId(sites[n]);
    }
  }

  lemma JobsTogether(a: seq<Job>, b: seq<Job>)
    requires Distinct(a, JobKey) && Distinct(b, JobKey)
    requires forall x <- a, y <- b :: x.key != y.key
    ensures Distinct(a + b, JobKey)
  {
    var s := a + b;
    forall i, j | 0 <= i < j < |s| ensures JobKey(s[i]) != JobKey(s[j]) {
      assert s[i] == (if i < |a| then a[i] else b[i - |a|]) && s[j] == (if j < |a| then a[j] else b[j - |a|]);
    }
  }

  method JobsOfSite(now: int, site: SiteRow, due: (SiteRow, string) -> bool) returns (jobs: seq<Job>)
    ensures Distinct(jobs, JobKey)
    ensures forall job :: job in jobs <==>
              && job.key.site == site.id && Wants(due, site, job.key.provider)
              && job == Job(job.key, now, PrevFailures(site, job.key.provider))
  {
    hide NormalProvider;
    var providers := NormalizeProviders(site.providers);
    jobs := [];
    for n := 0 to |providers|
      invariant Distinct(jobs, JobKey)
      invariant forall job :: job in jobs <==>
                  && job.key.site == site.id && job.key.provider in providers[..n] && due(site, job.key.provider)
                  && job == Job(job.key, now, PrevFailures(site, job.key.provider))
    {
      TakeSnoc(providers, n);
      var provider := providers[n];
      if !due(site, provider) {
        continue;
      }
      var job := Job(Key(site.id, provider), now, PrevFailures(site, provider));
      assert forall other <- jobs :: other.key != job.key;
      DistinctSnoc(jobs, job, JobKey);
      jobs := jobs + [job];
    }
    TakeAll(providers);
  }

  // Running the jobs of one tick side by side

  datatype Phase = Waiting | Running(done: nat) | Released | Finished

  datatype Tick = Tick(phases: seq<Phase>, next: nat, world: World, returned: bool)

  datatype Step = Launch | Write(job: nat) | Release(job: nat) | Done(job: nat) | Return

  /** The jobs of a tick with how each attempt will end, and the state they start from. */
  datatype Plan = Plan(valid: CidrCheck, jobs: seq<Job>, attempts: seq<Attempt>, maxConcurrency: int, start: World)

  /** The slots of the semaphore. */
  function Limit(maxConcurrency: int, jobs: nat): (limit: nat)
    ensures jobs > 0 ==> 1 <= limit <= jobs
    ensures limit > 1 ==> limit <= maxConcurrency
  {
    var limit := if maxConcurrency <= 0 then 1 else maxConcurrency;
    if limit > jobs then jobs else limit
  }

  ghost predicate PlanFits(p: Plan) {
    |p.attempts| == |p.jobs| && Distinct(p.jobs, JobKey) && forall job <- p.jobs :: IsStored(job.key)
  }

  function Effects(p: Plan, i: nat): seq<Effect>
    requires i < |p.jobs| == |p.attempts|
  {
    JobEffects(p.jobs[i], p.attempts[i])
  }

  /** The jobs that hold a slot. */
  function Holding(t: Tick): set<nat> {
    set i | 0 <= i < |t.phases| && t.phases[i].Running?
  }

  ghost predicate Next(p: Plan, t: Tick, step: Step, t': Tick)
    requires PlanFits(p) && |t.phases| == |p.jobs|
  {
    match step
    case Launch =>
      && t.next < |p.jobs| && |Holding(t)| < Limit(p.maxConcurrency, |p.jobs|)
      && t' == t.(phases := t.phases[t.next := Running(0)], next := t.next + 1)
    case Write(i) =>
      && i < |p.jobs| && t.phases[i].Running? && t.phases[i].done < |Effects(p, i)|
      && var d, key := t.phases[i].done, p.jobs[i].key;
         t' == t.(phases := t.phases[i := Running(d + 1)],
                  world := t.world[key := Applied(p.valid, At(t.world, key), Effects(p, i)[d])])
    case Release(i) =>
      && i < |p.jobs| && t.phases[i] == Running(|Effects(p, i)|)
      && t' == t.(phases := t.phases[i := Released])
    case Done(i) =>
      i < |p.jobs| && t.phases[i] == Released && t' == t.(phases := t.phases[i := Finished])
    case Return =>
      && t.next == |p.jobs| && !t.returned
      && (forall i :: 0 <= i < |p.jobs| ==> t.phases[i] == Finished)
      && t' == t.(returned := true)
  }

  function Progress(p: Plan, t: Tick, i: nat): nat
    requires i < |p.jobs| == |p.attempts| && |t.phases| == |p.jobs|
  {
    match t.phases[i]
    case Waiting => 0
    case Running(d) => d
    case Released => |Effects(p, i)|
    case Finished => |Effects(p, i)|
  }

  /** Each job has written a prefix of its effects to its own cell, and nothing else has changed. */
  ghost predicate Invariant(p: Plan, t: Tick)
    requires PlanFits(p)
  {
    && |t.phases| == |p.jobs| && t.next <= |p.jobs|
    && (forall i :: 0 <= i < |p.jobs| ==> (t.phases[i].Waiting? <==> t.next <= i))
    && (forall i :: 0 <= i < |p.jobs| ==> CellAsWritten(p, t, i))
    && (forall key :: (forall job <- p.jobs :: job.key != key) ==> At(t.world, key) == At(p.start, key))
    && |Holding(t)| <= Limit(p.maxConcurrency, |p.jobs|)
    && (t.returned ==> forall i :: 0 <= i < |p.jobs| ==> t.phases[i] == Finished)
  }

  ghost predicate CellAsWritten(p: Plan, t: Tick, i: nat)
    requires PlanFits(p) && i < |p.jobs| == |t.phases|
  {
    && Progress(p, t, i) <= |Effects(p, i)|
    && At(t.world, p.jobs[i].key)
       == AppliedAll(p.valid, At(p.start, p.jobs[i].key), Effects(p, i)[..Progress(p, t, i)])
  }

  lemma HoldingChanges(t: Tick, i: nat, phase: Phase)
    requires i < |t.phases|
    ensures Holding(t.(phases := t.phases[i := phase]))
         == if phase.Running? then Holding(t) + {i} else Holding(t) - {i}
  {
  }

  lemma WriteKeepsCells(p: Plan, t: Tick, i: nat, t': Tick)
    requires PlanFits(p) && Invariant(p, t) && Next(p, t, Write(i), t')
    ensures forall j :: 0 <= j < |p.jobs| ==> CellAsWritten(p, t', j)
  {
    hide JobEffects, Applied, IsStored;
    forall j | 0 <= j < |p.jobs| ensures CellAsWritten(p, t', j) {
      assert CellAsWritten(p, t, j);
      if j == i {
        var d, es := t.phases[i].done, Effects(p, i);
        assert es[..d + 1][..d] == es[..d];
      } else {
        assert JobKey(p.jobs[i]) != JobKey(p.jobs[j]);
      }
    }
  }

  /** A step that writes nothing moves one job on without changing how much it has written. */
  lemma QuietStepKeepsInvariant(p: Plan, t: Tick, i: nat, phase: Phase, next: nat)
    requires PlanFits(p) && Invariant(p, t) && i < |p.jobs| && next <= |p.jobs|
    requires var t' := t.(phases := t.phases[i := phase], next := next); Progress(p, t', i) == Progress(p, t, i)
    requires !phase.Waiting? && (if t.phases[i].Waiting? then i == t.next && next == t.next + 1 else next == t.next)
    requires phase.Running? ==> |Holding(t)| < Limit(p.maxConcurrency, |p.jobs|)
    requires t.phases[i] != Finished
    ensures Invariant(p, t.(phases := t.phases[i := phase], next := next))
  {
    hide JobEffects, AppliedAll, IsStored;
    var t' := t.(phases := t.phases[i := phase], next := next);
    assert t'.phases == t.(phases := t.phases[i := phase]).phases;
    HoldingChanges(t, i, phase);
    assert Holding(t') == Holding(t.(phases := t.phases[i := phase]));
    forall j | 0 <= j < |p.jobs| ensures CellAsWritten(p, t', j) {
      assert CellAsWritten(p, t, j);
      assert Progress(p, t', j) == Progress(p, t, j);
    }
  }

  lemma WriteKeepsInvariant(p: Plan, t: Tick, i: nat, t': Tick)
    requires PlanFits(p) && Invariant(p, t) && Next(p, t, Write(i), t')
    ensures Invariant(p, t')
  {
    WriteKeepsCells(p, t, i, t');
    hide JobEffects, Applied, AppliedAll, CellAsWritten, IsStored;
    HoldingChanges(t, i, Running(t.phases[i].done + 1));
    assert Holding(t') == Holding(t);
    assert p.jobs[i] in p.jobs;
  }

  lemma StepKeepsInvariant(p: Plan, t: Tick, step: Step, t': Tick)
    requires PlanFits(p) && Invariant(p, t) && Next(p, t, step, t')
    ensures Invariant(p, t')
  {
    hide JobEffects, AppliedAll, IsStored, CellAsWritten, Holding;
    match step
    case Launch =>
      hide Invariant;
      LaunchKeepsInvariant(p, t, t');
    case Write(i) =>
      hide Invariant;
      WriteKeepsInvariant(p, t, i, t');
    case Release(i) => QuietStepKeepsInvariant(p, t, i, Released, t.next);
    case Done(i) => QuietStepKeepsInvariant(p, t, i, Finished, t.next);
    case Return =>
      hide Invariant;
      ReturnKeepsInvariant(p, t, t');
  }

  lemma LaunchKeepsInvariant(p: Plan, t: Tick, t': Tick)
    requires PlanFits(p) && Invariant(p, t) && Next(p, t, Launch, t')
    ensures Invariant(p, t')
  {
    hide JobEffects, AppliedAll, IsStored, CellAsWritten, Holding;
    QuietStepKeepsInvariant(p, t, t.next, Running(0), t.next + 1);
  }

  lemma ReturnKeepsInvariant(p: Plan, t: Tick, t': Tick)
    requires PlanFits(p) && Invariant(p, t) && Next(p, t, Return, t')
    ensures Invariant(p, t')
  {
    hide JobEffects, AppliedAll, IsStored;
    assert forall j :: 0 <= j < |p.jobs| ==> CellAsWritten(p, t, j) ==> CellAsWritten(p, t', j);
    assert Holding(t') == Holding(t);
  }

  ghost predicate IsRun(p: Plan, ticks: seq<Tick>, steps: seq<Step>)
    requires PlanFits(p)
  {
    && |ticks| == |steps| + 1
    && ticks[0] == Tick(seq(|p.jobs|, _ => Waiting), 0, p.start, false)
    && forall i :: 0 <= i < |steps| ==> |ticks[i].phases| == |p.jobs| && Next(p, ticks[i], steps[i], ticks[i + 1])
  }

  lemma {:induction false} RunKeepsInvariant(p: Plan, ticks: seq<Tick>, steps: seq<Step>, n: nat)
    requires PlanFits(p) && IsRun(p, ticks, steps) && n < |ticks|
    ensures Invariant(p, ticks[n])
  {
    hide JobEffects, Applied, IsStored;
    if n == 0 {
      assert Holding(ticks[0]) == {};
      assert forall i :: 0 <= i < |p.jobs| ==> Effects(p, i)[..0] == [];
      hide Effects;
      assert forall i :: 0 <= i < |p.jobs| ==> CellAsWritten(p, ticks[0], i);
    } else {
      RunKeepsInvariant(p, ticks, steps, n - 1);
      StepKeepsInvariant(p, ticks[n - 1], steps[n - 1], ticks[n]);
    }
  }

  /** The jobs run one after the other, in list order. */
  function InOrder(p: Plan, n: nat): World
    requires n <= |p.jobs| == |p.attempts|
  {
    if n == 0 then p.start
    else
      var w, key := InOrder(p, n - 1), p.jobs[n - 1].key;
      w[key := AppliedAll(p.valid, At(w, key), Effects(p, n - 1))]
  }

  lemma {:induction false} InOrderCells(p: Plan, n: nat, key: Key)
    requires PlanFits(p) && n <= |p.jobs|
    ensures (forall i :: 0 <= i < n ==> p.jobs[i].key != key) ==> At(InOrder(p, n), key) == At(p.start, key)
    ensures forall i :: 0 <= i < n && p.jobs[i].key == key ==>
              At(InOrder(p, n), key) == AppliedAll(p.valid, At(p.start, key), Effects(p, i))
  {
    hide JobEffects, AppliedAll, IsStored;
    if n > 0 {
      InOrderCells(p, n - 1, key);
      forall i | 0 <= i < n && p.jobs[i].key == key
        ensures At(InOrder(p, n), key) == AppliedAll(p.valid, At(p.start, key), Effects(p, i))
      {
        if i == n - 1 {
          assert forall j :: 0 <= j < n - 1 ==> JobKey(p.jobs[j]) != JobKey(p.jobs[i]);
        } else {
          assert JobKey(p.jobs[i]) != JobKey(p.jobs[n - 1]);
        }
      }
    }
  }

  /** In every interleaving at most `maxConcurrency` jobs, or one, hold a slot; when the tick returns every job has
      finished, and the status table and the snapshots are those of running the jobs in list order. */
  lemma TickIsBoundedAndOrderly(p: Plan, ticks: seq<Tick>, steps: seq<Step>, n: nat, key: Key)
    requires PlanFits(p) && IsRun(p, ticks, steps) && n < |ticks|
    ensures |ticks[n].phases| == |p.jobs|
    ensures |Holding(ticks[n])| <= if p.maxConcurrency <= 0 then 1 else p.maxConcurrency
    ensures ticks[n].returned ==>
              && (forall i :: 0 <= i < |p.jobs| ==> ticks[n].phases[i] == Finished)
              && At(ticks[n].world, key) == At(InOrder(p, |p.jobs|), key)
  {
    RunKeepsInvariant(p, ticks, steps, n);
    hide JobEffects, AppliedAll, IsRun, IsStored;
    InOrderCells(p, |p.jobs|, key);
    if ticks[n].returned {
      if i :| 0 <= i < |p.jobs| && p.jobs[i].key == key {
        assert CellAsWritten(p, ticks[n], i);
        TakeAll(Effects(p, i));
      } else {
        assert forall job <- p.jobs :: job.key != key;
      }
    }
  }

  // Every tick comes to its end

  function Remaining(phase: Phase, effects: nat): nat {
    match phase
    case Waiting => effects + 3
    case Running(d) => if d <= effects then effects - d + 2 else 0
    case Released => 1
    case Finished => 0
  }

  /** The steps the first n jobs have left to take. */
  function StepsLeft(p: Plan, t: Tick, n: nat): nat
    requires n <= |p.jobs| == |p.attempts| == |t.phases|
  {
    if n == 0 then 0 else StepsLeft(p, t, n - 1) + Remaining(t.phases[n - 1], |Effects(p, n - 1)|)
  }

  function Measure(p: Plan, t: Tick): nat
    requires |p.jobs| == |p.attempts| == |t.phases|
  {
    StepsLeft(p, t, |p.jobs|) + if t.returned then 0 else 1
  }

  lemma {:induction false} OnePhaseMoves(p: Plan, t: Tick, t': Tick, i: nat, n: nat)
    requires n <= |p.jobs| == |p.attempts| == |t.phases| == |t'.phases| && i < |p.jobs|
    requires forall j :: 0 <= j < |p.jobs| && j != i ==> t'.phases[j] == t.phases[j]
    ensures StepsLeft(p, t', n) + (if i < n then Remaining(t.phases[i], |Effects(p, i)|) else 0)
         == StepsLeft(p, t, n) + (if i < n then Remaining(t'.phases[i], |Effects(p, i)|) else 0)
  {
    if n > 0 {
      OnePhaseMoves(p, t, t', i, n - 1);
    }
  }

  lemma StepTakesOne(p: Plan, t: Tick, step: Step, t': Tick)
    requires PlanFits(p) && Invariant(p, t) && Next(p, t, step, t')
    ensures Measure(p, t') == Measure(p, t) - 1
  {
    hide JobEffects, AppliedAll, IsStored, CellAsWritten;
    match step
    case Launch =>
      assert t.phases[t.next].Waiting?;
      OnePhaseMoves(p, t, t', t.next, |p.jobs|);
    case Write(i) => OnePhaseMoves(p, t, t', i, |p.jobs|);
    case Release(i) => OnePhaseMoves(p, t, t', i, |p.jobs|);
    case Done(i) => OnePhaseMoves(p, t, t', i, |p.jobs|);
    case Return => SamePhases(p, t, t', |p.jobs|);
  }

  lemma {:induction false} SamePhases(p: Plan, t: Tick, t': Tick, n: nat)
    requires n <= |p.jobs| == |p.attempts| == |t.phases| && t'.phases == t.phases
    ensures StepsLeft(p, t', n) == StepsLeft(p, t, n)
  {
    if n > 0 {
      SamePhases(p, t, t', n - 1);
    }
  }

  lemma {:induction false} NothingLeft(p: Plan, t: Tick, n: nat)
    requires n <= |p.jobs| == |p.attempts| == |t.phases|
    requires forall i :: 0 <= i < n ==> t.phases[i] == Finished
    ensures StepsLeft(p, t, n) == 0
  {
    if n > 0 {
      NothingLeft(p, t, n - 1);
    }
  }

  /** A tick that has not returned can take a step. */
  lemma SomeStepIsEnabled(p: Plan, t: Tick) returns (step: Step, t': Tick)
    requires PlanFits(p) && Invariant(p, t) && !t.returned
    ensures Next(p, t, step, t')
  {
    hide JobEffects, AppliedAll, IsStored;
    if i :| 0 <= i < |p.jobs| && t.phases[i].Running? {
      assert CellAsWritten(p, t, i);
      var d, key := t.phases[i].done, p.jobs[i].key;
      if d < |Effects(p, i)| {
        step := Write(i);
        t' := t.(phases := t.phases[i := Running(d + 1)],
                 world := t.world[key := Applied(p.valid, At(t.world, key), Effects(p, i)[d])]);
      } else {
        step, t' := Release(i), t.(phases := t.phases[i := Released]);
      }
    } else if i :| 0 <= i < |p.jobs| && t.phases[i] == Released {
      step, t' := Done(i), t.(phases := t.phases[i := Finished]);
    } else if t.next < |p.jobs| {
      assert Holding(t) == {};
      step, t' := Launch, t.(phases := t.phases[t.next := Running(0)], next := t.next + 1);
    } else {
      step, t' := Return, t.(returned := true);
    }
  }

  /** However a tick is scheduled it never gets stuck, and it returns after one and the same number of steps. */
  lemma {:induction false} TickReturns(p: Plan, ticks: seq<Tick>, steps: seq<Step>, n: nat)
    requires PlanFits(p) && IsRun(p, ticks, steps) && n < |ticks|
    ensures |ticks[0].phases| == |ticks[n].phases| == |p.jobs|
    ensures Measure(p, ticks[n]) + n == Measure(p, ticks[0])
    ensures ticks[n].returned <==> n == Measure(p, ticks[0])
    ensures !ticks[n].returned ==> exists step, t' :: Next(p, ticks[n], step, t')
  {
    RunKeepsInvariant(p, ticks, steps, n);
    if n == 0 {
      hide *;
      EndsOrGoesOn(p, ticks[0]);
    } else {
      var m := n - 1;
      RunKeepsInvariant(p, ticks, steps, m);
      RunStep(p, ticks, steps, m);
      hide *;
      TickReturns(p, ticks, steps, m);
      StepTakesOne(p, ticks[m], steps[m], ticks[n]);
      EndsOrGoesOn(p, ticks[n]);
    }
  }

  lemma RunStep(p: Plan, ticks: seq<Tick>, steps: seq<Step>, m: nat)
    requires PlanFits(p) && IsRun(p, ticks, steps) && m < |steps|
    ensures m + 1 < |ticks| && |ticks[m].phases| == |p.jobs| && Next(p, ticks[m], steps[m], ticks[m + 1])
  {
    hide Next;
  }

  /** The measure is used up exactly when the tick has returned, and until then a step can be taken. */
  lemma EndsOrGoesOn(p: Plan, t: Tick)
    requires PlanFits(p) && Invariant(p, t)
    ensures |t.phases| == |p.jobs| == |p.attempts| && (t.returned <==> Measure(p, t) == 0)
    ensures !t.returned ==> exists step, t' :: Next(p, t, step, t')
  {
    hide JobEffects, AppliedAll, IsStored, CellAsWritten, Effects, Next;
    if t.returned {
      NothingLeft(p, t, |p.jobs|);
    } else {
      var step, t' := SomeStepIsEnabled(p, t);
    }
  }

  // Many attempts for one key, one after the other

  datatype Entry = Entry(at: int, attempt: Attempt)

  /** Each attempt is built from the status its predecessor left. */
  function History(valid: CidrCheck, key: Key, entries: seq<Entry>): Cell {
    if entries == [] then EMPTY_CELL
    else
      var cell, e := History(valid, key, entries[..|entries| - 1]), entries[|entries| - 1];
      var failures := if cell.status.Some? then cell.status.value.consecutiveFailures else 0;
      AppliedAll(valid, cell, JobEffects(Job(key, e.at, failures), e.attempt))
  }

  function Succeeds(): Entry -> bool {
    (e: Entry) => e.attempt.Fetched?
  }

  function Published(valid: CidrCheck): Entry -> bool {
    (e: Entry) => e.attempt.Fetched? && AllCidrs(valid, e.attempt.cidrs)
  }

  lemma AttemptOutcome(valid: CidrCheck, cell: Cell, job: Job, attempt: Attempt)
    ensures var after := AppliedAll(valid, cell, JobEffects(job, attempt));
            && after.status.Some?
            && after.status.value.lastAttempt == Stamp(job.at)
            && after.status.value.consecutiveFailures == (if attempt.Fetched? then 0 else job.prevFailures + 1)
            && after.status.value.lastSuccess
               == (if attempt.Fetched? then Stamp(job.at)
                   else if cell.status.Some? then cell.status.value.lastSuccess else None)
            && after.memory
               == (if attempt.Fetched? && AllCidrs(valid, attempt.cidrs)
                   then Some(Memory(NonBlank(attempt.cidrs), job.at)) else cell.memory)
  {
    hide AllCidrs, NonBlank;
    var first := Put(Update(Stamp(job.at), None, job.prevFailures, ""));
    match attempt
    case Failed(error) =>
      TwoEffects(valid, cell, first, Put(Update(Stamp(job.at), None, job.prevFailures + 1, error)));
    case SaveFailed(error) =>
      TwoEffects(valid, cell, first, Put(Update(Stamp(job.at), None, job.prevFailures + 1, error)));
    case Fetched(cidrs) =>
      ThreeEffects(valid, cell, first, Put(Update(Stamp(job.at), Stamp(job.at), 0, "")), Remember(cidrs, job.at));
  }

  /** After any run of attempts the table counts the failures since the last success, holds the time of
      the last success, and the gateway's snapshot is that of the last success whose CIDRs all parse. */
  lemma {:induction false} StatusTellsHistory(valid: CidrCheck, key: Key, entries: seq<Entry>)
    requires entries != []
    ensures var cell := History(valid, key, entries);
            var s, m := LastIndex(entries, Succeeds()), LastIndex(entries, Published(valid));
            && cell.status.Some?
            && cell.status.value.lastAttempt == Stamp(entries[|entries| - 1].at)
            && cell.status.value.consecutiveFailures == |entries| - 1 - s
            && cell.status.value.lastSuccess == (if s >= 0 then Stamp(entries[s].at) else None)
            && (m >= 0 ==> entries[m].attempt.Fetched?)
            && cell.memory
               == (if m >= 0 then Some(Memory(NonBlank(entries[m].attempt.cidrs), entries[m].at)) else None)
  {
    var front, e := entries[..|entries| - 1], entries[|entries| - 1];
    var cell := History(valid, key, front);
    var failures := if cell.status.Some? then cell.status.value.consecutiveFailures else 0;
    AttemptOutcome(valid, cell, Job(key, e.at, failures), e.attempt);
    hide AllCidrs, NonBlank, Stamp, AppliedAll, JobEffects;
    if front != [] {
      StatusTellsHistory(valid, key, front);
    }
    LastIndexIsLast(entries, Published(valid));
  }

  /** A success time, once stored, is never cleared. */
  lemma SuccessTimeStays(valid: CidrCheck, key: Key, entries: seq<Entry>, more: Entry)
    requires entries != [] && History(valid, key, entries).status.Some?
    requires History(valid, key, entries).status.value.lastSuccess.Some?
    ensures var after := History(valid, key, entries + [more]);
            after.status.Some? && after.status.value.lastSuccess.Some?
  {
    hide AllCidrs, NonBlank, AppliedAll, JobEffects;
    StatusTellsHistory(valid, key, entries);
    StatusTellsHistory(valid, key, entries + [more]);
    FrontOfSnoc(entries, more);
  }
}
