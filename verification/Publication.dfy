/** Publishing allow-lists: state is copied under the lock, compiled without it, and stored atomically,
    while other callers do the same. */
module Publication {
  import opened Wrappers
  import opened Text

  datatype Prefix = Prefix(text: string)

  datatype Addr = Addr(text: string)

  /** netip.ParsePrefix: None when it rejects the text. */
  type PrefixParser = string -> Option<Prefix>

  /** Prefix.Contains */
  type Containment = (Prefix, Addr) -> bool

  /** The CIDR texts each provider last reported. */
  type Statuses = map<string, seq<string>>

  /** The address part of a snapshot. */
  datatype Net = Net(allowAll: bool, allowed: seq<Prefix>, byProvider: map<string, seq<Prefix>>)

  function ProviderKey(name: string): string {
    ToLower(Trim(name))
  }

  predicate Allowed(contains: Containment, net: Net, ip: Addr) {
    net.allowAll || exists p <- net.allowed :: contains(p, ip)
  }

  predicate AllowedBy(contains: Containment, net: Net, ip: Addr, providers: seq<string>) {
    exists raw <- providers ::
      && ProviderKey(raw) != "" && ProviderKey(raw) in net.byProvider
      && exists p <- net.byProvider[ProviderKey(raw)] :: contains(p, ip)
  }

  // Compiling the lists

  predicate AllParse(parse: PrefixParser, cidrs: seq<string>) {
    forall c <- cidrs :: parse(Trim(c)).Some?
  }

  /** Blank entries of a provider are skipped, the rest must parse. */
  predicate StatusParses(parse: PrefixParser, cidrs: seq<string>) {
    forall c <- cidrs :: Trim(c) != "" ==> parse(Trim(c)).Some?
  }

  predicate NetBuilds(parse: PrefixParser, configured: seq<string>, dynamic: seq<string>, statuses: Statuses) {
    && AllParse(parse, configured + dynamic)
    && forall name <- statuses :: ProviderKey(name) != "" ==> StatusParses(parse, statuses[name])
  }

  predicate FromTexts(parse: PrefixParser, cidrs: seq<string>, p: Prefix) {
    exists c <- cidrs :: parse(Trim(c)) == Some(p)
  }

  predicate FromStatus(parse: PrefixParser, statuses: Statuses, provider: string, p: Prefix) {
    exists name <- statuses ::
      && ProviderKey(name) == provider && provider != ""
      && OneStatus(parse, statuses[name], p)
  }

  predicate Listed(byProvider: map<string, seq<Prefix>>, provider: string, p: Prefix) {
    provider in byProvider && p in byProvider[provider]
  }

  /** The compiled lists hold exactly the prefixes of the texts they were compiled from. */
  ghost predicate Reflects(parse: PrefixParser, configured: seq<string>, dynamic: seq<string>, statuses: Statuses, net: Net) {
    && (net.allowAll <==> configured + dynamic == [])
    && (forall p :: p in net.allowed <==> FromTexts(parse, configured + dynamic, p))
    && (forall provider, p :: Listed(net.byProvider, provider, p) <==> FromStatus(parse, statuses, provider, p))
  }

  method ParseAll(parse: PrefixParser, cidrs: seq<string>) returns (r: Option<seq<Prefix>>)
    ensures r.Some? <==> AllParse(parse, cidrs)
    ensures r.Some? ==> forall p :: p in r.value <==> FromTexts(parse, cidrs, p)
  {
    hide Trim;
    var prefixes: seq<Prefix> := [];
    for n := 0 to |cidrs|
      invariant AllParse(parse, cidrs[..n])
      invariant forall p :: p in prefixes <==> FromTexts(parse, cidrs[..n], p)
    {
      assert cidrs[..n + 1] == cidrs[..n] + [cidrs[n]];
      var prefix := parse(Trim(cidrs[n]));
      if prefix.None? {
        assert cidrs[n] in cidrs;
        return None;
      }
      prefixes := prefixes + [prefix.value];
    }
    assert cidrs[..|cidrs|] == cidrs;
    r := Some(prefixes);
  }

  method ParseStatus(parse: PrefixParser, cidrs: seq<string>) returns (r: Option<seq<Prefix>>)
    ensures r.Some? <==> StatusParses(parse, cidrs)
    ensures r.Some? ==> forall p :: p in r.value <==> OneStatus(parse, cidrs, p)
  {
    hide Trim;
    var prefixes: seq<Prefix> := [];
    for n := 0 to |cidrs|
      invariant StatusParses(parse, cidrs[..n])
      invariant forall p :: p in prefixes <==> OneStatus(parse, cidrs[..n], p)
    {
      assert cidrs[..n + 1] == cidrs[..n] + [cidrs[n]];
      var value := Trim(cidrs[n]);
      if value == "" {
        continue;
      }
      var prefix := parse(value);
      if prefix.None? {
        assert cidrs[n] in cidrs;
        return None;
      }
      prefixes := prefixes + [prefix.value];
    }
    assert cidrs[..|cidrs|] == cidrs;
    r := Some(prefixes);
  }

  /** The providers visited so far; the map is ranged over in no particular order. */
  function Visited(statuses: Statuses, left: set<string>): Statuses {
    statuses - left
  }

  predicate OneStatus(parse: PrefixParser, cidrs: seq<string>, p: Prefix) {
    exists c <- cidrs :: Trim(c) != "" && parse(Trim(c)) == Some(p)
  }

  lemma StatusVisited(parse: PrefixParser, before: Statuses, name: string, cidrs: seq<string>, provider: string, p: Prefix)
    requires name !in before
    ensures FromStatus(parse, before[name := cidrs], provider, p) <==>
            || FromStatus(parse, before, provider, p)
            || (ProviderKey(name) == provider && provider != "" && OneStatus(parse, cidrs, p))
  {
    hide Trim, ProviderKey, OneStatus;
    var after := before[name := cidrs];
    if FromStatus(parse, before, provider, p) {
      var n :| n in before && ProviderKey(n) == provider && provider != "" && OneStatus(parse, before[n], p);
      assert n in after && after[n] == before[n];
    }
    if ProviderKey(name) == provider && provider != "" && OneStatus(parse, cidrs, p) {
      assert name in after && after[name] == cidrs;
    }
  }

  method CompileProviders(parse: PrefixParser, statuses: Statuses) returns (r: Option<map<string, seq<Prefix>>>)
    ensures r.Some? <==> forall name <- statuses :: ProviderKey(name) != "" ==> StatusParses(parse, statuses[name])
    ensures r.Some? ==> forall provider, p :: Listed(r.value, provider, p) <==> FromStatus(parse, statuses, provider, p)
  {
    hide Trim, ToLower, StatusParses, ProviderKey;
    var byProvider: map<string, seq<Prefix>> := map[];
    var left := statuses.Keys;
    while left != {}
      invariant left <= statuses.Keys
      invariant forall name <- Visited(statuses, left) :: ProviderKey(name) != "" ==> StatusParses(parse, statuses[name])
      invariant forall provider, p ::
                  Listed(byProvider, provider, p) <==> FromStatus(parse, Visited(statuses, left), provider, p)
      decreases left
    {
      var name :| name in left;
      ghost var before := Visited(statuses, left);
      left := left - {name};
      assert Visited(statuses, left) == before[name := statuses[name]];
      var provider := ProviderKey(name);
      if provider == "" {
        forall q, p ensures Listed(byProvider, q, p) <==> FromStatus(parse, Visited(statuses, left), q, p) {
          StatusVisited(parse, before, name, statuses[name], q, p);
        }
        continue;
      }
      var prefixes := ParseStatus(parse, statuses[name]);
      if prefixes.None? {
        return None;
      }
      var sofar := if provider in byProvider then byProvider[provider] else [];
      ghost var listed := byProvider;
      byProvider := byProvider[provider := sofar + prefixes.value];
      forall q, p ensures Listed(byProvider, q, p) <==> FromStatus(parse, Visited(statuses, left), q, p) {
        StatusVisited(parse, before, name, statuses[name], q, p);
        assert Listed(listed, q, p) <==> FromStatus(parse, before, q, p);
      }
    }
    assert Visited(statuses, {}) == statuses;
    r := Some(byProvider);
  }

  method BuildNet(parse: PrefixParser, configured: seq<string>, dynamic: seq<string>, statuses: Statuses)
    returns (r: Option<Net>)
    ensures r.Some? <==> NetBuilds(parse, configured, dynamic, statuses)
    ensures r.Some? ==> Reflects(parse, configured, dynamic, statuses, r.value)
  {
    hide Trim, ProviderKey, StatusParses;
    var all := configured + dynamic;
    var allowed := ParseAll(parse, all);
    if allowed.None? {
      return None;
    }
    var byProvider := CompileProviders(parse, statuses);
    if byProvider.None? {
      return None;
    }
    r := Some(Net(|all| == 0, allowed.value, byProvider.value));
  }

  // Safety of one snapshot

  /** An address allowed through some provider is allowed globally. */
  ghost predicate Safe(contains: Containment, net: Net) {
    forall ip, providers :: AllowedBy(contains, net, ip, providers) ==> Allowed(contains, net, ip)
  }

  /** Every text of every status is among the dynamic CIDRs. */
  ghost predicate Covers(dynamic: seq<string>, statuses: Statuses) {
    forall name, c :: name in statuses && c in statuses[name] ==> c in dynamic
  }

  /** The dynamic CIDRs are the texts of all statuses, in some order. */
  ghost predicate Gathers(dynamic: seq<string>, statuses: Statuses) {
    forall c :: c in dynamic <==> exists name :: name in statuses && c in statuses[name]
  }

  lemma TextOf(parse: PrefixParser, cidrs: seq<string>, p: Prefix) returns (c: string)
    requires OneStatus(parse, cidrs, p)
    ensures c in cidrs && parse(Trim(c)) == Some(p)
  {
    c :| c in cidrs && Trim(c) != "" && parse(Trim(c)) == Some(p);
  }

  lemma CompiledTogetherIsSafe(parse: PrefixParser, contains: Containment, configured: seq<string>,
                               dynamic: seq<string>, statuses: Statuses, net: Net)
    requires Reflects(parse, configured, dynamic, statuses, net) && Covers(dynamic, statuses)
    ensures Safe(contains, net)
  {
    hide Trim, ProviderKey;
    forall ip, providers | AllowedBy(contains, net, ip, providers)
      ensures Allowed(contains, net, ip)
    {
      var raw :| && raw in providers && ProviderKey(raw) in net.byProvider
                 && exists p <- net.byProvider[ProviderKey(raw)] :: contains(p, ip);
      var p :| p in net.byProvider[ProviderKey(raw)] && contains(p, ip);
      assert Listed(net.byProvider, ProviderKey(raw), p);
      var name :| name in statuses && OneStatus(parse, statuses[name], p);
      var c := TextOf(parse, statuses[name], p);
      assert c in configured + dynamic;
      assert FromTexts(parse, configured + dynamic, p);
    }
  }

  // Concurrent callers

  datatype Published = Published(configured: seq<string>, net: Net)

  /** Where one call of Apply, Reload or UpdateProviderStatus stands. */
  datatype Caller =
    | Updated
    | Loaded(configured: seq<string>)
    | Copied(configured: seq<string>, dynamic: seq<string>, statuses: Statuses)
    | Built(snapshot: Published)

  datatype State = State(dynamic: seq<string>, statuses: Statuses, published: Option<Published>,
                         callers: map<nat, Caller>, history: seq<Published>)

  const INITIAL := State([], map[], None, map[], [])

  datatype Step =
    | BeginApply(caller: nat, configured: seq<string>)
    | UpdateStatus(caller: nat, provider: string, cidrs: seq<string>)
    | ReadCurrent(caller: nat)
    | CopyState(caller: nat)
    | Build(caller: nat)
    | Fail(caller: nat)
    | Store(caller: nat)

  /** One atomic step of one caller: the critical sections, the build, and the pointer store. */
  ghost predicate Next(parse: PrefixParser, s: State, step: Step, s': State) {
    match step
    case BeginApply(t, configured) =>
      t !in s.callers && s' == s.(callers := s.callers[t := Loaded(configured)])
    case UpdateStatus(t, provider, cidrs) =>
      && t !in s.callers && ProviderKey(provider) != ""
      && s'.statuses == s.statuses[ProviderKey(provider) := cidrs]
      && Gathers(s'.dynamic, s'.statuses)
      && s' == s.(dynamic := s'.dynamic, statuses := s'.statuses, callers := s.callers[t := Updated])
    case ReadCurrent(t) =>
      && t in s.callers && s.callers[t] == Updated
      && var configured := if s.published.Some? then s.published.value.configured else [];
         s' == s.(callers := s.callers[t := Loaded(configured)])
    case CopyState(t) =>
      && t in s.callers && s.callers[t].Loaded?
      && s' == s.(callers := s.callers[t := Copied(s.callers[t].configured, s.dynamic, s.statuses)])
    case Build(t) =>
      && t in s.callers && s.callers[t].Copied?
      && t in s'.callers && s'.callers[t].Built?
      && var local, snapshot := s.callers[t], s'.callers[t].snapshot;
         && snapshot.configured == local.configured
         && Reflects(parse, local.configured, local.dynamic, local.statuses, snapshot.net)
         && s' == s.(callers := s.callers[t := Built(snapshot)])
    case Fail(t) =>
      t in s.callers && s.callers[t].Copied? && s' == s.(callers := s.callers - {t})
    case Store(t) =>
      && t in s.callers && s.callers[t].Built?
      && s' == s.(published := Some(s.callers[t].snapshot), callers := s.callers - {t},
                  history := s.history + [s.callers[t].snapshot])
  }

  ghost predicate CallerSound(contains: Containment, caller: Caller) {
    match caller
    case Copied(_, dynamic, statuses) => Covers(dynamic, statuses)
    case Built(snapshot) => Safe(contains, snapshot.net)
    case _ => true
  }

  ghost predicate Invariant(contains: Containment, s: State) {
    && Covers(s.dynamic, s.statuses)
    && (forall t <- s.callers :: CallerSound(contains, s.callers[t]))
    && (forall snapshot <- s.history :: Safe(contains, snapshot.net))
    && (s.published.Some? ==> s.published.value in s.history)
  }

  lemma StepKeepsInvariant(parse: PrefixParser, contains: Containment, s: State, step: Step, s': State)
    requires Invariant(contains, s) && Next(parse, s, step, s')
    ensures Invariant(contains, s')
  {
    if step.Build? {
      var local := s.callers[step.caller];
      assert CallerSound(contains, local);
      CompiledTogetherIsSafe(parse, contains, local.configured, local.dynamic, local.statuses,
                             s'.callers[step.caller].snapshot.net);
    }
    if step.Store? {
      assert CallerSound(contains, s.callers[step.caller]);
    }
    hide Safe, ProviderKey, Reflects;
  }

  ghost predicate IsRun(parse: PrefixParser, states: seq<State>, steps: seq<Step>) {
    && |states| == |steps| + 1
    && states[0] == INITIAL
    && forall i :: 0 <= i < |steps| ==> Next(parse, states[i], steps[i], states[i + 1])
  }

  lemma {:induction false} RunKeepsInvariant(parse: PrefixParser, contains: Containment, states: seq<State>,
                                             steps: seq<Step>, i: nat)
    requires IsRun(parse, states, steps) && i < |states|
    ensures Invariant(contains, states[i])
  {
    if i > 0 {
      RunKeepsInvariant(parse, contains, states, steps, i - 1);
      StepKeepsInvariant(parse, contains, states[i - 1], steps[i - 1], states[i]);
    }
  }

  /** In every interleaving, every snapshot ever published allows globally whatever it allows through
      a provider. */
  lemma EveryPublishedSnapshotIsSafe(parse: PrefixParser, contains: Containment, states: seq<State>, steps: seq<Step>,
                                     i: nat, ip: Addr, providers: seq<string>)
    requires IsRun(parse, states, steps) && i < |states|
    ensures forall snapshot <- states[i].history ::
              AllowedBy(contains, snapshot.net, ip, providers) ==> Allowed(contains, snapshot.net, ip)
    ensures states[i].published.Some? ==>
              AllowedBy(contains, states[i].published.value.net, ip, providers) ==>
              Allowed(contains, states[i].published.value.net, ip)
  {
    RunKeepsInvariant(parse, contains, states, steps, i);
  }

  /** The manager's fields, and its two operations run without interference. */
  class Manager {
    const parse: PrefixParser
    var dynamicCidrs: seq<string>
    var cdnStatuses: Statuses
    var data: Option<Published>

    constructor (parse: PrefixParser)
      ensures this.parse == parse && dynamicCidrs == [] && cdnStatuses == map[] && data == None
    {
      this.parse := parse;
      dynamicCidrs, cdnStatuses, data := [], map[], None;
    }

    method Apply(configured: seq<string>) returns (ok: bool)
      modifies this`data
      ensures ok <==> NetBuilds(parse, configured, dynamicCidrs, cdnStatuses)
      ensures !ok ==> data == old(data)
      ensures ok ==> data.Some? && data.value.configured == configured
      ensures ok ==> Reflects(parse, configured, dynamicCidrs, cdnStatuses, data.value.net)
    {
      var next := BuildNet(parse, configured, dynamicCidrs, cdnStatuses);
      if next.None? {
        return false;
      }
      data := Some(Published(configured, next.value));
      return true;
    }

    method UpdateProviderStatus(provider: string, cidrs: seq<string>) returns (ok: bool)
      requires Gathers(dynamicCidrs, cdnStatuses)
      modifies this
      ensures Gathers(dynamicCidrs, cdnStatuses)
      ensures cdnStatuses == if ProviderKey(provider) == "" then old(cdnStatuses)
                             else old(cdnStatuses)[ProviderKey(provider) := cidrs]
      ensures ProviderKey(provider) == "" ==> !ok
      ensures !ok ==> data == old(data)
      ensures var configured := if old(data).Some? then old(data).value.configured else [];
              && (ProviderKey(provider) != "" ==> (ok <==> NetBuilds(parse, configured, dynamicCidrs, cdnStatuses)))
              && (ok ==> data.Some? && data.value.configured == configured)
              && (ok ==> Reflects(parse, configured, dynamicCidrs, cdnStatuses, data.value.net))
    {
      hide ProviderKey, Reflects, NetBuilds;
      var name := ProviderKey(provider);
      if name == "" {
        return false;
      }
      cdnStatuses := cdnStatuses[name := cidrs];
      var allDynamic: seq<string> := [];
      var left := cdnStatuses.Keys;
      while left != {}
        invariant left <= cdnStatuses.Keys
        invariant forall c :: c in allDynamic <==> exists n :: n in cdnStatuses && n !in left && c in cdnStatuses[n]
        decreases left
      {
        var n :| n in left;
        left := left - {n};
        allDynamic := allDynamic + cdnStatuses[n];
      }
      dynamicCidrs := allDynamic;
      ok := Apply(if data.Some? then data.value.configured else []);
    }

    /** Nothing is allowed before the first snapshot. */
    method IsIpAllowed(contains: Containment, ip: Addr) returns (allowed: bool)
      ensures allowed <==> data.Some? && Allowed(contains, data.value.net, ip)
    {
      if data.None? {
        return false;
      }
      var net := data.value.net;
      if net.allowAll {
        return true;
      }
      for n := 0 to |net.allowed|
        invariant forall k :: 0 <= k < n ==> !contains(net.allowed[k], ip)
      {
        if contains(net.allowed[n], ip) {
          return true;
        }
      }
      return false;
    }

    method IsIpAllowedByProviders(contains: Containment, ip: Addr, providers: seq<string>) returns (allowed: bool)
      ensures allowed <==> data.Some? && AllowedBy(contains, data.value.net, ip, providers)
    {
      hide ProviderKey;
      if data.None? || |providers| == 0 || |data.value.net.byProvider| == 0 {
        return false;
      }
      var byProvider := data.value.net.byProvider;
      for n := 0 to |providers|
        invariant !AllowedBy(contains, data.value.net, ip, providers[..n])
      {
        assert providers[..n + 1] == providers[..n] + [providers[n]];
        var provider := ProviderKey(providers[n]);
        if provider == "" || provider !in byProvider {
          continue;
        }
        var cidrs := byProvider[provider];
        for k := 0 to |cidrs|
          invariant forall j :: 0 <= j < k ==> !contains(cidrs[j], ip)
        {
          if contains(cidrs[k], ip) {
            return true;
          }
        }
      }
      assert providers[..|providers|] == providers;
      return false;
    }
  }
}
