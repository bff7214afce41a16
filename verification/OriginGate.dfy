/** The gateway's check of a request's source address against a site's allow-lists. */
module OriginGate {
  import opened Wrappers
  import opened Text
  import OriginJobs
  import OriginSchedule
  import OriginTrace

  type Addr = string

  /** Whether a text is a CIDR that contains an address. */
  type Containment = (string, Addr) -> bool

  /** The part of a site's configuration that protects its origin. */
  datatype Protection = Protection(mode: string, providers: seq<string>, cidrs: seq<string>,
                                   settings: Option<map<string, OriginSchedule.Settings>>)

  datatype Denial = NotDenied | ByProviders | ByCidrs | ByBoth | Globally

  function SettingsFor(p: Protection, provider: string): Option<OriginSchedule.Settings> {
    if p.settings.Some? && provider in p.settings.value then Some(p.settings.value[provider]) else None
  }

  /** How old a provider's snapshot may be. */
  function Staleness(p: Protection): string -> int {
    provider => OriginSchedule.MaxStaleness(SettingsFor(p, provider))
  }

  /** The provider's snapshot is there, is not too old, and contains the address. */
  predicate Vouches(contains: Containment, world: OriginJobs.World, siteId: string, provider: string, ip: Addr,
                    now: int, staleness: string -> int) {
    var memory := OriginJobs.At(world, OriginJobs.Key(siteId, provider)).memory;
    && provider != "" && memory.Some?
    && OriginSchedule.Usable(now, memory.value.lastSuccess, staleness(provider))
    && exists c <- memory.value.cidrs :: contains(c, ip)
  }

  /** Some listed provider vouches for the address; no address could be read when ip is None. */
  predicate AllowedBySiteProviders(contains: Containment, world: OriginJobs.World, siteId: string, ip: Option<Addr>,
                                   providers: seq<string>, now: int, staleness: string -> int) {
    ip.Some? && exists name <- providers ::
      Vouches(contains, world, siteId, OriginJobs.NormalProvider(name), ip.value, now, staleness)
  }

  method IsIpAllowedBySiteProviders(contains: Containment, world: OriginJobs.World, siteId: string, ip: Option<Addr>,
                                    providers: seq<string>, now: int, staleness: string -> int) returns (allowed: bool)
    ensures allowed <==> AllowedBySiteProviders(contains, world, siteId, ip, providers, now, staleness)
  {
    hide OriginJobs.NormalProvider;
    if ip.None? || |providers| == 0 {
      return false;
    }
    for n := 0 to |providers|
      invariant forall k :: 0 <= k < n ==>
                  !Vouches(contains, world, siteId, OriginJobs.NormalProvider(providers[k]), ip.value, now, staleness)
    {
      var provider := OriginJobs.NormalProvider(providers[n]);
      if provider == "" {
        continue;
      }
      var snapshot := OriginJobs.At(world, OriginJobs.Key(siteId, provider)).memory;
      if snapshot.None? || |snapshot.value.cidrs| == 0 {
        continue;
      }
      var limit := staleness(provider);
      if limit > 0 && now - snapshot.value.lastSuccess > limit {
        continue;
      }
      for k := 0 to |snapshot.value.cidrs|
        invariant forall j :: 0 <= j < k ==> !contains(snapshot.value.cidrs[j], ip.value)
      {
        if contains(snapshot.value.cidrs[k], ip.value) {
          return true;
        }
      }
    }
    return false;
  }

  predicate HasProviderRules(p: Protection) {
    p.providers != [] && ToLower(Trim(p.mode)) != "disabled"
  }

  predicate InCidrs(contains: Containment, cidrs: seq<string>, ip: Option<Addr>) {
    ip.Some? && exists c <- cidrs :: contains(c, ip.value)
  }

  predicate InProviders(contains: Containment, world: OriginJobs.World, siteId: string, p: Protection, ip: Option<Addr>,
                        now: int) {
    && HasProviderRules(p) && siteId != ""
    && AllowedBySiteProviders(contains, world, siteId, ip, p.providers, now, Staleness(p))
  }

  /** A site without rules admits everyone; otherwise one of its rules must hold. */
  predicate SourceAllowed(contains: Containment, world: OriginJobs.World, siteId: string, p: Protection, ip: Option<Addr>,
                          now: int) {
    || (!HasProviderRules(p) && p.cidrs == [])
    || InProviders(contains, world, siteId, p, ip, now)
    || InCidrs(contains, p.cidrs, ip)
  }

  /** The gateway's decision; a host without a site configuration is left to the global list. */
  method CheckSource(contains: Containment, world: OriginJobs.World, siteId: string, site: Option<Protection>,
                     ip: Option<Addr>, now: int, globallyAllowed: bool) returns (allowed: bool, denial: Denial)
    ensures site.None? ==> allowed == globallyAllowed && (!allowed ==> denial == Globally)
    ensures site.Some? ==> (allowed <==> SourceAllowed(contains, world, siteId, site.value, ip, now))
    ensures site.Some? && !allowed ==>
              denial == if !HasProviderRules(site.value) then ByCidrs
                        else if site.value.cidrs == [] then ByProviders else ByBoth
  {
    hide Trim, ToLower;
    allowed, denial := false, NotDenied;
    if site.None? {
      allowed := globallyAllowed;
      if !allowed {
        denial := Globally;
      }
      return;
    }
    var p := site.value;
    var hasProviderRules := |p.providers| > 0 && ToLower(Trim(p.mode)) != "disabled";
    var hasCidrRules := |p.cidrs| > 0;
    if !hasProviderRules && !hasCidrRules {
      return true, denial;
    }
    if hasProviderRules {
      var vouched := false;
      if siteId != "" {
        vouched := IsIpAllowedBySiteProviders(contains, world, siteId, ip, p.providers, now, Staleness(p));
      }
      if vouched {
        allowed := true;
      } else {
        denial := ByProviders;
      }
    }
    if !allowed && hasCidrRules {
      allowed := InCidrs(contains, p.cidrs, ip);
      if !allowed {
        denial := if denial != NotDenied then ByBoth else ByCidrs;
      }
    }
  }

  /** The settings the scheduler runs a provider with. */
  function ScheduledSettings(p: Protection, provider: string): OriginSchedule.Settings {
    var found := SettingsFor(p, provider);
    if found.Some? then found.value else OriginSchedule.Settings(0, 0)
  }

  /** Scheduler, status table, memory and gateway together: while the scheduler keeps pace and its attempts
      succeed, no request from an address in the list last published is ever turned away, and from the
      end of the first tick there is such a list. */
  lemma PublishedAddressesAreNeverRefused(
      contains: Containment, valid: OriginJobs.CidrCheck, world: OriginJobs.World, siteId: string, p: Protection,
      name: string, tr: OriginTrace.Trace, t: nat, n: nat)
    requires OriginTrace.Matched(tr) && OriginTrace.AllPublish(valid, tr) && OriginTrace.OverBy(tr.ticks, t, n) && n > 0
    requires OriginSchedule.Ticking(tr.clock, tr.ticks) && t <= tr.ticks[|tr.ticks| - 1].done
    requires OriginSchedule.KeepsPace(tr.clock)
    requires tr.clock.settings == ScheduledSettings(p, OriginJobs.NormalProvider(name))
    requires siteId != "" && HasProviderRules(p) && name in p.providers && OriginJobs.NormalProvider(name) != ""
    requires var key := OriginJobs.Key(siteId, OriginJobs.NormalProvider(name));
             OriginJobs.At(world, key).memory == OriginTrace.CellAfter(valid, key, tr, n).memory
    ensures var memory := OriginJobs.At(world, OriginJobs.Key(siteId, OriginJobs.NormalProvider(name))).memory;
            && memory.Some?
            && forall cidr, ip :: cidr in memory.value.cidrs && contains(cidr, ip) ==>
                 SourceAllowed(contains, world, siteId, p, Some(ip), t)
  {
    var provider := OriginJobs.NormalProvider(name);
    OriginTrace.PublishedIsUsable(valid, OriginJobs.Key(siteId, provider), tr, t, n);
    SameStaleness(p, provider);
    hide OriginJobs.NormalProvider, OriginTrace.CellAfter, OriginSchedule.Usable, OriginSchedule.MaxStaleness, HasProviderRules, OriginTrace.AllPublish,
         OriginTrace.OverBy, OriginTrace.Matched, OriginSchedule.Ticking, OriginSchedule.KeepsPace, ScheduledSettings, Staleness;
    var memory := OriginJobs.At(world, OriginJobs.Key(siteId, provider)).memory;
    forall cidr, ip | cidr in memory.value.cidrs && contains(cidr, ip)
      ensures SourceAllowed(contains, world, siteId, p, Some(ip), t)
    {
      assert Vouches(contains, world, siteId, provider, ip, t, Staleness(p));
    }
  }

  /** Scheduler and gateway go by the same settings. */
  lemma SameStaleness(p: Protection, provider: string)
    ensures Staleness(p)(provider) == OriginSchedule.MaxStaleness(Some(ScheduledSettings(p, provider)))
  {
  }
}
