/** Preparing a configuration before it is compiled: migrate it, or check its two halves against each other. */
module Prepare {
  import opened Wrappers
  import opened ConfigTypes
  import opened Migration
  import opened Routing
  import opened Seqs
  import opened Text
  import Snapshot

  /** A legacy rule whose domain the load balancer claims (by position), or two defaults. */
  datatype Issue = RuleConflict(index: nat) | DefaultConflict

  function RuleConflicts(routes: seq<LbRouteRule>, rules: seq<DomainRule>): seq<Issue> {
    if rules == [] then []
    else
      var k := |rules| - 1;
      RuleConflicts(routes, rules[..k])
      + (if TakenOver(routes, NormalizeHost(rules[k].domain)) then [RuleConflict(k)] else [])
  }

  predicate TwoDefaults(cfg: Config) {
    Trim(cfg.routing.defaultUpstream) != "" && Trim(cfg.loadBalancer.defaultPoolId) != ""
  }

  function Conflicts(cfg: Config): seq<Issue> {
    if !HasLegacy(cfg.routing) || !HasBinding(cfg.loadBalancer) then []
    else
      RuleConflicts(cfg.loadBalancer.routes, cfg.routing.domains)
      + (if TwoDefaults(cfg) then [DefaultConflict] else [])
  }

  method CheckRoutingLoadBalancerConflict(routing: RoutingConfig, lb: LoadBalancerConfig) returns (issues: seq<Issue>)
    ensures issues == Conflicts(Config(routing, lb))
  {
    issues := [];
    if !HasLegacy(routing) || !HasBinding(lb) {
      return;
    }
    hide NormalizeHost, Trim, TakenOver, Snapshot.ExactReflects, Snapshot.HasRuleFor, HasLegacy, HasBinding;
    var exact, wildcards := Snapshot.CompileRoutes(lb.routes);
    for n := 0 to |routing.domains|
      invariant issues == RuleConflicts(lb.routes, routing.domains[..n])
    {
      TakeSnoc(routing.domains, n);
      FrontOfSnoc(routing.domains[..n], routing.domains[n]);
      var domain := NormalizeHost(routing.domains[n].domain);
      Snapshot.HasRuleIffTakenOver(lb.routes, exact, domain);
      if domain == "" {
        NothingTakesOverTheEmptyHost(lb.routes);
        continue;
      }
      var taken := Snapshot.HasLoadBalancerRuleForDomain(exact, wildcards, domain);
      if taken {
        issues := issues + [RuleConflict(n)];
      }
    }
    TakeAll(routing.domains);
    if Trim(routing.defaultUpstream) != "" && Trim(lb.defaultPoolId) != "" {
      issues := issues + [DefaultConflict];
    }
  }

  lemma NothingTakesOverTheEmptyHost(routes: seq<LbRouteRule>)
    ensures !TakenOver(routes, "")
  {
  }

  function Prepared(cfg: Config): Config {
    if HasBinding(cfg.loadBalancer) || !HasLegacy(cfg.routing) then cfg
    else Config(EMPTY_ROUTING, Migrate(cfg.routing, cfg.loadBalancer))
  }

  /** No issue is raised, so the configuration may be compiled. */
  predicate Accepted(cfg: Config) {
    HasBinding(cfg.loadBalancer) ==> Conflicts(cfg) == []
  }

  method PrepareRoutingAndLoadBalancer(cfg: Config) returns (result: Config, issues: seq<Issue>)
    ensures result == Prepared(cfg)
    ensures issues == [] <==> Accepted(cfg)
    ensures HasBinding(cfg.loadBalancer) ==> issues == Conflicts(cfg)
  {
    result, issues := cfg, [];
    if HasBinding(cfg.loadBalancer) {
      issues := CheckRoutingLoadBalancerConflict(cfg.routing, cfg.loadBalancer);
      return;
    }
    if !HasLegacy(cfg.routing) {
      return;
    }
    var lb := MigrateRoutingToLoadBalancer(cfg.routing, cfg.loadBalancer);
    result := Config(EMPTY_ROUTING, lb);
  }

  /** The rule conflicts reported are exactly the positions of the legacy rules taken over. */
  lemma {:induction false} RuleConflictsAreExact(routes: seq<LbRouteRule>, rules: seq<DomainRule>)
    ensures forall issue :: issue in RuleConflicts(routes, rules) <==>
              && issue.RuleConflict? && issue.index < |rules|
              && TakenOver(routes, NormalizeHost(rules[issue.index].domain))
  {
    hide NormalizeHost, TakenOver;
    if rules != [] {
      var k := |rules| - 1;
      RuleConflictsAreExact(routes, rules[..k]);
    }
  }

  /** No rule of an accepted configuration is dropped while compiling, and at most one default remains. */
  lemma AcceptedKeepsEveryRule(cfg: Config)
    requires Accepted(cfg)
    ensures forall rule <- Prepared(cfg).routing.domains ::
              !TakenOver(Prepared(cfg).loadBalancer.routes, NormalizeHost(rule.domain))
    ensures !TwoDefaults(Prepared(cfg))
  {
    hide NormalizeHost, Trim, TakenOver;
    if HasBinding(cfg.loadBalancer) && HasLegacy(cfg.routing) {
      var rules, routes := cfg.routing.domains, cfg.loadBalancer.routes;
      RuleConflictsAreExact(routes, rules);
      forall rule | rule in rules ensures !TakenOver(routes, NormalizeHost(rule.domain)) {
        var k :| 0 <= k < |rules| && rules[k] == rule;
        assert RuleConflict(k) !in RuleConflicts(routes, rules);
      }
    } else if !HasBinding(cfg.loadBalancer) {
      assert Trim("") == "" by { TrimOfNothing(); }
    }
  }

  lemma TrimOfNothing()
    ensures Trim("") == ""
  {
  }

  /** It follows that preparing an accepted configuration again changes nothing and raises no issue. */
  lemma PreparationIsAFixpoint(cfg: Config)
    requires Accepted(cfg)
    ensures Accepted(Prepared(cfg)) && Prepared(Prepared(cfg)) == Prepared(cfg)
  {
    TrimOfNothing();
    hide Trim, Migrate;
  }

  /** A host named by legacy rules, and by no wildcard pattern, is answered by the last of them exactly
      when the default pool cannot serve. */
  lemma LegacyHostAnswered(parse: UrlParser, cfg: Config, host: string)
    requires Accepted(cfg) && Builds(parse, Prepared(cfg))
    requires exists rule <- Prepared(cfg).routing.domains :: Exactly(rule.domain, host)
    ensures var p := Prepared(cfg);
            exists i :: 0 <= i < |p.routing.domains| && LastNaming(p.routing.domains, host, i)
              && (DirectAnswer(parse, p, host) == Fixed(LegacyRoute(parse, p.routing.domains[i]))
                  <==> !Available(p.loadBalancer, p.loadBalancer.defaultPoolId))
  {
    var p := Prepared(cfg);
    var rules, routes := p.routing.domains, p.loadBalancer.routes;
    AcceptedKeepsEveryRule(cfg);
    NothingTakesOverTheEmptyHost(routes);
    var named :| named in rules && Exactly(named.domain, host);
    assert !TakenOver(routes, host);
    HostLeftToTheDefault(p.loadBalancer, host);
    var i := LastIndex(rules, LegacyRuleFor(routes, host));
    LastIndexIsLast(rules, LegacyRuleFor(routes, host));
    hide NormalizeHost, Trim, TakenOver, LbAnswer, Available;
    assert LegacyRuleFor(routes, host)(named);
    assert forall k :: 0 <= k < |rules| ==> LegacyRuleFor(routes, host)(rules[k]) == Exactly(rules[k].domain, host);
    assert LastNaming(rules, host, i);
  }

  ghost predicate LastNaming(rules: seq<DomainRule>, host: string, i: nat)
    requires i < |rules|
  {
    Exactly(rules[i].domain, host) && forall k :: i < k < |rules| ==> !Exactly(rules[k].domain, host)
  }

  /** A host that no load-balancer rule speaks for is left to the default pool. */
  lemma HostLeftToTheDefault(lb: LoadBalancerConfig, host: string)
    requires !TakenOver(lb.routes, host) && !IsWildcard(host)
    ensures LbAnswer(lb, host)
         == if Available(lb, lb.defaultPoolId) then FromPool(LB_DEFAULT_LABEL, false, Trim(lb.defaultPoolId)) else NoAnswer
  {
    hide NormalizeHost, Trim, Available, Serves;
    LastIndexIsLast(lb.routes, ExactRuleFor(host));
    FirstIndexIsFirst(lb.routes, WildcardRuleFor(lb, host));
  }
}
