# Verification of YoBFF's control plane

YoBFF is a gateway whose control plane compiles a configuration into a routing snapshot and keeps the
allow-lists of content delivery networks fresh. This project models the parts of it that decide things and
proves what they promise. `dafny verify dfyconfig.toml` checks everything (Dafny 4.11).

What is modelled, file by file:

- **Routing.** `Routing` says what a configuration means, rule by rule, without any tables. `Ring` and
  `Snapshot` compile the tables and resolve hosts against them, and are shown to refine that meaning.
  `RoundRobin` and `ConcurrentPicks` show what the shared counters do, under concurrency and across their wrap,
  `Gateway` what the two draws of every request make of it. `Migration`, `PoolIds` and `Prepare` turn legacy rules into pools and routes, preserving
  meaning, and keep the two kinds of rules from clashing.
- **Reconciliation.** `Validation` and `LbAdmin` are the server's endpoints as updates of its current
  configuration, and `Rejections` says when they turn a request down and what then shows. `PlanSteps` takes the
  console's requests one at a time, `Reconcile` is its whole plan: exactly when the draft is what the server
  ends with, and that every request is then accepted and no balancer on the way is invalid.
- **Publication.** `Publication` is the address part of the snapshot: copied under a lock, compiled without it,
  stored atomically, by any number of callers in any interleaving.
- **Origin scheduler.** `OriginSchedule` (when to fetch again, and how old a snapshot gets), `OriginJobs` (the
  jobs of a tick side by side, and what a run of attempts adds up to), `OriginTrace` (ticks and status rows that
  feed one another) and `OriginGate` (the gateway's check).
- **Sites.** `SiteSecrets` (write-only secrets), `SiteVersions` (saves, versions, pruning, rollback, over whole
  runs) and `SiteRollback` (what runs keep secret and what a rollback gives back).
- **Smaller algorithms.** `NewestFirst` and `SiteLogs` (the merged log query), `RateLimiter`, `ConfigDiff`.
- `ConfigTypes`, `Text`, `Seqs`, `Arithmetic` and `Wrappers` hold what these share.

Some conventions. Values that the program passes around are datatypes; state that it updates in place is a class
whose methods are proved against a function or predicate on the old and new state. Concurrency is a step relation
over explicit states, and "every run" quantifies over all sequences of steps. URL and CIDR parsing, containment,
the cipher, the clock, random numbers and drawn identifiers are parameters. Where the order of a Go map range or
of equal keys in a query is open, so is it here.

Where the program does less than its documentation suggests, the exact condition is proved instead:
a save ends with the draft only if no pool that it keeps has a twin on the server whose id differs in case, and no
domain that it keeps is spelled in another case only (`Reconcile.SaveLoadBalancer`);
two draws per request share serial requests out by weight only if the total weight is odd or all weights are even
(`Gateway.ServeSerially`); a legacy rule is reached only when the default pool cannot serve
(`Prepare.LegacyHostAnswered`); migration changes where a host is sent when trimming changes what its upstream
parses to, and the empty host's answer when some legacy domain normalises to nothing
(`Migration.MigrationPreservesMeaning`), and breaks a configuration with an upstream that parses only thanks to a
blank around it (`Migration.BlankHostStopsMigration`); a rollback does not bring back a version whose secrets look
sealed once read (`SiteRollback.RollbackRestoresIff`); a secret that looks sealed is stored as it is
(`SiteSecrets.ReadsBackIff`); a fixed window admits up to one less than twice its limit in an interval of its own
length (`RateLimiter.BurstsReachTheBound`); the backoff shrinks when the base exceeds the cap
(`OriginSchedule.BackoffMonotoneIff`); an empty object is lost on the configuration diff
(`ConfigDiff.EmptyObjectsAreMissed`); and a rejected update, deletion or upsert shows in the current configuration,
into whose slices it was written, unless it asked for what was there (`LbAdmin.Server.UpdatePool`,
`Rejections.WeightlessPoolShows`, `Rejections.OtherCaseIsTurnedDown`).

## Model

| member | source | states |
|---|---|---|
| Ring.NormalizeNodeWeight | internal/config/manager_lb.go:140-148 | weights are clamped to 1..100 and those in range are kept |
| Ring.CompileLoadBalancerPool | internal/config/manager_lb.go:94-134 | succeeds exactly when every enabled node has a usable upstream; the result keeps the enabled nodes in order and their weighted ring |
| Ring.RingHoldsWeights | internal/config/manager_lb.go:104-126 | a ring holds each node exactly as often as its weight and nothing else, so its length is the total weight |
| Ring.RingEmptyIffNothingEnabled | internal/config/manager_lb.go:122-132 | a compiled ring is empty exactly when no node is enabled, so the two refill branches never run |
| RoundRobin.ConsecutiveDrawsAreFair | internal/config/manager_lb.go:205-216 | k draws with consecutive counter values give a node of weight w between floor(k/W)w and ceil(k/W)w hits, and exactly w when k = W |
| ConcurrentPicks.AllServed | internal/config/manager_lb.go:205-216 | however the counter steps and ring reads of concurrent picks interleave, once all have returned each node has been returned as often as the values handed out name it, across the 2^64 wrap too |
| ConcurrentPicks.ConcurrentPicksAreFair | internal/config/manager_lb.go:205-216 | the same bounds for k concurrent picks, for draws that do not cross the 2^64 wrap and, where the total weight divides 2^64, for all |
| ConcurrentPicks.WrapIsFairIff | internal/config/manager_lb.go:210-211 | turns are fair wherever they start, across the wrap too, if and only if the total weight divides 2^64 or there is but one node |
| RoundRobin.OddStrideIsFair | internal/gateway/handler.go:161-193 | every other draw over W requests is exactly fair when W is odd |
| RoundRobin.RequestsAreFairIff | internal/gateway/handler.go:161-193 | with two draws per request, W serial requests are exactly fair if and only if W is odd or every weight is even, whatever the counter reads when the first is served |
| Snapshot.CompiledPool.Pick | internal/config/manager_lb.go:205-216 | one draw advances the shared counter by one modulo 2^64 and returns the node in the slot it names; an empty ring leaves the counter alone |
| Snapshot.CompilePools | internal/config/manager_lb.go:45-55 | the pool table holds, for each non-blank id, its last definition, compiled |
| Snapshot.CompileRoutes | internal/config/manager_lb.go:57-76 | the exact table holds the last rule per host, the wildcard list all wildcard rules in order |
| Snapshot.HasLoadBalancerRuleForDomain | internal/config/manager_lb.go:222-244 | the compiled test for a claimed domain is computed as the tables say |
| Snapshot.HasRuleIffTakenOver | internal/config/manager_lb.go:222-244 | that test holds exactly when some load-balancer rule names the domain or covers it, read straight off the rules |
| Snapshot.CompileRules | internal/config/manager.go:418-441 | legacy tables hold the last exact rule per host and the wildcards in order, except those taken over; fails exactly on an unusable upstream |
| Snapshot.BuildSnapshot | internal/config/manager.go:368-459 | building succeeds exactly when every upstream it reads is usable, and the tables then say what the configuration says |
| Snapshot.Snapshot.PickTargetFromPool | internal/config/manager_lb.go:205-216 | a pool with a ring is drawn from once, any other is left alone |
| Snapshot.Snapshot.ResolvePoolTarget | internal/config/manager_lb.go:191-199 | the fallback is drawn from only when the primary cannot serve, and never both |
| Snapshot.HasRingIffAvailable | internal/config/manager_lb.go:191-216 | a compiled pool has a ring exactly when its last definition has an enabled node |
| Snapshot.FirstItemIsFirstRule | internal/config/manager_lb.go:164-174 | scanning the compiled wildcard list finds the rule that scanning the configuration finds |
| Snapshot.Snapshot.TablesAnswerDirectly | internal/config/manager_lb.go:154-185 | the table lookup gives the same answer as the direct reading of the rules, for every host |
| Snapshot.Snapshot.ResolveLoadBalancerRoute | internal/config/manager_lb.go:154-185 | returns the answer of the tables with one draw from the answering pool and none elsewhere |
| Snapshot.Snapshot.ResolveRoute | internal/config/manager.go:218-254 | returns the direct reading of the configuration: last exact LB rule that can serve, first wildcard LB rule that can, default pool, last legacy exact rule, first legacy wildcard, legacy default; one draw from the answering pool only |
| Gateway.IsHostAuthorized | internal/config/manager.go:260-263 | true exactly for hosts that have an answer; finding out costs one draw |
| Gateway.RouteRequest | internal/gateway/handler.go:161-193 | an admitted request is answered by the second of two draws, a refused one still costs the first |
| Gateway.ServeSerially | internal/gateway/handler.go:161-193 | serial requests for one host are sent to every other slot of the ring; of a total weight worth of them every node serves its weight if and only if that total is odd or all weights are even |
| PoolIds.PoolTokenShape | internal/config/manager_lb.go:404-421 | tokens hold only a-z, 0-9 and single underlines, none at either end |
| PoolIds.SanitizePoolToken | internal/config/manager_lb.go:404-421 | the rune loop computes that token |
| PoolIds.CandidatesDiffer | internal/config/manager_lb.go:392-401 | the identifiers tried one after another are pairwise distinct |
| PoolIds.BuildMigratedPoolId | internal/config/manager_lb.go:387-402 | the search ends for every used set and returns an unused identifier, recorded as used |
| PoolIds.MigratedIdIsBare | internal/config/manager_lb.go:387-402 | migrated identifiers are non-blank and survive trimming |
| Migration.MigrateRoutingToLoadBalancer | internal/config/manager_lb.go:325-385 | the two loops compute the migrated balancer |
| Migration.MigrationLinesUp | internal/config/manager_lb.go:338-363 | pools and routes line up one to one with the rules that migrate, under pairwise distinct ids |
| Migration.MigratedPoolServes | internal/config/manager_lb.go:345-357 | each migrated pool can serve and always sends to its one upstream whatever its counter reads |
| Migration.TrimmedMigration | internal/config/manager_lb.go:325-385 | where trimming changes no upstream, every non-empty host resolves after migration as before, and the empty host if and only if no legacy domain normalises to nothing |
| Migration.MigratedBuildsIff | internal/config/manager_lb.go:338-382 | the migrated configuration of an unbound balancer builds if and only if every upstream that migrates still parses once trimmed |
| Migration.MigrationPreservesMeaning | internal/config/manager_lb.go:325-385 | from a configuration that builds, the migrated one builds if and only if what migrates parses once trimmed; then a non-empty host resolves as before with the same target and HTTPS flag on every lookup if and only if trimming does not change what its upstream parses to, and the empty host if and only if besides no legacy domain normalises to nothing |
| Migration.BlankStopsMigration | internal/config/manager_lb.go:340-356 | an upstream that parses only thanks to a blank around it makes a configuration that builds migrate to one that does not |
| Migration.BlankHostStopsMigration | internal/config/manager_lb.go:340-356 | as "http://" with an ideographic space for a host does |
| Prepare.CheckRoutingLoadBalancerConflict | internal/config/manager_lb.go:273-323 | reports exactly the claimed legacy rules, in order, and a clash of defaults |
| Prepare.RuleConflictsAreExact | internal/config/manager_lb.go:304-315 | a position is reported if and only if its domain is taken over by the load balancer |
| Prepare.PrepareRoutingAndLoadBalancer | internal/config/manager_lb.go:246-257 | migrates, checks or leaves alone, as the two halves demand |
| Prepare.AcceptedKeepsEveryRule | internal/config/manager_lb.go:246-257 | in an accepted configuration the compile-time skip drops no legacy rule and at most one default is left |
| Prepare.PreparationIsAFixpoint | internal/config/manager_lb.go:246-257 | it follows that preparing an accepted configuration again changes nothing and raises nothing |
| Prepare.LegacyHostAnswered | internal/config/manager_lb.go:175-183 | a host named by legacy rules resolves to the last of them if and only if the default pool cannot serve |
| Prepare.HostLeftToTheDefault | internal/config/manager_lb.go:154-185 | a host no load-balancer rule speaks for is left to the default pool |
| Validation.ValidateLoadBalancerPoolNodes | internal/config/validate.go:335-375 | the node loop reports each missing, duplicated or invalid field at its position |
| Validation.ValidateLoadBalancerConfig | internal/config/validate.go:269-329 | the three passes report the issues of pools, default and routes, in order |
| Validation.CleanIffValid | internal/config/validate.go:269-375 | no issue is raised if and only if pools are named apart with sound nodes and the default and all routes name existing pools |
| Validation.ValidCompiles | internal/config/manager.go:414-441 | a corollary: a balancer that validates always compiles |
| LbAdmin.FindPoolIndex | internal/admin/lb.go:211-219 | the first pool whose id matches up to case, or -1 |
| LbAdmin.RemoveRoutesByPoolId | internal/admin/lb.go:239-251 | keeps, in order, exactly the routes that name the pool neither first nor as fallback |
| LbAdmin.AdmissibleIffValid | internal/admin/lb.go:184-205 | a corollary: without legacy rules a configuration is admitted if and only if its balancer is valid, and is then put in force as it stands |
| LbAdmin.ShiftedOverShows | internal/admin/lb.go:87-92 | removing an element in place leaves the visible slice as it was if and only if all from there on are equal |
| LbAdmin.Server.ApplyLbConfig | internal/admin/lb.go:184-205 | accepts exactly the configurations that prepare, validate and compile; only then is the prepared one put in force |
| LbAdmin.Server.CreatePool | internal/admin/lb.go:30-39 | appends the normalised pool if the result is admissible, otherwise nothing changes |
| LbAdmin.Server.UpdatePool | internal/admin/lb.go:54-85 | replaces the addressed pool if admissible; a rejected update leaves the current configuration unchanged if and only if it asked for what was there, and without legacy rules leaves it invalid |
| LbAdmin.Server.DeletePool | internal/admin/lb.go:54-98 | drops the pool, every route that names it and the default if it is that pool, if admissible; a rejected one leaves the shifted slice, unchanged if and only if all pools from there on are equal |
| LbAdmin.Server.UpsertRoute | internal/admin/lb.go:125-161 | replaces or appends the route of the domain if admissible; a rejected one leaves the configuration unchanged if and only if the domain had no route or the same one |
| LbAdmin.Server.DeleteRoute | internal/admin/lb.go:162-174 | drops the route of the domain if admissible; a rejected one leaves the shifted slice |
| Rejections.WeightlessPoolShows | internal/admin/lb.go:68-85 | on any valid server a payload with a node of no weight is turned down and yet replaces the pool it addresses, leaving an invalid balancer in the current configuration |
| Rejections.DeletionAcceptedIff | internal/admin/lb.go:86-98 | deleting a pool of a valid server is accepted if and only if no route names the pool found without spelling it as the request did |
| Rejections.DeletionShowsUnlessLast | internal/admin/lb.go:87-92 | after a rejected deletion the current configuration is the same, and still valid, if and only if the pool was the last |
| Rejections.OtherCaseIsTurnedDown | internal/admin/lb.go:86-98 | a deletion that spells a routed pool in another case is turned down and leaves the next pool twice |
| Rejections.RouteDeletionAccepted | internal/admin/lb.go:162-174 | a corollary: deleting a route of a valid server is never turned down |
| PlanSteps.LookupsExactIff | internal/admin/lb.go:211-219 | looking up the pools of a list by their own ids is exact if and only if no two ids differ only in case |
| PlanSteps.LookupExactIff | internal/admin/lb.go:211-219 | while the server's pools keep their order, the lookup of one is exact if and only if no twin stands before it, and otherwise finds such a twin |
| PlanSteps.CaseTwinsAreConfused | internal/admin/lb.go:86-98 | with any two valid pools whose ids differ only in case, deleting the second is accepted and removes the first |
| PlanSteps.CreateStep | internal/admin/lb.go:30-39 | creating a new well-formed pool keeps a valid balancer valid and adds that pool to the table |
| PlanSteps.UpdateStep | internal/admin/lb.go:68-85 | an update whose lookup is exact keeps a valid balancer valid and replaces that pool in the table |
| PlanSteps.TwinUpdateRejected | internal/admin/lb.go:68-85 | an update whose lookup hits another pool is turned down |
| PlanSteps.UpsertStep | internal/admin/lb.go:139-161 | upserting a route over existing pools keeps the balancer valid and sets the route of its normalised domain in the table |
| PlanSteps.DropRouteStep | internal/admin/lb.go:162-174 | dropping a route keeps the balancer valid and removes it from the table |
| PlanSteps.DropPoolStep | internal/admin/lb.go:86-98 | dropping a pool no route names, through an exact lookup, keeps the balancer valid and removes it from the table |
| Reconcile.KeepsPoolsIff | web/source/src/sections/traffic/site-config/useSiteConfig.ts:242-261 | no pool that the draft keeps has a case twin on the server if and only if no update and no deletion of the plan hits the wrong pool |
| Reconcile.RoutesSettle | web/source/src/sections/traffic/site-config/useSiteConfig.ts:250-257 | once the undrafted domains are deleted the routes left are drafted ones, and all of those if and only if every server domain that a draft normalises to is drafted in that spelling |
| Reconcile.PushPools | web/source/src/sections/traffic/site-config/useSiteConfig.ts:242-249 | all creates and updates are accepted if and only if no drafted pool has an earlier case twin on the server; each balancer on the way is then valid, and the server ends with its own pools overridden by the draft's |
| Reconcile.PushRoutes | web/source/src/sections/traffic/site-config/useSiteConfig.ts:250-253 | every upsert is accepted and the server ends with its own routes overridden by the draft's |
| Reconcile.DropRoutes | web/source/src/sections/traffic/site-config/useSiteConfig.ts:254-257 | every deletion is accepted and exactly the undrafted domains are gone |
| Reconcile.DropPools | web/source/src/sections/traffic/site-config/useSiteConfig.ts:258-261 | when no deletion hits a twin every one is accepted and exactly the undrafted pools are gone; otherwise the phase fails or loses a drafted pool |
| Reconcile.SaveLoadBalancer | web/source/src/sections/traffic/site-config/useSiteConfig.ts:202-261 | a draft that fails the console's checks sends nothing; a well-formed one is saved and held by the server if and only if no pool it keeps has a case twin there and no domain it keeps is spelled in another case only; the first condition makes every request accepted and each balancer in between valid |
| Publication.BuildNet | internal/config/manager.go:380-412 | fails exactly on a text that does not parse; the lists then hold exactly the prefixes of the texts |
| Publication.CompiledTogetherIsSafe | internal/config/manager.go:269-307 | lists compiled from statuses and dynamic CIDRs taken together never allow through a provider what they do not allow globally |
| Publication.StepKeepsInvariant | internal/config/manager.go:111-131 | every atomic step of Apply, Reload and UpdateProviderStatus keeps the publication invariant |
| Publication.EveryPublishedSnapshotIsSafe | internal/config/manager.go:111-185 | in every interleaving of any callers, every snapshot ever published allows globally whatever it allows through a provider |
| Publication.Manager.Apply | internal/config/manager.go:111-131 | publishes the lists of the copied state, or leaves the published snapshot alone |
| Publication.Manager.UpdateProviderStatus | internal/config/manager.go:151-185 | replaces one provider's status, regathers the dynamic CIDRs from all of them and republishes |
| Publication.Manager.IsIpAllowed | internal/config/manager.go:269-283 | global membership in the published snapshot, false before the first |
| Publication.Manager.IsIpAllowedByProviders | internal/config/manager.go:289-307 | membership through one of the named providers |
| OriginSchedule.ComputeBackoff | internal/syncer/service.go:341-351 | the loop computes base doubled per failure and capped; with base at most the cap no value on the way exceeds twice the cap |
| OriginSchedule.BackoffMonotoneIff | internal/syncer/service.go:341-351 | the backoff never shrinks as failures accumulate if and only if the base is at most the cap |
| OriginSchedule.JitterStaysClose | internal/syncer/service.go:458-471 | jitter moves a delay of a second or more by at most its ratio, and never below a second |
| OriginSchedule.IsDue | internal/syncer/service.go:326-360 | an attempt is due without a readable last attempt, or once the smaller of interval and backoff has passed |
| OriginSchedule.DelayWithoutJitter | internal/syncer/service.go:353-359 | the delay is min(interval, min(base 2^(f-1), max)) and never shrinks as failures accumulate |
| OriginSchedule.AttemptIsRecent | internal/syncer/service.go:326-360 | at every tick the last attempt is less old than the jittered interval, or this tick attempts |
| OriginSchedule.SnapshotAgeBounded | internal/syncer/service.go:326-360 | the snapshot in force is never older than the jittered interval plus one gap and one fetch |
| OriginSchedule.SnapshotStaysUsable | internal/gateway/handler.go:110-124 | under jitter of at most 0.9 and a gap and fetch of at most 1.1 intervals, the gateway never finds a published snapshot too old |
| OriginJobs.NormalizeProviders | internal/syncer/service.go:500-515 | each non-blank provider once, in normal form |
| OriginJobs.BuildJobs | internal/syncer/service.go:258-299 | one job for each due pair of site and provider and no other, so no two jobs share a key |
| OriginJobs.OriginState.UpsertStatus | internal/store/site_cdn_origin.go:126-160 | writes the status row, keeping the stored success time when none is given; blank names are refused |
| OriginJobs.OriginState.UpdateProviderSnapshot | internal/config/site_cdn.go:19-54 | replaces the snapshot when every non-blank entry is a CIDR, otherwise nothing changes |
| OriginJobs.OriginState.RunJob | internal/syncer/service.go:362-416 | a job writes its effects in order to its own key and nothing to any other |
| OriginJobs.AttemptOutcome | internal/syncer/service.go:362-416 | what one attempt leaves in status and memory, case by case |
| OriginJobs.TickIsBoundedAndOrderly | internal/syncer/service.go:305-323 | in every interleaving at most maxConcurrency jobs, or one, run at once, none outlives the tick, and the tick ends in the state of running the jobs in list order |
| OriginJobs.TickReturns | internal/syncer/service.go:305-323 | no schedule gets a tick stuck, and all let it return after the same number of steps |
| OriginJobs.StatusTellsHistory | internal/syncer/service.go:362-416 | after any run of attempts the row counts the failures since the last success and holds its time, and memory is that of the last success whose CIDRs all parse |
| OriginJobs.SuccessTimeStays | internal/store/site_cdn_origin.go:147-155 | a stored success time is never cleared |
| OriginGate.IsIpAllowedBySiteProviders | internal/config/site_cdn.go:60-105 | true exactly when some named provider has a snapshot, young enough, that contains the address |
| OriginGate.CheckSource | internal/gateway/handler.go:94-158 | a site with rules admits exactly the addresses that one of its rules vouches for; the reason names the rules that failed |
| OriginTrace.CellIsHistory | internal/syncer/service.go:258-299 | when each tick decides from the row left before it, row and memory are those of the history of the attempts made, failed or not |
| OriginTrace.TraceFollowsSchedule | internal/syncer/service.go:326-416 | while attempts succeed the rows that ticks read are those the schedule's account of attempts goes by, and memory is the last list fetched |
| OriginTrace.MemoryIsInForce | internal/syncer/service.go:326-416 | the attempt that memory comes from at an instant is the one in force then |
| OriginTrace.PublishedIsUsable | internal/gateway/handler.go:110-124 | while the scheduler keeps pace the list last published is there and young enough for the gateway |
| OriginGate.PublishedAddressesAreNeverRefused | internal/gateway/handler.go:110-124 | ticks, status row, memory and gateway coupled: while the scheduler keeps pace and its attempts succeed, from the end of the first tick there is a list in memory and no address in it is turned away |
| SiteSecrets.WriteThenRead | internal/store/site_config_secret.go:101-148 | what any written secret reads back as: plaintext trimmed, sealed text as it opens, a blank as the secret stored before |
| SiteSecrets.ReadsBackIff | internal/store/site_config_secret.go:132-143 | a secret that is not blank is stored and reads back trimmed if and only if there is a key and it does not look sealed already |
| SiteSecrets.SealedTextIsTakenAtItsWord | internal/store/site_config_secret.go:132-143 | text sealed before is stored as it is and reads back as what it seals |
| SiteSecrets.WriteHides | internal/store/site_config_secret.go:132-143 | a write over a hidden secret stores a blank or sealed text |
| SiteSecrets.ApplyDecryptedCdnSecrets | internal/store/site_config_secret.go:101-120 | every provider's secret is read, nothing else changes |
| SiteSecrets.MergeAndEncryptCdnSecrets | internal/store/site_config_secret.go:124-148 | every provider's secret is written over the stored one, or the whole merge fails for want of a key |
| SiteSecrets.RedactSiteConfigSecrets | internal/admin/sites.go:451-462 | every secret is blanked, nothing else changes |
| SiteSecrets.PuttingBackTheViewChangesNothing | internal/admin/sites.go:451-462 | storing back the redacted reading of a configuration leaves it unchanged, with or without a key |
| SiteSecrets.ViewShowsNoSecret | internal/admin/sites.go:451-462 | configurations that differ only in secrets look alike once redacted |
| SiteSecrets.ReadAfterWrite | internal/store/site_config_secret.go:101-148 | the four cases of WriteThenRead for whole configurations, provider by provider, with every other field as written |
| SiteVersions.SiteStore.CreateSite | internal/store/site.go:44-72 | adds a site with an empty payload unless the id is taken |
| SiteVersions.SiteStore.GetSiteConfig | internal/store/site.go:266-288 | the readable current configuration, empty before the first save |
| SiteVersions.SiteStore.UpdateSiteConfig | internal/store/site.go:295-380 | merges, stores, adds a version and prunes, or fails for the stated reason and changes nothing |
| SiteVersions.SiteStore.PruneVersions | internal/store/site.go:358-366 | deletes exactly the site's versions outside a newest ten |
| SiteVersions.SiteStore.GetSiteVersionConfig | internal/store/site.go:428-449 | the readable configuration of the site's version |
| SiteVersions.SiteStore.RollbackSiteVersion | internal/store/site.go:455-461 | saves the version's readable form as a new version |
| SiteVersions.SiteStore.DeleteSite | internal/store/site.go:118-157 | drops the site and all its versions |
| SiteVersions.SiteStore.DeleteSiteVersion | internal/store/site_version.go:8-34 | drops that version and no other, and says whether there was one |
| SiteVersions.PruningSparesOthers | internal/store/site.go:358-366 | pruning one site leaves every other site's versions as they were |
| SiteVersions.PruningKeepsTheNewest | internal/store/site.go:358-366 | what is left of the site are a newest ten, or all when fewer |
| SiteVersions.PruningAnAscendingHistory | internal/store/site.go:358-366 | with strictly increasing times the last ten are what is left |
| SiteVersions.StepKeepsSane | internal/store/site.go:118-380 | every operation keeps ids unique, versions on existing sites and at most ten per site |
| SiteVersions.RunsStaySane | internal/store/site.go:118-380 | so after every event of every run no site has more than ten versions |
| SiteVersions.OtherSitesUntouched | internal/store/site.go:118-380 | an operation on one site leaves every other site's configuration and versions as they were |
| SiteVersions.TheLastTenAreKept | internal/store/site.go:295-380 | in every run with strictly increasing save times and no version deleted by hand, a site has the last ten of everything saved and is configured as its last save says |
| SiteRollback.RunsHideSecrets | internal/store/site_config_secret.go:124-148 | in every run from empty tables, whatever is saved, every stored secret is blank or sealed |
| SiteRollback.RunsStayClean | internal/store/site_config_secret.go:101-148 | in every run with proper inputs every stored secret reads as blank or as trimmed text that does not look sealed |
| SiteRollback.RollbackRestoresIff | internal/store/site.go:455-461 | after a rollback the site reads as the version did, every field and every secret it holds and the earlier secret where it holds none, if and only if the version's own secrets read as blank or as trimmed text that does not look sealed |
| SiteRollback.RollbackRestoresTheVersion | internal/store/site.go:455-461 | in every run with proper inputs every rollback does |
| SiteRollback.RollbackAcceptedIff | internal/store/site.go:428-461 | a rollback succeeds if and only if the site has the version and the new id is free, even without a key |
| NewestFirst.SelectNewest | internal/store/site_logs.go:147-148 | lists at most k rows, newest first, with no row left out newer than one listed |
| NewestFirst.NewestKeysUnique | internal/store/site_logs.go:147-148 | only ties are left open: any two such lists have the same keys in the same order |
| NewestFirst.NewestOfNewest | internal/store/site_logs.go:107-128 | the newest k of two newest-k answers are the newest k of both sources |
| SiteLogs.EffectiveLimit | internal/store/site_logs.go:97-103 | a limit in 1..500 is kept, any other is brought into it |
| SiteLogs.ListSiteLogs | internal/store/site_logs.go:90-130 | the merged list is a newest-first answer over everything the query wants from both tables |
| SiteLogs.MergedEqualsSimple | internal/store/site_logs.go:107-130 | it shows the timestamps that sorting all wanted rows and cutting would show, and draws its entries from them without repetition |
| RateLimiter.Limiter.Allow | internal/admin/server.go:617-638 | the verdict and the new entries are those of replaying all calls so far |
| RateLimiter.NewRateLimiter | internal/admin/server.go:602-611 | without a positive limit there is no limiter |
| RateLimiter.Allow | internal/admin/server.go:617-620 | everything passes where there is no limiter |
| RateLimiter.VerdictsAreExact | internal/admin/server.go:617-638 | the remaining quota is the limit less what the window has admitted, and a call is refused only by a window that has admitted its full limit |
| RateLimiter.IntervalsAdmitLessThanTwiceTheLimit | internal/admin/server.go:617-638 | any closed interval of one window's length admits fewer than twice the limit |
| RateLimiter.BurstsReachTheBound | internal/admin/server.go:617-638 | and for every limit some calls reach one less than twice the limit |
| RateLimiter.KeysAreIndependent | internal/admin/server.go:617-638 | a key's entry and verdicts depend on that key's calls alone |
| ConfigDiff.BuildConfigDiff | internal/admin/config_diff.go:20-32 | for any two trees the list reports each differing leaf exactly once, with its path and both values, and nothing else |
| ConfigDiff.CollectDiffs | internal/admin/config_diff.go:54-79 | the same below any path: what is appended to the list are the differing leaves, each once, under that path |
| ConfigDiff.CollectMapDiffs | internal/admin/config_diff.go:85-100 | the same over two objects, keys in any order |
| ConfigDiff.EmptyIffAlike | internal/admin/config_diff.go:54-100 | nothing is reported if and only if the trees are alike up to null and empty objects |
| ConfigDiff.EmptyIffEqual | internal/admin/config_diff.go:54-100 | between compact trees nothing is reported if and only if they are equal |
| ConfigDiff.EmptyObjectsAreMissed | internal/admin/config_diff.go:54-100 | an empty object against none is a difference that goes unreported |
| ConfigDiff.ChangesLeadToTheTarget | internal/admin/config_diff.go:54-100 | writing every After into the base, in the order reported, gives the target |
| ConfigDiff.KeysOfRender | internal/admin/config_diff.go:92-98 | a path text can be read back into its keys as long as none is empty or holds a dot |
| ConfigDiff.ListedTextsLeadToTheTarget | internal/admin/config_diff.go:20-32 | the listed texts and values alone, written into the base, give the target, and no text is listed twice |

## Left out

- Text is a sequence of characters; lower-casing and case folding are those of ASCII, and the console's and the server's notions of blank are taken to agree.
- URL and CIDR parsing, prefix containment and the cipher are parameters. The cipher is assumed to open what it sealed, to produce no blanks and to seal into no shorter text; key loading and a change of key between operations are not modelled.
- The final default-pool step of the console's save writes a site configuration, not the global one, and is not part of the plan modelled here.
- Reconcile.SaveLoadBalancer: takes the server to hold no legacy rules and a valid balancer with normalised domains, pools of the draft to be valid and apart, and server ids and drafted domains to survive as the tail of a path; percent-encoding and path cleaning are not modelled.
- LbAdmin.Server.ApplyLbConfig: does not model the version and audit rows it saves after applying, nor the certificates, listen addresses and other settings that validation and compilation also read.
- Validation.ValidateLoadBalancerConfig: issues carry positions instead of the source's path and message texts.
- Ring.CompileLoadBalancerPool: the two refill branches are not written, because RingEmptyIffNothingEnabled shows they cannot run.
- Migration.MigrationPreservesMeaning: takes the legacy configuration to build and to have no load-balancer binding, and of the URL parser only that it finds no scheme in blank text.
- Snapshot.BuildSnapshot: covers the routing part; the address lists of the same function are Publication.BuildNet, and certificates are not part of this model.
- Publication.EveryPublishedSnapshotIsSafe: says nothing about recency; the snapshot published last need not reflect the latest status, since the store happens outside the lock.
- ConcurrentPicks.ConcurrentPicksAreFair: on a ring whose length does not divide 2^64, bounds only draws that do not cross the wrap; WrapIsFairIff says exactly when turns across it are fair.
- Gateway.ServeSerially: excludes the counter wrap, and a snapshot swapped in between requests.
- OriginSchedule.JitterStaysClose: uses reals in place of floating-point numbers.
- OriginSchedule.SnapshotStaysUsable: counts ticks from the first attempt and takes every attempt as a success; maxFetch bounds the time from a tick's start to publication, so it includes waiting for a slot behind other jobs besides the half minute a fetch itself may take. Warming the cache from stored snapshots is not modelled.
- OriginJobs.TickIsBoundedAndOrderly: takes store writes as atomic and successful; the rows that SaveSiteCDNOriginSnapshot adds are not kept in the model's state, only whether it failed.
- A manual refresh running beside the scheduler: both read the failure count before writing it, so the claims about runs hold for the scheduler alone.
- OriginGate.IsIpAllowedBySiteProviders: a stored snapshot always has a time, so the test for the zero time is not written.
- SiteVersions.SiteStore.UpdateSiteConfig: reading the stored configuration and writing the new one is one step, though only the writes share a transaction; a change by someone else in between is not modelled.
- SiteVersions.TheLastTenAreKept: excludes versions saved within the same second, whose order the query leaves open, and versions deleted by hand, which do not bring pruned ones back.
- SiteRollback.RunsStayClean: excludes callers that hand in text with the sealing prefix that opens to something untrimmed or sealed again.
- SiteVersions.SiteStore.DeleteSite: the other tables that go with a site (snapshots, statuses, log streams) are not part of this model.
- Site and log rows keep the fields that decide something; the rest is one text.
- RateLimiter.IntervalsAdmitLessThanTwiceTheLimit: takes clock readings to be in lock order, though each is made just before the lock.
- ConfigDiff.ListedTextsLeadToTheTarget: needs objects to meet objects or nothing, and lists lists or nothing, as they do in two configurations of one schema, and keys without dots; the target is reached up to null fields and empty objects.
- HTTP decoding and responses, certificates, file watching, environment overrides, audit paging, the log pipeline, login guard, captcha and the CDN clients: input and output, or easy members only.
