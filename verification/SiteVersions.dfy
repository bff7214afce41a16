/** The site tables: each site's stored configuration and its last versions. Every save adds a version
    and prunes the site's versions to the newest ten; a rollback saves an old version's readable form. */
module SiteVersions {
  import opened Wrappers
  import opened Seqs
  import opened NewestFirst
  import opened SiteSecrets

  const KEPT_VERSIONS := 10

  datatype Version = Version(id: string, siteId: string, config: SiteConfig, createdAt: string,
                             operator: string, source: string)

  /** What a save is stamped with: the drawn id and nonces, the clock, and the audit fields. */
  datatype Stamp = Stamp(id: string, now: string, operator: string, source: string, nonces: Nonces)

  /** The rows of sites (None is the empty payload) and of site_versions, oldest insert first. */
  datatype Tables = Tables(sites: map<string, Option<SiteConfig>>, versions: seq<Version>)

  const ID := (v: Version) => v.id
  const CREATED := (v: Version) => v.createdAt

  function ForSite(siteId: string): Version -> bool {
    (v: Version) => v.siteId == siteId
  }

  function Of(versions: seq<Version>, siteId: string): seq<Version> {
    Filter(versions, ForSite(siteId))
  }

  /** Marshalling drops an empty settings object, so it comes back as nil. */
  function Persisted(cfg: SiteConfig): SiteConfig {
    if cfg.settings == Some(map[]) then cfg.(settings := None) else cfg
  }

  function Current(s: Tables, siteId: string): SiteConfig
    requires siteId in s.sites
  {
    if s.sites[siteId].Some? then s.sites[siteId].value else EMPTY_CONFIG
  }

  predicate HasId(versions: seq<Version>, id: string) {
    exists v <- versions :: v.id == id
  }

  function Find(versions: seq<Version>, siteId: string, id: string): (i: int)
    ensures -1 <= i < |versions|
  {
    FirstIndex(versions, (v: Version) => v.siteId == siteId && v.id == id)
  }

  // Saving

  datatype SaveError = EmptySiteId | SiteNotFound | NoKey | DuplicateId | VersionMissing

  /** Why a save is refused, if it is. */
  function Refusal(c: Cipher, s: Tables, siteId: string, cfg: SiteConfig, stamp: Stamp): Option<SaveError> {
    if siteId == "" then Some(EmptySiteId)
    else if siteId !in s.sites then Some(SiteNotFound)
    else if !CanMerge(c, Current(s, siteId), cfg, stamp.nonces) then Some(NoKey)
    else if HasId(s.versions, stamp.id) then Some(DuplicateId)
    else None
  }

  /** The version a save adds; None when the save is refused. */
  function SavedRow(c: Cipher, s: Tables, siteId: string, cfg: SiteConfig, stamp: Stamp): Option<Version> {
    if Refusal(c, s, siteId, cfg, stamp).Some? then None
    else Some(Version(stamp.id, siteId, Persisted(Merged(c, Current(s, siteId), cfg, stamp.nonces)),
                      stamp.now, stamp.operator, stamp.source))
  }

  function KeptBy(siteId: string, kept: seq<Version>): Version -> bool {
    (v: Version) => v.siteId != siteId || HasId(kept, v.id)
  }

  /** after is what is left once the site's versions are cut to a newest ten. */
  ghost predicate Pruned(all: seq<Version>, siteId: string, after: seq<Version>) {
    exists kept ::
      Newest(Of(all, siteId), CREATED, KEPT_VERSIONS, kept) && after == Filter(all, KeptBy(siteId, kept))
  }

  ghost predicate Saves(s: Tables, row: Version, s': Tables) {
    && s'.sites == s.sites[row.siteId := Some(row.config)]
    && Pruned(s.versions + [row], row.siteId, s'.versions)
  }

  ghost predicate SaveStep(c: Cipher, s: Tables, siteId: string, cfg: SiteConfig, stamp: Stamp, s': Tables) {
    var row := SavedRow(c, s, siteId, cfg, stamp);
    if row.None? then s' == s else Saves(s, row.value, s')
  }

  class SiteStore {
    var sites: map<string, Option<SiteConfig>>
    var versions: seq<Version>

    constructor ()
      ensures State() == Tables(map[], [])
    {
      sites, versions := map[], [];
    }

    function State(): Tables
      reads this
    {
      Tables(sites, versions)
    }

    method CreateSite(siteId: string) returns (ok: bool)
      modifies this
      ensures ok <==> siteId !in old(sites)
      ensures State() == if ok then WithSite(old(State()), siteId) else old(State())
    {
      ok := siteId !in sites;
      if ok {
        sites := sites[siteId := None];
      }
    }

    method GetSiteConfig(c: Cipher, siteId: string) returns (r: Option<SiteConfig>)
      ensures r == if siteId in sites then Some(Readable(c, Current(State(), siteId))) else None
    {
      if siteId !in sites {
        return None;
      }
      match sites[siteId]
      case None => r := Some(EMPTY_CONFIG);
      case Some(payload) =>
        var cfg := ApplyDecryptedCdnSecrets(c, payload);
        r := Some(cfg);
    }

    method UpdateSiteConfig(c: Cipher, siteId: string, cfg: SiteConfig, stamp: Stamp)
      returns (r: Result<Version, SaveError>)
      modifies this
      ensures r.Success? ==> SavedRow(c, old(State()), siteId, cfg, stamp) == Some(r.value)
      ensures r.Failure? ==> Refusal(c, old(State()), siteId, cfg, stamp) == Some(r.error)
      ensures SaveStep(c, old(State()), siteId, cfg, stamp, State())
    {
      if siteId == "" {
        return Failure(EmptySiteId);
      }
      if siteId !in sites {
        return Failure(SiteNotFound);
      }
      var existing := if sites[siteId].Some? then sites[siteId].value else EMPTY_CONFIG;
      hide CanMerge, Merged, Pruned, Filter, HasId;
      var merged := MergeAndEncryptCdnSecrets(c, existing, cfg, stamp.nonces);
      if merged.None? {
        return Failure(NoKey);
      }
      if exists v <- versions :: v.id == stamp.id {
        return Failure(DuplicateId);
      }
      var payload := Persisted(merged.value);
      var row := Version(stamp.id, siteId, payload, stamp.now, stamp.operator, stamp.source);
      ghost var before := State();
      sites := sites[siteId := Some(payload)];
      versions := versions + [row];
      PruneVersions(siteId);
      assert Saves(before, row, State());
      return Success(row);
    }

    method PruneVersions(siteId: string)
      modifies this`versions
      ensures Pruned(old(versions), siteId, versions)
    {
      var kept := SelectNewest(Of(versions, siteId), CREATED, KEPT_VERSIONS);
      versions := Filter(versions, KeptBy(siteId, kept));
    }

    method GetSiteVersionConfig(c: Cipher, siteId: string, versionId: string) returns (r: Option<SiteConfig>)
      ensures var i := Find(versions, siteId, versionId);
              r == if i >= 0 then Some(Readable(c, versions[i].config)) else None
    {
      var i := Find(versions, siteId, versionId);
      if i < 0 {
        return None;
      }
      var cfg := ApplyDecryptedCdnSecrets(c, versions[i].config);
      r := Some(cfg);
    }

    method RollbackSiteVersion(c: Cipher, siteId: string, versionId: string, stamp: Stamp)
      returns (r: Result<Version, SaveError>)
      modifies this
      ensures Step(c, old(State()), Rollback(siteId, versionId, stamp), State())
      ensures r.Success? ==> RowOf(c, old(State()), Rollback(siteId, versionId, stamp)) == Some(r.value)
      ensures r.Failure? ==> RowOf(c, old(State()), Rollback(siteId, versionId, stamp)).None?
      ensures r == Failure(VersionMissing) <==> Find(old(versions), siteId, versionId) < 0
    {
      var cfg := GetSiteVersionConfig(c, siteId, versionId);
      if cfg.None? {
        return Failure(VersionMissing);
      }
      r := UpdateSiteConfig(c, siteId, cfg.value, stamp.(source := "rollback"));
    }

    method DeleteSite(siteId: string) returns (ok: bool)
      modifies this
      ensures ok <==> siteId in old(sites)
      ensures State() == if ok then WithoutSite(old(State()), siteId) else old(State())
    {
      ok := siteId in sites;
      if ok {
        versions := Filter(versions, ButSite(siteId));
        sites := sites - {siteId};
      }
    }

    method DeleteSiteVersion(siteId: string, versionId: string) returns (ok: bool)
      modifies this`versions
      ensures ok <==> exists v <- old(versions) :: v.siteId == siteId && v.id == versionId
      ensures State() == WithoutVersion(old(State()), siteId, versionId)
    {
      ok := exists v <- versions :: v.siteId == siteId && v.id == versionId;
      versions := Filter(versions, ButVersion(siteId, versionId));
    }
  }

  // Runs

  datatype Event =
    | Create(siteId: string)
    | Save(siteId: string, cfg: SiteConfig, stamp: Stamp)
    | Rollback(siteId: string, versionId: string, stamp: Stamp)
    | DropVersion(siteId: string, versionId: string)
    | DropSite(siteId: string)

  function ButSite(siteId: string): Version -> bool {
    (v: Version) => v.siteId != siteId
  }

  function ButVersion(siteId: string, versionId: string): Version -> bool {
    (v: Version) => v.siteId != siteId || v.id != versionId
  }

  function WithSite(s: Tables, siteId: string): Tables {
    s.(sites := s.sites[siteId := None])
  }

  function WithoutSite(s: Tables, siteId: string): Tables {
    Tables(s.sites - {siteId}, Filter(s.versions, ButSite(siteId)))
  }

  function WithoutVersion(s: Tables, siteId: string, versionId: string): Tables {
    s.(versions := Filter(s.versions, ButVersion(siteId, versionId)))
  }

  /** The version an event adds, if any. */
  function RowOf(c: Cipher, s: Tables, e: Event): Option<Version> {
    match e
    case Save(siteId, cfg, stamp) => SavedRow(c, s, siteId, cfg, stamp)
    case Rollback(siteId, versionId, stamp) =>
      var i := Find(s.versions, siteId, versionId);
      if i < 0 then None
      else SavedRow(c, s, siteId, Readable(c, s.versions[i].config), stamp.(source := "rollback"))
    case _ => None
  }

  ghost predicate Step(c: Cipher, s: Tables, e: Event, s': Tables) {
    match e
    case Create(siteId) => s' == if siteId in s.sites then s else WithSite(s, siteId)
    case DropVersion(siteId, versionId) => s' == WithoutVersion(s, siteId, versionId)
    case DropSite(siteId) => s' == if siteId in s.sites then WithoutSite(s, siteId) else s
    case _ =>
      var row := RowOf(c, s, e);
      if row.None? then s' == s else Saves(s, row.value, s')
  }

  // Pruning

  /** The other sites lose nothing to a site's pruning. */
  lemma PruningSparesOthers(all: seq<Version>, siteId: string, after: seq<Version>, other: string)
    requires Pruned(all, siteId, after) && other != siteId
    ensures Of(after, other) == Of(all, other)
  {
    var kept :| Newest(Of(all, siteId), CREATED, KEPT_VERSIONS, kept) && after == Filter(all, KeptBy(siteId, kept));
    hide *;
    FilterTwice(all, KeptBy(siteId, kept), ForSite(other), ForSite(other));
  }

  /** The site itself is left with exactly the newest ten, or all of its versions when they are fewer. */
  lemma PruningKeepsTheNewest(all: seq<Version>, siteId: string, after: seq<Version>) returns (kept: seq<Version>)
    requires Distinct(all, ID) && Pruned(all, siteId, after)
    ensures Newest(Of(all, siteId), CREATED, KEPT_VERSIONS, kept)
    ensures multiset(Of(after, siteId)) == multiset(kept)
    ensures Of(after, siteId) == Filter(Of(all, siteId), (v: Version) => HasId(kept, v.id))
  {
    kept :| Newest(Of(all, siteId), CREATED, KEPT_VERSIONS, kept) && after == Filter(all, KeptBy(siteId, kept));
    var mine := Of(all, siteId);
    var held := (v: Version) => HasId(kept, v.id);
    var both := (v: Version) => v.siteId == siteId && HasId(kept, v.id);
    FilterTwice(all, KeptBy(siteId, kept), ForSite(siteId), both);
    FilterTwice(all, ForSite(siteId), held, both);
    FilterDistinct(all, ForSite(siteId), ID);
    hide Filter, Newest, Distinct;
    KeptOnce(mine, kept);
  }

  lemma KeptOnce(mine: seq<Version>, kept: seq<Version>)
    requires Distinct(mine, ID) && multiset(kept) <= multiset(mine)
    ensures multiset(Filter(mine, (v: Version) => HasId(kept, v.id))) == multiset(kept)
  {
    var held := (v: Version) => HasId(kept, v.id);
    FilterDistinct(mine, held, ID);
    DistinctOnce(mine, ID);
    DistinctOnce(Filter(mine, held), ID);
    forall v ensures multiset(Filter(mine, held))[v] == multiset(kept)[v] {
      KeptIff(mine, held, v);
      HeldIffKept(mine, kept, v);
      hide *;
    }
  }

  lemma HeldIffKept(mine: seq<Version>, kept: seq<Version>, v: Version)
    requires Distinct(mine, ID) && multiset(kept) <= multiset(mine)
    ensures v in mine && HasId(kept, v.id) <==> v in kept
    ensures multiset(kept)[v] <= multiset(mine)[v]
  {
    if v in mine && HasId(kept, v.id) {
      var w :| w in kept && w.id == v.id;
      assert w in multiset(mine);
      SameId(mine, v, w);
    }
    assert v in kept ==> v in multiset(kept) && v in multiset(mine);
  }

  lemma SameId(versions: seq<Version>, v: Version, w: Version)
    requires Distinct(versions, ID) && v in versions && w in versions && v.id == w.id
    ensures v == w
  {
    var i :| 0 <= i < |versions| && versions[i] == v;
    var j :| 0 <= j < |versions| && versions[j] == w;
    assert ID(versions[i]) == ID(versions[j]);
  }

  /** Every version is strictly newer than the one before it. */
  predicate Ascending(versions: seq<Version>) {
    forall i, j :: 0 <= i < j < |versions| ==> !AtMost(versions[j].createdAt, versions[i].createdAt)
  }

  function LastTen(versions: seq<Version>): seq<Version> {
    versions[|versions| - Limited(KEPT_VERSIONS, |versions|)..]
  }

  lemma PruningAnAscendingHistory(all: seq<Version>, siteId: string, after: seq<Version>)
    requires Distinct(all, ID) && Pruned(all, siteId, after) && Ascending(Of(all, siteId))
    ensures Of(after, siteId) == LastTen(Of(all, siteId))
  {
    var kept := PruningKeepsTheNewest(all, siteId, after);
    var mine := Of(all, siteId);
    var held := (v: Version) => HasId(kept, v.id);
    FilterDistinct(all, ForSite(siteId), ID);
    assert |multiset(Of(after, siteId))| == |multiset(kept)|;
    forall i, j | 0 <= i < j < |mine| && held(mine[i]) ensures held(mine[j]) {
      HeldIsUpward(mine, kept, i, j);
    }
    hide *;
    FilterTail(mine, held);
  }

  lemma HeldIsUpward(mine: seq<Version>, kept: seq<Version>, i: nat, j: nat)
    requires Distinct(mine, ID) && Newest(mine, CREATED, KEPT_VERSIONS, kept) && Ascending(mine)
    requires i < j < |mine| && HasId(kept, mine[i].id)
    ensures HasId(kept, mine[j].id)
  {
    var w :| w in kept && w.id == mine[i].id;
    assert w in multiset(mine);
    SameId(mine, w, mine[i]);
    assert mine[j] in multiset(mine) && w in kept;
    assert mine[j] !in multiset(mine) - multiset(kept) by {
      hide AtMost, HasId;
    }
    assert mine[j] in kept;
  }

  // What every run keeps

  /** Ids are unique, versions belong to existing sites, and no site has more than ten. */
  predicate Sane(s: Tables) {
    && Distinct(s.versions, ID)
    && (forall v <- s.versions :: v.siteId in s.sites)
    && forall siteId <- s.sites :: |Of(s.versions, siteId)| <= KEPT_VERSIONS
  }

  lemma StepKeepsSane(c: Cipher, s: Tables, e: Event, s': Tables)
    requires Sane(s) && Step(c, s, e, s')
    ensures Sane(s')
  {
    hide Filter, Distinct, Pruned, RowOf;
    match e
    case Create(siteId) =>
      if siteId !in s.sites {
        NoneOf(s, siteId);
      }
    case DropVersion(siteId, versionId) =>
      hide Sane;
      KeepingSome(s, ButVersion(siteId, versionId), s');
    case DropSite(siteId) =>
      hide Sane;
      DropKeepsSane(s, siteId);
    case _ =>
      var row := RowOf(c, s, e);
      if row.Some? {
        RowIsSaved(c, s, e, s');
        RowHasSite(c, s, e);
        hide Sane, Step;
        SaveKeepsSane(s, row.value, s');
      }
  }

  lemma RowHasSite(c: Cipher, s: Tables, e: Event)
    requires RowOf(c, s, e).Some?
    ensures RowOf(c, s, e).value.siteId in s.sites
  {
    hide CanMerge, Merged, HasId;
  }

  lemma DropKeepsSane(s: Tables, siteId: string)
    requires Sane(s)
    ensures siteId in s.sites ==> Sane(WithoutSite(s, siteId))
  {
    var versions := WithoutSite(s, siteId).versions;
    KeepingSome(s, ButSite(siteId), s.(versions := versions));
    forall v | v in versions ensures v.siteId != siteId {
      KeptIff(s.versions, ButSite(siteId), v);
    }
    hide Filter, Distinct;
  }

  lemma NoneOf(s: Tables, siteId: string)
    requires Sane(s) && siteId !in s.sites
    ensures Of(s.versions, siteId) == []
  {
    FilterNone(s.versions, ForSite(siteId));
  }

  lemma KeepingSome(s: Tables, keep: Version -> bool, s': Tables)
    requires Sane(s) && s' == s.(versions := Filter(s.versions, keep))
    ensures Sane(s')
  {
    FilterDistinct(s.versions, keep, ID);
    forall v | v in s'.versions ensures v.siteId in s'.sites {
      KeptIff(s.versions, keep, v);
    }
    forall siteId | siteId in s.sites ensures |Of(s'.versions, siteId)| <= KEPT_VERSIONS {
      var both := (v: Version) => v.siteId == siteId && keep(v);
      FilterTwice(s.versions, keep, ForSite(siteId), both);
      FilterTwice(s.versions, ForSite(siteId), keep, both);
      FilterShrinks(Of(s.versions, siteId), keep);
    }
  }

  lemma SaveKeepsSane(s: Tables, row: Version, s': Tables)
    requires Sane(s) && row.siteId in s.sites && !HasId(s.versions, row.id) && Saves(s, row, s')
    ensures Sane(s')
  {
    var all := s.versions + [row];
    DistinctSnoc(s.versions, row, ID);
    var kept :| Newest(Of(all, row.siteId), CREATED, KEPT_VERSIONS, kept) && s'.versions == Filter(all, KeptBy(row.siteId, kept));
    FilterDistinct(all, KeptBy(row.siteId, kept), ID);
    forall v | v in s'.versions ensures v.siteId in s'.sites {
      KeptIff(all, KeptBy(row.siteId, kept), v);
    }
    forall siteId | siteId in s'.sites ensures |Of(s'.versions, siteId)| <= KEPT_VERSIONS {
      if siteId == row.siteId {
        var newest := PruningKeepsTheNewest(all, siteId, s'.versions);
        assert |multiset(Of(s'.versions, siteId))| == |multiset(newest)|;
      } else {
        PruningSparesOthers(all, row.siteId, s'.versions, siteId);
        FilterSnoc(s.versions, row, ForSite(siteId));
      }
    }
  }

  /** A step about one site leaves every other site's configuration and versions as they were. */
  lemma OtherSitesUntouched(c: Cipher, s: Tables, e: Event, s': Tables, other: string)
    requires Step(c, s, e, s') && other != e.siteId
    ensures other in s'.sites <==> other in s.sites
    ensures other in s.sites ==> s'.sites[other] == s.sites[other]
    ensures Of(s'.versions, other) == Of(s.versions, other)
  {
    match e
    case Create(siteId) =>
    case DropVersion(siteId, versionId) =>
      FilterTwice(s.versions, ButVersion(siteId, versionId), ForSite(other), ForSite(other));
    case DropSite(siteId) =>
      FilterTwice(s.versions, ButSite(siteId), ForSite(other), ForSite(other));
    case _ =>
      var row := RowOf(c, s, e);
      if row.Some? {
        PruningSparesOthers(s.versions + [row.value], row.value.siteId, s'.versions, other);
        FilterSnoc(s.versions, row.value, ForSite(other));
      }
  }

  ghost predicate Run(c: Cipher, states: seq<Tables>, events: seq<Event>) {
    && |states| == |events| + 1
    && states[0] == Tables(map[], [])
    && forall i :: 0 <= i < |events| ==> Step(c, states[i], events[i], states[i + 1])
  }

  /** In every run, after every event. */
  lemma {:induction false} RunsStaySane(c: Cipher, states: seq<Tables>, events: seq<Event>, n: nat)
    requires Run(c, states, events) && n < |states|
    ensures Sane(states[n])
  {
    if n > 0 {
      RunsStaySane(c, states, events, n - 1);
      StepKeepsSane(c, states[n - 1], events[n - 1], states[n]);
    }
  }

  /** What an event makes of everything saved for a site since it was last deleted, oldest first. */
  function Extended(c: Cipher, s: Tables, e: Event, siteId: string, before: seq<Version>): seq<Version> {
    if e.siteId != siteId then before
    else if e.DropSite? then []
    else
      var row := RowOf(c, s, e);
      if row.Some? then before + [row.value] else before
  }

  ghost function History(c: Cipher, states: seq<Tables>, events: seq<Event>, siteId: string, n: nat): seq<Version>
    requires n <= |events| < |states|
  {
    if n == 0 then []
    else Extended(c, states[n - 1], events[n - 1], siteId, History(c, states, events, siteId, n - 1))
  }

  /** The site has the last ten of its history, and is configured as its last save says. */
  predicate Tracks(s: Tables, siteId: string, history: seq<Version>) {
    && Of(s.versions, siteId) == LastTen(history)
    && (history != [] ==> siteId in s.sites && s.sites[siteId] == Some(history[|history| - 1].config))
  }

  /** When no version is deleted by hand and each save is stamped later than the one before it, a site always
      has the last ten of everything saved, and its current configuration is the last one saved. */
  lemma {:induction false} TheLastTenAreKept(c: Cipher, states: seq<Tables>, events: seq<Event>, siteId: string, n: nat)
    requires Run(c, states, events) && n < |states| && NoneDeletedByHand(events, siteId)
    requires Ascending(History(c, states, events, siteId, n))
    ensures Tracks(states[n], siteId, History(c, states, events, siteId, n))
  {
    if n == 0 {
      NothingTracked(c, states, events, siteId);
    } else {
      var m, e := n - 1, events[n - 1];
      HistoryStep(c, states, events, siteId, n);
      RunsStaySane(c, states, events, m);
      NotDeletedAt(events, siteId, m);
      var before, after := History(c, states, events, siteId, m), History(c, states, events, siteId, n);
      if !(e.siteId == siteId && e.DropSite?) {
        EarlierAscends(c, states[m], e, siteId, before);
        hide *;
        TheLastTenAreKept(c, states, events, siteId, m);
      }
      hide *;
      OneEventMore(c, states[m], e, states[n], siteId, before, after);
    }
  }

  lemma OneEventMore(c: Cipher, s: Tables, e: Event, s': Tables, siteId: string, before: seq<Version>, after: seq<Version>)
    requires Sane(s) && Step(c, s, e, s') && after == Extended(c, s, e, siteId, before) && Ascending(after)
    requires !(e.siteId == siteId && e.DropVersion?)
    requires !(e.siteId == siteId && e.DropSite?) ==> Tracks(s, siteId, before)
    ensures Tracks(s', siteId, after)
  {
    hide *;
    if e.siteId == siteId && e.DropSite? {
      DroppedTracks(c, s, e, s', before);
    } else {
      StepTracks(c, s, e, s', siteId, before);
    }
  }

  /** No version of the site is deleted on its own. */
  ghost predicate NoneDeletedByHand(events: seq<Event>, siteId: string) {
    forall e <- events :: !(e.DropVersion? && e.siteId == siteId)
  }

  lemma NotDeletedAt(events: seq<Event>, siteId: string, i: nat)
    requires NoneDeletedByHand(events, siteId) && i < |events|
    ensures !(events[i].DropVersion? && events[i].siteId == siteId)
  {
    assert events[i] in events;
  }

  lemma NothingTracked(c: Cipher, states: seq<Tables>, events: seq<Event>, siteId: string)
    requires Run(c, states, events)
    ensures Tracks(states[0], siteId, History(c, states, events, siteId, 0))
  {
    hide Step;
  }

  lemma HistoryStep(c: Cipher, states: seq<Tables>, events: seq<Event>, siteId: string, n: nat)
    requires Run(c, states, events) && 0 < n < |states|
    ensures Step(c, states[n - 1], events[n - 1], states[n])
    ensures History(c, states, events, siteId, n)
         == Extended(c, states[n - 1], events[n - 1], siteId, History(c, states, events, siteId, n - 1))
  {
    hide Step, Extended;
    assert events[n - 1] == events[n - 1] && states[n - 1 + 1] == states[n];
  }

  lemma DroppedTracks(c: Cipher, s: Tables, e: Event, s': Tables, before: seq<Version>)
    requires Sane(s) && e.DropSite? && Step(c, s, e, s')
    ensures Tracks(s', e.siteId, Extended(c, s, e, e.siteId, before))
  {
    hide Filter, Sane, RowOf, WithoutSite;
    assert s' == if e.siteId in s.sites then WithoutSite(s, e.siteId) else s;
    assert Extended(c, s, e, e.siteId, before) == [] && LastTen([]) == [];
    hide Step, Extended, LastTen;
    DroppedSiteHasNone(s, e.siteId);
  }

  lemma EarlierAscends(c: Cipher, s: Tables, e: Event, siteId: string, before: seq<Version>)
    requires Ascending(Extended(c, s, e, siteId, before)) && !(e.siteId == siteId && e.DropSite?)
    ensures Ascending(before)
  {
    hide AtMost, RowOf;
    var extended := Extended(c, s, e, siteId, before);
    assert forall i :: 0 <= i < |before| ==> extended[i] == before[i];
  }

  lemma StepTracks(c: Cipher, s: Tables, e: Event, s': Tables, siteId: string, before: seq<Version>)
    requires Sane(s) && Step(c, s, e, s') && Tracks(s, siteId, before)
    requires !(e.siteId == siteId && (e.DropSite? || e.DropVersion?))
    requires Ascending(Extended(c, s, e, siteId, before))
    ensures Tracks(s', siteId, Extended(c, s, e, siteId, before))
  {
    if e.siteId != siteId {
      assert Extended(c, s, e, siteId, before) == before;
      OtherSitesUntouched(c, s, e, s', siteId);
      hide Filter, Step, Extended, Ascending, RowOf;
    } else if RowOf(c, s, e).Some? {
      RowIsSaved(c, s, e, s');
      assert Extended(c, s, e, siteId, before) == before + [RowOf(c, s, e).value];
      hide *;
      SaveTracks(s, before, RowOf(c, s, e).value, s');
    } else {
      assert Extended(c, s, e, siteId, before) == before;
      hide Extended, Ascending;
      QuietStepTracks(c, s, e, s', siteId, before);
    }
  }

  lemma SaveTracks(s: Tables, before: seq<Version>, row: Version, s': Tables)
    requires Sane(s) && !HasId(s.versions, row.id) && Saves(s, row, s')
    requires Tracks(s, row.siteId, before) && Ascending(before + [row])
    ensures Tracks(s', row.siteId, before + [row])
  {
    SaveExtendsTheTen(s, before, row, s');
    hide Sane, Pruned, Filter, Ascending;
  }

  lemma QuietStepTracks(c: Cipher, s: Tables, e: Event, s': Tables, siteId: string, before: seq<Version>)
    requires Step(c, s, e, s') && Tracks(s, siteId, before) && RowOf(c, s, e).None? && !e.DropSite? && !e.DropVersion?
    ensures Tracks(s', siteId, before)
  {
    assert s' == s || (e.Create? && e.siteId !in s.sites && s' == WithSite(s, e.siteId));
    hide Step, RowOf, Filter;
  }

  lemma RowIsSaved(c: Cipher, s: Tables, e: Event, s': Tables)
    requires Step(c, s, e, s') && RowOf(c, s, e).Some?
    ensures var row := RowOf(c, s, e).value;
            row.siteId == e.siteId && !HasId(s.versions, row.id) && Saves(s, row, s')
  {
    hide Pruned, CanMerge, Merged;
  }

  lemma DroppedSiteHasNone(s: Tables, siteId: string)
    requires Sane(s)
    ensures Of((if siteId in s.sites then WithoutSite(s, siteId) else s).versions, siteId) == []
  {
    if siteId in s.sites {
      forall v | v in WithoutSite(s, siteId).versions ensures v.siteId != siteId {
        KeptIff(s.versions, ButSite(siteId), v);
      }
      FilterNone(WithoutSite(s, siteId).versions, ForSite(siteId));
    } else {
      NoneOf(s, siteId);
    }
  }

  lemma SaveExtendsTheTen(s: Tables, before: seq<Version>, row: Version, s': Tables)
    requires Sane(s) && !HasId(s.versions, row.id) && Saves(s, row, s')
    requires Of(s.versions, row.siteId) == LastTen(before) && Ascending(before + [row])
    ensures Of(s'.versions, row.siteId) == LastTen(before + [row])
  {
    var all := s.versions + [row];
    DistinctSnoc(s.versions, row, ID);
    FilterSnoc(s.versions, row, ForSite(row.siteId));
    var mine := LastTen(before) + [row];
    assert Of(all, row.siteId) == mine;
    AscendingTail(before, row);
    hide *;
    PruningAnAscendingHistory(all, row.siteId, s'.versions);
    LastTenOfTail(before, row);
  }

  lemma AscendingTail(before: seq<Version>, row: Version)
    requires Ascending(before + [row])
    ensures Ascending(LastTen(before) + [row])
  {
    hide AtMost;
    var all, mine := before + [row], LastTen(before) + [row];
    var offset := |all| - |mine|;
    assert forall i :: 0 <= i < |mine| ==> mine[i] == all[i + offset];
  }

  lemma LastTenOfTail(before: seq<Version>, row: Version)
    ensures LastTen(LastTen(before) + [row]) == LastTen(before + [row])
  {
  }
}
