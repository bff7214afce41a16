/** What the site tables promise about secrets over a whole run, and what a rollback gives back. */
module SiteRollback {
  import opened Wrappers
  import opened Text
  import opened Seqs
  import opened NewestFirst
  import opened SiteSecrets
  import opened SiteVersions

  function SettingsOf(cfg: SiteConfig): Settings {
    if cfg.settings.Some? then cfg.settings.value else map[]
  }

  predicate AllSecrets(cfg: SiteConfig, holds: string -> bool) {
    forall p <- SettingsOf(cfg) :: holds(SettingsOf(cfg)[p].secretKey)
  }

  /** Every stored configuration, current or old, has secrets of this kind only. */
  predicate StoredSecrets(s: Tables, holds: string -> bool) {
    && (forall id <- s.sites :: s.sites[id].Some? ==> AllSecrets(s.sites[id].value, holds))
    && forall v <- s.versions :: AllSecrets(v.config, holds)
  }

  /** Reads as blank, or as trimmed text that does not look sealed. */
  predicate Clean(c: Cipher, secret: string) {
    var plain := ReadSecret(c, secret);
    Trim(plain) == "" || (Trim(plain) == plain && !IsSealed(plain))
  }

  /** What callers may hand in: text that looks sealed opens to clean text. */
  predicate Proper(c: Cipher, secret: string) {
    IsSealed(secret) ==> Clean(c, secret)
  }

  function IsHidden(): string -> bool {
    (secret: string) => Hidden(secret)
  }

  function IsClean(c: Cipher): string -> bool {
    (secret: string) => Clean(c, secret)
  }

  lemma WriteKeepsClean(c: Cipher, stored: Option<string>, incoming: string, nonce: nat)
    requires Sound(c) && (stored.Some? ==> Clean(c, stored.value)) && Proper(c, incoming)
    requires WriteSecret(c, stored, incoming, nonce).Some?
    ensures Clean(c, WriteSecret(c, stored, incoming, nonce).value)
  {
    WriteThenRead(c, stored, incoming, nonce);
    TrimIdempotent(incoming);
    hide Trim, ReadSecret, WriteSecret;
  }

  /** Text read from clean storage may be handed in again. */
  lemma CleanReadsProper(c: Cipher, secret: string)
    requires Clean(c, secret)
    ensures Proper(c, ReadSecret(c, secret))
  {
    hide Trim, ReadSecret;
  }

  // One property of secrets that every write establishes holds of everything ever stored

  ghost predicate WritesKeep(c: Cipher, holds: string -> bool, allowed: string -> bool) {
    forall stored: Option<string>, incoming: string, nonce: nat ::
      (stored.Some? ==> holds(stored.value)) && allowed(incoming)
      && WriteSecret(c, stored, incoming, nonce).Some? ==>
        holds(WriteSecret(c, stored, incoming, nonce).value)
  }

  lemma MergeKeeps(c: Cipher, existing: SiteConfig, incoming: SiteConfig, nonces: Nonces,
                   holds: string -> bool, allowed: string -> bool)
    requires WritesKeep(c, holds, allowed)
    requires AllSecrets(existing, holds) && AllSecrets(incoming, allowed) && CanMerge(c, existing, incoming, nonces)
    ensures AllSecrets(Persisted(Merged(c, existing, incoming, nonces)), holds)
  {
    var merged := Merged(c, existing, incoming, nonces);
    forall p | p in SettingsOf(merged) ensures holds(SettingsOf(merged)[p].secretKey) {
      var secret := incoming.settings.value[p].secretKey;
      assert SettingsOf(incoming)[p].secretKey == secret && allowed(secret);
      var stored := StoredSecret(existing.settings, p);
      assert stored.Some? ==> p in SettingsOf(existing) && holds(stored.value);
      assert WriteSecret(c, stored, secret, nonces(p)).Some?;
      hide WriteSecret;
    }
  }

  /** What an event hands in to be written. */
  function Incoming(c: Cipher, s: Tables, e: Event): Option<SiteConfig> {
    match e
    case Save(siteId, cfg, stamp) => Some(cfg)
    case Rollback(siteId, versionId, stamp) =>
      var i := Find(s.versions, siteId, versionId);
      if i < 0 then None else Some(Readable(c, s.versions[i].config))
    case _ => None
  }

  lemma StepKeepsSecrets(c: Cipher, s: Tables, e: Event, s': Tables, holds: string -> bool, allowed: string -> bool)
    requires WritesKeep(c, holds, allowed) && Step(c, s, e, s') && StoredSecrets(s, holds)
    requires Incoming(c, s, e).Some? ==> AllSecrets(Incoming(c, s, e).value, allowed)
    ensures StoredSecrets(s', holds)
  {
    hide WritesKeep, AllSecrets;
    match e
    case Create(siteId) =>
    case DropVersion(siteId, versionId) =>
      forall v | v in s'.versions ensures AllSecrets(v.config, holds) {
        KeptIff(s.versions, ButVersion(siteId, versionId), v);
      }
    case DropSite(siteId) =>
      forall v | v in s'.versions ensures AllSecrets(v.config, holds) {
        KeptIff(s.versions, ButSite(siteId), v);
      }
    case _ =>
      if RowOf(c, s, e).Some? {
        RowIsSaved(c, s, e, s');
        RowKeeps(c, s, e, holds, allowed);
        hide Step, RowOf;
        SavedKeeps(s, RowOf(c, s, e).value, s', holds);
      }
  }

  lemma RowKeeps(c: Cipher, s: Tables, e: Event, holds: string -> bool, allowed: string -> bool)
    requires WritesKeep(c, holds, allowed) && StoredSecrets(s, holds) && RowOf(c, s, e).Some?
    requires Incoming(c, s, e).Some? && AllSecrets(Incoming(c, s, e).value, allowed)
    ensures AllSecrets(RowOf(c, s, e).value.config, holds)
  {
    var stamp := if e.Save? then e.stamp else e.stamp.(source := "rollback");
    hide Merged, CanMerge, WritesKeep;
    assert RowOf(c, s, e) == SavedRow(c, s, e.siteId, Incoming(c, s, e).value, stamp);
    var existing := Current(s, e.siteId);
    assert AllSecrets(existing, holds);
    hide AllSecrets, StoredSecrets;
    MergeKeeps(c, existing, Incoming(c, s, e).value, stamp.nonces, holds, allowed);
  }

  lemma SavedKeeps(s: Tables, row: Version, s': Tables, holds: string -> bool)
    requires StoredSecrets(s, holds) && Saves(s, row, s') && AllSecrets(row.config, holds)
    ensures StoredSecrets(s', holds)
  {
    hide AllSecrets, HasId, Filter, Newest;
    var all := s.versions + [row];
    var kept :| Newest(Of(all, row.siteId), CREATED, KEPT_VERSIONS, kept) && s'.versions == Filter(all, KeptBy(row.siteId, kept));
    forall v | v in s'.versions ensures AllSecrets(v.config, holds) {
      KeptIff(all, KeptBy(row.siteId, kept), v);
    }
  }

  /** In every run from empty tables, whatever is saved, no stored secret is plaintext. */
  lemma {:induction false} RunsHideSecrets(c: Cipher, states: seq<Tables>, events: seq<Event>, n: nat)
    requires Sound(c) && Run(c, states, events) && n < |states|
    ensures StoredSecrets(states[n], IsHidden())
  {
    if n > 0 {
      RunsHideSecrets(c, states, events, n - 1);
      var anything := (secret: string) => true;
      assert WritesKeep(c, IsHidden(), anything) by {
        forall stored: Option<string>, incoming: string, nonce: nat
          | (stored.Some? ==> Hidden(stored.value)) && WriteSecret(c, stored, incoming, nonce).Some?
          ensures Hidden(WriteSecret(c, stored, incoming, nonce).value)
        {
          WriteHides(c, stored, incoming, nonce);
        }
      }
      assert Step(c, states[n - 1], events[n - 1], states[n]);
      hide Step, WritesKeep, StoredSecrets, Sound, Hidden;
      StepKeepsSecrets(c, states[n - 1], events[n - 1], states[n], IsHidden(), anything);
    }
  }

  /** Callers hand in proper secrets. */
  ghost predicate ProperEvents(c: Cipher, events: seq<Event>) {
    forall e <- events :: e.Save? ==> forall p <- SettingsOf(e.cfg) :: Proper(c, SettingsOf(e.cfg)[p].secretKey)
  }

  lemma {:induction false} RunsStayClean(c: Cipher, states: seq<Tables>, events: seq<Event>, n: nat)
    requires Sound(c) && Run(c, states, events) && ProperEvents(c, events) && n < |states|
    ensures StoredSecrets(states[n], IsClean(c))
  {
    if n > 0 {
      RunsStayClean(c, states, events, n - 1);
      var s, e := states[n - 1], events[n - 1];
      var proper := (secret: string) => Proper(c, secret);
      assert WritesKeep(c, IsClean(c), proper) by {
        forall stored: Option<string>, incoming: string, nonce: nat
          | (stored.Some? ==> Clean(c, stored.value)) && Proper(c, incoming)
            && WriteSecret(c, stored, incoming, nonce).Some?
          ensures Clean(c, WriteSecret(c, stored, incoming, nonce).value)
        {
          WriteKeepsClean(c, stored, incoming, nonce);
        }
      }
      assert Step(c, s, e, states[n]) && e in events;
      hide Step, WritesKeep, Sound, Clean;
      if e.Rollback? && Find(s.versions, e.siteId, e.versionId) >= 0 {
        ViewIsProper(c, s.versions[Find(s.versions, e.siteId, e.versionId)].config);
      }
      hide Proper;
      StepKeepsSecrets(c, s, e, states[n], IsClean(c), proper);
    }
  }

  lemma ViewIsProper(c: Cipher, cfg: SiteConfig)
    requires AllSecrets(cfg, IsClean(c))
    ensures AllSecrets(Readable(c, cfg), (secret: string) => Proper(c, secret))
  {
    var view := Readable(c, cfg);
    forall p | p in SettingsOf(view) ensures Proper(c, SettingsOf(view)[p].secretKey) {
      assert IsClean(c)(SettingsOf(cfg)[p].secretKey);
      CleanReadsProper(c, SettingsOf(cfg)[p].secretKey);
      hide Clean, Proper, ReadSecret;
    }
  }

  // Rollback

  /** What a provider's setting of an old version reads back as. */
  predicate ReadsBackAt(view: SiteConfig, before: SiteConfig, after: SiteConfig, p: string)
    requires p in SettingsOf(view) && p in SettingsOf(after)
  {
    var was, now := SettingsOf(view)[p], SettingsOf(after)[p];
    && now.rest == was.rest
    && (Trim(was.secretKey) != "" ==> now.secretKey == was.secretKey)
    && (Trim(was.secretKey) == "" && p in SettingsOf(before) ==> now.secretKey == SettingsOf(before)[p].secretKey)
    && (Trim(was.secretKey) == "" && p !in SettingsOf(before) ==> now.secretKey == was.secretKey)
  }

  predicate ReadsBackAs(view: SiteConfig, before: SiteConfig, after: SiteConfig) {
    && after.rest == view.rest
    && SettingsOf(after).Keys == SettingsOf(view).Keys
    && forall p <- SettingsOf(view) :: ReadsBackAt(view, before, after, p)
  }

  /** One secret, read from an old version and written again. */
  predicate ComesBack(c: Cipher, secret: string, existing: Option<string>, nonce: nat)
    requires WriteSecret(c, existing, ReadSecret(c, secret), nonce).Some?
  {
    var was, now := ReadSecret(c, secret), ReadSecret(c, WriteSecret(c, existing, ReadSecret(c, secret), nonce).value);
    if Trim(was) != "" then now == was
    else now == if existing.Some? then ReadSecret(c, existing.value) else was
  }

  /** It comes back exactly when it is clean. */
  lemma ComesBackIff(c: Cipher, secret: string, existing: Option<string>, nonce: nat)
    requires Sound(c) && WriteSecret(c, existing, ReadSecret(c, secret), nonce).Some?
    ensures ComesBack(c, secret, existing, nonce) <==> Clean(c, secret)
  {
    var was := ReadSecret(c, secret);
    WriteThenRead(c, existing, was, nonce);
    if IsSealed(was) {
      OpensToLess(c, was);
      TrimIsNoLonger(was);
    }
    hide Trim, ReadSecret, WriteSecret, Sound;
  }

  lemma TrimIsNoLonger(s: string)
    ensures |Trim(s)| <= |s|
  {
    TrimLeftIsSuffix(s, IsSpace);
    TrimRightIsPrefix(TrimLeft(s, IsSpace), IsSpace);
  }

  lemma WritingAViewReadsBackIff(c: Cipher, existing: SiteConfig, version: SiteConfig, nonces: Nonces)
    requires Sound(c) && CanMerge(c, existing, Readable(c, version), nonces)
    ensures ReadsBackAs(Readable(c, version), Readable(c, existing),
                        Readable(c, Persisted(Merged(c, existing, Readable(c, version), nonces))))
       <==> AllSecrets(version, IsClean(c))
  {
    var view, before := Readable(c, version), Readable(c, existing);
    var after := Readable(c, Persisted(Merged(c, existing, view, nonces)));
    assert SettingsOf(after).Keys == SettingsOf(view).Keys == SettingsOf(version).Keys;
    assert after.rest == view.rest;
    forall p | p in SettingsOf(view)
      ensures SettingsOf(after)[p].rest == SettingsOf(view)[p].rest
      ensures ReadsBackAt(view, before, after, p) <==> Clean(c, SettingsOf(version)[p].secretKey)
    {
      SecretReadsBackIff(c, existing, version, nonces, p);
    }
    hide Clean, ReadsBackAt, Readable, Merged, Persisted, CanMerge, SettingsOf;
    if AllSecrets(version, IsClean(c)) {
      assert forall p <- SettingsOf(version) :: IsClean(c)(SettingsOf(version)[p].secretKey);
    } else {
      var p :| p in SettingsOf(version) && !IsClean(c)(SettingsOf(version)[p].secretKey);
      assert !ReadsBackAt(view, before, after, p);
    }
  }

  lemma SecretReadsBackIff(c: Cipher, existing: SiteConfig, version: SiteConfig, nonces: Nonces, p: string)
    requires Sound(c) && CanMerge(c, existing, Readable(c, version), nonces)
    requires p in SettingsOf(version)
    ensures var view := Readable(c, version);
            var after := Readable(c, Persisted(Merged(c, existing, view, nonces)));
            && p in SettingsOf(view) && p in SettingsOf(after)
            && SettingsOf(after)[p].rest == SettingsOf(view)[p].rest
            && (ReadsBackAt(view, Readable(c, existing), after, p) <==> Clean(c, SettingsOf(version)[p].secretKey))
  {
    var secret, stored := SettingsOf(version)[p].secretKey, StoredSecret(existing.settings, p);
    var view := Readable(c, version);
    assert view.settings.Some? && p in view.settings.value && view.settings.value[p].secretKey == ReadSecret(c, secret);
    assert WriteSecret(c, stored, ReadSecret(c, secret), nonces(p)).Some?;
    ComesBackIff(c, secret, stored, nonces(p));
    hide Trim, ReadSecret, WriteSecret, Clean, Sound;
  }

  /** After a rollback the site reads as the old version did, every field and every secret the version holds,
      with the secret in force before it where it holds none, exactly when the version's own secrets read as
      blank or as trimmed text that does not look sealed. */
  lemma RollbackRestoresIff(c: Cipher, s: Tables, siteId: string, versionId: string, stamp: Stamp, s': Tables)
    requires Sound(c) && Step(c, s, Rollback(siteId, versionId, stamp), s')
    requires RowOf(c, s, Rollback(siteId, versionId, stamp)).Some?
    ensures siteId in s.sites && siteId in s'.sites && Find(s.versions, siteId, versionId) >= 0
    ensures var version := s.versions[Find(s.versions, siteId, versionId)].config;
            ReadsBackAs(Readable(c, version), Readable(c, Current(s, siteId)), Readable(c, Current(s', siteId)))
            <==> AllSecrets(version, IsClean(c))
  {
    var i := Find(s.versions, siteId, versionId);
    assert Saves(s, RowOf(c, s, Rollback(siteId, versionId, stamp)).value, s') by {
      RowIsSaved(c, s, Rollback(siteId, versionId, stamp), s');
    }
    hide Readable, Merged, CanMerge, AllSecrets, Sound, Pruned, ReadsBackAs;
    WritingAViewReadsBackIff(c, Current(s, siteId), s.versions[i].config, stamp.nonces);
  }

  /** So in every run with proper inputs it does. */
  lemma RollbackRestoresTheVersion(c: Cipher, states: seq<Tables>, events: seq<Event>, n: nat)
    requires Sound(c) && Run(c, states, events) && ProperEvents(c, events) && n < |events|
    requires events[n].Rollback? && RowOf(c, states[n], events[n]).Some?
    ensures var s, e := states[n], events[n];
            var i := Find(s.versions, e.siteId, e.versionId);
            && i >= 0 && e.siteId in s.sites && e.siteId in states[n + 1].sites
            && ReadsBackAs(Readable(c, s.versions[i].config), Readable(c, Current(s, e.siteId)),
                           Readable(c, Current(states[n + 1], e.siteId)))
  {
    var s, e := states[n], events[n];
    RunsStayClean(c, states, events, n);
    assert Step(c, s, e, states[n + 1]);
    RollbackRestoresIff(c, s, e.siteId, e.versionId, e.stamp, states[n + 1]);
    var i := Find(s.versions, e.siteId, e.versionId);
    assert s.versions[i] in s.versions;
    hide Step, Readable, AllSecrets, ReadsBackAs, RowOf, Run, Current;
  }

  /** Rolling back never fails for want of a key: it is accepted exactly when the site has the version and the
      id drawn for the new one is free. */
  lemma RollbackAcceptedIff(c: Cipher, s: Tables, siteId: string, versionId: string, stamp: Stamp)
    requires Sane(s) && StoredSecrets(s, IsHidden()) && siteId != ""
    ensures RowOf(c, s, Rollback(siteId, versionId, stamp)).Some? <==>
            Find(s.versions, siteId, versionId) >= 0 && !HasId(s.versions, stamp.id)
  {
    var i := Find(s.versions, siteId, versionId);
    if i >= 0 {
      FirstIndexIsFirst(s.versions, (v: Version) => v.siteId == siteId && v.id == versionId);
      var v := s.versions[i];
      assert v.siteId == siteId && siteId in s.sites;
      assert AllSecrets(v.config, IsHidden());
      hide StoredSecrets, Sane;
      HiddenViewsCanMerge(c, Current(s, siteId), v.config, stamp.nonces);
    }
  }

  lemma HiddenViewsCanMerge(c: Cipher, existing: SiteConfig, cfg: SiteConfig, nonces: Nonces)
    requires AllSecrets(cfg, IsHidden())
    ensures CanMerge(c, existing, Readable(c, cfg), nonces)
  {
    var view := Readable(c, cfg);
    assert Trim("") == "";
    forall p | p in SettingsOf(view)
      ensures WriteSecret(c, StoredSecret(existing.settings, p), SettingsOf(view)[p].secretKey, nonces(p)).Some?
    {
      assert IsHidden()(SettingsOf(cfg)[p].secretKey);
      hide Trim;
    }
  }
}
