/** Write-only provider secrets: encrypted when stored, kept when the incoming one is blank, never shown. */
module SiteSecrets {
  import opened Wrappers
  import opened Text

  const SECRET_PREFIX := "enc:v1:"

  /** The configured cipher: whether a key is set, sealing under a nonce, and opening. */
  datatype Cipher = Cipher(hasKey: bool, seal: (nat, string) -> string, open: string -> Option<string>)

  /** Opening what was sealed gives the plaintext back; sealed text holds no blanks and, with the nonce and
      the tag in it, is never shorter than what it opens to. */
  ghost predicate Sound(c: Cipher) {
    && (forall nonce: nat, plain: string ::
          c.open(c.seal(nonce, plain)) == Some(plain) && forall ch <- c.seal(nonce, plain) :: !IsSpace(ch))
    && (forall sealed: string :: c.open(sealed).Some? ==> |c.open(sealed).value| <= |sealed|)
  }

  /** A provider's settings: the secret, and everything else. */
  datatype Setting = Setting(secretKey: string, rest: string)

  type Settings = map<string, Setting>

  /** A site's configuration: its provider settings, nil or not, and everything else. */
  datatype SiteConfig = SiteConfig(settings: Option<Settings>, rest: string)

  const EMPTY_CONFIG := SiteConfig(None, "")

  predicate IsSealed(secret: string) {
    HasPrefix(Trim(secret), SECRET_PREFIX)
  }

  // One secret

  /** Reading: a sealed secret is opened, or blanked when it cannot be; any other text is returned as is. */
  function ReadSecret(c: Cipher, secret: string): string {
    if !IsSealed(secret) then secret
    else if !c.hasKey then ""
    else
      match c.open(Trim(secret)[|SECRET_PREFIX|..])
      case Some(plain) => plain
      case None => ""
  }

  /** Writing over what is stored: a blank keeps the stored secret, plaintext is sealed, sealed text is
      stored as it is. None when a secret must be sealed and no key is set. */
  function WriteSecret(c: Cipher, stored: Option<string>, incoming: string, nonce: nat): Option<string> {
    if Trim(incoming) == "" then Some(if stored.Some? then stored.value else incoming)
    else if IsSealed(incoming) then Some(incoming)
    else if !c.hasKey then None
    else Some(SECRET_PREFIX + c.seal(nonce, Trim(incoming)))
  }

  lemma SealedIsTrimmed(c: Cipher, nonce: nat, plain: string)
    requires Sound(c)
    ensures var secret := SECRET_PREFIX + c.seal(nonce, plain);
            && Trim(secret) == secret && IsSealed(secret)
            && secret[|SECRET_PREFIX|..] == c.seal(nonce, plain)
  {
    var body := c.seal(nonce, plain);
    var secret := SECRET_PREFIX + body;
    assert c.open(body) == Some(plain) && forall ch <- body :: !IsSpace(ch);
    assert Bare(secret, IsSpace) by {
      assert secret[|secret| - 1] == if body == "" then ':' else body[|body| - 1];
    }
    TrimByBares(secret, IsSpace);
    assert secret[..|SECRET_PREFIX|] == SECRET_PREFIX;
  }

  /** What a written secret reads back as, in every case. */
  lemma WriteThenRead(c: Cipher, stored: Option<string>, incoming: string, nonce: nat)
    requires Sound(c) && WriteSecret(c, stored, incoming, nonce).Some?
    ensures var back := ReadSecret(c, WriteSecret(c, stored, incoming, nonce).value);
            && (Trim(incoming) != "" && !IsSealed(incoming) ==> back == Trim(incoming))
            && (Trim(incoming) != "" && IsSealed(incoming) ==> back == ReadSecret(c, incoming))
            && (Trim(incoming) == "" && stored.Some? ==> back == ReadSecret(c, stored.value))
            && (Trim(incoming) == "" && stored.None? ==> back == incoming)
  {
    if Trim(incoming) != "" && !IsSealed(incoming) {
      SealedIsTrimmed(c, nonce, Trim(incoming));
      var body := c.seal(nonce, Trim(incoming));
      assert c.open(body) == Some(Trim(incoming));
      hide Trim;
    }
    hide Trim;
  }

  /** A secret that is not blank is stored and reads back as its trimmed text exactly when there is a key and
      it does not look sealed already. */
  lemma ReadsBackIff(c: Cipher, stored: Option<string>, incoming: string, nonce: nat)
    requires Sound(c) && Trim(incoming) != ""
    ensures var written := WriteSecret(c, stored, incoming, nonce);
            written.Some? && ReadSecret(c, written.value) == Trim(incoming) <==> c.hasKey && !IsSealed(incoming)
  {
    if WriteSecret(c, stored, incoming, nonce).Some? {
      WriteThenRead(c, stored, incoming, nonce);
    }
    hide Trim;
    if IsSealed(incoming) {
      OpensToLess(c, incoming);
    }
  }

  /** Reading sealed text gives something shorter. */
  lemma OpensToLess(c: Cipher, secret: string)
    requires Sound(c) && IsSealed(secret)
    ensures |ReadSecret(c, secret)| < |Trim(secret)|
  {
    hide Trim;
    assert |Trim(secret)[|SECRET_PREFIX|..]| < |Trim(secret)|;
  }

  /** So text sealed before is stored as it is and read as what it seals. */
  lemma SealedTextIsTakenAtItsWord(c: Cipher, stored: Option<string>, plain: string, drawn: nat, nonce: nat)
    requires Sound(c) && c.hasKey
    ensures var incoming := SECRET_PREFIX + c.seal(drawn, plain);
            && WriteSecret(c, stored, incoming, nonce) == Some(incoming)
            && ReadSecret(c, incoming) == plain != incoming
  {
    var incoming := SECRET_PREFIX + c.seal(drawn, plain);
    SealedIsTrimmed(c, drawn, plain);
    assert c.open(c.seal(drawn, plain)) == Some(plain);
    assert incoming != "";
    OpensToLess(c, incoming);
    hide Trim;
  }

  /** Stored secrets never hold plaintext. */
  predicate Hidden(secret: string) {
    Trim(secret) == "" || IsSealed(secret)
  }

  lemma WriteHides(c: Cipher, stored: Option<string>, incoming: string, nonce: nat)
    requires Sound(c) && (stored.Some? ==> Hidden(stored.value))
    requires WriteSecret(c, stored, incoming, nonce).Some?
    ensures Hidden(WriteSecret(c, stored, incoming, nonce).value)
  {
    SealedIsTrimmed(c, nonce, Trim(incoming));
    hide Trim;
  }

  // Whole configurations

  function StoredSecret(settings: Option<Settings>, provider: string): Option<string> {
    if settings.Some? && provider in settings.value then Some(settings.value[provider].secretKey) else None
  }

  function Readable(c: Cipher, cfg: SiteConfig): SiteConfig {
    if cfg.settings.None? then cfg
    else
      var settings := cfg.settings.value;
      cfg.(settings := Some(map p | p in settings :: settings[p].(secretKey := ReadSecret(c, settings[p].secretKey))))
  }

  function Redacted(cfg: SiteConfig): SiteConfig {
    if cfg.settings.None? then cfg
    else
      var settings := cfg.settings.value;
      cfg.(settings := Some(map p | p in settings :: settings[p].(secretKey := "")))
  }

  /** Nonces are drawn anew for every secret. */
  type Nonces = string -> nat

  predicate CanMerge(c: Cipher, existing: SiteConfig, incoming: SiteConfig, nonces: Nonces) {
    incoming.settings.Some? ==>
      forall p <- incoming.settings.value ::
        WriteSecret(c, StoredSecret(existing.settings, p), incoming.settings.value[p].secretKey, nonces(p)).Some?
  }

  function Merged(c: Cipher, existing: SiteConfig, incoming: SiteConfig, nonces: Nonces): SiteConfig
    requires CanMerge(c, existing, incoming, nonces)
  {
    if incoming.settings.None? then incoming
    else
      var settings := incoming.settings.value;
      incoming.(settings := Some(map p | p in settings ::
        settings[p].(secretKey :=
          WriteSecret(c, StoredSecret(existing.settings, p), settings[p].secretKey, nonces(p)).value)))
  }

  method ApplyDecryptedCdnSecrets(c: Cipher, cfg: SiteConfig) returns (next: SiteConfig)
    ensures next == Readable(c, cfg)
  {
    if cfg.settings.None? {
      return cfg;
    }
    hide Trim;
    var settings := cfg.settings.value;
    var unsealed: Settings := map[];
    var left := settings.Keys;
    while left != {}
      invariant left <= settings.Keys && unsealed.Keys == settings.Keys - left
      invariant forall p <- unsealed :: unsealed[p] == settings[p].(secretKey := ReadSecret(c, settings[p].secretKey))
      decreases left
    {
      var provider :| provider in left;
      left := left - {provider};
      var setting := settings[provider];
      var secret := Trim(setting.secretKey);
      if HasPrefix(secret, SECRET_PREFIX) {
        var plain := if c.hasKey then c.open(secret[|SECRET_PREFIX|..]) else None;
        setting := setting.(secretKey := if plain.Some? then plain.value else "");
      }
      unsealed := unsealed[provider := setting];
    }
    assert unsealed == Readable(c, cfg).settings.value;
    next := cfg.(settings := Some(unsealed));
  }

  method MergeAndEncryptCdnSecrets(c: Cipher, existing: SiteConfig, incoming: SiteConfig, nonces: Nonces)
    returns (next: Option<SiteConfig>)
    ensures next.Some? <==> CanMerge(c, existing, incoming, nonces)
    ensures next.Some? ==> next.value == Merged(c, existing, incoming, nonces)
  {
    if incoming.settings.None? {
      return Some(incoming);
    }
    hide Trim;
    var settings := incoming.settings.value;
    var merged: Settings := map[];
    var left := settings.Keys;
    while left != {}
      invariant left <= settings.Keys && merged.Keys == settings.Keys - left
      invariant forall p <- merged ::
                  var written := WriteSecret(c, StoredSecret(existing.settings, p), settings[p].secretKey, nonces(p));
                  written.Some? && merged[p] == settings[p].(secretKey := written.value)
      decreases left
    {
      var provider :| provider in left;
      left := left - {provider};
      var setting := settings[provider];
      var secret := Trim(setting.secretKey);
      if secret == "" {
        if existing.settings.Some? && provider in existing.settings.value {
          setting := setting.(secretKey := existing.settings.value[provider].secretKey);
        }
      } else if !HasPrefix(secret, SECRET_PREFIX) {
        if !c.hasKey {
          return None;
        }
        setting := setting.(secretKey := SECRET_PREFIX + c.seal(nonces(provider), secret));
      }
      merged := merged[provider := setting];
    }
    assert merged == Merged(c, existing, incoming, nonces).settings.value;
    next := Some(incoming.(settings := Some(merged)));
  }

  method RedactSiteConfigSecrets(cfg: SiteConfig) returns (next: SiteConfig)
    ensures next == Redacted(cfg)
  {
    if cfg.settings.None? {
      return cfg;
    }
    var settings := cfg.settings.value;
    var redacted: Settings := map[];
    var left := settings.Keys;
    while left != {}
      invariant left <= settings.Keys && redacted.Keys == settings.Keys - left
      invariant forall p <- redacted :: redacted[p] == settings[p].(secretKey := "")
      decreases left
    {
      var provider :| provider in left;
      left := left - {provider};
      redacted := redacted[provider := settings[provider].(secretKey := "")];
    }
    assert redacted == Redacted(cfg).settings.value;
    next := cfg.(settings := Some(redacted));
  }

  // The lens laws

  /** Storing back what the interface shows changes nothing, with or without a key. */
  lemma PuttingBackTheViewChangesNothing(c: Cipher, stored: SiteConfig, nonces: Nonces)
    ensures CanMerge(c, stored, Redacted(Readable(c, stored)), nonces)
    ensures Merged(c, stored, Redacted(Readable(c, stored)), nonces) == stored
  {
    assert Trim("") == "";
    hide Trim, ReadSecret;
    if stored.settings.Some? {
      var view := Redacted(Readable(c, stored));
      assert Merged(c, stored, view, nonces).settings.value == stored.settings.value;
    }
  }

  /** The interface never shows a secret. */
  lemma ViewShowsNoSecret(c: Cipher, stored: SiteConfig, other: SiteConfig)
    requires stored.rest == other.rest && stored.settings.Some? && other.settings.Some?
    requires stored.settings.value.Keys == other.settings.value.Keys
    requires forall p <- stored.settings.value :: stored.settings.value[p].rest == other.settings.value[p].rest
    ensures Redacted(Readable(c, stored)) == Redacted(Readable(c, other))
  {
    hide ReadSecret;
    var a, b := Redacted(Readable(c, stored)).settings.value, Redacted(Readable(c, other)).settings.value;
    assert a == b;
  }

  /** What is read after a write, provider by provider: plaintext as its trimmed text, a blank as the
      secret that was stored before, sealed text as what it opens to, and everything but the secrets as written. */
  lemma ReadAfterWrite(c: Cipher, existing: SiteConfig, incoming: SiteConfig, nonces: Nonces, p: string)
    requires Sound(c) && CanMerge(c, existing, incoming, nonces)
    requires incoming.settings.Some? && p in incoming.settings.value
    ensures var got := Readable(c, Merged(c, existing, incoming, nonces));
            var want := incoming.settings.value[p];
            && got.rest == incoming.rest && got.settings.Some?
            && got.settings.value.Keys == incoming.settings.value.Keys
            && got.settings.value[p].rest == want.rest
            && (Trim(want.secretKey) != "" && !IsSealed(want.secretKey) ==>
                  got.settings.value[p].secretKey == Trim(want.secretKey))
            && (IsSealed(want.secretKey) ==> got.settings.value[p].secretKey == ReadSecret(c, want.secretKey))
            && (Trim(want.secretKey) == "" && StoredSecret(existing.settings, p).Some? ==>
                  got.settings.value[p].secretKey == Readable(c, existing).settings.value[p].secretKey)
            && (Trim(want.secretKey) == "" && StoredSecret(existing.settings, p).None? ==>
                  got.settings.value[p].secretKey == want.secretKey)
  {
    WriteThenRead(c, StoredSecret(existing.settings, p), incoming.settings.value[p].secretKey, nonces(p));
    hide Trim, ReadSecret, WriteSecret;
  }
}
