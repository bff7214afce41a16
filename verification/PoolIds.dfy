/** Identifiers for the pools that migration creates. */
module PoolIds {
  import opened Text
  import Seqs

  predicate IsTokenChar(c: char) {
    'a' <= c <= 'z' || '0' <= c <= '9'
  }

  predicate IsUnderline(c: char) {
    c == '_'
  }

  predicate EndsUnderlined(s: string) {
    s != "" && s[|s| - 1] == '_'
  }

  /** Runs of other characters become one underline each. */
  function Collapse(s: string): string {
    if s == "" then ""
    else
      var k := |s| - 1;
      var done := Collapse(s[..k]);
      if IsTokenChar(s[k]) then done + [s[k]]
      else if EndsUnderlined(done) then done
      else done + "_"
  }

  function PoolToken(source: string): string {
    TrimBy(Collapse(ToLower(Trim(source))), IsUnderline)
  }

  predicate SingleUnderlines(s: string) {
    && (forall c <- s :: IsTokenChar(c) || c == '_')
    && (forall i :: 0 <= i < |s| - 1 ==> !(s[i] == '_' && s[i + 1] == '_'))
  }

  lemma {:induction false} CollapseIsSingle(s: string)
    ensures SingleUnderlines(Collapse(s))
  {
    if s != "" {
      CollapseIsSingle(s[..|s| - 1]);
    }
  }

  /** A token holds letters, digits and single inner underlines, and nothing else. */
  lemma PoolTokenShape(source: string)
    ensures SingleUnderlines(PoolToken(source)) && Bare(PoolToken(source), IsUnderline)
  {
    var s := Collapse(ToLower(Trim(source)));
    CollapseIsSingle(ToLower(Trim(source)));
    TrimByBares(s, IsUnderline);
    TrimLeftIsSuffix(s, IsUnderline);
    var t := TrimLeft(s, IsUnderline);
    PieceIsSingle(s, |s| - |t|, |s|);
    TrimRightIsPrefix(t, IsUnderline);
    PieceIsSingle(t, 0, |PoolToken(source)|);
  }

  lemma PieceIsSingle(s: string, from: nat, to: nat)
    requires from <= to <= |s| && SingleUnderlines(s)
    ensures SingleUnderlines(s[from..to])
  {
    assert forall i :: 0 <= i < to - from ==> s[from..to][i] == s[from + i] && s[from + i] in s;
  }

  method SanitizePoolToken(source: string) returns (r: string)
    ensures r == PoolToken(source)
    ensures SingleUnderlines(r) && Bare(r, IsUnderline)
  {
    PoolTokenShape(source);
    hide ToLower, Trim, TrimBy, SingleUnderlines, Bare;
    var text := ToLower(Trim(source));
    var builder := "";
    var previousUnderline := false;
    for n := 0 to |text|
      invariant builder == Collapse(text[..n])
      invariant previousUnderline == EndsUnderlined(builder)
    {
      Seqs.TakeSnoc(text, n);
      Seqs.FrontOfSnoc(text[..n], text[n]);
      if IsTokenChar(text[n]) {
        builder := builder + [text[n]];
        previousUnderline := false;
      } else if !previousUnderline {
        builder := builder + "_";
        previousUnderline := true;
      }
    }
    Seqs.TakeAll(text);
    r := TrimBy(builder, IsUnderline);
  }

  const ID_PREFIX := "pool_mig_"

  function BaseId(source: string): string {
    if PoolToken(source) == "" then "pool_mig_item" else ID_PREFIX + PoolToken(source)
  }

  /** The k-th identifier tried: the base itself, then the base with 2, 3, ... */
  function Candidate(base: string, k: nat): string {
    if k <= 1 then base else base + "_" + Decimal(k)
  }

  lemma CandidatesDiffer(base: string, j: nat, k: nat)
    requires 1 <= j && 1 <= k && Candidate(base, j) == Candidate(base, k)
    ensures j == k
  {
    if j > 1 && k > 1 {
      assert Candidate(base, j)[|base| + 1..] == Decimal(j);
      assert Candidate(base, k)[|base| + 1..] == Decimal(k);
      DecimalInjective(j, k);
    }
  }

  /** The used identifiers that are still to be tried from the k-th candidate on. */
  ghost function Ahead(base: string, used: set<string>, k: nat): set<string> {
    set id | id in used && exists j: nat :: j >= k && id == Candidate(base, j)
  }

  lemma AheadShrinks(base: string, used: set<string>, k: nat)
    requires k >= 1 && Candidate(base, k) in used
    ensures Ahead(base, used, k + 1) < Ahead(base, used, k)
  {
    assert Candidate(base, k) in Ahead(base, used, k);
    if Candidate(base, k) in Ahead(base, used, k + 1) {
      var j: nat :| j >= k + 1 && Candidate(base, k) == Candidate(base, j);
      CandidatesDiffer(base, k, j);
    }
  }

  function FirstFree(base: string, used: set<string>, k: nat): (id: string)
    requires k >= 1
    ensures id !in used
    ensures exists j: nat :: j >= k && id == Candidate(base, j) && forall i :: k <= i < j ==> Candidate(base, i) in used
    decreases Ahead(base, used, k)
  {
    if Candidate(base, k) !in used then Candidate(base, k)
    else
      AheadShrinks(base, used, k);
      FirstFree(base, used, k + 1)
  }

  function MigratedId(source: string, used: set<string>): string {
    FirstFree(BaseId(source), used, 1)
  }

  /** The search of the source: it ends for every used set and returns a fresh identifier. */
  method BuildMigratedPoolId(source: string, used: set<string>) returns (poolId: string, used': set<string>)
    ensures poolId == MigratedId(source, used)
    ensures poolId !in used && used' == used + {poolId}
  {
    var token := SanitizePoolToken(source);
    hide PoolToken;
    var candidate := ID_PREFIX + token;
    if candidate == ID_PREFIX {
      assert token == "";
      candidate := "pool_mig_item";
    }
    poolId := candidate;
    var index := 1;
    while poolId in used
      invariant index >= 1 && poolId == Candidate(candidate, index)
      invariant FirstFree(candidate, used, 1) == FirstFree(candidate, used, index)
      decreases Ahead(candidate, used, index)
    {
      AheadShrinks(candidate, used, index);
      index := index + 1;
      poolId := candidate + "_" + Decimal(index);
    }
    used' := used + {poolId};
  }

  predicate IsWord(s: string) {
    s != "" && forall c <- s :: IsTokenChar(c) || c == '_'
  }

  lemma WordIsBare(s: string)
    requires IsWord(s)
    ensures Trim(s) == s
  {
    assert s[0] in s && s[|s| - 1] in s;
    TrimByBares(s, IsSpace);
  }

  lemma CandidateIsWord(source: string, k: nat)
    ensures IsWord(Candidate(BaseId(source), k))
  {
    PoolTokenShape(source);
    assert Decimal(k) != "" && forall c <- Decimal(k) :: '0' <= c <= '9';
    hide PoolToken, Decimal;
  }

  /** Migrated identifiers are never blank and survive trimming. */
  lemma MigratedIdIsBare(source: string, used: set<string>)
    ensures MigratedId(source, used) != "" && Trim(MigratedId(source, used)) == MigratedId(source, used)
  {
    hide BaseId, Candidate, Trim;
    var j: nat :| j >= 1 && MigratedId(source, used) == Candidate(BaseId(source), j);
    CandidateIsWord(source, j);
    WordIsBare(MigratedId(source, used));
  }
}
