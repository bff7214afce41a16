/** Division facts, kept apart so that the proofs that use them stay linear. */
module Arithmetic {

  /** d % n, by repeated subtraction. */
  function Residue(d: nat, n: nat): (r: nat)
    requires n > 0
    ensures r < n
  {
    if d < n then d else Residue(d - n, n)
  }

  lemma {:induction false} ResidueIsMod(d: nat, n: nat)
    requires n > 0
    ensures Residue(d, n) == d % n
  {
    if d >= n {
      ResidueIsMod(d - n, n);
      ModShift(d - n, n);
    }
  }

  lemma ModShift(x: nat, n: nat)
    requires n > 0
    ensures (x + n) % n == x % n
  {
    var q, r := x / n, x % n;
    assert x + n == (q + 1) * n + r by {
      assert x == q * n + r;
      assert (q + 1) * n == q * n + n;
    }
    QuotientUnique(x + n, n, q + 1, r);
  }

  lemma QuotientUnique(x: nat, n: nat, q: nat, r: nat)
    requires n > 0 && r < n && x == q * n + r
    ensures x / n == q && x % n == r
  {
    assert x == (x / n) * n + x % n;
    MultipleGrows(x / n - q, n);
    assert (x / n - q) * n == (x / n) * n - q * n;
  }

  /** Reducing before adding one makes no difference. */
  lemma ModSuccessor(x: nat, n: nat)
    requires n > 0
    ensures (x % n + 1) % n == (x + 1) % n
  {
    var q, r := Division(x, n);
    if r + 1 < n {
      QuotientUnique(x + 1, n, q, r + 1);
      QuotientUnique(r + 1, n, 0, r + 1);
    } else {
      TimesSuccessor(q, n);
      QuotientUnique(x + 1, n, q + 1, 0);
      QuotientUnique(n, n, 1, 0);
    }
  }

  lemma MultipleGrows(d: int, n: int)
    requires n > 0
    ensures d >= 1 ==> d * n >= n
    ensures d <= -1 ==> d * n <= -n
  {
  }

  /** floor(k/w) and what is left over. */
  lemma Division(k: nat, w: nat) returns (q: nat, r: nat)
    requires w > 0
    ensures q == k / w && r == k % w && r < w && k == q * w + r
  {
    q, r := k / w, k % w;
  }

  /** a / b rounded up. */
  function CeilDiv(a: nat, b: nat): nat
    requires b > 0
  {
    if a % b == 0 then a / b else a / b + 1
  }

  lemma TimesSuccessor(q: nat, w: nat)
    ensures (q + 1) * w == q * w + w
  {
  }
}
