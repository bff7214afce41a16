/** ORDER BY key DESC LIMIT k, and what it leaves open: the order of rows with equal keys. */
module NewestFirst {
  import opened Seqs

  // Text is compared character by character

  predicate AtMost(a: string, b: string) {
    a == [] || (b != [] && (a[0] < b[0] || (a[0] == b[0] && AtMost(a[1..], b[1..]))))
  }

  lemma {:induction false} AtMostTotal(a: string, b: string)
    ensures AtMost(a, b) || AtMost(b, a)
  {
    if a != [] && b != [] && a[0] == b[0] {
      AtMostTotal(a[1..], b[1..]);
    }
  }

  lemma {:induction false} AtMostAntisymmetric(a: string, b: string)
    requires AtMost(a, b) && AtMost(b, a)
    ensures a == b
  {
    if a != [] && b != [] {
      AtMostAntisymmetric(a[1..], b[1..]);
      assert a == [a[0]] + a[1..] && b == [b[0]] + b[1..];
    }
  }

  lemma {:induction false} AtMostTransitive(a: string, b: string, c: string)
    requires AtMost(a, b) && AtMost(b, c)
    ensures AtMost(a, c)
  {
    if a != [] && a[0] == b[0] && b[0] == c[0] {
      AtMostTransitive(a[1..], b[1..], c[1..]);
    }
  }

  // The k newest rows

  predicate Descending<T>(s: seq<T>, key: T -> string) {
    forall i, j :: 0 <= i < j < |s| ==> AtMost(key(s[j]), key(s[i]))
  }

  function Limited(k: nat, n: nat): (r: nat)
    ensures r == k || r == n
    ensures r <= k && r <= n
  {
    if k < n then k else n
  }

  /** r lists k of the rows, or all of them, newest first, and no row left out is newer than one listed. */
  ghost predicate Newest<T(!new)>(rows: seq<T>, key: T -> string, k: nat, r: seq<T>) {
    && Descending(r, key)
    && |r| == Limited(k, |rows|)
    && multiset(r) <= multiset(rows)
    && forall x, y | x in multiset(rows) - multiset(r) && y in r :: AtMost(key(x), key(y))
  }

  function Keys<T>(s: seq<T>, key: T -> string): (r: seq<string>)
    ensures |r| == |s|
  {
    seq(|s|, i requires 0 <= i < |s| => key(s[i]))
  }

  /** Sorting everything and cutting is one way to list the newest. */
  lemma SortedPrefixIsNewest<T(!new)>(rows: seq<T>, key: T -> string, k: nat, sorted: seq<T>)
    requires Descending(sorted, key) && multiset(sorted) == multiset(rows)
    ensures |sorted| == |rows|
    ensures Newest(rows, key, k, sorted[..Limited(k, |sorted|)])
  {
    assert |multiset(sorted)| == |sorted| && |multiset(rows)| == |rows|;
    var n := Limited(k, |sorted|);
    var head, tail := sorted[..n], sorted[n..];
    assert sorted == head + tail;
    forall x, y | x in multiset(rows) - multiset(head) && y in head ensures AtMost(key(x), key(y)) {
      assert x in multiset(tail);
      var i :| 0 <= i < |tail| && tail[i] == x;
      var j :| 0 <= j < |head| && head[j] == y;
      assert sorted[n + i] == x && sorted[j] == y;
    }
  }

  /** Only ties are left open: two such lists have the same keys in the same order. */
  lemma NewestKeysUnique<T(!new)>(rows: seq<T>, key: T -> string, k: nat, r: seq<T>, s: seq<T>)
    requires Newest(rows, key, k, r) && Newest(rows, key, k, s)
    ensures Keys(r, key) == Keys(s, key)
  {
    forall i | 0 <= i < |r| ensures key(r[i]) == key(s[i]) {
      NoNewerAt(rows, key, k, r, s, i);
      NoNewerAt(rows, key, k, s, r, i);
      AtMostAntisymmetric(key(r[i]), key(s[i]));
    }
  }

  lemma NoNewerAt<T(!new)>(rows: seq<T>, key: T -> string, k: nat, r: seq<T>, s: seq<T>, i: nat)
    requires Newest(rows, key, k, r) && Newest(rows, key, k, s) && i < |r|
    ensures AtMost(key(r[i]), key(s[i]))
  {
    if !AtMost(key(r[i]), key(s[i])) {
      forall e ensures multiset(r[..i + 1])[e] <= multiset(s[..i])[e] {
        NewerOnesAreListed(rows, key, k, r, s, i, e);
      }
      hide *;
      Fewer(multiset(r[..i + 1]), multiset(s[..i]));
    }
  }

  /** If r has a newer row at i than s, each of r's first i + 1 rows is among s's first i, as often. */
  lemma NewerOnesAreListed<T(!new)>(rows: seq<T>, key: T -> string, k: nat, r: seq<T>, s: seq<T>, i: nat, e: T)
    requires Newest(rows, key, k, r) && Newest(rows, key, k, s) && i < |r|
    requires !AtMost(key(r[i]), key(s[i]))
    ensures multiset(r[..i + 1])[e] <= multiset(s[..i])[e]
  {
    assert |s| == |r|;
    hide AtMost, Newest;
    if e in r[..i + 1] {
      HeadIsNewer(rows, key, k, r, i, e);
      if AtMost(key(e), key(s[i])) {
        AtMostTransitive(key(r[i]), key(e), key(s[i]));
      }
      NewerIsListedBefore(rows, key, k, s, i, e);
      RowsHold(rows, key, k, r, e);
      hide *;
      PrefixCounts(r, i + 1, e);
      TailWithout(s, i, e);
    }
  }

  lemma HeadIsNewer<T(!new)>(rows: seq<T>, key: T -> string, k: nat, r: seq<T>, i: nat, e: T)
    requires Newest(rows, key, k, r) && i < |r| && e in r[..i + 1]
    ensures AtMost(key(r[i]), key(e))
  {
    var j :| 0 <= j < i + 1 && r[..i + 1][j] == e;
    assert r[j] == e;
    AtMostTotal(key(r[i]), key(r[i]));
    hide AtMost;
  }

  lemma RowsHold<T(!new)>(rows: seq<T>, key: T -> string, k: nat, r: seq<T>, e: T)
    requires Newest(rows, key, k, r)
    ensures multiset(r)[e] <= multiset(rows)[e]
  {
    hide AtMost, Descending;
  }

  /** A row newer than the i-th is listed, and only before it. */
  lemma NewerIsListedBefore<T(!new)>(rows: seq<T>, key: T -> string, k: nat, s: seq<T>, i: nat, e: T)
    requires Newest(rows, key, k, s) && i < |s| && !AtMost(key(e), key(s[i]))
    ensures multiset(rows)[e] <= multiset(s)[e]
    ensures forall m :: i <= m < |s| ==> s[m] != e
  {
    AtMostTotal(key(s[i]), key(s[i]));
    hide AtMost;
    assert s[i] in s;
    assert e !in multiset(rows) - multiset(s);
    forall m | i <= m < |s| ensures s[m] != e {
      assert AtMost(key(s[m]), key(s[i]));
    }
  }

  lemma PrefixCounts<T>(s: seq<T>, n: nat, x: T)
    requires n <= |s|
    ensures multiset(s[..n])[x] <= multiset(s)[x]
  {
    assert s == s[..n] + s[n..];
  }

  lemma TailWithout<T>(s: seq<T>, n: nat, x: T)
    requires n <= |s| && forall m :: n <= m < |s| ==> s[m] != x
    ensures multiset(s[..n])[x] == multiset(s)[x]
  {
    assert s == s[..n] + s[n..];
    assert x !in s[n..];
  }

  lemma Fewer<T>(a: multiset<T>, b: multiset<T>)
    requires a <= b
    ensures |a| <= |b|
    ensures |a| == |b| ==> a == b
  {
    assert b == a + (b - a);
  }

  /** Asking two sources for their newest k and keeping the newest k of the answers gives the newest k of both. */
  lemma NewestOfNewest<T(!new)>(a: seq<T>, b: seq<T>, key: T -> string, k: nat, x: seq<T>, y: seq<T>, r: seq<T>)
    requires Newest(a, key, k, x) && Newest(b, key, k, y) && Newest(x + y, key, k, r)
    ensures Newest(a + b, key, k, r)
  {
    assert multiset(x + y) == multiset(x) + multiset(y) && multiset(a + b) == multiset(a) + multiset(b);
    Fewer(multiset(x), multiset(a));
    Fewer(multiset(y), multiset(b));
    forall out, kept | out in multiset(a + b) - multiset(r) && kept in r ensures AtMost(key(out), key(kept)) {
      if out !in multiset(x + y) - multiset(r) {
        if out in multiset(a) - multiset(x) {
          LeftOutIsOlder(a, x, x + y, key, k, r, out, kept);
        } else {
          assert out in multiset(b) - multiset(y);
          LeftOutIsOlder(b, y, x + y, key, k, r, out, kept);
        }
      }
    }
  }

  lemma LeftOutIsOlder<T(!new)>(a: seq<T>, x: seq<T>, both: seq<T>, key: T -> string, k: nat, r: seq<T>, out: T, kept: T)
    requires Newest(a, key, k, x) && Newest(both, key, k, r) && multiset(x) <= multiset(both)
    requires out in multiset(a) - multiset(x) && kept in r
    ensures AtMost(key(out), key(kept))
  {
    if !AtMost(key(out), key(kept)) {
      AtMostTotal(key(out), key(kept));
      Fewer(multiset(x), multiset(a));
      forall e ensures (multiset(x) + multiset{kept})[e] <= multiset(r)[e] {
        if e in x {
          if AtMost(key(e), key(kept)) {
            AtMostTransitive(key(out), key(e), key(kept));
          }
          assert e != kept && e !in multiset(both) - multiset(r);
        }
      }
      Fewer(multiset(x) + multiset{kept}, multiset(r));
    }
  }

  // Sorting

  method SortNewestFirst<T>(rows: seq<T>, key: T -> string) returns (sorted: seq<T>)
    ensures Descending(sorted, key) && multiset(sorted) == multiset(rows)
  {
    sorted := [];
    for n := 0 to |rows|
      invariant Descending(sorted, key) && multiset(sorted) == multiset(rows[..n])
    {
      ghost var before := sorted;
      sorted := InsertNewestFirst(sorted, rows[n], key);
      TakeSnoc(rows, n);
    }
    TakeAll(rows);
  }

  method InsertNewestFirst<T>(s: seq<T>, x: T, key: T -> string) returns (r: seq<T>)
    requires Descending(s, key)
    ensures Descending(r, key) && multiset(r) == multiset(s) + multiset{x}
  {
    hide AtMost;
    var i := 0;
    while i < |s| && AtMost(key(x), key(s[i]))
      invariant i <= |s|
      invariant forall j :: 0 <= j < i ==> AtMost(key(x), key(s[j]))
    {
      i := i + 1;
    }
    InsertedDescends(s, x, i, key);
    assert s == s[..i] + s[i..];
    hide Descending;
    r := s[..i] + [x] + s[i..];
  }

  lemma InsertedDescends<T>(s: seq<T>, x: T, i: nat, key: T -> string)
    requires Descending(s, key) && i <= |s|
    requires forall j :: 0 <= j < i ==> AtMost(key(x), key(s[j]))
    requires i < |s| ==> !AtMost(key(x), key(s[i]))
    ensures Descending(s[..i] + [x] + s[i..], key)
  {
    hide AtMost;
    forall j | i <= j < |s| ensures AtMost(key(s[j]), key(x)) {
      AtMostTotal(key(x), key(s[i]));
      if j > i {
        AtMostTransitive(key(s[j]), key(s[i]), key(x));
      }
    }
    var r := s[..i] + [x] + s[i..];
    forall a, b | 0 <= a < b < |r| ensures AtMost(key(r[b]), key(r[a])) {
      assert r[a] == (if a < i then s[a] else if a == i then x else s[a - 1]);
      assert r[b] == (if b < i then s[b] else if b == i then x else s[b - 1]);
    }
  }

  /** SELECT ... ORDER BY key DESC LIMIT k. */
  method SelectNewest<T(!new)>(rows: seq<T>, key: T -> string, k: nat) returns (r: seq<T>)
    ensures Newest(rows, key, k, r)
  {
    var sorted := SortNewestFirst(rows, key);
    SortedPrefixIsNewest(rows, key, k, sorted);
    r := sorted[..Limited(k, |sorted|)];
  }
}
