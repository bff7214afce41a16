/** Facts about sequences and prefixes that the loops share. */
module Seqs {

  lemma TakeSnoc<T>(s: seq<T>, i: nat)
    requires i < |s|
    ensures s[..i + 1] == s[..i] + [s[i]]
  {
  }

  lemma TakeAll<T>(s: seq<T>)
    ensures s[..|s|] == s
  {
  }

  lemma FrontOfSnoc<T>(front: seq<T>, x: T)
    ensures (front + [x])[..|front|] == front
  {
  }

  /** The last index whose element satisfies p, or -1. */
  function LastIndex<T>(s: seq<T>, p: T -> bool): (i: int)
    ensures -1 <= i < |s|
  {
    if s == [] then -1
    else if p(s[|s| - 1]) then |s| - 1
    else LastIndex(s[..|s| - 1], p)
  }

  lemma {:induction false} LastIndexIsLast<T>(s: seq<T>, p: T -> bool)
    ensures var i := LastIndex(s, p);
            && (i >= 0 ==> p(s[i]))
            && (forall k :: i < k < |s| ==> !p(s[k]))
  {
    if s != [] && !p(s[|s| - 1]) {
      var front := s[..|s| - 1];
      LastIndexIsLast(front, p);
      forall k | LastIndex(s, p) < k < |s| ensures !p(s[k]) {
        assert k < |front| ==> s[k] == front[k];
      }
    }
  }

  /** The first index whose element satisfies p, or -1. */
  function FirstIndex<T>(s: seq<T>, p: T -> bool): (i: int)
    ensures -1 <= i < |s|
  {
    if s == [] then -1
    else
      var k := |s| - 1;
      var i := FirstIndex(s[..k], p);
      if i >= 0 then i else if p(s[k]) then k else -1
  }

  lemma FirstIndexSnoc<T>(front: seq<T>, x: T, p: T -> bool)
    ensures var i := FirstIndex(front, p);
            FirstIndex(front + [x], p) == if i >= 0 then i else if p(x) then |front| else -1
  {
    FrontOfSnoc(front, x);
  }

  /** Two scans that agree on one element more still agree, and stop at the same place in line. */
  lemma FoundOneMore<A, B>(xs: seq<A>, x: A, p: A -> bool, ys: seq<B>, y: B, q: B -> bool)
    requires p(x) == q(y)
    requires FirstIndex(xs, p) >= 0 <==> FirstIndex(ys, q) >= 0
    ensures var w, i := FirstIndex(xs + [x], p), FirstIndex(ys + [y], q);
            if FirstIndex(xs, p) >= 0
            then 0 <= w == FirstIndex(xs, p) < |xs| && 0 <= i == FirstIndex(ys, q) < |ys| && (xs + [x])[w] == xs[w] && (ys + [y])[i] == ys[i]
            else if p(x) then w == |xs| && i == |ys| && (xs + [x])[w] == x && (ys + [y])[i] == y
            else w == -1 && i == -1
  {
    FirstIndexSnoc(xs, x, p);
    FirstIndexSnoc(ys, y, q);
    hide FirstIndex;
  }

  lemma {:induction false} FirstIndexIsFirst<T>(s: seq<T>, p: T -> bool)
    ensures var i := FirstIndex(s, p);
            && (i >= 0 ==> p(s[i]))
            && (forall k :: 0 <= k < (if i >= 0 then i else |s|) ==> !p(s[k]))
  {
    if s != [] {
      var front := s[..|s| - 1];
      FirstIndexIsFirst(front, p);
      var i := FirstIndex(s, p);
      forall k | 0 <= k < (if i >= 0 then i else |s|) ensures !p(s[k]) {
        assert k < |front| ==> s[k] == front[k];
      }
    }
  }

  lemma FoundIffPresent<T>(s: seq<T>, p: T -> bool)
    ensures LastIndex(s, p) >= 0 <==> exists x :: x in s && p(x)
    ensures FirstIndex(s, p) >= 0 <==> exists x :: x in s && p(x)
  {
    LastIndexIsLast(s, p);
    FirstIndexIsFirst(s, p);
    if x :| x in s && p(x) {
      var k :| 0 <= k < |s| && s[k] == x;
    }
  }

  /** Sequences that agree on their tests agree on what is found. */
  lemma {:induction false} FoundAlike<A, B>(a: seq<A>, p: A -> bool, b: seq<B>, q: B -> bool)
    requires |a| == |b| && forall i :: 0 <= i < |a| ==> p(a[i]) == q(b[i])
    ensures LastIndex(a, p) == LastIndex(b, q)
    ensures FirstIndex(a, p) == FirstIndex(b, q)
  {
    if a != [] {
      FoundAlike(a[..|a| - 1], p, b[..|b| - 1], q);
    }
  }

  function Filter<T>(s: seq<T>, keep: T -> bool): seq<T> {
    if s == [] then []
    else
      var k := |s| - 1;
      Filter(s[..k], keep) + (if keep(s[k]) then [s[k]] else [])
  }

  lemma {:induction false} FilterKeeps<T>(s: seq<T>, keep: T -> bool)
    ensures forall x :: x in Filter(s, keep) <==> x in s && keep(x)
  {
    if s != [] {
      var k := |s| - 1;
      FilterKeeps(s[..k], keep);
      assert s == s[..k] + [s[k]];
    }
  }

  lemma KeptIff<T>(s: seq<T>, keep: T -> bool, x: T)
    ensures x in Filter(s, keep) <==> x in s && keep(x)
  {
    FilterKeeps(s, keep);
  }

  lemma FilterSnoc<T>(front: seq<T>, x: T, keep: T -> bool)
    ensures Filter(front + [x], keep) == Filter(front, keep) + (if keep(x) then [x] else [])
  {
    FrontOfSnoc(front, x);
  }

  lemma {:induction false} FilterShrinks<T>(s: seq<T>, keep: T -> bool)
    ensures |Filter(s, keep)| <= |s|
  {
    if s != [] {
      FilterShrinks(s[..|s| - 1], keep);
    }
  }

  /** Two tests one after the other are one test. */
  lemma {:induction false} FilterTwice<T>(s: seq<T>, p: T -> bool, q: T -> bool, both: T -> bool)
    requires forall x <- s :: both(x) == (p(x) && q(x))
    ensures Filter(Filter(s, p), q) == Filter(s, both)
  {
    if s != [] {
      var front, x := s[..|s| - 1], s[|s| - 1];
      assert x in s && forall y <- front :: y in s;
      FilterTwice(front, p, q, both);
      KeptSnoc(s, p);
      KeptSnoc(s, both);
      if p(x) {
        FilterSnoc(Filter(front, p), x, q);
      }
    }
  }

  lemma {:induction false} FilterNone<T>(s: seq<T>, keep: T -> bool)
    requires forall x <- s :: !keep(x)
    ensures Filter(s, keep) == []
  {
    if s != [] {
      var front, x := s[..|s| - 1], s[|s| - 1];
      assert x in s && forall y <- front :: y in s;
      FilterNone(front, keep);
    }
  }

  /** When whatever follows a kept element is kept too, what is kept is a tail. */
  lemma {:induction false} FilterTail<T>(s: seq<T>, keep: T -> bool)
    requires forall i, j :: 0 <= i < j < |s| && keep(s[i]) ==> keep(s[j])
    ensures |Filter(s, keep)| <= |s|
    ensures Filter(s, keep) == s[|s| - |Filter(s, keep)|..]
  {
    if s != [] {
      var front, x := s[..|s| - 1], s[|s| - 1];
      FilterTail(front, keep);
      if !keep(x) {
        forall y | y in front ensures !keep(y) {
          var i :| 0 <= i < |front| && front[i] == y;
          assert s[i] == y;
        }
        FilterNone(front, keep);
      }
    }
  }

  lemma {:induction false} FilterDistinct<T, K>(s: seq<T>, keep: T -> bool, key: T -> K)
    requires Distinct(s, key)
    ensures Distinct(Filter(s, keep), key)
  {
    if s != [] {
      var front, x := s[..|s| - 1], s[|s| - 1];
      assert s == front + [x];
      assert Distinct(front + [x], key);
      DistinctSnoc(front, x, key);
      FilterDistinct(front, keep, key);
      KeptSnoc(s, keep);
      forall y | y in Filter(front, keep) ensures key(y) != key(x) {
        KeptIff(front, keep, y);
      }
      DistinctSnoc(Filter(front, keep), x, key);
    }
  }

  /** A sequence without repeated keys holds each element once. */
  lemma {:induction false} DistinctOnce<T, K>(s: seq<T>, key: T -> K)
    requires Distinct(s, key)
    ensures forall x :: multiset(s)[x] <= 1
  {
    if s != [] {
      var front, x := s[..|s| - 1], s[|s| - 1];
      assert s == front + [x];
      DistinctSnoc(front, x, key);
      DistinctOnce(front, key);
    }
  }

  /** Dropping elements that fail the test does not change what is found. */
  lemma {:induction false} LastAmongKept<T>(s: seq<T>, keep: T -> bool, p: T -> bool)
    requires forall x <- s :: p(x) ==> keep(x)
    ensures var i, j := LastIndex(s, p), LastIndex(Filter(s, keep), p);
            (i >= 0 <==> j >= 0) && (i >= 0 ==> s[i] == Filter(s, keep)[j])
  {
    if s != [] {
      var k := |s| - 1;
      assert forall x <- s[..k] :: x in s;
      LastAmongKept(s[..k], keep, p);
      assert s[k] in s;
      KeptSnoc(s, keep);
    }
  }

  lemma {:induction false} FirstAmongKept<T>(s: seq<T>, keep: T -> bool, p: T -> bool)
    requires forall x <- s :: p(x) ==> keep(x)
    ensures var i, j := FirstIndex(s, p), FirstIndex(Filter(s, keep), p);
            (i >= 0 <==> j >= 0) && (i >= 0 ==> s[i] == Filter(s, keep)[j])
  {
    if s != [] {
      var k := |s| - 1;
      assert forall x <- s[..k] :: x in s;
      FirstAmongKept(s[..k], keep, p);
      assert s[k] in s;
      KeptSnoc(s, keep);
    }
  }

  lemma KeptSnoc<T>(s: seq<T>, keep: T -> bool)
    requires s != []
    ensures var k := |s| - 1;
            && (!keep(s[k]) ==> Filter(s, keep) == Filter(s[..k], keep))
            && (keep(s[k]) ==> Filter(s, keep) == Filter(s[..k], keep) + [s[k]])
            && (keep(s[k]) ==> Filter(s, keep)[..|Filter(s[..k], keep)|] == Filter(s[..k], keep))
  {
  }

  /** No two elements share a key. */
  predicate Distinct<T, K(==)>(s: seq<T>, key: T -> K) {
    forall i, j :: 0 <= i < j < |s| ==> key(s[i]) != key(s[j])
  }

  lemma DistinctSnoc<T, K>(front: seq<T>, x: T, key: T -> K)
    ensures Distinct(front + [x], key) <==> Distinct(front, key) && forall y <- front :: key(y) != key(x)
  {
    var s := front + [x];
    assert forall i :: 0 <= i < |front| ==> s[i] == front[i] && front[i] in front;
    if Distinct(s, key) {
      forall y | y in front ensures key(y) != key(x) {
        var i :| 0 <= i < |front| && front[i] == y;
        assert s[i] == y && s[|front|] == x;
      }
      assert Distinct(front, key) by {
        forall i, j | 0 <= i < j < |front| ensures key(front[i]) != key(front[j]) {
          assert key(s[i]) != key(s[j]);
        }
      }
    }
  }

  // Sequences read as tables.

  /** The elements by key; a later element replaces an earlier one with the same key. */
  function Table<T, K(==)>(s: seq<T>, key: T -> K): map<K, T> {
    if s == [] then map[] else Table(s[..|s| - 1], key)[key(s[|s| - 1]) := s[|s| - 1]]
  }

  lemma {:induction false} TableHolds<T, K>(s: seq<T>, key: T -> K)
    ensures forall x <- s :: key(x) in Table(s, key)
    ensures forall k <- Table(s, key) :: Table(s, key)[k] in s && key(Table(s, key)[k]) == k
    ensures Distinct(s, key) ==> forall x <- s :: Table(s, key)[key(x)] == x
    ensures Distinct(s, key) ==> |Table(s, key)| == |s|
  {
    if s != [] {
      var front, x := s[..|s| - 1], s[|s| - 1];
      TableHolds(front, key);
      DistinctSnoc(front, x, key);
      assert s == front + [x];
    }
  }

  /** Sequences that agree on their keys have tables over the same keys. */
  lemma {:induction false} TablesAlike<A, B, K>(a: seq<A>, keyA: A -> K, b: seq<B>, keyB: B -> K)
    requires |a| == |b| && forall i :: 0 <= i < |a| ==> keyA(a[i]) == keyB(b[i])
    ensures Table(a, keyA).Keys == Table(b, keyB).Keys
    ensures Distinct(a, keyA) <==> Distinct(b, keyB)
  {
    if a != [] {
      TablesAlike(a[..|a| - 1], keyA, b[..|b| - 1], keyB);
    }
  }

  lemma TableSnoc<T, K>(front: seq<T>, x: T, key: T -> K)
    ensures Table(front + [x], key) == Table(front, key)[key(x) := x]
  {
    FrontOfSnoc(front, x);
  }

  /** What makes a map the table of a sequence. */
  lemma TableIs<T, K>(s: seq<T>, key: T -> K, m: map<K, T>)
    requires Distinct(s, key)
    requires forall x <- s :: key(x) in m && m[key(x)] == x
    requires forall k <- m :: m[k] in s && key(m[k]) == k
    ensures Table(s, key) == m
  {
    TableHolds(s, key);
    var t := Table(s, key);
    assert forall k <- t :: t[k] in s && k in m && m[k] == t[k];
    assert forall k <- m :: m[k] in s && k in t;
  }

  /** Overwriting an element by one with the same key. */
  lemma TableUpdated<T, K>(s: seq<T>, key: T -> K, i: nat, x: T)
    requires i < |s| && Distinct(s, key) && key(x) == key(s[i])
    ensures Distinct(s[i := x], key)
    ensures Table(s[i := x], key) == Table(s, key)[key(x) := x]
  {
    var t, m := s[i := x], Table(s, key)[key(x) := x];
    assert forall j :: 0 <= j < |s| ==> key(t[j]) == key(s[j]);
    TableHolds(s, key);
    forall y | y in t ensures key(y) in m && m[key(y)] == y {
      var j :| 0 <= j < |t| && t[j] == y;
      assert s[j] in s;
    }
    forall k | k in m ensures m[k] in t && key(m[k]) == k {
      if k == key(x) {
        assert t[i] == x;
      } else {
        var j :| 0 <= j < |s| && s[j] == m[k];
        assert t[j] == s[j];
      }
    }
    TableIs(t, key, m);
  }

  function Without<T>(s: seq<T>, i: nat): seq<T>
    requires i < |s|
  {
    s[..i] + s[i + 1..]
  }

  lemma WithoutAt<T>(s: seq<T>, i: nat)
    requires i < |s|
    ensures |Without(s, i)| == |s| - 1
    ensures forall j :: 0 <= j < |s| - 1 ==> Without(s, i)[j] == s[if j < i then j else j + 1]
    ensures forall j :: 0 <= j < |s| && j != i ==> s[j] in Without(s, i)
    ensures forall x <- Without(s, i) :: x in s
  {
    var t := Without(s, i);
    forall j | 0 <= j < |s| && j != i ensures s[j] in t {
      assert t[if j < i then j else j - 1] == s[j];
    }
  }

  lemma WithoutDistinct<T, K>(s: seq<T>, key: T -> K, i: nat)
    requires i < |s| && Distinct(s, key)
    ensures Distinct(Without(s, i), key)
    ensures forall x <- Without(s, i) :: x in s && key(x) != key(s[i])
  {
    var t := Without(s, i);
    WithoutAt(s, i);
    hide Without;
    forall a, b | 0 <= a < b < |t| ensures key(t[a]) != key(t[b]) {
      assert t[a] == s[if a < i then a else a + 1] && t[b] == s[if b < i then b else b + 1];
    }
    forall x | x in t ensures key(x) != key(s[i]) {
      var j :| 0 <= j < |t| && t[j] == x;
      assert t[j] == s[if j < i then j else j + 1];
    }
  }

  /** Dropping an element drops its key. */
  lemma TableRemoved<T, K>(s: seq<T>, key: T -> K, i: nat)
    requires i < |s| && Distinct(s, key)
    ensures Distinct(Without(s, i), key)
    ensures Table(Without(s, i), key) == Table(s, key) - {key(s[i])}
  {
    var t, m := Without(s, i), Table(s, key) - {key(s[i])};
    WithoutAt(s, i);
    WithoutDistinct(s, key, i);
    TableHolds(s, key);
    hide Without, Distinct, Table;
    forall k | k in m ensures m[k] in t && key(m[k]) == k {
      var j :| 0 <= j < |s| && s[j] == m[k];
      assert j != i;
    }
    TableIs(t, key, m);
  }
}
