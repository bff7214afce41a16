/** The difference of two configurations, as the list of their differing leaves. */
module ConfigDiff {
  import opened Seqs

  /** A marshalled configuration. An absent field reads as null. */
  datatype Json =
    | Null
    | Scalar(text: string)
    | List(items: seq<Json>)
    | Object(fields: map<string, Json>)

  /** The keys that lead from the root to a value. */
  type Path = seq<string>

  datatype Change = Change(path: string, before: Json, after: Json)

  function Fields(j: Json): map<string, Json> {
    if j.Object? then j.fields else map[]
  }

  function Get(j: Json, key: string): Json {
    if key in Fields(j) then Fields(j)[key] else Null
  }

  function At(j: Json, path: Path): Json
    decreases |path|
  {
    if path == [] then j else At(Get(j, path[0]), path[1..])
  }

  /** The values differ here, and neither is an object that could be looked into. */
  predicate DiffersAt(base: Json, target: Json, path: Path) {
    var b, t := At(base, path), At(target, path);
    b != t && !b.Object? && !t.Object?
  }

  // Depth, for termination

  ghost function Max(s: set<nat>): (m: nat)
    ensures forall x <- s :: x <= m
  {
    if s == {} then 0
    else
      var x :| x in s;
      var m := Max(s - {x});
      assert s == (s - {x}) + {x};
      if x > m then x else m
  }

  ghost function Height(j: Json): nat
    decreases j, 1
  {
    if Fields(j) == map[] then 0 else 1 + Max(Heights(j))
  }

  ghost function Heights(j: Json): set<nat>
    decreases j, 0
  {
    if j.Object? then set key <- j.fields :: Height(j.fields[key]) else {}
  }

  lemma GetIsLower(j: Json, key: string)
    ensures Height(Get(j, key)) <= Height(j)
    ensures key in Fields(j) ==> Height(Get(j, key)) < Height(j)
  {
    if key in Fields(j) {
      assert Height(Get(j, key)) in Heights(j);
    }
  }

  // Paths as text

  function Extend(path: string, key: string): string {
    if path == "" then key else path + "." + key
  }

  function Render(path: Path): string {
    if path == [] then "" else Extend(Render(path[..|path| - 1]), path[|path| - 1])
  }

  lemma RenderSnoc(path: Path, key: string)
    ensures Render(path + [key]) == Extend(Render(path), key)
  {
    FrontOfSnoc(path, key);
  }

  // What is reported for a leaf: a list facing anything else hides the other value

  function Shown(mine: Json, other: Json): Json {
    if other.List? && !mine.List? then Null else mine
  }

  function ChangeAt(at: Path, base: Json, target: Json, leaf: Path): Change {
    var b, t := At(base, leaf), At(target, leaf);
    Change(Render(at + leaf), Shown(b, t), Shown(t, b))
  }

  function Reported(at: Path, base: Json, target: Json, leaves: seq<Path>): (changes: seq<Change>)
    ensures |changes| == |leaves|
  {
    seq(|leaves|, i requires 0 <= i < |leaves| => ChangeAt(at, base, target, leaves[i]))
  }

  predicate NoRepeats(leaves: seq<Path>) {
    forall i, j :: 0 <= i < j < |leaves| ==> leaves[i] != leaves[j]
  }

  /** Each differing leaf is listed, once, and nothing else is. */
  ghost predicate ListsDifferences(base: Json, target: Json, leaves: seq<Path>) {
    NoRepeats(leaves) && forall path :: path in leaves <==> DiffersAt(base, target, path)
  }

  /** A list of changes that reports the differing leaves, in any order. */
  ghost predicate IsDiff(base: Json, target: Json, changes: seq<Change>) {
    exists leaves :: ListsDifferences(base, target, leaves) && changes == Reported([], base, target, leaves)
  }

  method BuildConfigDiff(base: Json, target: Json) returns (changes: seq<Change>)
    ensures IsDiff(base, target, changes)
  {
    ghost var leaves;
    changes, leaves := CollectDiffs("", base, target, [], []);
  }

  method CollectDiffs(path: string, base: Json, target: Json, out: seq<Change>, ghost at: Path)
    returns (next: seq<Change>, ghost leaves: seq<Path>)
    requires path == Render(at)
    ensures next == out + Reported(at, base, target, leaves)
    ensures ListsDifferences(base, target, leaves)
    decreases Height(base) + Height(target), 1
  {
    if base == target {
      return out, [];
    }
    if base.Object? || target.Object? {
      next, leaves := CollectMapDiffs(path, Fields(base), Fields(target), out, at);
      OnlyFieldsMatter(at, base, target, leaves);
      return;
    }
    OnlyTheRoot(base, target);
    leaves := [[]];
    assert at + [] == at;
    if base.List? || target.List? {
      var baseList := if base.List? then base else Null;
      var targetList := if target.List? then target else Null;
      return out + [Change(path, baseList, targetList)], leaves;
    }
    return out + [Change(path, base, target)], leaves;
  }

  lemma OnlyTheRoot(base: Json, target: Json)
    requires base != target && !base.Object? && !target.Object?
    ensures ListsDifferences(base, target, [[]])
  {
  }

  method CollectMapDiffs(path: string, base: map<string, Json>, target: map<string, Json>, out: seq<Change>, ghost at: Path)
    returns (next: seq<Change>, ghost leaves: seq<Path>)
    requires path == Render(at)
    ensures next == out + Reported(at, Object(base), Object(target), leaves)
    ensures ListsDifferences(Object(base), Object(target), leaves)
    decreases Height(Object(base)) + Height(Object(target)), 0
  {
    var b, t := Object(base), Object(target);
    next, leaves := out, [];
    var left := base.Keys + target.Keys;
    NothingElsewhere(b, t);
    assert Reported(at, b, t, []) == [] && out + [] == out;
    hide ListsDifferences, ListsDifferencesBut, Reported, Under, Render, Height, Max, At, DiffersAt, ChangeAt;
    while left != {}
      invariant left <= base.Keys + target.Keys
      invariant next == out + Reported(at, b, t, leaves)
      invariant ListsDifferencesBut(b, t, left, leaves)
      decreases left
    {
      var key :| key in left;
      var nextPath := key;
      if path != "" {
        nextPath := path + "." + key;
      }
      RenderSnoc(at, key);
      GetIsLower(b, key);
      GetIsLower(t, key);
      ghost var below;
      next, below := CollectDiffs(nextPath, Get(b, key), Get(t, key), next, at + [key]);
      ReportedBelow(at, b, t, key, leaves, below);
      assert next == out + (Reported(at, b, t, leaves) + Reported(at + [key], Get(b, key), Get(t, key), below));
      OneKeyMore(b, t, left, key, leaves, below);
      left := left - {key};
      leaves := leaves + Under(key, below);
    }
    NothingLeft(b, t, leaves);
  }

  function Under(key: string, below: seq<Path>): (leaves: seq<Path>)
    ensures |leaves| == |below|
  {
    seq(|below|, i requires 0 <= i < |below| => [key] + below[i])
  }

  /** As ListsDifferences, with the fields in left still to be looked at. */
  ghost predicate ListsDifferencesBut(base: Json, target: Json, left: set<string>, leaves: seq<Path>) {
    && NoRepeats(leaves)
    && forall path :: path in leaves <==> path != [] && path[0] !in left && DiffersAt(base, target, path)
  }

  lemma NothingLeft(base: Json, target: Json, leaves: seq<Path>)
    requires base.Object? && ListsDifferencesBut(base, target, {}, leaves)
    ensures ListsDifferences(base, target, leaves)
  {
    hide At;
    assert !DiffersAt(base, target, []) by {
      RootOf(base);
    }
  }

  lemma RootOf(j: Json)
    ensures At(j, []) == j
  {
  }

  lemma {:induction false} NothingInNull(path: Path)
    ensures At(Null, path) == Null
    decreases |path|
  {
    if path != [] {
      NothingInNull(path[1..]);
    }
  }

  lemma NothingElsewhere(base: Json, target: Json)
    requires base.Object? && target.Object?
    ensures ListsDifferencesBut(base, target, base.fields.Keys + target.fields.Keys, [])
  {
    forall path: Path | path != [] && path[0] !in base.fields.Keys + target.fields.Keys
      ensures !DiffersAt(base, target, path)
    {
      NothingInNull(path[1..]);
    }
  }

  lemma ReportedBelow(at: Path, base: Json, target: Json, key: string, leaves: seq<Path>, below: seq<Path>)
    ensures Reported(at, base, target, leaves + Under(key, below))
         == Reported(at, base, target, leaves) + Reported(at + [key], Get(base, key), Get(target, key), below)
  {
    forall i | 0 <= i < |below|
      ensures ChangeAt(at, base, target, [key] + below[i]) == ChangeAt(at + [key], Get(base, key), Get(target, key), below[i])
    {
      assert at + ([key] + below[i]) == at + [key] + below[i];
      assert ([key] + below[i])[1..] == below[i];
    }
  }

  lemma OneKeyMore(base: Json, target: Json, left: set<string>, key: string, leaves: seq<Path>, below: seq<Path>)
    requires key in left && ListsDifferencesBut(base, target, left, leaves)
    requires ListsDifferences(Get(base, key), Get(target, key), below)
    ensures ListsDifferencesBut(base, target, left - {key}, leaves + Under(key, below))
  {
    var more := Under(key, below);
    forall path ensures path in more <==> path != [] && path[0] == key && DiffersAt(base, target, path) {
      if path != [] && path[0] == key {
        assert path == [key] + path[1..];
        assert DiffersAt(base, target, path) <==> path[1..] in below;
        if path[1..] in below {
          var i :| 0 <= i < |below| && below[i] == path[1..];
          assert more[i] == path;
        }
      }
      if path in more {
        var i :| 0 <= i < |more| && more[i] == path;
        assert path[1..] == below[i];
      }
    }
    forall i, j | 0 <= i < j < |more| ensures more[i] != more[j] {
      assert more[i][1..] == below[i] && more[j][1..] == below[j];
    }
    forall i, j | 0 <= i < |leaves| && 0 <= j < |more| ensures leaves[i] != more[j] {
      assert leaves[i] in leaves && more[j] in more;
    }
  }

  /** A value that is no object is looked into as an empty one. */
  lemma OnlyFieldsMatter(at: Path, base: Json, target: Json, leaves: seq<Path>)
    requires base.Object? || target.Object?
    requires ListsDifferences(Object(Fields(base)), Object(Fields(target)), leaves)
    ensures ListsDifferences(base, target, leaves)
    ensures Reported(at, base, target, leaves) == Reported(at, Object(Fields(base)), Object(Fields(target)), leaves)
  {
    forall i | 0 <= i < |leaves|
      ensures ChangeAt(at, base, target, leaves[i])
           == ChangeAt(at, Object(Fields(base)), Object(Fields(target)), leaves[i])
    {
      assert leaves[i] in leaves;
    }
  }

  // What the list is good for

  /** The value at a leaf; null where there is none. */
  function LeafAt(j: Json, path: Path): Json {
    var value := At(j, path);
    if value.Object? then Null else value
  }

  /** Equal up to fields that are null or absent and objects that hold nothing else. */
  ghost predicate Alike(a: Json, b: Json) {
    forall path :: LeafAt(a, path) == LeafAt(b, path)
  }

  /** At every path an object meets an object or nothing. */
  ghost predicate ObjectsAgree(base: Json, target: Json) {
    forall path ::
      var b, t := At(base, path), At(target, path);
      (b.Object? ==> t.Object? || t.Null?) && (t.Object? ==> b.Object? || b.Null?)
  }

  /** And a list meets a list or nothing. */
  ghost predicate ListsAgree(base: Json, target: Json) {
    forall path ::
      var b, t := At(base, path), At(target, path);
      (b.List? ==> t.List? || t.Null?) && (t.List? ==> b.List? || b.Null?)
  }

  /** Nothing is reported exactly when the two are alike. */
  lemma EmptyIffAlike(base: Json, target: Json, changes: seq<Change>)
    requires IsDiff(base, target, changes) && ObjectsAgree(base, target)
    ensures changes == [] <==> Alike(base, target)
  {
    var leaves :| ListsDifferences(base, target, leaves) && changes == Reported([], base, target, leaves);
    if leaves == [] {
      forall path ensures LeafAt(base, path) == LeafAt(target, path) {
        assert !DiffersAt(base, target, path);
      }
    } else {
      assert leaves[0] in leaves;
      assert LeafAt(base, leaves[0]) != LeafAt(target, leaves[0]);
    }
  }

  /** Under lists that agree, each change shows the two values as they are. */
  lemma ChangesAreTruthful(at: Path, base: Json, target: Json, leaves: seq<Path>, i: nat)
    requires ListsAgree(base, target) && i < |leaves|
    ensures Reported(at, base, target, leaves)[i]
         == Change(Render(at + leaves[i]), At(base, leaves[i]), At(target, leaves[i]))
  {
  }

  // Writing the changes back

  /** Sets the value at a path, making the objects on the way. */
  function Put(j: Json, path: Path, value: Json): Json
    decreases |path|
  {
    if path == [] then value
    else Object(Fields(j)[path[0] := Put(Get(j, path[0]), path[1..], value)])
  }

  /** Writes the value shown after each change, in the order of the list. */
  function PutAll(j: Json, leaves: seq<Path>, changes: seq<Change>): Json
    requires |leaves| == |changes|
  {
    if leaves == [] then j
    else
      var n := |leaves| - 1;
      Put(PutAll(j, leaves[..n], changes[..n]), leaves[n], changes[n].after)
  }

  predicate IsPrefix(p: Path, q: Path) {
    |p| <= |q| && q[..|p|] == p
  }

  lemma {:induction false} LeafAfterPut(j: Json, path: Path, value: Json, q: Path)
    requires !value.Object?
    ensures LeafAt(Put(j, path, value), q) ==
            if q == path then value
            else if IsPrefix(path, q) || IsPrefix(q, path) then Null
            else LeafAt(j, q)
    decreases |path|
  {
    if path == [] {
      if q != [] {
        NothingInNull(q[1..]);
      }
    } else if q != [] {
      LeafAfterPut(Get(j, path[0]), path[1..], value, q[1..]);
      HeadsAside(path, q);
      HeadsAside(q, path);
      hide IsPrefix;
    }
  }

  lemma HeadsAside(p: Path, q: Path)
    requires p != [] && q != []
    ensures p[0] == q[0] ==> (IsPrefix(p, q) <==> IsPrefix(p[1..], q[1..])) && (p == q <==> p[1..] == q[1..])
    ensures p[0] != q[0] ==> !IsPrefix(p, q)
  {
    assert p == [p[0]] + p[1..] && q == [q[0]] + q[1..];
    if |p| <= |q| {
      assert q[1..][..|p| - 1] == q[1..|p|] && q[..|p|] == [q[0]] + q[1..|p|];
    }
  }

  /** Two differing leaves are never on the way to one another, and nothing is lost on the way to one. */
  lemma LeavesStandApart(base: Json, target: Json, p: Path, q: Path)
    requires ObjectsAgree(base, target) && DiffersAt(base, target, p) && p != q
    requires IsPrefix(p, q) || IsPrefix(q, p)
    ensures !DiffersAt(base, target, q) && LeafAt(base, q) == Null && LeafAt(target, q) == Null
  {
    if IsPrefix(p, q) {
      NothingBelow(base, p, q);
      NothingBelow(target, p, q);
    } else {
      if !At(base, q).Object? { NothingBelow(base, q, p); }
      if !At(target, q).Object? { NothingBelow(target, q, p); }
    }
  }

  lemma {:induction false} NothingBelow(j: Json, p: Path, q: Path)
    requires p != q && IsPrefix(p, q) && !At(j, p).Object?
    ensures At(j, q) == Null
    decreases |p|
  {
    if p == [] {
      NothingInNull(q[1..]);
    } else {
      assert q[1..][..|p| - 1] == p[1..];
      assert p == [p[0]] + p[1..] && q == [q[0]] + q[1..];
      NothingBelow(Get(j, p[0]), p[1..], q[1..]);
    }
  }

  /** Writing every change into the base, in whatever order they were reported, gives the target. */
  lemma ChangesLeadToTheTarget(at: Path, base: Json, target: Json, leaves: seq<Path>)
    requires ListsDifferences(base, target, leaves) && ObjectsAgree(base, target) && ListsAgree(base, target)
    ensures Alike(PutAll(base, leaves, Reported(at, base, target, leaves)), target)
  {
    forall q ensures LeafAt(PutAll(base, leaves, Reported(at, base, target, leaves)), q) == LeafAt(target, q) {
      TakeAll(leaves);
      PartlyWritten(at, base, target, leaves, |leaves|, q);
      if q !in leaves {
        assert !DiffersAt(base, target, q);
      }
    }
  }

  lemma {:induction false} PartlyWritten(at: Path, base: Json, target: Json, leaves: seq<Path>, n: nat, q: Path)
    requires ListsDifferences(base, target, leaves) && ObjectsAgree(base, target) && ListsAgree(base, target)
    requires n <= |leaves|
    ensures LeafAt(PutAll(base, leaves[..n], Reported(at, base, target, leaves[..n])), q)
         == LeafAt(if q in leaves[..n] then target else base, q)
  {
    if n > 0 {
      var done, p := leaves[..n - 1], leaves[n - 1];
      TakeSnoc(leaves, n - 1);
      FrontOfSnoc(done, p);
      PartlyWritten(at, base, target, leaves, n - 1, q);
      var changes := Reported(at, base, target, leaves[..n]);
      assert changes[..n - 1] == Reported(at, base, target, done);
      ChangesAreTruthful(at, base, target, leaves[..n], n - 1);
      assert p in leaves && leaves[..n] == done + [p];
      var written := PutAll(base, done, changes[..n - 1]);
      assert PutAll(base, leaves[..n], changes) == Put(written, p, At(target, p));
      hide PutAll, Reported;
      OneMoreWritten(base, target, done, p, written, q);
    }
  }

  lemma OneMoreWritten(base: Json, target: Json, done: seq<Path>, p: Path, j: Json, q: Path)
    requires ObjectsAgree(base, target) && DiffersAt(base, target, p)
    requires forall path <- done :: DiffersAt(base, target, path)
    requires LeafAt(j, q) == LeafAt(if q in done then target else base, q)
    ensures LeafAt(Put(j, p, At(target, p)), q) == LeafAt(if q in done + [p] then target else base, q)
  {
    LeafAfterPut(j, p, At(target, p), q);
    if q != p && (IsPrefix(p, q) || IsPrefix(q, p)) {
      LeavesStandApart(base, target, p, q);
    }
    hide IsPrefix, Put, ObjectsAgree;
  }

  // Where alike means equal

  /** No field is null, and every object holds something. */
  predicate Compact(j: Json) {
    j.Object? ==> j.fields != map[] && forall key <- j.fields :: j.fields[key] != Null && Compact(j.fields[key])
  }

  lemma {:induction false} AlikeCompactIsEqual(a: Json, b: Json)
    requires Compact(a) && Compact(b) && Alike(a, b)
    ensures a == b
    decreases Height(a) + Height(b)
  {
    assert LeafAt(a, []) == LeafAt(b, []);
    if a.Object? || b.Object? {
      forall key | key in Fields(a).Keys + Fields(b).Keys ensures Get(a, key) == Get(b, key) {
        AlikeBelow(a, b, key);
        GetIsLower(a, key);
        GetIsLower(b, key);
        AlikeCompactIsEqual(Get(a, key), Get(b, key));
      }
      if key :| key in Fields(a) {
        assert Get(b, key) != Null;
      }
      if key :| key in Fields(b) {
        assert Get(a, key) != Null;
      }
      assert forall key <- Fields(a) :: Get(a, key) != Null && key in Fields(b) && Fields(b)[key] == Fields(a)[key];
      assert forall key <- Fields(b) :: Get(b, key) != Null && key in Fields(a);
      assert Fields(a) == Fields(b);
    }
  }

  lemma AlikeBelow(a: Json, b: Json, key: string)
    requires Alike(a, b)
    ensures Alike(Get(a, key), Get(b, key))
  {
    forall path ensures LeafAt(Get(a, key), path) == LeafAt(Get(b, key), path) {
      assert ([key] + path)[1..] == path;
      assert LeafAt(a, [key] + path) == LeafAt(b, [key] + path);
    }
  }

  /** So between compact trees of one shape nothing is reported exactly when they are equal. */
  lemma EmptyIffEqual(base: Json, target: Json, changes: seq<Change>)
    requires IsDiff(base, target, changes) && ObjectsAgree(base, target)
    requires Compact(base) && Compact(target)
    ensures changes == [] <==> base == target
  {
    EmptyIffAlike(base, target, changes);
    if changes == [] {
      AlikeCompactIsEqual(base, target);
    }
  }

  /** In general it is not: an empty object against none goes unreported. */
  lemma EmptyObjectsAreMissed(key: string)
    ensures var base, target := Object(map[key := Object(map[])]), Object(map[]);
            base != target && IsDiff(base, target, [])
  {
    var base, target := Object(map[key := Object(map[])]), Object(map[]);
    assert key in base.fields;
    forall path: Path ensures !DiffersAt(base, target, path) {
      if path != [] {
        var rest := path[1..];
        NothingInNull(rest);
        assert Get(target, path[0]) == Null;
        if path[0] == key {
          assert Get(base, key) == Object(map[]);
          if rest == [] {
            assert At(base, path) == At(Object(map[]), rest) == Object(map[]);
          } else {
            NothingInNull(rest[1..]);
            assert Get(Object(map[]), rest[0]) == Null;
            assert At(base, path) == At(Object(map[]), rest) == Null;
          }
        } else {
          assert Get(base, path[0]) == Null;
        }
      }
    }
    assert ListsDifferences(base, target, []) && Reported([], base, target, []) == [];
  }

  // Paths as text, as long as no key is empty or holds a dot

  predicate Plain(path: Path) {
    forall i :: 0 <= i < |path| ==> path[i] != "" && '.' !in path[i]
  }

  function LastDot(text: string): (d: int)
    ensures -1 <= d < |text|
  {
    if text == "" then -1
    else if text[|text| - 1] == '.' then |text| - 1
    else LastDot(text[..|text| - 1])
  }

  /** The keys a path text names. */
  function Keys(text: string): Path
    decreases |text|
  {
    if text == "" then []
    else
      var d := LastDot(text);
      if d < 0 then [text] else Keys(text[..d]) + [text[d + 1..]]
  }

  lemma {:induction false} LastDotBefore(front: string, key: string)
    requires '.' !in key
    ensures LastDot(key) == -1
    ensures LastDot(front + "." + key) == |front|
    decreases |key|
  {
    var text := front + "." + key;
    if key != "" {
      var shorter := key[..|key| - 1];
      assert key[|key| - 1] in key;
      LastDotBefore(front, shorter);
      assert text[|text| - 1] == key[|key| - 1];
      assert text[..|text| - 1] == front + "." + shorter;
    }
  }

  /** A path text names the leaf it was made for. */
  lemma {:induction false} KeysOfRender(path: Path)
    requires Plain(path)
    ensures Keys(Render(path)) == path
    ensures Render(path) == "" <==> path == []
  {
    if path != [] {
      var front, key := path[..|path| - 1], path[|path| - 1];
      KeysOfRender(front);
      LastDotBefore(Render(front), key);
      var text := Render(path);
      if front != [] {
        assert text[..|Render(front)|] == Render(front);
        assert text[|Render(front)| + 1..] == key;
      }
    }
  }

  /** Writes the value shown after each change at the place its path text names. */
  function PutTexts(j: Json, changes: seq<Change>): Json {
    if changes == [] then j
    else
      var n := |changes| - 1;
      Put(PutTexts(j, changes[..n]), Keys(changes[n].path), changes[n].after)
  }

  /** The list itself, with nothing but its texts and values, leads from the base to the target, and no two of
      its texts are the same. */
  lemma ListedTextsLeadToTheTarget(base: Json, target: Json, changes: seq<Change>)
    requires IsDiff(base, target, changes) && ObjectsAgree(base, target) && ListsAgree(base, target)
    requires forall path :: DiffersAt(base, target, path) ==> Plain(path)
    ensures Alike(PutTexts(base, changes), target)
    ensures forall i, j :: 0 <= i < j < |changes| ==> changes[i].path != changes[j].path
  {
    var leaves :| ListsDifferences(base, target, leaves) && changes == Reported([], base, target, leaves);
    forall i | 0 <= i < |leaves| ensures Keys(changes[i].path) == leaves[i] {
      assert leaves[i] in leaves;
      assert [] + leaves[i] == leaves[i];
      KeysOfRender(leaves[i]);
    }
    ChangesLeadToTheTarget([], base, target, leaves);
    hide *;
    TextsWriteAlike(base, leaves, changes);
  }

  lemma {:induction false} TextsWriteAlike(j: Json, leaves: seq<Path>, changes: seq<Change>)
    requires |leaves| == |changes| && forall i :: 0 <= i < |leaves| ==> Keys(changes[i].path) == leaves[i]
    ensures PutTexts(j, changes) == PutAll(j, leaves, changes)
  {
    if leaves != [] {
      TextsWriteAlike(j, leaves[..|leaves| - 1], changes[..|changes| - 1]);
    }
  }
}
