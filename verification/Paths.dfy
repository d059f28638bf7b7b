/**
  Slash-separated paths: Go's `filepath.Clean` and `filepath.Join` on Unix as a rule on components, and the
  containment check every file access goes through.
*/
module Paths {
  import opened Basics

  const SLASH: Byte := 0x2F
  const DOT: Bytes := [0x2E]
  const UP: Bytes := [0x2E, 0x2E]

  /** `strings.Split(path, "/")`: one part at least. */
  function Split(path: Bytes): (parts: seq<Bytes>)
    ensures parts != [] && forall i :: 0 <= i < |parts| ==> SLASH !in parts[i]
  {
    var i := IndexOf(path, SLASH);
    if i == |path| then
      assert path[..i] == path;
      [path]
    else [path[..i]] + Split(path[i + 1..])
  }

  function Join(parts: seq<Bytes>): Bytes {
    if parts == [] then [] else if |parts| == 1 then parts[0] else parts[0] + [SLASH] + Join(parts[1..])
  }

  lemma FirstSlash(a: Bytes, b: Bytes)
    requires SLASH !in a
    ensures IndexOf(a + [SLASH] + b, SLASH) == |a|
  {
    var s := a + [SLASH] + b;
    assert s[|a|] == SLASH;
    assert forall k :: 0 <= k < |a| ==> s[k] == a[k];
    assert forall i :: |a| < i <= |s| ==> s[..i][|a|] == SLASH;
  }

  lemma SplitFirst(a: Bytes, b: Bytes)
    requires SLASH !in a
    ensures Split(a + [SLASH] + b) == [a] + Split(b)
  {
    FirstSlash(a, b);
    var s := a + [SLASH] + b;
    assert s[..|a|] == a && s[|a| + 1..] == b;
  }

  lemma SplitPlain(a: Bytes)
    requires SLASH !in a
    ensures Split(a) == [a]
  {
  }

  /** Splitting a joined path gives the parts back. */
  lemma {:induction false} SplitJoin(parts: seq<Bytes>)
    requires parts != [] && forall i :: 0 <= i < |parts| ==> SLASH !in parts[i]
    ensures Split(Join(parts)) == parts
  {
    if |parts| == 1 {
      SplitPlain(parts[0]);
    } else {
      SplitFirst(parts[0], Join(parts[1..]));
      SplitJoin(parts[1..]);
    }
  }

  lemma {:induction false} SplitAppend(a: Bytes, b: Bytes)
    ensures Split(a + [SLASH] + b) == Split(a) + Split(b)
    decreases |a|
  {
    var i := IndexOf(a, SLASH);
    if i == |a| {
      SplitPlain(a);
      SplitFirst(a, b);
    } else {
      var x, y := a[..i], a[i + 1..];
      assert a == a[..i] + [SLASH] + a[i + 1..];
      SplitAppend(y, b);
      Assoc(x + [SLASH], y, [SLASH] + b);
      Assoc(x + [SLASH] + y, [SLASH], b);
      Assoc(y, [SLASH], b);
      SplitFirst(x, y);
      SplitFirst(x, y + [SLASH] + b);
      Assoc([x], Split(y), Split(b));
    }
  }

  // ---- cleaning -----------------------------------------------------------

  predicate IsName(p: Bytes) { p != [] && p != DOT && p != UP && SLASH !in p }

  /** One component against what has been kept so far. `..` takes back a name; above a root there is nothing. */
  function Step(kept: seq<Bytes>, part: Bytes, rooted: bool): seq<Bytes> {
    if part == [] || part == DOT then kept
    else if part == UP then
      if kept != [] && kept[|kept| - 1] != UP then kept[..|kept| - 1]
      else if rooted then kept else kept + [UP]
    else kept + [part]
  }

  function Normal(kept: seq<Bytes>, parts: seq<Bytes>, rooted: bool): seq<Bytes>
    decreases |parts|
  {
    if parts == [] then kept else Normal(Step(kept, parts[0], rooted), parts[1..], rooted)
  }

  predicate IsRooted(path: Bytes) { path != [] && path[0] == SLASH }

  function Components(path: Bytes): seq<Bytes> { Normal([], Split(path), IsRooted(path)) }

  /** `filepath.Clean` */
  function Clean(path: Bytes): Bytes {
    var c := Components(path);
    if IsRooted(path) then [SLASH] + Join(c) else if c == [] then DOT else Join(c)
  }

  /** Climbing steps first, then names: what cleaning leaves. */
  predicate IsNormal(c: seq<Bytes>, rooted: bool) {
    && (forall i :: 0 <= i < |c| ==> IsName(c[i]) || (c[i] == UP && !rooted))
    && (forall i, j :: 0 <= i < j < |c| && c[j] == UP ==> c[i] == UP)
  }

  lemma {:induction false} NormalIsNormal(kept: seq<Bytes>, parts: seq<Bytes>, rooted: bool)
    requires IsNormal(kept, rooted) && forall i :: 0 <= i < |parts| ==> SLASH !in parts[i]
    ensures IsNormal(Normal(kept, parts, rooted), rooted)
    decreases |parts|
  {
    if parts != [] { NormalIsNormal(Step(kept, parts[0], rooted), parts[1..], rooted); }
  }

  lemma {:induction false} NormalFixed(kept: seq<Bytes>, c: seq<Bytes>, rooted: bool)
    requires IsNormal(kept + c, rooted)
    ensures Normal(kept, c, rooted) == kept + c
    decreases |c|
  {
    if c == [] {
      assert kept + c == kept;
    } else {
      assert (kept + c)[|kept|] == c[0];
      if c[0] == UP && kept != [] { assert (kept + c)[|kept| - 1] == kept[|kept| - 1]; }
      assert Step(kept, c[0], rooted) == kept + [c[0]];
      assert kept + [c[0]] + c[1..] == kept + c;
      NormalFixed(kept + [c[0]], c[1..], rooted);
    }
  }

  lemma NotRooted(c: seq<Bytes>)
    requires c != [] && IsNormal(c, false)
    ensures !IsRooted(Join(c)) && Join(c) != []
  {
    assert Join(c)[0] == c[0][0];
  }

  /** Cleaning twice is cleaning once. */
  lemma CleanIdempotent(path: Bytes)
    ensures Clean(Clean(path)) == Clean(path)
  {
    var c, rooted := Components(path), IsRooted(path);
    NormalIsNormal([], Split(path), rooted);
    if rooted { RootedFixed(c); } else { RelativeFixed(c); }
  }

  lemma RootedFixed(c: seq<Bytes>)
    requires IsNormal(c, true)
    ensures Components([SLASH] + Join(c)) == c
  {
    if c == [] {
      assert [SLASH] + Join(c) == [SLASH];
      RootComponents();
    } else {
      SplitJoin(c);
      assert [] + [SLASH] + Join(c) == [SLASH] + Join(c);
      SplitFirst([], Join(c));
      assert Normal([], [[]] + c, true) == Normal([], c, true) by {
        assert ([[]] + c)[1..] == c;
      }
      assert [] + c == c;
      NormalFixed([], c, true);
    }
  }

  lemma RelativeFixed(c: seq<Bytes>)
    requires IsNormal(c, false)
    ensures var p := if c == [] then DOT else Join(c); Components(p) == c && !IsRooted(p)
  {
    if c == [] {
      SplitPlain(DOT);
      assert [DOT][1..] == [];
    } else {
      NotRooted(c);
      SplitJoin(c);
      assert [] + c == c;
      NormalFixed([], c, false);
    }
  }

  lemma RootComponents()
    ensures Components([SLASH]) == []
  {
    SplitPlain([]);
    SplitFirst([], []);
    assert [] + [SLASH] + [] == [SLASH];
    assert Split([SLASH]) == [[], []];
    var two: seq<Bytes> := Split([SLASH]);
    assert two[1..] == [[]] && two[1..][1..] == [];
    assert Normal([], two, true) == Normal([], two[1..], true) == Normal([], two[1..][1..], true);
  }

  // ---- where a path leads -------------------------------------------------

  /** Following components from a place; above the top there is only the top. */
  function Follow(at: seq<Bytes>, parts: seq<Bytes>): seq<Bytes>
    decreases |parts|
  {
    if parts == [] then at
    else
      var next :=
        if parts[0] == [] || parts[0] == DOT then at
        else if parts[0] == UP then (if at == [] then [] else at[..|at| - 1])
        else at + [parts[0]];
      Follow(next, parts[1..])
  }

  /** Where a path leads from a working directory. */
  function Target(cwd: seq<Bytes>, path: Bytes): seq<Bytes> {
    Follow(if IsRooted(path) then [] else cwd, Split(path))
  }

  lemma {:induction false} FollowAppend(at: seq<Bytes>, a: seq<Bytes>, b: seq<Bytes>)
    ensures Follow(at, a + b) == Follow(Follow(at, a), b)
    decreases |a|
  {
    if a == [] {
      assert a + b == b;
    } else {
      assert (a + b)[1..] == a[1..] + b;
      var next :=
        if a[0] == [] || a[0] == DOT then at
        else if a[0] == UP then (if at == [] then [] else at[..|at| - 1])
        else at + [a[0]];
      FollowAppend(next, a[1..], b);
    }
  }

  lemma FollowOne(at: seq<Bytes>, part: Bytes)
    ensures part == [] || part == DOT ==> Follow(at, [part]) == at
    ensures part == UP ==> Follow(at, [part]) == if at == [] then [] else at[..|at| - 1]
    ensures part != [] && part != DOT && part != UP ==> Follow(at, [part]) == at + [part]
  {
    assert [part][1..] == [];
  }

  lemma StepLeads(cwd: seq<Bytes>, kept: seq<Bytes>, part: Bytes, rooted: bool)
    requires IsNormal(kept, rooted) && (rooted ==> cwd == [])
    ensures Follow(cwd, Step(kept, part, rooted)) == Follow(Follow(cwd, kept), [part])
  {
    var at := Follow(cwd, kept);
    FollowOne(at, part);
    if part == UP && kept != [] && kept[|kept| - 1] != UP {
      var init, last := kept[..|kept| - 1], kept[|kept| - 1];
      assert kept == init + [last];
      FollowAppend(cwd, init, [last]);
      FollowOne(Follow(cwd, init), last);
    } else if part == UP && rooted {
      assert kept == [];
    } else if part != [] && part != DOT {
      FollowAppend(cwd, kept, [part]);
    }
  }

  lemma {:induction false} NormalLeads(cwd: seq<Bytes>, kept: seq<Bytes>, parts: seq<Bytes>, rooted: bool)
    requires IsNormal(kept, rooted) && (rooted ==> cwd == [])
    requires forall i :: 0 <= i < |parts| ==> SLASH !in parts[i]
    ensures Follow(cwd, Normal(kept, parts, rooted)) == Follow(Follow(cwd, kept), parts)
    decreases |parts|
  {
    if parts != [] {
      var next := Step(kept, parts[0], rooted);
      NormalIsNormal(kept, [parts[0]], rooted);
      var none: seq<Bytes> := [parts[0]][1..];
      assert none == [];
      StepLeads(cwd, kept, parts[0], rooted);
      NormalLeads(cwd, next, parts[1..], rooted);
      FollowAppend(Follow(cwd, kept), [parts[0]], parts[1..]);
      assert [parts[0]] + parts[1..] == parts;
    }
  }

  /** A cleaned path leads where the path led, from every working directory. */
  lemma CleanLeadsSame(cwd: seq<Bytes>, path: Bytes)
    ensures Target(cwd, Clean(path)) == Target(cwd, path)
  {
    NormalIsNormal([], Split(path), IsRooted(path));
    NormalLeads(if IsRooted(path) then [] else cwd, [], Split(path), IsRooted(path));
    if IsRooted(path) { RootedLeads(Components(path)); } else { RelativeLeads(cwd, Components(path)); }
  }

  lemma RootedLeads(c: seq<Bytes>)
    requires IsNormal(c, true)
    ensures Follow([], Split([SLASH] + Join(c))) == Follow([], c)
  {
    var none: Bytes := [];
    assert none + [SLASH] + Join(c) == [SLASH] + Join(c);
    SplitFirst(none, Join(c));
    FollowAppend([], [none], Split(Join(c)));
    FollowOne([], none);
    if c == [] { SplitPlain(none); } else { SplitJoin(c); }
  }

  lemma RelativeLeads(cwd: seq<Bytes>, c: seq<Bytes>)
    requires IsNormal(c, false)
    ensures Target(cwd, if c == [] then DOT else Join(c)) == Follow(cwd, c)
  {
    if c == [] {
      SplitPlain(DOT);
      FollowOne(cwd, DOT);
    } else {
      NotRooted(c);
      SplitJoin(c);
    }
  }

  // ---- containment --------------------------------------------------------

  /** `filepath.Join` of two non-empty paths. */
  function JoinClean(root: Bytes, path: Bytes): Bytes { Clean(root + [SLASH] + path) }

  predicate Climbs(clean: Bytes) { clean == UP || (|clean| >= 3 && clean[..3] == UP + [SLASH]) }

  /** `SafeJoin`: a relative path under a root, or a refusal. */
  function SafeJoin(root: Bytes, path: Bytes): Option<Bytes> {
    if path == [] || IsRooted(path) || Climbs(Clean(path)) then None
    else if root == [] then Some(Clean(path))
    else Some(JoinClean(root, Clean(path)))
  }

  /** Walking the components never leaves the place one started from, not even for a moment. */
  predicate StaysInside(depth: nat, parts: seq<Bytes>)
    decreases |parts|
  {
    if parts == [] then true
    else if parts[0] == [] || parts[0] == DOT then StaysInside(depth, parts[1..])
    else if parts[0] == UP then depth > 0 && StaysInside(depth - 1, parts[1..])
    else StaysInside(depth + 1, parts[1..])
  }

  lemma {:induction false} NormalClimbs(kept: seq<Bytes>, parts: seq<Bytes>)
    requires kept != [] && kept[0] == UP
    ensures Normal(kept, parts, false) != [] && Normal(kept, parts, false)[0] == UP
    decreases |parts|
  {
    if parts != [] { NormalClimbs(Step(kept, parts[0], false), parts[1..]); }
  }

  predicate AllNames(s: seq<Bytes>) { forall i :: 0 <= i < |s| ==> IsName(s[i]) }

  lemma {:induction false} InsideIsNames(kept: seq<Bytes>, parts: seq<Bytes>)
    requires AllNames(kept)
    requires forall i :: 0 <= i < |parts| ==> SLASH !in parts[i]
    ensures StaysInside(|kept|, parts) <==> AllNames(Normal(kept, parts, false))
    decreases |parts|
  {
    if parts != [] {
      var next := Step(kept, parts[0], false);
      if parts[0] == UP && kept == [] {
        NormalClimbs(next, parts[1..]);
        assert !IsName(Normal(kept, parts, false)[0]);
      } else {
        if kept != [] { assert IsName(kept[|kept| - 1]); }
        InsideIsNames(next, parts[1..]);
        assert |next| == if parts[0] == [] || parts[0] == DOT then |kept|
                         else if parts[0] == UP then |kept| - 1 else |kept| + 1;
      }
    }
  }

  lemma ClimbsIsUp(c: seq<Bytes>)
    requires c != [] && IsNormal(c, false)
    ensures Climbs(Join(c)) <==> c[0] == UP
  {
    var j := Join(c);
    if |c| > 1 {
      UpPrefix(c[0], Join(c[1..]));
    } else {
      assert |j| >= 3 ==> j[..3][2] == j[2] && j[2] in j;
    }
  }

  lemma UpPrefix(p: Bytes, q: Bytes)
    requires SLASH !in p
    ensures Climbs(p + [SLASH] + q) <==> p == UP
  {
    var j := p + [SLASH] + q;
    assert j[|p|] == SLASH;
    assert p == UP ==> j[..3] == UP + [SLASH];
    assert forall k :: 0 <= k < |p| ==> j[k] == p[k] && p[k] != SLASH;
    if Climbs(j) {
      assert |j| >= 3 ==> j[0] == j[..3][0] && j[1] == j[..3][1] && j[2] == j[..3][2];
      assert |p| == 2;
      assert p == [j[0], j[1]];
    }
  }

  /** A path is accepted exactly when it is relative, not empty, and never steps above where it starts. */
  lemma AcceptedExactly(root: Bytes, path: Bytes)
    ensures SafeJoin(root, path).Some? <==> path != [] && !IsRooted(path) && StaysInside(0, Split(path))
  {
    if path != [] && !IsRooted(path) {
      var c := Components(path);
      NormalIsNormal([], Split(path), false);
      InsideIsNames([], Split(path));
      if c != [] {
        ClimbsIsUp(c);
        assert forall i :: 0 < i < |c| && c[i] == UP ==> c[0] == UP;
      }
    }
  }

  lemma {:induction false} FollowNames(at: seq<Bytes>, names: seq<Bytes>)
    requires AllNames(names)
    ensures Follow(at, names) == at + names
    decreases |names|
  {
    if names == [] {
      assert at + names == at;
    } else {
      FollowNames(at + [names[0]], names[1..]);
      assert at + [names[0]] + names[1..] == at + names;
    }
  }

  /** An accepted path, as the names below the root it stands for. */
  function Inside(path: Bytes): Option<seq<Bytes>> {
    if SafeJoin([], path).Some? then Some(Components(path)) else None
  }

  lemma AcceptedNames(path: Bytes)
    requires Inside(path).Some?
    ensures AllNames(Inside(path).value)
  {
    AcceptedExactly([], path);
    InsideIsNames([], Split(path));
  }

  lemma CleanFollows(at: seq<Bytes>, path: Bytes)
    requires Inside(path).Some?
    ensures Follow(at, Split(Clean(path))) == at + Inside(path).value
  {
    var c := Components(path);
    AcceptedNames(path);
    NormalIsNormal([], Split(path), false);
    if c == [] {
      SplitPlain(DOT);
      FollowOne(at, DOT);
      assert at + c == at;
    } else {
      SplitJoin(c);
      FollowNames(at, c);
    }
  }

  /** Containment: what SafeJoin returns leads to a place strictly inside or at the root, by plain names only. */
  lemma StaysUnderRoot(cwd: seq<Bytes>, root: Bytes, path: Bytes)
    requires root != [] && SafeJoin(root, path).Some?
    ensures Inside(path).Some?
    ensures Target(cwd, SafeJoin(root, path).value) == Target(cwd, root) + Inside(path).value
    ensures AllNames(Inside(path).value)
  {
    AcceptedNames(path);
    var whole := root + [SLASH] + Clean(path);
    CleanLeadsSame(cwd, whole);
    SplitAppend(root, Clean(path));
    assert IsRooted(whole) <==> IsRooted(root);
    FollowAppend(if IsRooted(root) then [] else cwd, Split(root), Split(Clean(path)));
    CleanFollows(Target(cwd, root), path);
  }

  /** A path made of plain names is accepted as it is. */
  lemma NamesAccepted(names: seq<Bytes>)
    requires names != [] && AllNames(names)
    ensures Inside(Join(names)) == Some(names)
  {
    SplitJoin(names);
    assert IsNormal(names, false);
    assert [] + names == names;
    NormalFixed([], names, false);
    NotRooted(names);
    ClimbsIsUp(names);
  }
}
