/**
  The generated command surface: a command's flags, the order in which they are encoded, and the order in which
  they take positional arguments. Both hosts read the same data.
*/
module CommandSpec {
  import opened Basics

  datatype Kind = KString | KBool | KInt32 | KInt64 | KUint32 | KUint64 | KEnum | KBytes
  datatype Source = Literal | File | Stdin

  /** One request field as a flag. `short` and `default` are empty, and `positional` is 0, when not declared. */
  datatype Flag = Flag(
    name: string,
    short: string,
    field: nat,
    kind: Kind,
    source: Source,
    repeated: bool,
    positional: nat,
    required: bool,
    default: string,
    enumValues: seq<string>)

  /** `local`: a verb the host runs itself, which no engine registers. */
  datatype Command = Command(name: string, id: nat, local: bool, flags: seq<Flag>)

  /** Values collected so far, by flag name. An absent name and an empty list mean the same. */
  type Values = map<string, seq<string>>

  function Get(values: Values, name: string): seq<string> {
    if name in values then values[name] else []
  }

  function AddValue(values: Values, name: string, v: string): Values {
    values[name := Get(values, name) + [v]]
  }

  // ---- stable ordering ----------------------------------------------------

  datatype SortKey = ByField | ByPosition

  function KeyOf(key: SortKey, f: Flag): nat {
    match key case ByField => f.field case ByPosition => f.positional
  }

  /** `x` put behind every flag whose key is not larger, searching from the end. */
  function Place(key: SortKey, s: seq<Flag>, x: Flag): seq<Flag> {
    if s == [] || KeyOf(key, s[|s| - 1]) <= KeyOf(key, x) then s + [x]
    else Place(key, s[..|s| - 1], x) + [s[|s| - 1]]
  }

  function StableSort(key: SortKey, s: seq<Flag>): seq<Flag> {
    if s == [] then [] else Place(key, StableSort(key, s[..|s| - 1]), s[|s| - 1])
  }

  ghost predicate Ordered(key: SortKey, s: seq<Flag>) {
    forall i, j :: 0 <= i < j < |s| ==> KeyOf(key, s[i]) <= KeyOf(key, s[j])
  }

  /** The flags of one key, in the order they stand. */
  ghost function WithKey(key: SortKey, s: seq<Flag>, k: nat): seq<Flag> {
    if s == [] then []
    else (if KeyOf(key, s[0]) == k then [s[0]] else []) + WithKey(key, s[1..], k)
  }

  lemma {:induction false} WithKeyAppend(key: SortKey, a: seq<Flag>, b: seq<Flag>, k: nat)
    ensures WithKey(key, a + b, k) == WithKey(key, a, k) + WithKey(key, b, k)
  {
    if a == [] {
      assert a + b == b;
    } else {
      assert (a + b)[0] == a[0] && (a + b)[1..] == a[1..] + b;
      WithKeyAppend(key, a[1..], b, k);
      var first := if KeyOf(key, a[0]) == k then [a[0]] else [];
      assert first + (WithKey(key, a[1..], k) + WithKey(key, b, k)) == first + WithKey(key, a[1..], k) + WithKey(key, b, k);
    }
  }

  lemma {:induction false} WithKeyAbove(key: SortKey, s: seq<Flag>, k: nat)
    requires forall i :: 0 <= i < |s| ==> KeyOf(key, s[i]) != k
    ensures WithKey(key, s, k) == []
  {
    if s != [] { WithKeyAbove(key, s[1..], k); }
  }

  /** The place found: everything behind it is larger, and what stands before it is not. */
  ghost predicate IsPlace(key: SortKey, s: seq<Flag>, x: Flag, p: nat) {
    && p <= |s|
    && (p > 0 ==> KeyOf(key, s[p - 1]) <= KeyOf(key, x))
    && forall m :: p <= m < |s| ==> KeyOf(key, s[m]) > KeyOf(key, x)
  }

  lemma {:induction false} PlaceAt(key: SortKey, s: seq<Flag>, x: Flag, p: nat)
    requires IsPlace(key, s, x, p)
    ensures Place(key, s, x) == s[..p] + [x] + s[p..]
  {
    if p < |s| {
      var init := s[..|s| - 1];
      PlaceAt(key, init, x, p);
      assert init[..p] == s[..p] && init[p..] + [s[|s| - 1]] == s[p..];
    }
  }

  lemma {:induction false} PlaceExists(key: SortKey, s: seq<Flag>, x: Flag) returns (p: nat)
    ensures IsPlace(key, s, x, p)
  {
    if s == [] || KeyOf(key, s[|s| - 1]) <= KeyOf(key, x) {
      p := |s|;
    } else {
      p := PlaceExists(key, s[..|s| - 1], x);
    }
  }

  lemma PlaceKeepsOrder(key: SortKey, s: seq<Flag>, x: Flag, p: nat)
    requires Ordered(key, s) && IsPlace(key, s, x, p)
    ensures Ordered(key, s[..p] + [x] + s[p..])
  {
    var r := s[..p] + [x] + s[p..];
    forall i, j | 0 <= i < j < |r| ensures KeyOf(key, r[i]) <= KeyOf(key, r[j]) {
      assert i < p ==> KeyOf(key, s[i]) <= KeyOf(key, s[p - 1]);
    }
  }

  lemma PlaceKeepsKey(key: SortKey, a: seq<Flag>, b: seq<Flag>, x: Flag, k: nat)
    requires forall i :: 0 <= i < |b| ==> KeyOf(key, b[i]) > KeyOf(key, x)
    ensures WithKey(key, a + [x] + b, k) == WithKey(key, a + b + [x], k)
  {
    WithKeyAppend(key, a + [x], b, k);
    WithKeyAppend(key, a, [x], k);
    WithKeyAppend(key, a + b, [x], k);
    WithKeyAppend(key, a, b, k);
    var u, v, w := WithKey(key, a, k), WithKey(key, b, k), WithKey(key, [x], k);
    if k == KeyOf(key, x) {
      WithKeyAbove(key, b, k);
      assert u + w + [] == u + [] + w;
    } else {
      WithKeyAbove(key, [x], k);
      assert u + [] + v == u + v + [];
    }
  }

  lemma PlaceKeepsFlags(a: seq<Flag>, b: seq<Flag>, x: Flag)
    ensures multiset(a + [x] + b) == multiset(a + b) + multiset{x}
  {
  }

  lemma PlaceIsStable(key: SortKey, s: seq<Flag>, x: Flag, k: nat)
    requires Ordered(key, s)
    ensures Ordered(key, Place(key, s, x))
    ensures multiset(Place(key, s, x)) == multiset(s) + multiset{x}
    ensures WithKey(key, Place(key, s, x), k) == WithKey(key, s + [x], k)
  {
    var p := PlaceExists(key, s, x);
    PlaceAt(key, s, x, p);
    PlaceKeepsOrder(key, s, x, p);
    PlaceKeepsKey(key, s[..p], s[p..], x, k);
    PlaceKeepsFlags(s[..p], s[p..], x);
    assert s[..p] + s[p..] == s;
  }

  /** Sorting orders the flags by key, keeps all of them, and keeps the order of flags with equal keys. */
  lemma {:induction false} SortIsStable(key: SortKey, s: seq<Flag>, k: nat)
    ensures Ordered(key, StableSort(key, s))
    ensures multiset(StableSort(key, s)) == multiset(s)
    ensures WithKey(key, StableSort(key, s), k) == WithKey(key, s, k)
  {
    if s != [] {
      var init, last := s[..|s| - 1], s[|s| - 1];
      assert s == init + [last];
      SortIsStable(key, init, k);
      PlaceIsStable(key, StableSort(key, init), last, k);
      WithKeyAppend(key, StableSort(key, init), [last], k);
      WithKeyAppend(key, init, [last], k);
    }
  }

  /**
    Every stable sort gives the same list. So JavaScript's `Array.prototype.sort`, which is stable, and the
    insertion sort below order any list of flags alike.
  */
  lemma StableSortUnique(key: SortKey, s: seq<Flag>, t: seq<Flag>)
    requires Ordered(key, t)
    requires forall k: nat :: WithKey(key, t, k) == WithKey(key, s, k)
    ensures t == StableSort(key, s)
  {
    forall k: nat ensures WithKey(key, t, k) == WithKey(key, StableSort(key, s), k) {
      SortIsStable(key, s, k);
    }
    SortIsStable(key, s, 0);
    OrderedUnique(key, t, StableSort(key, s));
  }

  lemma {:induction false} OrderedUnique(key: SortKey, a: seq<Flag>, b: seq<Flag>)
    requires Ordered(key, a) && Ordered(key, b)
    requires forall k: nat :: WithKey(key, a, k) == WithKey(key, b, k)
    ensures a == b
  {
    if a != [] { FirstKeyBound(key, a, b); }
    if b != [] { FirstKeyBound(key, b, a); }
    if a != [] {
      var first := KeyOf(key, a[0]);
      assert WithKey(key, a, first)[0] == a[0] && WithKey(key, b, first)[0] == b[0];
      forall k: nat ensures WithKey(key, a[1..], k) == WithKey(key, b[1..], k) {
        TailWithKey(key, a, b, k);
      }
      OrderedUnique(key, a[1..], b[1..]);
      assert a == [a[0]] + a[1..] && b == [b[0]] + b[1..];
    }
  }

  lemma TailWithKey(key: SortKey, a: seq<Flag>, b: seq<Flag>, k: nat)
    requires a != [] && b != [] && a[0] == b[0] && WithKey(key, a, k) == WithKey(key, b, k)
    ensures WithKey(key, a[1..], k) == WithKey(key, b[1..], k)
  {
    if KeyOf(key, a[0]) == k {
      assert WithKey(key, a[1..], k) == WithKey(key, a, k)[1..];
      assert WithKey(key, b[1..], k) == WithKey(key, b, k)[1..];
    } else {
      assert WithKey(key, a[1..], k) == WithKey(key, a, k) && WithKey(key, b[1..], k) == WithKey(key, b, k);
    }
  }

  lemma FirstKeyBound(key: SortKey, a: seq<Flag>, b: seq<Flag>)
    requires a != [] && Ordered(key, b)
    requires forall k: nat :: WithKey(key, a, k) == WithKey(key, b, k)
    ensures b != [] && KeyOf(key, b[0]) <= KeyOf(key, a[0])
  {
    var k := KeyOf(key, a[0]);
    assert WithKey(key, b, k) == WithKey(key, a, k) != [];
    if b != [] && KeyOf(key, b[0]) > k {
      WithKeyAbove(key, b, k);
    }
  }

  /** The sort both Go functions write out: each flag moves left past strictly larger keys. */
  method SortInPlace(a: array<Flag>, key: SortKey)
    modifies a
    ensures a[..] == StableSort(key, old(a[..]))
  {
    ghost var was := a[..];
    if a.Length == 0 { return; }
    assert StableSort(key, was[..1]) == was[..1] by {
      assert was[..1][..0] == [];
    }
    var i := 1;
    while i < a.Length
      invariant 1 <= i <= a.Length
      invariant a[..i] == StableSort(key, was[..i])
      invariant a[i..] == was[i..]
    {
      SortNext(key, was, i);
      assert a[i] == a[i..][0] && a[i + 1..] == a[i..][1..];
      MoveLeft(a, i, key);
      assert was[i + 1..] == was[i..][1..];
      i := i + 1;
    }
    assert was[..a.Length] == was && a[..a.Length] == a[..];
  }

  lemma SortNext(key: SortKey, s: seq<Flag>, i: nat)
    requires i < |s|
    ensures StableSort(key, s[..i + 1]) == Place(key, StableSort(key, s[..i]), s[i])
  {
    assert s[..i + 1][..i] == s[..i];
  }

  /** The inner loop: the flag at `i` moves to its place among the flags before it. */
  method MoveLeft(a: array<Flag>, i: nat, key: SortKey)
    requires i < a.Length
    modifies a
    ensures a[..i + 1] == Place(key, old(a[..i]), old(a[i]))
    ensures a[i + 1..] == old(a[i + 1..])
  {
    ghost var before, x := a[..i], a[i];
    var j := i;
    while j > 0 && KeyOf(key, a[j]) < KeyOf(key, a[j - 1])
      invariant 0 <= j <= i
      invariant a[..i + 1] == before[..j] + [x] + before[j..]
      invariant a[i + 1..] == old(a[i + 1..])
      invariant forall m :: j <= m < i ==> KeyOf(key, before[m]) > KeyOf(key, x)
    {
      assert a[j] == a[..i + 1][j] && a[j - 1] == a[..i + 1][j - 1];
      a[j], a[j - 1] := a[j - 1], a[j];
      j := j - 1;
    }
    if j > 0 { assert a[j] == a[..i + 1][j] && a[j - 1] == a[..i + 1][j - 1]; }
    PlaceAt(key, before, x, j);
  }

  /** Go's `fieldsInOrder`: a sorted copy; the command's own list stays as it is. */
  method FieldsInOrder(cmd: Command) returns (fields: seq<Flag>)
    ensures fields == StableSort(ByField, cmd.flags)
  {
    var out := new Flag[|cmd.flags|](i requires 0 <= i < |cmd.flags| => cmd.flags[i]);
    assert out[..] == cmd.flags;
    SortInPlace(out, ByField);
    fields := out[..];
  }

  // ---- positional fields --------------------------------------------------

  function Positional(flags: seq<Flag>): (p: seq<Flag>)
    ensures forall f :: f in p <==> f in flags && f.positional > 0
  {
    if flags == [] then []
    else
      var init, last := flags[..|flags| - 1], flags[|flags| - 1];
      assert flags == init + [last];
      Positional(init) + (if last.positional > 0 then [last] else [])
  }

  /** The positional fields in position order. */
  function Positionals(cmd: Command): seq<Flag> { StableSort(ByPosition, Positional(cmd.flags)) }

  method CollectPositionals(cmd: Command) returns (fields: seq<Flag>)
    ensures fields == Positionals(cmd)
  {
    var out := [];
    var i := 0;
    assert cmd.flags[..0] == [] && cmd.flags[..|cmd.flags|] == cmd.flags;
    while i < |cmd.flags|
      invariant 0 <= i <= |cmd.flags|
      invariant out == Positional(cmd.flags[..i])
    {
      assert cmd.flags[..i + 1][..i] == cmd.flags[..i];
      if cmd.flags[i].positional > 0 { out := out + [cmd.flags[i]]; }
      i := i + 1;
    }
    var a := new Flag[|out|](i requires 0 <= i < |out| => out[i]);
    assert a[..] == out == Positional(cmd.flags);
    SortInPlace(a, ByPosition);
    fields := a[..];
  }

  /** What the generator insists on: positions run 1..n, and only the last may be repeated. */
  predicate PositionsAreSound(ps: seq<Flag>) {
    forall i :: 0 <= i < |ps| ==> ps[i].positional == i + 1 && (ps[i].repeated ==> i == |ps| - 1)
  }

  datatype PositionError = WrongPosition(want: nat, name: string) | RepeatedNotLast(name: string)

  method CheckPositionals(cmd: Command) returns (r: Result<(), PositionError>)
    ensures r.Ok? <==> PositionsAreSound(Positionals(cmd))
  {
    var ps := CollectPositionals(cmd);
    var i := 0;
    while i < |ps|
      invariant 0 <= i <= |ps|
      invariant forall m :: 0 <= m < i ==> ps[m].positional == m + 1 && (ps[m].repeated ==> m == |ps| - 1)
    {
      if ps[i].positional != i + 1 {
        return Err(WrongPosition(i + 1, ps[i].name));
      }
      if ps[i].repeated && i != |ps| - 1 {
        return Err(RepeatedNotLast(ps[i].name));
      }
      i := i + 1;
    }
    return Ok(());
  }
}
