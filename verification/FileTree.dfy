/**
  Directory trees as export and import handle them: listing a tree's files, putting files back one path at a time,
  and the two commands built from that. A file system is the node at its root; places are lists of names below it.
*/
module FileTree {
  import opened Basics
  import opened Bundle
  import opened BundleRoundTrip
  import opened Paths
  import Sorting
  import Utf8

  type Place = seq<Bytes>
  type Item = (Place, Bytes)

  // ---- listing ------------------------------------------------------------

  function Under(name: Bytes, items: seq<Item>): (r: seq<Item>)
    ensures |r| == |items|
    ensures forall i :: 0 <= i < |r| ==> r[i] == ([name] + items[i].0, items[i].1)
  {
    seq(|items|, i requires 0 <= i < |items| => ([name] + items[i].0, items[i].1))
  }

  /** A tree's files, directory by directory in name order. A file itself is one item at the empty place. */
  ghost function Items(n: Node): seq<Item>
    decreases n, 1, 0
  {
    match n case File(c) => [([], c)] case Dir(es) => ItemsFrom(n, Sorting.SortedNames(es.Keys))
  }

  ghost function ItemsFrom(n: Node, names: seq<Bytes>): seq<Item>
    requires n.Dir? && forall k :: k in names ==> k in n.entries
    decreases n, 0, |names|
  {
    if names == [] then [] else Under(names[0], Items(n.entries[names[0]])) + ItemsFrom(n, names[1..])
  }

  function Lookup(n: Node, at: Place): Option<Node> {
    if at == [] then Some(n)
    else if n.Dir? && at[0] in n.entries then Lookup(n.entries[at[0]], at[1..])
    else None
  }

  lemma UnderMember(name: Bytes, items: seq<Item>, at: Place, c: Bytes)
    ensures (at, c) in Under(name, items) <==> at != [] && at[0] == name && (at[1..], c) in items
  {
    var u := Under(name, items);
    if (at, c) in u {
      var i :| 0 <= i < |u| && u[i] == (at, c);
      assert at == [name] + items[i].0 && at[1..] == items[i].0;
      assert items[i] == (at[1..], c);
    }
    if at != [] && at[0] == name && (at[1..], c) in items {
      var i :| 0 <= i < |items| && items[i] == (at[1..], c);
      assert at == [name] + at[1..];
      assert u[i] == (at, c);
    }
  }

  /** The listing holds exactly the files of the tree. */
  lemma {:induction false} ItemsAreFiles(n: Node, at: Place, c: Bytes)
    ensures (at, c) in Items(n) <==> Lookup(n, at) == Some(File(c))
    decreases n, 1, 0
  {
    if n.Dir? {
      var names := Sorting.SortedNames(n.entries.Keys);
      ItemsFromAreFiles(n, names, at, c);
    }
  }

  lemma {:induction false} ItemsFromAreFiles(n: Node, names: seq<Bytes>, at: Place, c: Bytes)
    requires n.Dir? && forall k :: k in names ==> k in n.entries
    ensures (at, c) in ItemsFrom(n, names) <==>
      at != [] && at[0] in names && Lookup(n.entries[at[0]], at[1..]) == Some(File(c))
    decreases n, 0, |names|
  {
    if names != [] {
      assert names == [names[0]] + names[1..];
      UnderMember(names[0], Items(n.entries[names[0]]), at, c);
      if at != [] { ItemsAreFiles(n.entries[names[0]], at[1..], c); }
      ItemsFromAreFiles(n, names[1..], at, c);
    }
  }

  ghost predicate DistinctItems(items: seq<Item>) {
    forall i, j :: 0 <= i < j < |items| ==> items[i].0 != items[j].0
  }

  /** Each file is listed once. */
  lemma {:induction false} ItemsDistinct(n: Node)
    ensures DistinctItems(Items(n))
    decreases n, 1, 0
  {
    if n.Dir? { ItemsFromDistinct(n, Sorting.SortedNames(n.entries.Keys)); }
  }

  lemma {:induction false} ItemsFromDistinct(n: Node, names: seq<Bytes>)
    requires n.Dir? && forall k :: k in names ==> k in n.entries
    requires forall i, j :: 0 <= i < j < |names| ==> names[i] != names[j]
    ensures DistinctItems(ItemsFrom(n, names))
    decreases n, 0, |names|
  {
    if names != [] {
      var child := n.entries[names[0]];
      ItemsDistinct(child);
      ItemsFromDistinct(n, names[1..]);
      var u, rest := Under(names[0], Items(child)), ItemsFrom(n, names[1..]);
      forall i, j | 0 <= i < |u| && 0 <= j < |rest| ensures u[i].0 != rest[j].0 {
        ItemsFromAreFiles(n, names[1..], rest[j].0, rest[j].1);
        assert (rest[j].0, rest[j].1) in rest;
        assert u[i].0[0] == names[0];
        assert forall k :: 0 <= k < |names[1..]| ==> names[1..][k] == names[k + 1];
      }
      forall i, j | 0 <= i < j < |u| ensures u[i].0 != u[j].0 {
        assert u[i].0[1..] == Items(child)[i].0 && u[j].0[1..] == Items(child)[j].0;
      }
    }
  }

  // ---- putting files back -------------------------------------------------

  /** `insert`: directories appear as needed, and whatever stood at the last name is replaced. */
  function Insert(n: Node, parts: Place, content: Bytes): Option<Node>
    requires n.Dir?
    ensures Insert(n, parts, content).Some? ==> Insert(n, parts, content).value.Dir?
    decreases |parts|
  {
    if parts == [] || parts[0] == [] then None
    else if |parts| == 1 then Some(Dir(n.entries[parts[0] := File(content)]))
    else
      var next := if parts[0] in n.entries then n.entries[parts[0]] else Dir(map[]);
      if next.File? then None
      else match Insert(next, parts[1..], content)
        case None => None
        case Some(sub) => Some(Dir(n.entries[parts[0] := sub]))
  }

  /** `MkdirAll` of the parent and `WriteFile`: the same, but a directory is never overwritten by a file. */
  function Write(n: Node, parts: Place, content: Bytes): Option<Node>
    requires n.Dir?
    ensures Write(n, parts, content).Some? ==> Write(n, parts, content).value.Dir?
    decreases |parts|
  {
    if parts == [] then None
    else if |parts| == 1 then
      if parts[0] in n.entries && n.entries[parts[0]].Dir? then None
      else Some(Dir(n.entries[parts[0] := File(content)]))
    else
      var next := if parts[0] in n.entries then n.entries[parts[0]] else Dir(map[]);
      if next.File? then None
      else match Write(next, parts[1..], content)
        case None => None
        case Some(sub) => Some(Dir(n.entries[parts[0] := sub]))
  }

  lemma {:induction false} WriteIsInsert(n: Node, parts: Place, content: Bytes)
    requires n.Dir? && Write(n, parts, content).Some? && forall i :: 0 <= i < |parts| ==> parts[i] != []
    ensures Insert(n, parts, content) == Write(n, parts, content)
    decreases |parts|
  {
    if |parts| > 1 {
      var next := if parts[0] in n.entries then n.entries[parts[0]] else Dir(map[]);
      WriteIsInsert(next, parts[1..], content);
    }
  }

  function WriteAll(n: Node, items: seq<Item>): (r: Option<Node>)
    requires n.Dir?
    ensures r.Some? ==> r.value.Dir?
    decreases |items|
  {
    if items == [] then Some(n)
    else match Write(n, items[0].0, items[0].1) case None => None case Some(next) => WriteAll(next, items[1..])
  }

  lemma {:induction false} WriteAllAppend(n: Node, a: seq<Item>, b: seq<Item>)
    requires n.Dir?
    ensures WriteAll(n, a + b) == match WriteAll(n, a) case None => None case Some(m) => WriteAll(m, b)
    decreases |a|
  {
    if a == [] {
      assert a + b == b;
    } else {
      assert (a + b)[0] == a[0] && (a + b)[1..] == a[1..] + b;
      var next := Write(n, a[0].0, a[0].1);
      if next.Some? { WriteAllAppend(next.value, a[1..], b); }
    }
  }

  /** The directory below a name, as writing finds it: what is there, or a new one. */
  function Child(n: Node, name: Bytes): Node
    requires n.Dir?
  {
    if name in n.entries then n.entries[name] else Dir(map[])
  }

  /** Writing below one name changes that child as writing into it does, and nothing else. */
  lemma {:induction false} WriteUnder(n: Node, name: Bytes, items: seq<Item>)
    requires n.Dir? && items != [] && forall i :: 0 <= i < |items| ==> items[i].0 != []
    ensures WriteAll(n, Under(name, items)) ==
      if Child(n, name).File? then None
      else match WriteAll(Child(n, name), items)
        case None => None
        case Some(sub) => Some(Dir(n.entries[name := sub]))
    decreases |items|
  {
    var u := Under(name, items);
    var (at, c) := items[0];
    assert u[0] == ([name] + at, c) && ([name] + at)[1..] == at;
    var first := Write(n, [name] + at, c);
    assert u[1..] == Under(name, items[1..]);
    if first.Some? {
      var sub := Write(Child(n, name), at, c).value;
      assert first.value == Dir(n.entries[name := sub]);
      if items[1..] == [] {
        assert WriteAll(first.value, u[1..]) == first;
      } else {
        WriteUnder(first.value, name, items[1..]);
        var last := WriteAll(sub, items[1..]);
        if last.Some? { assert n.entries[name := sub][name := last.value] == n.entries[name := last.value]; }
      }
    }
  }

  ghost predicate HasFile(n: Node) {
    match n case File(_) => true case Dir(es) => exists k :: k in es && HasFile(es[k])
  }

  /** The tree without directories that hold no file. The node itself stays. */
  ghost function Prune(n: Node): Node {
    match n
    case File(_) => n
    case Dir(es) => Dir(map k | k in es && HasFile(es[k]) :: Prune(es[k]))
  }

  lemma {:induction false} HasFileItems(n: Node)
    ensures HasFile(n) <==> Items(n) != []
    decreases n
  {
    if n.Dir? {
      var names := Sorting.SortedNames(n.entries.Keys);
      forall k | k in n.entries ensures HasFile(n.entries[k]) <==> Items(n.entries[k]) != [] {
        HasFileItems(n.entries[k]);
      }
      ItemsFromEmpty(n, names);
    }
  }

  lemma {:induction false} ItemsFromEmpty(n: Node, names: seq<Bytes>)
    requires n.Dir? && forall k :: k in names ==> k in n.entries
    ensures ItemsFrom(n, names) == [] <==> forall k :: k in names ==> Items(n.entries[k]) == []
    decreases |names|
  {
    if names != [] {
      assert names == [names[0]] + names[1..];
      ItemsFromEmpty(n, names[1..]);
      assert |Under(names[0], Items(n.entries[names[0]]))| == |Items(n.entries[names[0]])|;
    }
  }

  /** Writing a listing into an empty directory rebuilds the tree without its file-less directories. */
  lemma {:induction false} RebuildsTree(n: Node)
    requires n.Dir?
    ensures WriteAll(Dir(map[]), Items(n)) == Some(Prune(n))
    decreases n, 1, 0
  {
    var names := Sorting.SortedNames(n.entries.Keys);
    RebuildsFrom(n, names, map[]);
    KeptAll(n, names);
  }

  lemma KeptAll(n: Node, names: seq<Bytes>)
    requires n.Dir? && forall k :: k in names <==> k in n.entries
    ensures Dir(map[] + Kept(n, names)) == Prune(n)
  {
    assert map[] + Kept(n, names) == Prune(n).entries;
  }

  ghost function Kept(n: Node, names: seq<Bytes>): map<Bytes, Node>
    requires n.Dir?
  {
    map k | k in n.entries && k in names && HasFile(n.entries[k]) :: Prune(n.entries[k])
  }

  lemma {:induction false} RebuildsFrom(n: Node, names: seq<Bytes>, out: map<Bytes, Node>)
    requires n.Dir? && forall k :: k in names ==> k in n.entries && k !in out
    requires forall i, j :: 0 <= i < j < |names| ==> names[i] != names[j]
    ensures WriteAll(Dir(out), ItemsFrom(n, names)) == Some(Dir(out + Kept(n, names)))
    decreases n, 0, |names|
  {
    if names == [] {
      assert out + Kept(n, names) == out;
    } else {
      var name, child, more := names[0], n.entries[names[0]], names[1..];
      assert names == [name] + more;
      assert forall i :: 0 <= i < |more| ==> more[i] == names[i + 1];
      var next := if HasFile(child) then out[name := Prune(child)] else out;
      RebuildsChild(n, name, out);
      WriteAllAppend(Dir(out), Under(name, Items(child)), ItemsFrom(n, more));
      RebuildsFrom(n, more, next);
      KeptOne(n, names, out);
    }
  }

  lemma KeptOne(n: Node, names: seq<Bytes>, out: map<Bytes, Node>)
    requires n.Dir? && names != [] && (forall k :: k in names ==> k in n.entries)
    requires names[0] !in names[1..]
    ensures var child := n.entries[names[0]];
      (if HasFile(child) then out[names[0] := Prune(child)] else out) + Kept(n, names[1..]) == out + Kept(n, names)
  {
    assert names == [names[0]] + names[1..];
  }

  lemma {:induction false} RebuildsChild(n: Node, name: Bytes, out: map<Bytes, Node>)
    requires n.Dir? && name in n.entries && name !in out
    ensures WriteAll(Dir(out), Under(name, Items(n.entries[name])))
      == Some(Dir(if HasFile(n.entries[name]) then out[name := Prune(n.entries[name])] else out))
    decreases n, 0, 0
  {
    var child := n.entries[name];
    var items := Items(child);
    HasFileItems(child);
    if child.File? {
      assert [name] + [] == [name];
      assert Under(name, items) == [([name], child.content)];
    } else if items != [] {
      NoEmptyPlace(child);
      WriteUnder(Dir(out), name, items);
      RebuildsTree(child);
    }
  }

  lemma NoEmptyPlace(n: Node)
    requires n.Dir?
    ensures forall i :: 0 <= i < |Items(n)| ==> Items(n)[i].0 != []
  {
    forall i | 0 <= i < |Items(n)| ensures Items(n)[i].0 != [] {
      ItemsAreFiles(n, Items(n)[i].0, Items(n)[i].1);
      assert (Items(n)[i].0, Items(n)[i].1) in Items(n);
    }
  }

  /** One bundle path as `walk` spells it. */
  function Spelled(prefix: Bytes, parts: Place): Bytes {
    if prefix == [] then Join(parts) else prefix + [SLASH] + Join(parts)
  }

  function Spell(items: seq<Item>): (r: seq<(Bytes, Bytes)>)
    ensures |r| == |items|
    ensures forall i :: 0 <= i < |r| ==> r[i] == (Join(items[i].0), items[i].1)
  {
    seq(|items|, i requires 0 <= i < |items| => (Join(items[i].0), items[i].1))
  }

  /** Names that survive being joined with slashes and split again. */
  ghost predicate Joinable(n: Node) {
    n.Dir? ==> forall k :: k in n.entries ==> k != [] && SLASH !in k && Joinable(n.entries[k])
  }

  predicate JoinablePlace(at: Place) { at != [] && forall i :: 0 <= i < |at| ==> at[i] != [] && SLASH !in at[i] }

  lemma {:induction false} JoinablePlaces(n: Node, at: Place)
    requires Joinable(n) && Lookup(n, at).Some?
    ensures at != [] ==> JoinablePlace(at)
    decreases |at|
  {
    if at != [] { JoinablePlaces(n.entries[at[0]], at[1..]); }
  }

  /** `insert` over a list of slash-separated paths. */
  function InsertAll(n: Node, files: seq<(Bytes, Bytes)>): (r: Option<Node>)
    requires n.Dir?
    decreases |files|
  {
    if files == [] then Some(n)
    else match Insert(n, Split(files[0].0), files[0].1)
      case None => None
      case Some(next) => InsertAll(next, files[1..])
  }

  lemma {:induction false} InsertAllIsWriteAll(n: Node, items: seq<Item>)
    requires n.Dir? && WriteAll(n, items).Some?
    requires forall i :: 0 <= i < |items| ==> JoinablePlace(items[i].0)
    ensures InsertAll(n, Spell(items)) == WriteAll(n, items)
    decreases |items|
  {
    if items != [] {
      var (at, c) := items[0];
      SplitJoin(at);
      WriteIsInsert(n, at, c);
      assert Spell(items)[1..] == Spell(items[1..]);
      InsertAllIsWriteAll(Write(n, at, c).value, items[1..]);
    }
  }

  /** Inserting what `walk` yields into an empty tree rebuilds the tree without its file-less directories. */
  lemma InsertRebuilds(n: Node)
    requires n.Dir? && Joinable(n)
    ensures InsertAll(Dir(map[]), Spell(Items(n))) == Some(Prune(n))
  {
    var items := Items(n);
    RebuildsTree(n);
    NoEmptyPlace(n);
    forall i | 0 <= i < |items| ensures JoinablePlace(items[i].0) {
      ItemsAreFiles(n, items[i].0, items[i].1);
      assert (items[i].0, items[i].1) in items;
      JoinablePlaces(n, items[i].0);
    }
    InsertAllIsWriteAll(Dir(map[]), items);
  }

  /** The paths `walk` builds on the way down: the prefix, a slash, and the rest. */
  function SpellBelow(prefix: Bytes, items: seq<Item>): (r: seq<(Bytes, Bytes)>)
    ensures |r| == |items|
    ensures forall i :: 0 <= i < |r| ==> r[i] == (Spelled(prefix, items[i].0), items[i].1)
  {
    seq(|items|, i requires 0 <= i < |items| => (Spelled(prefix, items[i].0), items[i].1))
  }

  lemma SpelledDeeper(prefix: Bytes, name: Bytes, parts: Place)
    requires name != []
    ensures Spelled(prefix, [name]) != []
    ensures parts != [] ==> Spelled(Spelled(prefix, [name]), parts) == Spelled(prefix, [name] + parts)
  {
    if parts != [] {
      assert ([name] + parts)[1..] == parts;
      assert Join([name] + parts) == name + [SLASH] + Join(parts);
      assert prefix + [SLASH] + name + [SLASH] + Join(parts) == prefix + [SLASH] + (name + [SLASH] + Join(parts));
    }
  }

  lemma SpellUnder(prefix: Bytes, name: Bytes, items: seq<Item>)
    requires name != [] && forall i :: 0 <= i < |items| ==> items[i].0 != []
    ensures SpellBelow(prefix, Under(name, items)) == SpellBelow(Spelled(prefix, [name]), items)
  {
    forall i | 0 <= i < |items|
      ensures SpellBelow(prefix, Under(name, items))[i] == SpellBelow(Spelled(prefix, [name]), items)[i]
    {
      SpelledDeeper(prefix, name, items[i].0);
    }
  }

  lemma SpellAppend(prefix: Bytes, a: seq<Item>, b: seq<Item>)
    ensures SpellBelow(prefix, a + b) == SpellBelow(prefix, a) + SpellBelow(prefix, b)
  {
  }

  /** The path a name stands at, below a prefix that may be empty. */
  function PathTo(prefix: Bytes, name: Bytes): Bytes { if prefix == [] then name else prefix + [SLASH] + name }

  /** What `walk` yields, whatever the names: a root that is no directory yields nothing. */
  ghost function Visited(n: Node, prefix: Bytes): seq<(Bytes, Bytes)>
    decreases n, 1, 0
  {
    if n.File? then [] else VisitedFrom(n, Sorting.SortedNames(n.entries.Keys), prefix)
  }

  ghost function VisitedFrom(n: Node, names: seq<Bytes>, prefix: Bytes): seq<(Bytes, Bytes)>
    requires n.Dir? && forall k :: k in names ==> k in n.entries
    decreases n, 0, |names|
  {
    if names == [] then []
    else
      VisitedChild(n.entries[names[0]], PathTo(prefix, names[0])) + VisitedFrom(n, names[1..], prefix)
  }

  ghost function VisitedChild(child: Node, path: Bytes): seq<(Bytes, Bytes)>
    decreases child, 2, 0
  {
    if child.Dir? then Visited(child, path) else [(path, child.content)]
  }

  lemma VisitedAt(n: Node, names: seq<Bytes>, i: nat, prefix: Bytes, files: seq<(Bytes, Bytes)>)
    requires n.Dir? && i < |names| && forall k :: k in names ==> k in n.entries
    ensures files + VisitedFrom(n, names[i..], prefix)
      == files + VisitedChild(n.entries[names[i]], PathTo(prefix, names[i])) + VisitedFrom(n, names[i + 1..], prefix)
  {
    assert names[i..][0] == names[i] && names[i..][1..] == names[i + 1..];
    Assoc(files, VisitedChild(n.entries[names[i]], PathTo(prefix, names[i])), VisitedFrom(n, names[i + 1..], prefix));
  }

  /** `walk`, with the callback collecting what it is given. */
  method Walk(n: Node, prefix: Bytes) returns (files: seq<(Bytes, Bytes)>)
    ensures files == Visited(n, prefix)
    decreases n
  {
    if n.File? { return []; }
    var names: seq<Bytes> := Sorting.CollectSorted(n.entries.Keys);
    files := [];
    var i := 0;
    assert names[0..] == names;
    while i < |names|
      invariant 0 <= i <= |names|
      invariant files + VisitedFrom(n, names[i..], prefix) == Visited(n, prefix)
    {
      var child, path := n.entries[names[i]], PathTo(prefix, names[i]);
      VisitedAt(n, names, i, prefix, files);
      var here;
      if child.Dir? { here := Walk(child, path); } else { here := [(path, child.content)]; }
      files := files + here;
      i := i + 1;
    }
    assert files + [] == files;
  }

  /** For names that survive joining, the walk is the listing with its places spelled out. */
  lemma {:induction false} WalkSpells(n: Node, prefix: Bytes)
    requires n.Dir? && Joinable(n)
    ensures Visited(n, prefix) == SpellBelow(prefix, Items(n))
    decreases n, 1, 0
  {
    WalkSpellsFrom(n, Sorting.SortedNames(n.entries.Keys), prefix);
  }

  lemma {:induction false} WalkSpellsFrom(n: Node, names: seq<Bytes>, prefix: Bytes)
    requires n.Dir? && Joinable(n) && forall k :: k in names ==> k in n.entries
    ensures VisitedFrom(n, names, prefix) == SpellBelow(prefix, ItemsFrom(n, names))
    decreases n, 0, |names|
  {
    if names != [] {
      var name, child := names[0], n.entries[names[0]];
      WalkSpellsFrom(n, names[1..], prefix);
      if child.Dir? { WalkSpells(child, PathTo(prefix, name)); }
      WalkSpellsChild(child, name, prefix);
      SpellAppend(prefix, Under(name, Items(child)), ItemsFrom(n, names[1..]));
    }
  }

  lemma WalkSpellsChild(child: Node, name: Bytes, prefix: Bytes)
    requires name != []
    requires child.Dir? ==> Visited(child, PathTo(prefix, name)) == SpellBelow(PathTo(prefix, name), Items(child))
    ensures VisitedChild(child, PathTo(prefix, name)) == SpellBelow(prefix, Under(name, Items(child)))
  {
    if child.Dir? {
      NoEmptyPlace(child);
      SpellUnder(prefix, name, Items(child));
    } else {
      assert [name] + [] == [name];
    }
  }

  // ---- at a place below the root ------------------------------------------

  function At(place: Place, items: seq<Item>): (r: seq<Item>)
    ensures |r| == |items|
  {
    if place == [] then items else Under(place[0], At(place[1..], items))
  }

  lemma {:induction false} AtItems(place: Place, items: seq<Item>, i: nat)
    requires i < |items|
    ensures At(place, items)[i] == (place + items[i].0, items[i].1)
  {
    if place == [] {
      assert place + items[i].0 == items[i].0;
    } else {
      AtItems(place[1..], items, i);
      assert [place[0]] + (place[1..] + items[i].0) == place + items[i].0;
    }
  }

  /** What writing below a place starts from: the directory there, a new one, or nothing when a file blocks the way. */
  function SubAt(fs: Node, place: Place): (r: Option<Node>)
    ensures r.Some? ==> r.value.Dir?
    decreases |place|
  {
    if fs.File? then None else if place == [] then Some(fs) else SubAt(Child(fs, place[0]), place[1..])
  }

  /** The file system with another node at a place, its parents created as needed. */
  function Graft(fs: Node, place: Place, n: Node): Node
    requires SubAt(fs, place).Some?
    decreases |place|
  {
    if place == [] then n
    else Dir(fs.entries[place[0] := Graft(Child(fs, place[0]), place[1..], n)])
  }

  lemma {:induction false} WriteDeep(fs: Node, place: Place, items: seq<Item>)
    requires fs.Dir? && items != [] && forall i :: 0 <= i < |items| ==> items[i].0 != []
    ensures WriteAll(fs, At(place, items)) ==
      if SubAt(fs, place).None? then None
      else match WriteAll(SubAt(fs, place).value, items)
        case None => None
        case Some(sub) => Some(Graft(fs, place, sub))
    decreases |place|
  {
    if place != [] {
      var deeper := At(place[1..], items);
      forall i | 0 <= i < |deeper| ensures deeper[i].0 != [] { AtItems(place[1..], items, i); }
      WriteUnder(fs, place[0], deeper);
      if Child(fs, place[0]).Dir? { WriteDeep(Child(fs, place[0]), place[1..], items); }
    }
  }

  predicate Prefix(a: Place, b: Place) { |a| <= |b| && b[..|a|] == a }

  /** After grafting, the place holds the new node, and every place beside it what it held before. */
  lemma {:induction false} GraftExactly(fs: Node, place: Place, n: Node, q: Place)
    requires SubAt(fs, place).Some?
    ensures Lookup(Graft(fs, place, n), place) == Some(n)
    ensures !Prefix(place, q) && !Prefix(q, place) ==> Lookup(Graft(fs, place, n), q) == Lookup(fs, q)
    decreases |place|
  {
    if place != [] {
      var child := Child(fs, place[0]);
      GraftExactly(child, place[1..], n, if q != [] then q[1..] else []);
      if q != [] && q[0] == place[0] {
        assert Prefix(place, q) <==> Prefix(place[1..], q[1..]) by { PrefixTail(place, q); }
        assert Prefix(q, place) <==> Prefix(q[1..], place[1..]) by { PrefixTail(q, place); }
      }
    }
  }

  lemma PrefixTail(a: Place, b: Place)
    requires a != [] && b != [] && a[0] == b[0]
    ensures Prefix(a, b) <==> Prefix(a[1..], b[1..])
  {
    if |a| <= |b| {
      assert b[..|a|] == [b[0]] + b[1..][..|a| - 1];
      assert a == [a[0]] + a[1..];
    }
  }

  lemma {:induction false} GraftTwice(fs: Node, place: Place, a: Node, b: Node)
    requires SubAt(fs, place).Some? && a.Dir?
    ensures SubAt(Graft(fs, place, a), place) == Some(a)
    ensures Graft(Graft(fs, place, a), place, b) == Graft(fs, place, b)
    decreases |place|
  {
    if place != [] {
      var child := Child(fs, place[0]);
      GraftTwice(child, place[1..], a, b);
      var x, y := Graft(child, place[1..], a), Graft(child, place[1..], b);
      assert fs.entries[place[0] := x][place[0] := y] == fs.entries[place[0] := y];
    }
  }

  lemma {:induction false} LookupIsSubAt(fs: Node, place: Place)
    requires fs.Dir?
    ensures Lookup(fs, place).Some? && Lookup(fs, place).value.Dir? ==> SubAt(fs, place) == Lookup(fs, place)
    ensures Lookup(fs, place).None? && SubAt(fs, place).Some? ==> SubAt(fs, place) == Some(Dir(map[]))
    decreases |place|
  {
    if place != [] {
      if place[0] in fs.entries {
        if fs.entries[place[0]].Dir? { LookupIsSubAt(fs.entries[place[0]], place[1..]); }
      } else {
        FreshSubAt(place[1..]);
      }
    }
  }

  lemma {:induction false} FreshSubAt(place: Place)
    ensures SubAt(Dir(map[]), place) == Some(Dir(map[]))
  {
    if place != [] { FreshSubAt(place[1..]); }
  }

  // ---- export and import --------------------------------------------------

  const INDEX_DIR: Bytes := [0x2E, 0x64, 0x6C, 0x63, 0x2D, 0x69, 0x6E, 0x64, 0x65, 0x78]   // .dlc-index

  /** `readInto`: the one path skipped is the index directory below the root. */
  ghost function ReadInto(n: Node, at: Place): Node
    decreases n
  {
    match n
    case File(_) => n
    case Dir(es) => Dir(map k | k in es && at + [k] != [INDEX_DIR] :: ReadInto(es[k], at + [k]))
  }

  /** `ReadTree`: a directory's tree, and nothing for the index directory itself. */
  ghost function ReadTree(fs: Node, at: Place): Option<Node> {
    if at == [INDEX_DIR] then Some(Dir(map[]))
    else match Lookup(fs, at)
      case None => None
      case Some(n) => if n.File? then None else Some(ReadInto(n, at))
  }

  lemma {:induction false} ReadIntoFiles(n: Node, at: Place, p: Place, c: Bytes)
    requires at != [INDEX_DIR]
    ensures Lookup(ReadInto(n, at), p) == Some(File(c)) <==>
      Lookup(n, p) == Some(File(c)) && !(at == [] && p != [] && p[0] == INDEX_DIR)
    decreases n
  {
    if p != [] && n.Dir? && p[0] in n.entries {
      assert at + [p[0]] == [INDEX_DIR] <==> at == [] && p[0] == INDEX_DIR by {
        if at + [p[0]] == [INDEX_DIR] { assert |at| == 0 && (at + [p[0]])[0] == p[0]; }
        if at == [] && p[0] == INDEX_DIR { assert at + [p[0]] == [INDEX_DIR]; }
      }
      if at + [p[0]] != [INDEX_DIR] { ReadIntoFiles(n.entries[p[0]], at + [p[0]], p[1..], c); }
    }
  }

  /** The place is the index directory or below it. */
  predicate InIndex(at: Place) { at != [] && at[0] == INDEX_DIR }

  /**
    What an export holds: of the prefix's files, exactly those outside the index directory; and all of them when the
    prefix itself lies strictly inside it.
  */
  lemma ExportedFiles(fs: Node, at: Place, p: Place, c: Bytes)
    requires ReadTree(fs, at).Some?
    ensures Lookup(ReadTree(fs, at).value, p) == Some(File(c)) <==> Lookup(fs, at + p) == Some(File(c)) && Travels(at, p)
  {
    if at != [INDEX_DIR] {
      ReadIntoFiles(Lookup(fs, at).value, at, p, c);
      LookupAppend(fs, at, p);
    }
    assert at != [] ==> (at + p)[0] == at[0];
    assert at == [] ==> at + p == p;
    assert |at| == 1 ==> at == [at[0]];
  }

  predicate IsFileAt(n: Node, q: Place) { Lookup(n, q).Some? && Lookup(n, q).value.File? }
  predicate IsDirAt(n: Node, q: Place) { Lookup(n, q).Some? && Lookup(n, q).value.Dir? }

  lemma {:induction false} ReadIntoDirs(n: Node, at: Place, p: Place)
    requires at != [INDEX_DIR]
    ensures IsDirAt(ReadInto(n, at), p) <==> IsDirAt(n, p) && !(at == [] && p != [] && p[0] == INDEX_DIR)
    decreases n
  {
    if p != [] && n.Dir? && p[0] in n.entries {
      assert at + [p[0]] == [INDEX_DIR] <==> at == [] && p[0] == INDEX_DIR by {
        if at + [p[0]] == [INDEX_DIR] { assert |at| == 0 && (at + [p[0]])[0] == p[0]; }
        if at == [] && p[0] == INDEX_DIR { assert at + [p[0]] == [INDEX_DIR]; }
      }
      if at + [p[0]] != [INDEX_DIR] { ReadIntoDirs(n.entries[p[0]], at + [p[0]], p[1..]); }
    }
  }

  /**
    An export succeeds exactly for a directory, the index counting as one that is there and empty, and it has all the
    directories that may travel, those without files among them.
  */
  lemma ExportedDirs(fs: Node, at: Place, p: Place)
    ensures ReadTree(fs, at).Some? <==> at == [INDEX_DIR] || IsDirAt(fs, at)
    ensures ReadTree(fs, at).Some? ==>
      (IsDirAt(ReadTree(fs, at).value, p) <==>
        if at == [INDEX_DIR] then p == [] else IsDirAt(fs, at + p) && Travels(at, p))
  {
    if at != [INDEX_DIR] && IsDirAt(fs, at) {
      ReadIntoDirs(Lookup(fs, at).value, at, p);
      LookupAppend(fs, at, p);
      assert at != [] ==> (at + p)[0] == at[0];
      assert at == [] ==> at + p == p;
      assert |at| == 1 ==> at == [at[0]];
    }
  }

  /** The check on the way in compares whole paths, so a prefix that is already past it passes. */
  predicate Travels(at: Place, p: Place) { InIndex(at + p) ==> |at| > 1 }

  /** The index never travels, except by a prefix strictly inside it: such an export holds an index file. */
  lemma IndexCanTravel(index: Bytes, key: Bytes, c: Bytes)
    ensures var fs := Dir(map[INDEX_DIR := Dir(map[index := Dir(map[key := File(c)])])]);
      && ReadTree(fs, [INDEX_DIR, index]).Some?
      && Lookup(ReadTree(fs, [INDEX_DIR, index]).value, [key]) == Some(File(c))
      && InIndex([INDEX_DIR, index] + [key])
  {
    var fs := Dir(map[INDEX_DIR := Dir(map[index := Dir(map[key := File(c)])])]);
    var at := [INDEX_DIR, index];
    var sub := Dir(map[index := Dir(map[key := File(c)])]);
    assert at[1..] == [index] && [index][1..] == [] && [key][1..] == [];
    assert Lookup(sub, [index]) == Some(Dir(map[key := File(c)]));
    assert Lookup(fs, at) == Lookup(sub, at[1..]);
    assert Lookup(sub.entries[index], [key]) == Some(File(c));
    LookupAppend(fs, at, [key]);
    ExportedFiles(fs, at, [key], c);
  }

  lemma {:induction false} LookupAppend(fs: Node, a: Place, b: Place)
    ensures Lookup(fs, a + b) == match Lookup(fs, a) case None => None case Some(n) => Lookup(n, b)
    decreases |a|
  {
    if a == [] {
      assert a + b == b;
    } else {
      assert (a + b)[0] == a[0] && (a + b)[1..] == a[1..] + b;
      if fs.Dir? && a[0] in fs.entries { LookupAppend(fs.entries[a[0]], a[1..], b); }
    }
  }

  /** `removeTree`: a directory is emptied and stays; anything else is left alone. */
  function RemoveTree(fs: Node, at: Place): Node
    requires fs.Dir?
  {
    if Lookup(fs, at).Some? && Lookup(fs, at).value.Dir? && SubAt(fs, at).Some? then Graft(fs, at, Dir(map[])) else fs
  }

  /** `writeBFTTree`: every path goes through the containment check. */
  function WritePaths(fs: Node, at: Place, files: seq<(Bytes, Bytes)>): Option<Node>
    requires fs.Dir?
    decreases |files|
  {
    if files == [] then Some(fs)
    else match Inside(files[0].0)
      case None => None
      case Some(parts) =>
        match Write(fs, at + parts, files[0].1)
        case None => None
        case Some(next) => WritePaths(next, at, files[1..])
  }

  /** `import-fs`: decode, clear the destination when replacing, write every file. */
  ghost function Import(fs: Node, at: Place, bundle: Bytes, replace: bool): Option<Node>
    requires fs.Dir?
  {
    match Bundle.Decode(bundle)
    case None => None
    case Some(tree) =>
      var cleared := if replace then RemoveTree(fs, at) else fs;
      WritePaths(cleared, at, Visited(tree, []))
  }

  /** The files as they stand after the last path that could be written. */
  function WrittenSoFar(fs: Node, at: Place, files: seq<(Bytes, Bytes)>): (r: Node)
    requires fs.Dir?
    ensures r.Dir?
    ensures WritePaths(fs, at, files).Some? ==> r == WritePaths(fs, at, files).value
    decreases |files|
  {
    if files == [] || Inside(files[0].0).None? then fs
    else match Write(fs, at + Inside(files[0].0).value, files[0].1)
      case None => fs
      case Some(next) => WrittenSoFar(next, at, files[1..])
  }

  /** What an import leaves behind, whether it succeeds or stops half-way. */
  ghost function ImportLeaves(fs: Node, at: Place, bundle: Bytes, replace: bool): (r: Node)
    requires fs.Dir?
    ensures Import(fs, at, bundle, replace).Some? ==> r == Import(fs, at, bundle, replace).value
  {
    match Bundle.Decode(bundle)
    case None => fs
    case Some(tree) => WrittenSoFar(if replace then RemoveTree(fs, at) else fs, at, Visited(tree, []))
  }

  /** One write changes no file but its own. */
  lemma {:induction false} WriteElsewhere(fs: Node, place: Place, content: Bytes, q: Place, c: Bytes)
    requires fs.Dir? && Write(fs, place, content).Some? && q != place
    ensures Lookup(Write(fs, place, content).value, q) == Some(File(c)) <==> Lookup(fs, q) == Some(File(c))
    decreases |place|
  {
    if q != [] && q[0] == place[0] {
      assert q == [q[0]] + q[1..] && place == [place[0]] + place[1..];
      if |place| == 1 {
        assert q[1..] != [];
      } else {
        WriteElsewhere(Child(fs, place[0]), place[1..], content, q[1..], c);
      }
    }
  }

  lemma {:induction false} WritesStayInside(fs: Node, at: Place, files: seq<(Bytes, Bytes)>, q: Place, c: Bytes)
    requires fs.Dir? && !Prefix(at, q)
    ensures Lookup(WrittenSoFar(fs, at, files), q) == Some(File(c)) <==> Lookup(fs, q) == Some(File(c))
    decreases |files|
  {
    if files != [] && Inside(files[0].0).Some? {
      var place := at + Inside(files[0].0).value;
      assert place[..|at|] == at;
      if Write(fs, place, files[0].1).Some? {
        WriteElsewhere(fs, place, files[0].1, q, c);
        WritesStayInside(Write(fs, place, files[0].1).value, at, files[1..], q, c);
      }
    }
  }

  /** A directory grafted in place of another changes no file outside it. */
  lemma {:induction false} GraftElsewhere(fs: Node, place: Place, n: Node, q: Place, c: Bytes)
    requires SubAt(fs, place).Some? && Lookup(fs, place).Some? && !Prefix(place, q)
    ensures Lookup(Graft(fs, place, n), q) == Some(File(c)) <==> Lookup(fs, q) == Some(File(c))
    decreases |place|
  {
    if place != [] && q != [] && q[0] == place[0] {
      PrefixTail(place, q);
      GraftElsewhere(Child(fs, place[0]), place[1..], n, q[1..], c);
    }
  }

  /**
    Whatever bytes a bundle is, in either mode and even when it stops half-way, an import changes no file outside its
    destination.
  */
  lemma ImportStaysInside(fs: Node, at: Place, bundle: Bytes, replace: bool, q: Place, c: Bytes)
    requires fs.Dir? && !Prefix(at, q)
    ensures Lookup(ImportLeaves(fs, at, bundle, replace), q) == Some(File(c)) <==> Lookup(fs, q) == Some(File(c))
  {
    var tree := Bundle.Decode(bundle);
    if tree.Some? {
      WritesStayInside(if replace then RemoveTree(fs, at) else fs, at, Visited(tree.value, []), q, c);
      if RemoveTree(fs, at) != fs { GraftElsewhere(fs, at, Dir(map[]), q, c); }
    }
  }

  /** Every name is one a file system can hold. */
  ghost predicate Proper(n: Node) {
    n.Dir? ==> forall k :: k in n.entries ==> IsName(k) && Utf8.Valid(k) && Proper(n.entries[k])
  }

  lemma {:induction false} ProperValid(n: Node)
    requires Proper(n)
    ensures NamesValid(n)
    decreases n
  {
    if n.Dir? {
      forall k | k in n.entries ensures NamesValid(n.entries[k]) { ProperValid(n.entries[k]); }
    }
  }

  lemma {:induction false} ProperPlace(n: Node, at: Place)
    requires Proper(n) && Lookup(n, at).Some?
    ensures AllNames(at)
    ensures Proper(Lookup(n, at).value)
    decreases |at|
  {
    if at != [] { ProperPlace(n.entries[at[0]], at[1..]); }
  }

  lemma {:induction false} ReadIntoProper(n: Node, at: Place)
    requires Proper(n)
    ensures Proper(ReadInto(n, at))
    decreases n
  {
    if n.Dir? {
      forall k | k in n.entries ensures Proper(ReadInto(n.entries[k], at + [k])) {
        ReadIntoProper(n.entries[k], at + [k]);
      }
    }
  }

  /** Paths spelled from names come back as those names, so the string-level loop writes the listing. */
  lemma {:induction false} WritePathsIsWriteAll(fs: Node, at: Place, items: seq<Item>)
    requires fs.Dir? && forall i :: 0 <= i < |items| ==> items[i].0 != [] && AllNames(items[i].0)
    ensures WritePaths(fs, at, Spell(items)) == WriteAll(fs, At(at, items))
    decreases |items|
  {
    if items == [] {
      if at != [] { assert At(at, items) == []; }
    } else {
      NamesAccepted(items[0].0);
      AtItems(at, items, 0);
      var next := Write(fs, at + items[0].0, items[0].1);
      AtTail(at, items);
      assert Spell(items)[1..] == Spell(items[1..]);
      if next.Some? { WritePathsIsWriteAll(next.value, at, items[1..]); }
    }
  }

  lemma AtTail(at: Place, items: seq<Item>)
    requires items != []
    ensures At(at, items)[1..] == At(at, items[1..])
  {
    var a, b := At(at, items)[1..], At(at, items[1..]);
    forall i | 0 <= i < |b| ensures a[i] == b[i] {
      AtItems(at, items, i + 1);
      AtItems(at, items[1..], i);
    }
  }

  /**
    Export a prefix, import the bundle elsewhere with REPLACE: it succeeds unless a file blocks the way, and the
    destination then holds exactly the exported files. Only directories without files are lost.
  */
  lemma ImportReplaces(source: Node, from: Place, fs: Node, to: Place)
    requires Proper(source) && fs.Dir? && ReadTree(source, from).Some?
    ensures var tree := ReadTree(source, from).value;
      var r := Import(fs, to, Encode(tree), true);
      && (r.Some? <==> !HasFile(tree) || SubAt(fs, to).Some?)
      && (r.Some? && HasFile(tree) ==> r.value == Graft(fs, to, Prune(tree)) && Lookup(r.value, to) == Some(Prune(tree)))
      && (r.Some? && !HasFile(tree) ==> r.value == RemoveTree(fs, to))
  {
    var tree := ReadTree(source, from).value;
    TreeIsProper(source, from);
    EncodedDecodes(tree);
    ImportWrites(Encode(tree), tree, fs, to, true);
    var items := Items(tree);
    var cleared := RemoveTree(fs, to);
    HasFileItems(tree);
    NoEmptyPlace(tree);
    if items == [] {
      assert At(to, items) == [];
    } else {
      WriteDeep(cleared, to, items);
      RebuildsTree(tree);
      ClearedSub(fs, to, Prune(tree));
      if SubAt(fs, to).Some? { GraftExactly(fs, to, Prune(tree), []); }
    }
  }

  /** Importing a bundle writes the files of the tree it decodes to, one by one, below the destination. */
  lemma ImportWrites(bundle: Bytes, tree: Node, fs: Node, to: Place, replace: bool)
    requires Bundle.Decode(bundle) == Some(tree) && Proper(tree) && tree.Dir? && fs.Dir?
    ensures Import(fs, to, bundle, replace)
      == WriteAll(if replace then RemoveTree(fs, to) else fs, At(to, Items(tree)))
  {
    var items := Items(tree);
    NoEmptyPlace(tree);
    forall i | 0 <= i < |items| ensures AllNames(items[i].0) {
      ItemsAreFiles(tree, items[i].0, items[i].1);
      assert (items[i].0, items[i].1) in items;
      ProperPlace(tree, items[i].0);
    }
    ProperJoinable(tree);
    WalkSpells(tree, []);
    assert SpellBelow([], items) == Spell(items);
    WritePathsIsWriteAll(if replace then RemoveTree(fs, to) else fs, to, items);
  }

  lemma EncodedDecodes(tree: Node)
    requires Proper(tree)
    ensures Bundle.Decode(Encode(tree)) == Some(tree)
  {
    ProperValid(tree);
    BundleRoundTrips(tree);
  }

  lemma {:induction false} ProperJoinable(n: Node)
    requires Proper(n)
    ensures Joinable(n)
    decreases n
  {
    if n.Dir? {
      forall k | k in n.entries ensures k != [] && SLASH !in k && Joinable(n.entries[k]) {
        ProperJoinable(n.entries[k]);
      }
    }
  }

  lemma TreeIsProper(source: Node, from: Place)
    requires Proper(source) && ReadTree(source, from).Some?
    ensures Proper(ReadTree(source, from).value) && ReadTree(source, from).value.Dir?
  {
    if from != [INDEX_DIR] {
      ProperPlace(source, from);
      ReadIntoProper(Lookup(source, from).value, from);
    }
  }

  /** After clearing, writing starts from an empty directory, and grafting there is grafting into the original. */
  lemma ClearedSub(fs: Node, to: Place, n: Node)
    requires fs.Dir?
    ensures var cleared := RemoveTree(fs, to);
      && (SubAt(cleared, to).Some? <==> SubAt(fs, to).Some?)
      && (SubAt(fs, to).Some? ==> SubAt(cleared, to) == Some(Dir(map[])) && Graft(cleared, to, n) == Graft(fs, to, n))
  {
    LookupIsSubAt(fs, to);
    if Lookup(fs, to).Some? && Lookup(fs, to).value.Dir? {
      GraftTwice(fs, to, Dir(map[]), n);
    } else if Lookup(fs, to).Some? {
      BlockedByFile(fs, to);
    }
  }

  lemma {:induction false} BlockedByFile(fs: Node, to: Place)
    requires Lookup(fs, to).Some? && Lookup(fs, to).value.File?
    ensures SubAt(fs, to).None?
    decreases |to|
  {
    if to != [] { BlockedByFile(fs.entries[to[0]], to[1..]); }
  }

  /** The same said of files: below the destination, the exported ones; beside it, what was there. */
  lemma ImportedFiles(source: Node, from: Place, fs: Node, to: Place, p: Place, c: Bytes, q: Place)
    requires Proper(source) && fs.Dir? && ReadTree(source, from).Some? && HasFile(ReadTree(source, from).value)
    requires SubAt(fs, to).Some?
    ensures var r := Import(fs, to, Encode(ReadTree(source, from).value), true);
      && r.Some?
      && (Lookup(r.value, to + p) == Some(File(c)) <==>
            Lookup(source, from + p) == Some(File(c)) && Travels(from, p))
      && (!Prefix(to, q) && !Prefix(q, to) ==> Lookup(r.value, q) == Lookup(fs, q))
  {
    var tree := ReadTree(source, from).value;
    ImportReplaces(source, from, fs, to);
    var r := Import(fs, to, Encode(tree), true).value;
    GraftExactly(fs, to, Prune(tree), q);
    LookupAppend(r, to, p);
    PruneKeepsFiles(tree, p, c);
    ExportedFiles(source, from, p, c);
  }

  lemma {:induction false} PruneKeepsFiles(n: Node, p: Place, c: Bytes)
    ensures Lookup(Prune(n), p) == Some(File(c)) <==> Lookup(n, p) == Some(File(c))
    decreases |p|
  {
    if p != [] && n.Dir? && p[0] in n.entries {
      PruneKeepsFiles(n.entries[p[0]], p[1..], c);
      if Lookup(n.entries[p[0]], p[1..]) == Some(File(c)) {
        FileBelow(n.entries[p[0]], p[1..]);
      }
    }
  }

  lemma {:induction false} FileBelow(n: Node, p: Place)
    requires Lookup(n, p).Some? && Lookup(n, p).value.File?
    ensures HasFile(n)
    decreases |p|
  {
    if p != [] { FileBelow(n.entries[p[0]], p[1..]); }
  }
}
