/**
  The browser's store. A whole tree is loaded from it at boot and mirrored back after a command; entries reserved
  for the host are passed over at the top level, on both sides. A directory is a map, and the order in which its
  entries come up is left open.
*/
module Opfs {
  import opened Basics

  /** A JavaScript string: its UTF-16 code units. */
  type Name = seq<int>

  datatype Entry = Dir(dir: map<Name, Entry>) | File(source: Bytes)
  type Tree = map<Name, Entry>

  /** `.ilc-host` */
  const HOST: Name := [0x2E, 0x69, 0x6C, 0x63, 0x2D, 0x68, 0x6F, 0x73, 0x74]
  const RESERVED: set<Name> := {HOST}

  // ---- what loading and flushing mean -------------------------------------

  /** What a load sees of a directory. */
  function Visible(t: Tree, skip: set<Name>): Tree { map k | k in t && k !in skip :: t[k] }

  /** A store after a flush: the tree's entries, and of the store's own only the reserved ones. */
  function Mirrored(store: Tree, tree: Tree, skip: set<Name>): Tree {
    map k | k in store.Keys + tree.Keys && (if k in skip then k in store else k in tree)
      :: if k in skip then store[k] else tree[k]
  }

  /** No name that a flush writes is a file on one side and a directory on the other. */
  predicate Compatible(store: Tree, tree: Entry, skip: set<Name>)
    requires tree.Dir?
    decreases tree, 0
  {
    forall k :: k in tree.dir && k in store && k !in skip ==> Agree(store[k], tree.dir[k])
  }

  predicate Agree(a: Entry, b: Entry)
    decreases b, 1
  {
    if b.Dir? then a.Dir? && Compatible(a.dir, b, {}) else a.File?
  }

  // ---- the operations -----------------------------------------------------

  /** `writeDir`: prune, then write. A name of the wrong kind stops it, as the browser's TypeMismatchError does. */
  method WriteDir(handle: Tree, entry: Entry, skip: set<Name>) returns (after: Tree, ok: bool)
    requires entry.Dir?
    ensures ok <==> Compatible(handle, entry, skip)
    ensures ok ==> after == Mirrored(handle, entry.dir, skip)
    ensures forall k :: k in skip ==>
      (k in after <==> k in handle) && (k in handle ==> after[k] == handle[k])
    decreases entry
  {
    after := Prune(handle, entry.dir, skip);
    var wanted := entry.dir;
    var left := wanted.Keys;
    while left != {}
      invariant left <= wanted.Keys
      invariant after == Partly(handle, wanted, left, skip)
      invariant forall k :: k in handle && k in wanted && k !in skip && k !in left ==> Agree(handle[k], wanted[k])
      decreases left
    {
      var name :| name in left;
      PartlyNext(handle, wanted, left, skip, name);
      if name !in skip {
        var child := wanted[name];
        if name in after && after[name].Dir? != child.Dir? {
          assert !Agree(handle[name], child);
          return after, false;
        }
        if child.Dir? {
          var sub, fine := WriteDir(if name in after then after[name].dir else map[], child, {});
          assert Mirrored(if name in after then after[name].dir else map[], child.dir, {}) == child.dir;
          after := after[name := Dir(sub)];
          if !fine {
            assert name in handle && !Agree(handle[name], child);
            return after, false;
          }
        } else {
          after := after[name := child];
        }
      }
      left := left - {name};
    }
    ok := true;
  }

  /** Half-way through the second loop: the names in `left` are still as they were. */
  function Partly(handle: Tree, wanted: Tree, left: set<Name>, skip: set<Name>): Tree
    requires left <= wanted.Keys
  {
    map k | k in handle.Keys + wanted.Keys
        && (if k in skip then k in handle else k in wanted && (k in handle || k !in left))
      :: if k in skip || k in left then handle[k] else wanted[k]
  }

  lemma PartlyNext(handle: Tree, wanted: Tree, left: set<Name>, skip: set<Name>, name: Name)
    requires left <= wanted.Keys && name in left
    ensures var now, next := Partly(handle, wanted, left, skip), Partly(handle, wanted, left - {name}, skip);
      next == if name in skip then now else now[name := wanted[name]]
  {
  }

  /** The first loop: whatever the tree has dropped goes, except what is reserved. */
  method Prune(handle: Tree, wanted: Tree, skip: set<Name>) returns (after: Tree)
    ensures after == map k | k in handle && (k in skip || k in wanted) :: handle[k]
  {
    after := handle;
    var present := handle.Keys;
    while present != {}
      invariant present <= handle.Keys
      invariant after == map k | k in handle && (k in present || k in skip || k in wanted) :: handle[k]
      decreases present
    {
      var name :| name in present;
      present := present - {name};
      if name !in skip && name !in wanted { after := after - {name}; }
    }
  }

  /** `readDir`: a fresh copy of every entry. */
  method ReadDir(handle: Entry, skip: set<Name>) returns (entry: Tree)
    requires handle.Dir?
    ensures entry == Visible(handle.dir, skip)
    decreases handle
  {
    entry := map[];
    var left := handle.dir.Keys;
    while left != {}
      invariant left <= handle.dir.Keys
      invariant entry == Visible(map k | k in handle.dir && k !in left :: handle.dir[k], skip)
      decreases left
    {
      var name :| name in left;
      left := left - {name};
      if name !in skip {
        if handle.dir[name].Dir? {
          var sub := ReadDir(handle.dir[name], {});
          assert Visible(handle.dir[name].dir, {}) == handle.dir[name].dir;
          entry := entry[name := Dir(sub)];
        } else {
          entry := entry[name := File(handle.dir[name].source)];
        }
      }
    }
    assert (map k | k in handle.dir && k !in left :: handle.dir[k]) == handle.dir;
  }

  method LoadTree(store: Tree) returns (tree: Tree)
    ensures tree == Visible(store, RESERVED)
  {
    tree := ReadDir(Dir(store), RESERVED);
  }

  method FlushTree(store: Tree, tree: Tree) returns (after: Tree, ok: bool)
    ensures ok <==> Compatible(store, Dir(tree), RESERVED)
    ensures ok ==> after == Mirrored(store, tree, RESERVED)
    ensures HOST in after <==> HOST in store
    ensures HOST in store ==> after[HOST] == store[HOST]
  {
    after, ok := WriteDir(store, Dir(tree), RESERVED);
  }

  // ---- what they promise together -----------------------------------------

  /**
    What is loaded after a flush is the engine's tree outside the reserved names, all of it when it holds none;
    the host's entries are as they were; and a tree can be flushed again over itself.
  */
  lemma FlushThenLoad(store: Tree, tree: Tree)
    ensures var after := Mirrored(store, tree, RESERVED);
      && Visible(after, RESERVED) == Visible(tree, RESERVED)
      && (HOST !in tree ==> Visible(after, RESERVED) == tree)
      && (HOST in after <==> HOST in store) && (HOST in store ==> after[HOST] == store[HOST])
      && Compatible(after, Dir(tree), RESERVED)
  {
    var after := Mirrored(store, tree, RESERVED);
    assert Visible(after, RESERVED) == Visible(tree, RESERVED);
    forall k | k in tree && k in after && k !in RESERVED ensures Agree(after[k], tree[k]) {
      AgreesWithItself(tree[k]);
    }
  }

  /** Flushing what was just loaded succeeds and writes what is there already. */
  lemma LoadThenFlush(store: Tree)
    ensures Compatible(store, Dir(Visible(store, RESERVED)), RESERVED)
    ensures Mirrored(store, Visible(store, RESERVED), RESERVED) == store
  {
    var tree := Visible(store, RESERVED);
    forall k | k in tree && k in store && k !in RESERVED ensures Agree(store[k], tree[k]) {
      AgreesWithItself(store[k]);
    }
    assert Mirrored(store, tree, RESERVED) == store;
  }

  lemma {:induction false} AgreesWithItself(e: Entry)
    ensures Agree(e, e)
  {
    if e.Dir? {
      forall k | k in e.dir ensures Agree(e.dir[k], e.dir[k]) { AgreesWithItself(e.dir[k]); }
    }
  }

  // ---- when a flush fails -------------------------------------------------

  function At(e: Entry, path: seq<Name>): Option<Entry> {
    if path == [] then Some(e)
    else if e.Dir? && path[0] in e.dir then At(e.dir[path[0]], path[1..]) else None
  }

  /** A path that leads to a file on one side and to a directory on the other. */
  predicate Clashes(a: Entry, b: Entry, path: seq<Name>) {
    At(a, path).Some? && At(b, path).Some? && At(a, path).value.Dir? != At(b, path).value.Dir?
  }

  lemma {:induction false} AgreeWhenNoClash(a: Entry, b: Entry)
    ensures Agree(a, b) <==> forall p :: !Clashes(a, b, p)
    decreases b
  {
    if a.Dir? != b.Dir? {
      assert Clashes(a, b, []);
    } else if b.Dir? {
      CompatibleWhenNoClash(a.dir, b, {});
      assert Dir(a.dir) == a;
      assert !Clashes(a, b, []);
    } else {
      forall p ensures !Clashes(a, b, p) { assert p != [] ==> At(b, p).None?; }
    }
  }

  /** A flush succeeds exactly when no path outside the reserved names clashes. */
  lemma {:induction false} CompatibleWhenNoClash(store: Tree, tree: Entry, skip: set<Name>)
    requires tree.Dir?
    ensures Compatible(store, tree, skip) <==>
      forall p :: p != [] && p[0] !in skip ==> !Clashes(Dir(store), tree, p)
    decreases tree, 0
  {
    if Compatible(store, tree, skip) {
      forall p | p != [] && p[0] !in skip ensures !Clashes(Dir(store), tree, p) {
        if p[0] in store && p[0] in tree.dir {
          AgreeWhenNoClash(store[p[0]], tree.dir[p[0]]);
          assert !Clashes(store[p[0]], tree.dir[p[0]], p[1..]);
        }
      }
    } else {
      var k :| k in tree.dir && k in store && k !in skip && !Agree(store[k], tree.dir[k]);
      AgreeWhenNoClash(store[k], tree.dir[k]);
      var q :| Clashes(store[k], tree.dir[k], q);
      assert ([k] + q)[1..] == q;
      assert Clashes(Dir(store), tree, [k] + q);
    }
  }
}
