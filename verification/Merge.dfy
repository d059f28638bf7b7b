/**
  Importing in MERGE mode: a bundle's files are written over what the destination holds, and everything else there
  stays. It succeeds exactly when no file stands where the bundle needs a directory, and no directory where it holds a
  file.
*/
module Merge {
  import opened Basics
  import opened Bundle
  import opened FileTree
  import opened Paths

  /** A file can be written here: no file on the way, and no directory at the end. */
  ghost predicate Free(n: Node, q: Place) { (forall k :: 0 <= k < |q| ==> !IsFileAt(n, q[..k])) && !IsDirAt(n, q) }

  // ---- one file -----------------------------------------------------------

  lemma FreeBelow(n: Node, q: Place)
    requires n.Dir? && |q| > 1
    ensures Free(n, q) <==> Child(n, q[0]).Dir? && Free(Child(n, q[0]), q[1..])
  {
    var child, tail := Child(n, q[0]), q[1..];
    forall k | 0 < k < |q| ensures IsFileAt(n, q[..k]) <==> IsFileAt(child, tail[..k - 1]) {
      assert q[..k][1..] == tail[..k - 1];
      if q[0] !in n.entries && k > 1 { assert Lookup(child, tail[..k - 1]).None?; }
    }
    assert q[..0] == [] && tail[..0] == [];
    if Free(n, q) {
      assert !IsFileAt(n, q[..1]);
      forall k | 0 <= k < |tail| ensures !IsFileAt(child, tail[..k]) { assert !IsFileAt(n, q[..k + 1]); }
    }
    if child.Dir? && Free(child, tail) {
      forall k | 0 <= k < |q| ensures !IsFileAt(n, q[..k]) {
        if k > 0 { assert !IsFileAt(child, tail[..k - 1]); }
      }
    }
  }

  lemma {:induction false} WriteExactly(n: Node, q: Place, c: Bytes)
    requires n.Dir? && q != []
    ensures Write(n, q, c).Some? <==> Free(n, q)
    ensures Write(n, q, c).Some? ==> Lookup(Write(n, q, c).value, q) == Some(File(c))
    decreases |q|
  {
    if |q| == 1 {
      assert q[1..] == [];
      assert Lookup(n, q) == if q[0] in n.entries then Lookup(n.entries[q[0]], []) else None;
      forall k | 0 <= k < |q| ensures !IsFileAt(n, q[..k]) { assert q[..k] == []; }
    } else {
      FreeBelow(n, q);
      if Child(n, q[0]).Dir? { WriteExactly(Child(n, q[0]), q[1..], c); }
    }
  }

  predicate Unrelated(p: Place, q: Place) { !Prefix(p, q) && !Prefix(q, p) }

  /** Writing a file makes no directory of a place beside its own, and takes none away. */
  lemma {:induction false} WriteKeepsDirs(n: Node, q: Place, c: Bytes, p: Place)
    requires n.Dir? && q != [] && Write(n, q, c).Some? && Unrelated(p, q)
    ensures IsDirAt(Write(n, q, c).value, p) <==> IsDirAt(n, p)
    decreases |q|
  {
    if p != [] && p[0] == q[0] {
      PrefixTail(p, q);
      PrefixTail(q, p);
      if |q| > 1 { WriteKeepsDirs(Child(n, q[0]), q[1..], c, p[1..]); }
    }
  }

  lemma WriteKeepsFree(n: Node, q: Place, c: Bytes, p: Place)
    requires n.Dir? && q != [] && Write(n, q, c).Some? && Unrelated(p, q)
    ensures Free(Write(n, q, c).value, p) <==> Free(n, p)
  {
    var m := Write(n, q, c).value;
    WriteKeepsDirs(n, q, c, p);
    forall k | 0 <= k < |p| ensures IsFileAt(m, p[..k]) <==> IsFileAt(n, p[..k]) {
      assert p[..k] != q;
      if IsFileAt(m, p[..k]) { WriteElsewhere(n, q, c, p[..k], Lookup(m, p[..k]).value.content); }
      if IsFileAt(n, p[..k]) { WriteElsewhere(n, q, c, p[..k], Lookup(n, p[..k]).value.content); }
    }
  }

  // ---- many files ---------------------------------------------------------

  ghost predicate Apart(items: seq<Item>) {
    && (forall i :: 0 <= i < |items| ==> items[i].0 != [])
    && forall i, j :: 0 <= i < j < |items| ==> Unrelated(items[i].0, items[j].0)
  }

  /** Files in places apart can all be written exactly when each could be alone. */
  lemma {:induction false} WriteAllExactly(n: Node, items: seq<Item>)
    requires n.Dir? && Apart(items)
    ensures WriteAll(n, items).Some? <==> forall i :: 0 <= i < |items| ==> Free(n, items[i].0)
    decreases |items|
  {
    if items != [] {
      var (q, c) := items[0];
      var more := items[1..];
      WriteExactly(n, q, c);
      if Free(n, q) {
        var m := Write(n, q, c).value;
        WriteAllExactly(m, more);
        forall i | 0 <= i < |more| ensures Free(m, more[i].0) <==> Free(n, items[i + 1].0) {
          assert more[i] == items[i + 1] && Unrelated(items[0].0, items[i + 1].0);
          WriteKeepsFree(n, q, c, more[i].0);
        }
        assert forall i :: 0 < i < |items| ==> items[i] == more[i - 1];
      }
    }
  }

  lemma OnlyOnce(items: seq<Item>, e: Bytes)
    requires Apart(items) && items != []
    ensures (items[0].0, e) !in items[1..]
  {
    forall i | 0 < i < |items| ensures items[i].0 != items[0].0 { assert Unrelated(items[0].0, items[i].0); }
  }

  /** Afterwards each place holds what was written there, or else the file that it held before. */
  lemma {:induction false} WriteAllLeaves(n: Node, items: seq<Item>, q: Place, c: Bytes)
    requires n.Dir? && Apart(items) && WriteAll(n, items).Some?
    ensures Lookup(WriteAll(n, items).value, q) == Some(File(c)) <==>
      (q, c) in items || ((forall d :: (q, d) !in items) && Lookup(n, q) == Some(File(c)))
    decreases |items|
  {
    if items != [] {
      var (p, d) := items[0];
      var more := items[1..];
      var m := Write(n, p, d).value;
      assert items == [items[0]] + more;
      WriteExactly(n, p, d);
      WriteAllLeaves(m, more, q, c);
      if q != p { WriteElsewhere(n, p, d, q, c); } else { forall e ensures (q, e) !in more { OnlyOnce(items, e); } }
    }
  }

  // ---- importing ----------------------------------------------------------

  lemma FilesApart(n: Node, p: Place, q: Place)
    requires IsFileAt(n, p) && IsFileAt(n, q) && p != q
    ensures Unrelated(p, q)
  {
    if Prefix(p, q) { NothingBelow(n, p, q); }
    if Prefix(q, p) { NothingBelow(n, q, p); }
  }

  lemma NothingBelow(n: Node, p: Place, q: Place)
    requires IsFileAt(n, p) && Prefix(p, q) && p != q
    ensures Lookup(n, q).None?
  {
    LookupAppend(n, p, q[|p|..]);
    assert p + q[|p|..] == q;
  }

  lemma UnrelatedBelow(to: Place, p: Place, q: Place)
    ensures Unrelated(to + p, to + q) <==> Unrelated(p, q)
  {
    PrefixBelow(to, p, q);
    PrefixBelow(to, q, p);
  }

  lemma PrefixBelow(to: Place, p: Place, q: Place)
    ensures Prefix(to + p, to + q) <==> Prefix(p, q)
  {
    if |p| <= |q| {
      assert (to + q)[..|to + p|] == to + q[..|p|];
      assert (to + q[..|p|])[|to|..] == q[..|p|] && (to + p)[|to|..] == p;
    }
  }

  /** The files of a tree, below a destination, are in places apart. */
  lemma TreeIsApart(tree: Node, to: Place)
    requires tree.Dir?
    ensures Apart(At(to, Items(tree)))
  {
    var items := Items(tree);
    NoEmptyPlace(tree);
    ItemsDistinct(tree);
    forall i | 0 <= i < |items| ensures At(to, items)[i].0 != [] { AtItems(to, items, i); }
    forall i, j | 0 <= i < j < |items| ensures Unrelated(At(to, items)[i].0, At(to, items)[j].0) {
      AtItems(to, items, i);
      AtItems(to, items, j);
      ItemsAreFiles(tree, items[i].0, items[i].1);
      ItemsAreFiles(tree, items[j].0, items[j].1);
      assert (items[i].0, items[i].1) in items && (items[j].0, items[j].1) in items;
      FilesApart(tree, items[i].0, items[j].0);
      UnrelatedBelow(to, items[i].0, items[j].0);
    }
  }

  lemma ItemsBelow(tree: Node, to: Place, p: Place, c: Bytes)
    ensures (to + p, c) in At(to, Items(tree)) <==> Lookup(tree, p) == Some(File(c))
  {
    var items := Items(tree);
    ItemsAreFiles(tree, p, c);
    if (to + p, c) in At(to, items) {
      var i :| 0 <= i < |items| && At(to, items)[i] == (to + p, c);
      AtItems(to, items, i);
      assert (to + items[i].0)[|to|..] == items[i].0 && (to + p)[|to|..] == p;
      assert items[i] == (p, c);
    }
    if (p, c) in items {
      var i :| 0 <= i < |items| && items[i] == (p, c);
      AtItems(to, items, i);
    }
  }

  /**
    Merging a bundle, an exported one or one written by hand, into a destination succeeds exactly when each of its files
    can be written there: no file stands where it needs a directory, and no directory where it stands.
  */
  lemma MergeSucceeds(bundle: Bytes, tree: Node, fs: Node, to: Place)
    requires Decode(bundle) == Some(tree) && Proper(tree) && tree.Dir? && fs.Dir?
    ensures Import(fs, to, bundle, false).Some? <==> forall p :: IsFileAt(tree, p) ==> Free(fs, to + p)
  {
    ImportWrites(bundle, tree, fs, to, false);
    TreeIsApart(tree, to);
    WriteAllExactly(fs, At(to, Items(tree)));
    if forall p :: IsFileAt(tree, p) ==> Free(fs, to + p) { FreeForItems(tree, fs, to); }
    if forall i :: 0 <= i < |Items(tree)| ==> Free(fs, At(to, Items(tree))[i].0) { FreeForFiles(tree, fs, to); }
  }

  lemma FreeForItems(tree: Node, fs: Node, to: Place)
    requires forall p :: IsFileAt(tree, p) ==> Free(fs, to + p)
    ensures forall i :: 0 <= i < |Items(tree)| ==> Free(fs, At(to, Items(tree))[i].0)
  {
    var items := Items(tree);
    forall i | 0 <= i < |items| ensures Free(fs, At(to, items)[i].0) {
      AtItems(to, items, i);
      ItemsAreFiles(tree, items[i].0, items[i].1);
      assert (items[i].0, items[i].1) in items;
      assert IsFileAt(tree, items[i].0);
    }
  }

  lemma FreeForFiles(tree: Node, fs: Node, to: Place)
    requires forall i :: 0 <= i < |Items(tree)| ==> Free(fs, At(to, Items(tree))[i].0)
    ensures forall p :: IsFileAt(tree, p) ==> Free(fs, to + p)
  {
    forall p | IsFileAt(tree, p) ensures Free(fs, to + p) {
      ItemsBelow(tree, to, p, Lookup(tree, p).value.content);
      var i :| 0 <= i < |Items(tree)| && At(to, Items(tree))[i].0 == to + p;
      assert Free(fs, At(to, Items(tree))[i].0);
    }
  }

  /** A merge that succeeds leaves the bundle's files in their places, and every other file of the destination. */
  lemma MergedFiles(bundle: Bytes, tree: Node, fs: Node, to: Place, p: Place, c: Bytes)
    requires Decode(bundle) == Some(tree) && Proper(tree) && tree.Dir? && fs.Dir? && Import(fs, to, bundle, false).Some?
    ensures Lookup(Import(fs, to, bundle, false).value, to + p) == Some(File(c)) <==>
      Lookup(tree, p) == Some(File(c)) || (!IsFileAt(tree, p) && Lookup(fs, to + p) == Some(File(c)))
  {
    var items := At(to, Items(tree));
    ImportWrites(bundle, tree, fs, to, false);
    TreeIsApart(tree, to);
    WriteAllLeaves(fs, items, to + p, c);
    forall d ensures (to + p, d) in items <==> Lookup(tree, p) == Some(File(d)) { ItemsBelow(tree, to, p, d); }
  }

  // ---- any bundle at all --------------------------------------------------

  predicate AllInside(files: seq<(Bytes, Bytes)>) { forall i :: 0 <= i < |files| ==> Inside(files[i].0).Some? }

  /** The files with the places that their paths lead to below the destination. */
  function Placed(to: Place, files: seq<(Bytes, Bytes)>): seq<Item>
    requires AllInside(files)
  {
    if files == [] then [] else [(to + Inside(files[0].0).value, files[0].1)] + Placed(to, files[1..])
  }

  lemma {:induction false} WritePathsExactly(fs: Node, to: Place, files: seq<(Bytes, Bytes)>)
    requires fs.Dir?
    ensures WritePaths(fs, to, files) == if AllInside(files) then WriteAll(fs, Placed(to, files)) else None
    decreases |files|
  {
    if files != [] && Inside(files[0].0).Some? {
      var next := Write(fs, to + Inside(files[0].0).value, files[0].1);
      assert AllInside(files) <==> AllInside(files[1..]) by {
        if AllInside(files[1..]) {
          forall i | 0 <= i < |files| ensures Inside(files[i].0).Some? { if i > 0 { assert files[1..][i - 1] == files[i]; } }
        }
      }
      if next.Some? { WritePathsExactly(next.value, to, files[1..]); }
    }
  }

  /**
    Whatever the names in a bundle are: one path that is refused refuses the import; otherwise every file is written where
    its path leads, in the order of the walk. A bundle that is a single file writes none.
  */
  lemma ImportExactly(bundle: Bytes, tree: Node, fs: Node, to: Place, replace: bool)
    requires Decode(bundle) == Some(tree) && fs.Dir?
    ensures var files, start := Visited(tree, []), if replace then RemoveTree(fs, to) else fs;
      && Import(fs, to, bundle, replace) == (if AllInside(files) then WriteAll(start, Placed(to, files)) else None)
      && (tree.File? ==> Import(fs, to, bundle, replace) == Some(start))
  {
    WritePathsExactly(if replace then RemoveTree(fs, to) else fs, to, Visited(tree, []));
  }

  lemma {:induction false} SoFarElsewhere(fs: Node, at: Place, files: seq<(Bytes, Bytes)>, q: Place, c: Bytes)
    requires fs.Dir? && forall i :: 0 <= i < |files| && Inside(files[i].0).Some? ==> at + Inside(files[i].0).value != q
    ensures Lookup(WrittenSoFar(fs, at, files), q) == Some(File(c)) <==> Lookup(fs, q) == Some(File(c))
    decreases |files|
  {
    if files != [] && Inside(files[0].0).Some? {
      var next := Write(fs, at + Inside(files[0].0).value, files[0].1);
      if next.Some? {
        WriteElsewhere(fs, at + Inside(files[0].0).value, files[0].1, q, c);
        SoFarElsewhere(next.value, at, files[1..], q, c);
      }
    }
  }

  /** A merge deletes nothing, even when it stops half-way: a file that the bundle does not hold stays as it was. */
  lemma MergeDeletesNothing(bundle: Bytes, tree: Node, fs: Node, to: Place, p: Place, c: Bytes)
    requires Decode(bundle) == Some(tree) && Proper(tree) && tree.Dir? && fs.Dir? && !IsFileAt(tree, p)
    ensures Lookup(ImportLeaves(fs, to, bundle, false), to + p) == Some(File(c)) <==> Lookup(fs, to + p) == Some(File(c))
  {
    var items := Items(tree);
    NoEmptyPlace(tree);
    ProperJoinable(tree);
    WalkSpells(tree, []);
    assert SpellBelow([], items) == Spell(items) == Visited(tree, []);
    forall i | 0 <= i < |items| && Inside(Spell(items)[i].0).Some? ensures to + Inside(Spell(items)[i].0).value != to + p {
      ItemsAreFiles(tree, items[i].0, items[i].1);
      assert (items[i].0, items[i].1) in items;
      ProperPlace(tree, items[i].0);
      NamesAccepted(items[i].0);
      assert (to + items[i].0)[|to|..] == items[i].0 && (to + p)[|to|..] == p;
    }
    SoFarElsewhere(fs, to, Spell(items), to + p, c);
  }
}
