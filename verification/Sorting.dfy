/**
  Strings ordered as Go's `sort.Strings` and JavaScript's default sort order them: by code unit, first
  difference first. `SortedKeys` is the one strictly increasing listing of a finite set of names.
*/
module Sorting {
  import opened Basics

  predicate Before(a: seq<int>, b: seq<int>) {
    if b == [] then false
    else if a == [] then true
    else a[0] < b[0] || (a[0] == b[0] && Before(a[1..], b[1..]))
  }

  lemma {:induction false} BeforeTotal(a: seq<int>, b: seq<int>)
    ensures a == b || Before(a, b) || Before(b, a)
  {
    if a != [] && b != [] && a[0] == b[0] {
      BeforeTotal(a[1..], b[1..]);
      assert a == [a[0]] + a[1..] && b == [b[0]] + b[1..];
    }
  }

  lemma {:induction false} BeforeTransitive(a: seq<int>, b: seq<int>, c: seq<int>)
    requires Before(a, b) && Before(b, c)
    ensures Before(a, c)
  {
    if a != [] && a[0] == b[0] == c[0] {
      BeforeTransitive(a[1..], b[1..], c[1..]);
    }
  }

  lemma {:induction false} BeforeIrreflexive(a: seq<int>)
    ensures !Before(a, a)
  {
    if a != [] { BeforeIrreflexive(a[1..]); }
  }

  ghost predicate IsLeast(m: seq<int>, s: set<seq<int>>) {
    m in s && forall k :: k in s && k != m ==> Before(m, k)
  }

  lemma {:induction false} LeastExists(s: set<seq<int>>) returns (m: seq<int>)
    requires s != {}
    ensures IsLeast(m, s)
    decreases s
  {
    var x :| x in s;
    if s == {x} {
      m := x;
    } else {
      var y := LeastExists(s - {x});
      BeforeTotal(x, y);
      if Before(x, y) {
        m := x;
        forall k | k in s && k != x ensures Before(x, k) {
          if k != y { BeforeTransitive(x, y, k); }
        }
      } else {
        m := y;
      }
    }
  }

  ghost predicate StrictlySorted(r: seq<seq<int>>) {
    forall i, j :: 0 <= i < j < |r| ==> Before(r[i], r[j])
  }

  /** Every element of `s`, once each, in increasing order. */
  ghost function SortedKeys(s: set<seq<int>>): (r: seq<seq<int>>)
    ensures forall k :: k in r <==> k in s
    ensures forall i :: 0 <= i < |r| ==> r[i] in s
    ensures StrictlySorted(r)
  {
    if s == {} then []
    else
      assert exists m :: IsLeast(m, s) by { var m := LeastExists(s); }
      var m :| IsLeast(m, s);
      var rest := SortedKeys(s - {m});
      [m] + rest
  }

  lemma SortedDistinct(r: seq<seq<int>>)
    requires StrictlySorted(r)
    ensures forall i, j :: 0 <= i < j < |r| ==> r[i] != r[j]
  {
    forall i, j | 0 <= i < j < |r| ensures r[i] != r[j] {
      BeforeIrreflexive(r[i]);
    }
  }

  /** Names in byte order, each once. */
  ghost function SortedNames(names: set<Bytes>): (r: seq<Bytes>)
    ensures r == SortedKeys(names)
    ensures forall k :: k in r <==> k in names
    ensures forall i, j :: 0 <= i < j < |r| ==> r[i] != r[j]
  {
    var keys := SortedKeys(names);
    SortedDistinct(keys);
    var r := seq(|keys|, i requires 0 <= i < |keys| => AsName(keys[i], names));
    assert forall i :: 0 <= i < |r| ==> r[i] == keys[i];
    assert r == keys;
    r
  }

  ghost function AsName(k: seq<int>, names: set<Bytes>): (n: Bytes)
    requires k in names
    ensures n == k
  {
    assert exists n: Bytes :: n in names && n == k;
    var n: Bytes :| n in names && n == k;
    n
  }

  /** A strictly increasing list is determined by its elements, so the sorted order is the only one. */
  lemma {:induction false} SortedUnique(a: seq<seq<int>>, b: seq<seq<int>>)
    requires StrictlySorted(a) && StrictlySorted(b)
    requires forall k :: k in a <==> k in b
    ensures a == b
  {
    assert a == [] <==> b == [] by {
      if a != [] { assert a[0] in b; }
      if b != [] { assert b[0] in a; }
    }
    if a != [] {
      SortedDistinct(a);
      SortedDistinct(b);
      FirstIsLeast(a, b);
      forall k ensures k in a[1..] <==> k in b[1..] {
        assert k in a <==> k == a[0] || k in a[1..];
        assert k in b <==> k == b[0] || k in b[1..];
      }
      SortedUnique(a[1..], b[1..]);
      assert a == [a[0]] + a[1..] && b == [b[0]] + b[1..];
    }
  }

  lemma FirstIsLeast(a: seq<seq<int>>, b: seq<seq<int>>)
    requires a != [] && b != []
    requires StrictlySorted(a) && StrictlySorted(b)
    requires forall k :: k in a <==> k in b
    ensures a[0] == b[0]
  {
    if a[0] != b[0] {
      assert a[0] in b && b[0] in a;
      var i :| 0 <= i < |b| && b[i] == a[0];
      var j :| 0 <= j < |a| && a[j] == b[0];
      assert Before(b[0], b[i]) && Before(a[0], a[j]);
      BeforeTransitive(a[0], b[0], a[0]);
      BeforeIrreflexive(a[0]);
    }
  }

  /** Where `k` belongs in a sorted list. */
  method Position(sorted: seq<seq<int>>, k: seq<int>) returns (i: nat)
    requires StrictlySorted(sorted) && k !in sorted
    ensures i <= |sorted|
    ensures forall j :: 0 <= j < i ==> Before(sorted[j], k)
    ensures forall j :: i <= j < |sorted| ==> Before(k, sorted[j])
  {
    i := 0;
    while i < |sorted| && Before(sorted[i], k)
      invariant i <= |sorted|
      invariant forall j :: 0 <= j < i ==> Before(sorted[j], k)
    {
      i := i + 1;
    }
    if i < |sorted| {
      BeforeTotal(sorted[i], k);
      forall j | i <= j < |sorted| ensures Before(k, sorted[j]) {
        if j > i { BeforeTransitive(k, sorted[i], sorted[j]); }
      }
    }
  }

  /** `sortedKeys`: the keys in whatever order the map yields them, then sorted. The order taken does not show. */
  method CollectSorted(names: set<seq<int>>) returns (r: seq<seq<int>>)
    ensures r == SortedKeys(names)
  {
    r := [];
    var left := names;
    while left != {}
      invariant left <= names && StrictlySorted(r)
      invariant forall k :: k in r <==> k in names - left
      decreases left
    {
      var k :| k in left;
      var i := Position(r, k);
      Inserted(r, i, k);
      r := r[..i] + [k] + r[i..];
      left := left - {k};
    }
    SortedUnique(r, SortedKeys(names));
  }
}
