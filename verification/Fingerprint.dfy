/**
  The digest by which the host decides whether to flush: FNV-1a over a stream of names, lengths and bytes. What two
  equal digests do and do not say about two trees.
*/
module Fingerprint {
  import opened Basics
  import opened Bits
  import opened Opfs
  import Decimal
  import Sorting

  // ---- FNV-1a -------------------------------------------------------------

  const OFFSET: Word := 0x811c9dc5

  lemma XorIsWord(h: Word, b: Byte)
    ensures 0 <= Xor(h, b) < 0x1_0000_0000
  {
    assert Pow2(8) == 0x100;
    assert Pow2(16) == 0x1_0000;
    assert Pow2(24) == 0x100_0000;
    assert Pow2(32) == 0x1_0000_0000;
    XorBounded(h, b, 32);
  }

  /** `Math.imul(_, 0x01000193) >>> 0` */
  function Times(x: int): Word { x * 0x01000193 % 0x1_0000_0000 }

  /** `h ^= byte`, then the low 32 bits of the product. */
  function Mix(h: Word, b: Byte): Word { Times(Xor(h, b)) }

  function Digest(h: Word, s: Bytes): Word
    decreases |s|
  {
    if s == [] then h else Digest(Mix(h, s[0]), s[1..])
  }

  /** The multiplier is odd, so it has an inverse modulo 2^32. */
  lemma TimesUndone(x: Word)
    ensures Times(x) * 899433627 % 0x1_0000_0000 == x
  {
    var q := x * 0x01000193 / 0x1_0000_0000;
    assert Times(x) * 899433627 == x + 0x1_0000_0000 * (3513497 * x - 899433627 * q);
  }

  /** A step loses nothing: neither where it came from nor which byte it was given. */
  lemma MixInjective(h: Word, g: Word, b: Byte, c: Byte)
    requires Mix(h, b) == Mix(g, c)
    ensures h == g <==> b == c
  {
    XorIsWord(h, b);
    XorIsWord(g, c);
    TimesUndone(Xor(h, b));
    TimesUndone(Xor(g, c));
    XorTwice(h, b);
    XorTwice(g, c);
    XorCommutes(h, b);
    XorCommutes(g, c);
    XorTwice(b, h);
    XorTwice(c, g);
  }

  lemma {:induction false} DigestInjective(h: Word, g: Word, s: Bytes)
    requires Digest(h, s) == Digest(g, s)
    ensures h == g
    decreases |s|
  {
    if s != [] {
      DigestInjective(Mix(h, s[0]), Mix(g, s[0]), s[1..]);
      MixInjective(h, g, s[0], s[0]);
    }
  }

  lemma {:induction false} DigestAppend(h: Word, a: Bytes, b: Bytes)
    ensures Digest(h, a + b) == Digest(Digest(h, a), b)
    decreases |a|
  {
    if a == [] {
      assert a + b == b;
    } else {
      assert (a + b)[1..] == a[1..] + b;
      DigestAppend(Mix(h, a[0]), a[1..], b);
    }
  }

  /** Streams that differ in one byte have different digests. */
  lemma OneByteShows(h: Word, front: Bytes, b: Byte, c: Byte, rest: Bytes)
    requires b != c
    ensures Digest(h, front + ([b] + rest)) != Digest(h, front + ([c] + rest))
  {
    var g := Digest(h, front);
    DigestAppend(h, front, [b] + rest);
    DigestAppend(h, front, [c] + rest);
    assert ([b] + rest)[1..] == rest && ([c] + rest)[1..] == rest;
    if Digest(Mix(g, b), rest) == Digest(Mix(g, c), rest) {
      DigestInjective(Mix(g, b), Mix(g, c), rest);
      MixInjective(g, g, b, c);
    }
  }

  // ---- the stream ---------------------------------------------------------

  /** `mixString`: the low byte of every code unit, and a zero. */
  function LowBytes(s: Name): Bytes {
    seq(|s|, i requires 0 <= i < |s| => s[i] % 256)
  }

  function Text(s: Name): Bytes { LowBytes(s) + [0] }

  function Units(s: string): Name {
    seq(|s|, i requires 0 <= i < |s| => s[i] as int)
  }

  function LengthText(n: nat): Bytes { Text(Units(Decimal.Print(n))) }

  /** Everything the walk mixes, in order. */
  ghost function Stream(e: Entry): Bytes
    decreases e, 1, 0
  {
    match e
    case File(source) => LengthText(|source|) + source
    case Dir(dir) => StreamFrom(e, Sorting.SortedKeys(dir.Keys))
  }

  ghost function StreamFrom(e: Entry, names: seq<Name>): Bytes
    requires e.Dir? && forall k :: k in names ==> k in e.dir
    decreases e, 0, |names|
  {
    if names == [] then []
    else Text(names[0]) + (Stream(e.dir[names[0]]) + StreamFrom(e, names[1..]))
  }

  ghost function TreeDigest(e: Entry): Word { Digest(OFFSET, Stream(e)) }

  // ---- the walk -----------------------------------------------------------

  method MixBytes(h: Word, s: Bytes) returns (g: Word)
    ensures g == Digest(h, s)
  {
    g := h;
    var i := 0;
    assert s[0..] == s;
    while i < |s|
      invariant 0 <= i <= |s|
      invariant Digest(g, s[i..]) == Digest(h, s)
    {
      assert s[i..][1..] == s[i + 1..];
      g := Mix(g, s[i]);
      i := i + 1;
    }
  }

  method MixString(h: Word, s: Name) returns (g: Word)
    ensures g == Digest(h, Text(s))
  {
    g := MixBytes(h, LowBytes(s));
    DigestAppend(h, LowBytes(s), [0]);
    g := MixBytes(g, [0]);
  }

  method WalkEntry(h: Word, e: Entry) returns (g: Word)
    ensures g == Digest(h, Stream(e))
    decreases e
  {
    match e
    case File(source) =>
      DigestAppend(h, LengthText(|source|), source);
      g := MixString(h, Units(Decimal.Print(|source|)));
      g := MixBytes(g, source);
    case Dir(dir) =>
      var names := Sorting.CollectSorted(dir.Keys);
      g := h;
      var i := 0;
      assert names[0..] == names;
      while i < |names|
        invariant 0 <= i <= |names|
        invariant Digest(g, StreamFrom(e, names[i..])) == Digest(h, Stream(e))
      {
        StreamStep(g, e, names, i);
        g := MixString(g, names[i]);
        g := WalkEntry(g, dir[names[i]]);
        i := i + 1;
      }
  }

  lemma StreamStep(g: Word, e: Entry, names: seq<Name>, i: nat)
    requires e.Dir? && (forall k :: k in names ==> k in e.dir) && i < |names|
    ensures Digest(g, StreamFrom(e, names[i..]))
      == Digest(Digest(Digest(g, Text(names[i])), Stream(e.dir[names[i]])), StreamFrom(e, names[i + 1..]))
  {
    assert names[i..][1..] == names[i + 1..];
    var child, rest := Stream(e.dir[names[i]]), StreamFrom(e, names[i + 1..]);
    DigestAppend(g, Text(names[i]), child + rest);
    DigestAppend(Digest(g, Text(names[i])), child, rest);
  }

  /** `treeFingerprint`, before it is printed in base 16. */
  method TreeFingerprint(e: Entry) returns (h: Word)
    ensures h == TreeDigest(e)
  {
    h := WalkEntry(OFFSET, e);
  }

  // ---- an edit of one byte ------------------------------------------------

  /** The same tree but for one byte of one file. */
  ghost predicate OneByteApart(a: Entry, b: Entry)
    decreases a
  {
    match (a, b)
    case (File(x), File(y)) =>
      |x| == |y| && exists i :: 0 <= i < |x| && x[i] != y[i] && forall j :: 0 <= j < |x| && j != i ==> x[j] == y[j]
    case (Dir(x), Dir(y)) =>
      x.Keys == y.Keys && exists k :: k in x && OneByteApart(x[k], y[k]) && forall j :: j in x && j != k ==> x[j] == y[j]
    case _ => false
  }

  ghost predicate OneApart(s: Bytes, t: Bytes) {
    exists front: Bytes, b: Byte, c: Byte, rest: Bytes ::
      b != c && s == front + ([b] + rest) && t == front + ([c] + rest)
  }

  lemma Surrounded(x: Bytes, s: Bytes, t: Bytes, y: Bytes)
    requires OneApart(s, t)
    ensures OneApart(x + (s + y), x + (t + y))
  {
    var front: Bytes, b: Byte, c: Byte, rest: Bytes :|
      b != c && s == front + ([b] + rest) && t == front + ([c] + rest);
    Widen(x, front, b, rest, y);
    Widen(x, front, c, rest, y);
  }

  lemma Widen(x: Bytes, front: Bytes, b: Byte, rest: Bytes, y: Bytes)
    ensures x + (front + ([b] + rest) + y) == (x + front) + ([b] + (rest + y))
  {
  }

  lemma BytesApart(x: Bytes, y: Bytes)
    requires OneByteApart(File(x), File(y))
    ensures OneApart(x, y)
  {
    var i :| 0 <= i < |x| && x[i] != y[i] && forall j :: 0 <= j < |x| && j != i ==> x[j] == y[j];
    Around(x, i);
    Around(y, i);
    assert x[..i] == y[..i] && x[i + 1..] == y[i + 1..];
    assert OneApart(x[..i] + ([x[i]] + x[i + 1..]), x[..i] + ([y[i]] + x[i + 1..]));
  }

  lemma Around(x: Bytes, i: nat)
    requires i < |x|
    ensures x == x[..i] + ([x[i]] + x[i + 1..])
  {
  }

  lemma {:induction false} StreamsApart(a: Entry, b: Entry)
    requires OneByteApart(a, b)
    ensures OneApart(Stream(a), Stream(b))
    decreases a, 1, 0
  {
    match a {
      case File(x) =>
        var y := b.source;
        BytesApart(x, y);
        Surrounded(LengthText(|x|), x, y, []);
        assert x + [] == x && y + [] == y;
      case Dir(x) =>
        var k :| k in x && OneByteApart(x[k], b.dir[k]) && forall j :: j in x && j != k ==> x[j] == b.dir[j];
        StreamsApartFrom(a, b, k, Sorting.SortedKeys(x.Keys));
    }
  }

  lemma {:induction false} StreamsApartFrom(a: Entry, b: Entry, k: Name, names: seq<Name>)
    requires a.Dir? && b.Dir? && a.dir.Keys == b.dir.Keys && k in a.dir && OneByteApart(a.dir[k], b.dir[k])
    requires forall j :: j in a.dir && j != k ==> a.dir[j] == b.dir[j]
    requires (forall j :: j in names ==> j in a.dir) && k in names && Sorting.StrictlySorted(names)
    ensures OneApart(StreamFrom(a, names), StreamFrom(b, names))
    decreases a, 0, |names|
  {
    Sorting.SortedDistinct(names);
    var x, rest := Text(names[0]), names[1..];
    if names[0] == k {
      SameStream(a, b, rest);
      StreamsApart(a.dir[k], b.dir[k]);
      Surrounded(x, Stream(a.dir[k]), Stream(b.dir[k]), StreamFrom(a, rest));
    } else {
      StreamsApartFrom(a, b, k, rest);
      var child := Stream(a.dir[names[0]]);
      Surrounded(x + child, StreamFrom(a, rest), StreamFrom(b, rest), []);
      Regroup(x, child, StreamFrom(a, rest));
      Regroup(x, child, StreamFrom(b, rest));
    }
  }

  lemma Regroup(x: Bytes, child: Bytes, rest: Bytes)
    ensures x + (child + rest) == x + child + (rest + [])
  {
  }

  lemma {:induction false} SameStream(a: Entry, b: Entry, names: seq<Name>)
    requires a.Dir? && b.Dir? && forall j :: j in names ==> j in a.dir && j in b.dir && a.dir[j] == b.dir[j]
    ensures StreamFrom(a, names) == StreamFrom(b, names)
    decreases |names|
  {
    if names != [] { SameStream(a, b, names[1..]); }
  }

  /** Changing one byte of one file always changes the fingerprint. */
  lemma EditShows(a: Entry, b: Entry)
    requires OneByteApart(a, b)
    ensures TreeDigest(a) != TreeDigest(b)
  {
    StreamsApart(a, b);
    var front: Bytes, x: Byte, y: Byte, rest: Bytes :|
      x != y && Stream(a) == front + ([x] + rest) && Stream(b) == front + ([y] + rest);
    OneByteShows(OFFSET, front, x, y, rest);
  }

  // ---- trees of one form --------------------------------------------------

  /** No character of a name looks like the zero that ends it. */
  predicate Ends(name: Name) { forall i :: 0 <= i < |name| ==> name[i] % 256 != 0 }

  /**
    Walked side by side, the two trees have as many entries everywhere, files where the other has files, and names that
    are the same or end where they seem to.
  */
  ghost predicate SameForm(a: Entry, b: Entry)
    decreases a, 1, 0
  {
    match (a, b)
    case (File(_), File(_)) => true
    case (Dir(x), Dir(y)) => SameFormFrom(a, b, Sorting.SortedKeys(x.Keys), Sorting.SortedKeys(y.Keys))
    case _ => false
  }

  ghost predicate SameFormFrom(a: Entry, b: Entry, m: seq<Name>, n: seq<Name>)
    requires a.Dir? && b.Dir? && (forall k :: k in m ==> k in a.dir) && forall k :: k in n ==> k in b.dir
    decreases a, 0, |m|
  {
    && |m| == |n|
    && (m != [] ==>
      && (m[0] == n[0] || (Ends(m[0]) && Ends(n[0])))
      && SameForm(a.dir[m[0]], b.dir[n[0]]) && SameFormFrom(a, b, m[1..], n[1..]))
  }

  predicate SameLowBytes(m: Name, n: Name) { |m| == |n| && forall i :: 0 <= i < |m| ==> m[i] % 256 == n[i] % 256 }

  /** Walked side by side, the names have the same low bytes and the files the same bytes. */
  ghost predicate Alike(a: Entry, b: Entry)
    decreases a, 1, 0
  {
    match (a, b)
    case (File(x), File(y)) => x == y
    case (Dir(x), Dir(y)) => AlikeFrom(a, b, Sorting.SortedKeys(x.Keys), Sorting.SortedKeys(y.Keys))
    case _ => false
  }

  ghost predicate AlikeFrom(a: Entry, b: Entry, m: seq<Name>, n: seq<Name>)
    requires a.Dir? && b.Dir? && (forall k :: k in m ==> k in a.dir) && forall k :: k in n ==> k in b.dir
    decreases a, 0, |m|
  {
    && |m| == |n|
    && (m != [] ==> SameLowBytes(m[0], n[0]) && Alike(a.dir[m[0]], b.dir[n[0]]) && AlikeFrom(a, b, m[1..], n[1..]))
  }

  lemma ZeroEnds(s: Bytes, t: Bytes, x: Bytes, y: Bytes)
    requires s + [0] + x == t + [0] + y
    requires forall i :: 0 <= i < |s| ==> s[i] != 0
    requires forall i :: 0 <= i < |t| ==> t[i] != 0
    ensures s == t && x == y
  {
    if |s| < |t| {
      ZeroIn(s, x, t, y);
    } else if |t| < |s| {
      ZeroIn(t, y, s, x);
    } else {
      SameFront(s + [0], t + [0], x, y);
      SameFront(s, t, [0], [0]);
    }
  }

  lemma ZeroIn(s: Bytes, x: Bytes, t: Bytes, y: Bytes)
    requires |s| < |t| && s + [0] + x == t + [0] + y
    ensures t[|s|] == 0
  {
    assert (s + [0] + x)[|s|] == 0 && (t + [0] + y)[|s|] == t[|s|];
  }

  lemma LengthEnds(m: nat, n: nat, x: Bytes, y: Bytes)
    requires LengthText(m) + x == LengthText(n) + y
    ensures m == n && x == y
  {
    var p, q := Decimal.Print(m), Decimal.Print(n);
    ZeroEnds(LowBytes(Units(p)), LowBytes(Units(q)), x, y);
    forall i | 0 <= i < |p| ensures p[i] == q[i] {
      assert LowBytes(Units(p))[i] == p[i] as int && LowBytes(Units(q))[i] == q[i] as int;
    }
    assert p == q;
    Decimal.PrintInjective(m, n);
  }

  lemma SameFront(s: Bytes, t: Bytes, x: Bytes, y: Bytes)
    requires |s| == |t| && s + x == t + y
    ensures s == t && x == y
  {
    assert (s + x)[..|s|] == s && (t + y)[..|t|] == t && (s + x)[|s|..] == x && (t + y)[|t|..] == y;
  }

  lemma NameEnds(m: Name, n: Name, x: Bytes, y: Bytes)
    requires m == n || (Ends(m) && Ends(n))
    requires Text(m) + x == Text(n) + y
    ensures SameLowBytes(m, n) && x == y
  {
    if m == n { SameFront(Text(m), Text(n), x, y); } else { ZeroEnds(LowBytes(m), LowBytes(n), x, y); }
    forall i | 0 <= i < |m| ensures m[i] % 256 == n[i] % 256 { assert LowBytes(m)[i] == LowBytes(n)[i]; }
  }

  lemma SameText(m: Name, n: Name)
    requires SameLowBytes(m, n)
    ensures Text(m) == Text(n)
  {
    assert LowBytes(m) == LowBytes(n);
  }

  lemma {:induction false} StreamDecides(a: Entry, b: Entry, x: Bytes, y: Bytes)
    requires SameForm(a, b) && Stream(a) + x == Stream(b) + y
    ensures Alike(a, b) && x == y
    decreases a, 1, 0
  {
    match a
    case File(s) =>
      var t := b.source;
      Assoc(LengthText(|s|), s, x);
      Assoc(LengthText(|t|), t, y);
      LengthEnds(|s|, |t|, s + x, t + y);
      SameFront(s, t, x, y);
    case Dir(d) => StreamDecidesFrom(a, b, Sorting.SortedKeys(d.Keys), Sorting.SortedKeys(b.dir.Keys), x, y);
  }

  lemma {:induction false} StreamDecidesFrom(a: Entry, b: Entry, m: seq<Name>, n: seq<Name>, x: Bytes, y: Bytes)
    requires a.Dir? && b.Dir? && (forall k :: k in m ==> k in a.dir) && forall k :: k in n ==> k in b.dir
    requires SameFormFrom(a, b, m, n)
    requires StreamFrom(a, m) + x == StreamFrom(b, n) + y
    ensures x == y && AlikeFrom(a, b, m, n)
    decreases a, 0, |m|
  {
    if m == [] {
      assert StreamFrom(a, m) + x == x && StreamFrom(b, n) + y == y;
    } else {
      var s, t := StreamFrom(a, m[1..]), StreamFrom(b, n[1..]);
      Peel(Text(m[0]), Stream(a.dir[m[0]]), s, x);
      Peel(Text(n[0]), Stream(b.dir[n[0]]), t, y);
      NameEnds(m[0], n[0], Stream(a.dir[m[0]]) + (s + x), Stream(b.dir[n[0]]) + (t + y));
      StreamDecides(a.dir[m[0]], b.dir[n[0]], s + x, t + y);
      StreamDecidesFrom(a, b, m[1..], n[1..], x, y);
    }
  }

  lemma Peel(a: Bytes, b: Bytes, c: Bytes, d: Bytes)
    ensures a + (b + c) + d == a + (b + (c + d))
  {
  }

  lemma {:induction false} AlikeStreams(a: Entry, b: Entry)
    requires Alike(a, b)
    ensures Stream(a) == Stream(b)
    decreases a, 1, 0
  {
    if a.Dir? { AlikeStreamsFrom(a, b, Sorting.SortedKeys(a.dir.Keys), Sorting.SortedKeys(b.dir.Keys)); }
  }

  lemma {:induction false} AlikeStreamsFrom(a: Entry, b: Entry, m: seq<Name>, n: seq<Name>)
    requires a.Dir? && b.Dir? && (forall k :: k in m ==> k in a.dir) && forall k :: k in n ==> k in b.dir
    requires AlikeFrom(a, b, m, n)
    ensures StreamFrom(a, m) == StreamFrom(b, n)
    decreases a, 0, |m|
  {
    if m != [] {
      SameText(m[0], n[0]);
      AlikeStreams(a.dir[m[0]], b.dir[n[0]]);
      AlikeStreamsFrom(a, b, m[1..], n[1..]);
    }
  }

  /**
    Between trees of one form, whatever their entries are called, the stream decides the low bytes of every name and
    every byte of every file, and nothing more.
  */
  lemma SameStreamAlike(a: Entry, b: Entry)
    requires SameForm(a, b)
    ensures Stream(a) == Stream(b) <==> Alike(a, b)
  {
    if Stream(a) == Stream(b) { StreamDecides(a, b, [], []); }
    if Alike(a, b) { AlikeStreams(a, b); }
  }

  // ---- the same names -----------------------------------------------------

  predicate SameShape(a: Entry, b: Entry)
    decreases a
  {
    match (a, b)
    case (File(_), File(_)) => true
    case (Dir(x), Dir(y)) => x.Keys == y.Keys && forall k :: k in x ==> SameShape(x[k], y[k])
    case _ => false
  }

  lemma {:induction false} ShapeIsForm(a: Entry, b: Entry)
    requires SameShape(a, b)
    ensures SameForm(a, b) && (Alike(a, b) ==> a == b)
    decreases a, 1, 0
  {
    if a.Dir? {
      var names := Sorting.SortedKeys(a.dir.Keys);
      ShapeIsFormFrom(a, b, names);
      if Alike(a, b) { assert a.dir == b.dir; }
    }
  }

  lemma {:induction false} ShapeIsFormFrom(a: Entry, b: Entry, names: seq<Name>)
    requires a.Dir? && b.Dir?
    requires forall k :: k in names ==> k in a.dir && k in b.dir && SameShape(a.dir[k], b.dir[k])
    ensures SameFormFrom(a, b, names, names)
    ensures AlikeFrom(a, b, names, names) ==> forall k :: k in names ==> a.dir[k] == b.dir[k]
    decreases a, 0, |names|
  {
    if names != [] {
      ShapeIsForm(a.dir[names[0]], b.dir[names[0]]);
      ShapeIsFormFrom(a, b, names[1..]);
      assert names == [names[0]] + names[1..];
    }
  }

  /** Between trees with the same directories and file names, the stream decides every byte of every file. */
  lemma SameStreamSameTree(a: Entry, b: Entry)
    requires SameShape(a, b)
    ensures Stream(a) == Stream(b) <==> a == b
  {
    ShapeIsForm(a, b);
    SameStreamAlike(a, b);
  }

  // ---- a new name ---------------------------------------------------------

  lemma {:induction false} ShapeOfItself(a: Entry)
    ensures SameShape(a, a)
  {
    if a.Dir? { forall k | k in a.dir ensures SameShape(a.dir[k], a.dir[k]) { ShapeOfItself(a.dir[k]); } }
  }

  /** Two orders of the same entries, of which one may have another name. */
  lemma {:induction false} FormFrom(a: Entry, b: Entry, m: seq<Name>, n: seq<Name>)
    requires a.Dir? && b.Dir? && (forall k :: k in m ==> k in a.dir) && forall k :: k in n ==> k in b.dir
    requires |m| == |n| && forall i :: 0 <= i < |m| ==>
      a.dir[m[i]] == b.dir[n[i]] && (m[i] == n[i] || (Ends(m[i]) && Ends(n[i])))
    ensures SameFormFrom(a, b, m, n)
    decreases a, 0, |m|
  {
    if m != [] {
      ShapeOfItself(a.dir[m[0]]);
      ShapeIsForm(a.dir[m[0]], b.dir[n[0]]);
      FormFrom(a, b, m[1..], n[1..]);
    }
  }

  lemma {:induction false} AlikeNames(a: Entry, b: Entry, m: seq<Name>, n: seq<Name>, i: nat)
    requires a.Dir? && b.Dir? && (forall k :: k in m ==> k in a.dir) && forall k :: k in n ==> k in b.dir
    requires AlikeFrom(a, b, m, n) && i < |m|
    ensures |m| == |n| && SameLowBytes(m[i], n[i])
    decreases i
  {
    if i > 0 { AlikeNames(a, b, m[1..], n[1..], i - 1); }
  }

  /** The same directory with the i-th entry under another name, at the same turn in the order. */
  ghost predicate Renamed(a: Entry, b: Entry, i: nat, name: Name) {
    && a.Dir? && b.Dir?
    && var m, n := Sorting.SortedKeys(a.dir.Keys), Sorting.SortedKeys(b.dir.Keys);
      && i < |m| && n == m[i := name]
      && forall j :: 0 <= j < |m| ==> a.dir[m[j]] == b.dir[n[j]]
  }

  /** Giving an entry another name, one that differs in a low byte, changes the stream. */
  lemma RenameShows(a: Entry, b: Entry, i: nat, name: Name)
    requires Renamed(a, b, i, name)
    requires var was := Sorting.SortedKeys(a.dir.Keys)[i]; Ends(was) && Ends(name) && !SameLowBytes(was, name)
    ensures Stream(a) != Stream(b)
  {
    var m, n := Sorting.SortedKeys(a.dir.Keys), Sorting.SortedKeys(b.dir.Keys);
    FormFrom(a, b, m, n);
    SameStreamAlike(a, b);
    if Alike(a, b) { AlikeNames(a, b, m, n, i); }
  }

  // ---- what the digest cannot tell ----------------------------------------

  /** No mark closes a directory: a last entry inside it and the next entry beside it look alike. */
  lemma DirectoryEndIsSilent(a: Name, b: Name, c: Name, x: Entry, y: Entry)
    requires Sorting.Before(a, c) && Sorting.Before(b, c)
    ensures var inside := Dir(map[a := Dir(map[b := x, c := y])]);
      var beside := Dir(map[a := Dir(map[b := x]), c := y]);
      inside != beside && Stream(inside) == Stream(beside) && TreeDigest(inside) == TreeDigest(beside)
  {
    Sorting.BeforeIrreflexive(a);
    Sorting.BeforeIrreflexive(b);
    var one, two := Dir(map[b := x]), Dir(map[b := x, c := y]);
    var inside, beside := Dir(map[a := two]), Dir(map[a := one, c := y]);
    assert c !in one.dir && c in two.dir;
    assert inside.dir[a] != beside.dir[a];
    Sorting.SortedUnique(Sorting.SortedKeys(one.dir.Keys), [b]);
    Sorting.SortedUnique(Sorting.SortedKeys(two.dir.Keys), [b, c]);
    Sorting.SortedUnique(Sorting.SortedKeys(inside.dir.Keys), [a]);
    Sorting.SortedUnique(Sorting.SortedKeys(beside.dir.Keys), [a, c]);
    OneName(one, b);
    TwoNames(two, b, c);
    OneName(inside, a);
    TwoNames(beside, a, c);
    Peel(Text(a), Text(b), Stream(x), Text(c) + Stream(y));
    Assoc(Text(a), Text(b) + Stream(x), Text(c) + Stream(y));
  }

  lemma OneName(e: Entry, k: Name)
    requires e.Dir? && k in e.dir
    ensures StreamFrom(e, [k]) == Text(k) + Stream(e.dir[k])
  {
    assert [k][1..] == [];
    assert Stream(e.dir[k]) + [] == Stream(e.dir[k]);
  }

  lemma TwoNames(e: Entry, j: Name, k: Name)
    requires e.Dir? && j in e.dir && k in e.dir
    ensures StreamFrom(e, [j, k]) == Text(j) + Stream(e.dir[j]) + (Text(k) + Stream(e.dir[k]))
  {
    assert [j, k][1..] == [k];
    OneName(e, k);
    Assoc(Text(j), Stream(e.dir[j]), Text(k) + Stream(e.dir[k]));
  }
}
