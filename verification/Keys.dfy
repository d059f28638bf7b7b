/**
  Index keys, which are file names on every platform, and the slugs that ids are made from: when a slug is a legal
  key, and why two slugs never share a file.
*/
module Keys {
  import opened Basics

  const DOT: Byte := 0x2E
  const BLANK: Byte := 0x20
  const DASH: Byte := 0x2D
  const MAX_KEY: nat := 255

  /** `/ \ : * ? " < > |` */
  const ILLEGAL: set<Byte> := {0x2F, 0x5C, 0x3A, 0x2A, 0x3F, 0x22, 0x3C, 0x3E, 0x7C}

  /** `con prn aux nul`, `com1` to `com9`, `lpt1` to `lpt9` */
  const DEVICES: seq<Bytes> := [
    [0x63, 0x6F, 0x6E], [0x70, 0x72, 0x6E], [0x61, 0x75, 0x78], [0x6E, 0x75, 0x6C],
    [0x63, 0x6F, 0x6D, 0x31], [0x63, 0x6F, 0x6D, 0x32], [0x63, 0x6F, 0x6D, 0x33], [0x63, 0x6F, 0x6D, 0x34],
    [0x63, 0x6F, 0x6D, 0x35], [0x63, 0x6F, 0x6D, 0x36], [0x63, 0x6F, 0x6D, 0x37], [0x63, 0x6F, 0x6D, 0x38],
    [0x63, 0x6F, 0x6D, 0x39],
    [0x6C, 0x70, 0x74, 0x31], [0x6C, 0x70, 0x74, 0x32], [0x6C, 0x70, 0x74, 0x33], [0x6C, 0x70, 0x74, 0x34],
    [0x6C, 0x70, 0x74, 0x35], [0x6C, 0x70, 0x74, 0x36], [0x6C, 0x70, 0x74, 0x37], [0x6C, 0x70, 0x74, 0x38],
    [0x6C, 0x70, 0x74, 0x39]]

  function Lower(c: Byte): Byte { if 0x41 <= c <= 0x5A then c + 0x20 else c }

  /** `strings.EqualFold` on ASCII. */
  predicate EqualFold(a: Bytes, b: Bytes) { |a| == |b| && forall i :: 0 <= i < |a| ==> Lower(a[i]) == Lower(b[i]) }

  predicate FoldsTo(a: Bytes, b: Bytes) { a != b && EqualFold(a, b) }

  function Base(key: Bytes): Bytes { key[..IndexOf(key, DOT)] }

  predicate IsDevice(name: Bytes) { exists i :: 0 <= i < |DEVICES| && EqualFold(name, DEVICES[i]) }

  datatype KeyError = Empty | TooLong | Control | Illegal | LeadingDot | TrailingDotOrSpace | Device

  /** The rule a refusal names is one the key breaks. */
  predicate Breaks(key: Bytes, e: KeyError) {
    match e
    case Empty => key == []
    case TooLong => |key| > MAX_KEY
    case Control => exists i :: 0 <= i < |key| && (key[i] < 0x20 || key[i] == 0x7F)
    case Illegal => exists i :: 0 <= i < |key| && key[i] in ILLEGAL
    case LeadingDot => key != [] && key[0] == DOT
    case TrailingDotOrSpace => key != [] && key[|key| - 1] in {DOT, BLANK}
    case Device => IsDevice(Base(key))
  }

  predicate LegalKey(key: Bytes) { forall e :: !Breaks(key, e) }

  /** `validateKey` */
  method ValidateKey(key: Bytes) returns (r: Option<KeyError>)
    ensures r.None? <==> LegalKey(key)
    ensures r.Some? ==> Breaks(key, r.value)
  {
    if key == [] {
      assert Breaks(key, Empty);
      return Some(Empty);
    }
    if |key| > MAX_KEY {
      assert Breaks(key, TooLong);
      return Some(TooLong);
    }
    var i := 0;
    while i < |key|
      invariant 0 <= i <= |key|
      invariant forall k :: 0 <= k < i ==> key[k] >= 0x20 && key[k] != 0x7F && key[k] !in ILLEGAL
    {
      if key[i] < 0x20 || key[i] == 0x7F {
        assert Breaks(key, Control);
        return Some(Control);
      }
      if key[i] in ILLEGAL {
        assert Breaks(key, Illegal);
        return Some(Illegal);
      }
      i := i + 1;
    }
    if key[0] == DOT {
      assert Breaks(key, LeadingDot);
      return Some(LeadingDot);
    }
    if key[|key| - 1] == DOT || key[|key| - 1] == BLANK {
      assert Breaks(key, TrailingDotOrSpace);
      return Some(TrailingDotOrSpace);
    }
    var device := CheckDevice(Base(key));
    if device {
      assert Breaks(key, Device);
      return Some(Device);
    }
    assert forall e :: !Breaks(key, e) by {
      forall e ensures !Breaks(key, e) { match e case _ => }
    }
    return None;
  }

  method CheckDevice(base: Bytes) returns (device: bool)
    ensures device <==> IsDevice(base)
  {
    var i := 0;
    while i < |DEVICES|
      invariant 0 <= i <= |DEVICES|
      invariant forall k :: 0 <= k < i ==> !EqualFold(base, DEVICES[k])
    {
      if EqualFold(base, DEVICES[i]) { return true; }
      i := i + 1;
    }
    return false;
  }

  // ---- slugs --------------------------------------------------------------

  predicate Usable(r: int) { 0x61 <= r <= 0x7A || 0x30 <= r <= 0x39 }

  /** The builder after the remaining runes: usable ones as they are, a run of others as one dash. */
  function SlugBody(runes: seq<int>, out: Bytes, dash: bool): Bytes
    decreases |runes|
  {
    if runes == [] then out
    else if Usable(runes[0]) then SlugBody(runes[1..], out + [runes[0]], false)
    else if !dash && out != [] then SlugBody(runes[1..], out + [DASH], true)
    else SlugBody(runes[1..], out, dash)
  }

  function TrimLeft(s: Bytes): Bytes { if s != [] && s[0] == DASH then TrimLeft(s[1..]) else s }

  function TrimRight(s: Bytes): Bytes { if s != [] && s[|s| - 1] == DASH then TrimRight(s[..|s| - 1]) else s }

  /** The id made from a title, given the runes of the title in lower case. */
  function Slug(lowered: seq<int>): Bytes { TrimRight(TrimLeft(SlugBody(lowered, [], false))) }

  method MakeSlug(lowered: seq<int>) returns (id: Bytes)
    ensures id == Slug(lowered)
  {
    var b: Bytes := [];
    var dash := false;
    var i := 0;
    assert lowered[0..] == lowered;
    while i < |lowered|
      invariant 0 <= i <= |lowered|
      invariant SlugBody(lowered[i..], b, dash) == SlugBody(lowered, [], false)
    {
      var r := lowered[i];
      assert lowered[i..][1..] == lowered[i + 1..];
      if Usable(r) {
        b := b + [r];
        dash := false;
      } else if !dash && b != [] {
        b := b + [DASH];
        dash := true;
      }
      i := i + 1;
    }
    return TrimRight(TrimLeft(b));
  }

  /** Lower-case letters and digits in groups, one dash between groups. */
  predicate IsSlug(s: Bytes) {
    && (forall i :: 0 <= i < |s| ==> Usable(s[i]) || s[i] == DASH)
    && (forall i :: 0 <= i < |s| && s[i] == DASH ==> 0 < i < |s| - 1 && s[i - 1] != DASH)
  }

  /** What the builder holds: a slug, and then perhaps one dash. */
  predicate Building(s: Bytes, dash: bool) {
    if dash then s != [] && s[|s| - 1] == DASH && s[..|s| - 1] != [] && IsSlug(s[..|s| - 1]) else IsSlug(s)
  }

  lemma {:induction false} BodyBuilds(runes: seq<int>, out: Bytes, dash: bool)
    requires Building(out, dash)
    ensures Building(SlugBody(runes, out, dash), false) || Building(SlugBody(runes, out, dash), true)
    ensures SlugBody(runes, out, dash) == [] <==> out == [] && forall i :: 0 <= i < |runes| ==> !Usable(runes[i])
    decreases |runes|
  {
    if runes != [] {
      var next, d := out, dash;
      if Usable(runes[0]) {
        assert IsSlug(out + [runes[0]]) by {
          if dash { assert out == out[..|out| - 1] + [DASH]; }
        }
        next, d := out + [runes[0]], false;
      } else if !dash && out != [] {
        assert (out + [DASH])[..|out|] == out;
        next, d := out + [DASH], true;
      }
      BodyBuilds(runes[1..], next, d);
      assert runes == [runes[0]] + runes[1..];
    }
  }

  /** A slug is made of usable characters in single-dashed groups, and is empty only when the title has none. */
  lemma SlugIsSlug(lowered: seq<int>)
    ensures IsSlug(Slug(lowered))
    ensures Slug(lowered) == [] <==> forall i :: 0 <= i < |lowered| ==> !Usable(lowered[i])
  {
    BodyBuilds(lowered, [], false);
    var b := SlugBody(lowered, [], false);
    if Building(b, true) { assert b[..|b| - 1][0] == b[0]; }
    assert TrimLeft(b) == b;
    if Building(b, true) { TrimOne(b); } else { assert TrimRight(b) == b; }
  }

  lemma TrimOne(b: Bytes)
    requires Building(b, true)
    ensures TrimRight(b) == b[..|b| - 1]
  {
    var s := b[..|b| - 1];
    assert s[|s| - 1] != DASH;
    assert TrimRight(s) == s;
  }

  /** The title's words: its runs of usable characters. */
  function Words(runes: seq<int>): (w: seq<Bytes>)
    ensures runes != [] && Usable(runes[0]) ==> w != []
  {
    if runes == [] then []
    else if !Usable(runes[0]) then Words(runes[1..])
    else if |runes| > 1 && Usable(runes[1]) then
      var w := Words(runes[1..]);
      [[runes[0]] + w[0]] + w[1..]
    else [[runes[0]]] + Words(runes[1..])
  }

  function Dashed(words: seq<Bytes>): Bytes {
    if words == [] then [] else if |words| == 1 then words[0] else words[0] + [DASH] + Dashed(words[1..])
  }

  /** What a slug goes on with behind a character: more of its word, or a dash and the words that follow. */
  function Onward(runes: seq<int>): Bytes {
    if Words(runes) == [] then []
    else if Usable(runes[0]) then Dashed(Words(runes)) else [DASH] + Dashed(Words(runes))
  }

  lemma WordGrows(c: Byte, words: seq<Bytes>)
    requires words != []
    ensures Dashed([[c] + words[0]] + words[1..]) == [c] + Dashed(words)
  {
    var grown := [[c] + words[0]] + words[1..];
    assert grown[1..] == words[1..];
    if |words| > 1 {
      Assoc([c], words[0], [DASH]);
      Assoc([c], words[0] + [DASH], Dashed(words[1..]));
    }
  }

  lemma WordAhead(c: Byte, words: seq<Bytes>)
    requires words != []
    ensures Dashed([[c]] + words) == [c] + ([DASH] + Dashed(words))
  {
    assert ([[c]] + words)[1..] == words;
    Assoc([c], [DASH], Dashed(words));
  }

  lemma WordsBegin(runes: seq<int>)
    requires runes != [] && Usable(runes[0])
    ensures Dashed(Words(runes)) == [runes[0]] + Onward(runes[1..])
  {
    var more := Words(runes[1..]);
    if |runes| > 1 && Usable(runes[1]) {
      WordGrows(runes[0], more);
    } else if more != [] {
      WordAhead(runes[0], more);
    } else {
      assert [[runes[0]]] + more == [[runes[0]]];
    }
  }

  /** The builder, given what it holds, ends with the words still to come. */
  lemma {:induction false} BodySpells(runes: seq<int>, out: Bytes, dash: bool)
    requires Building(out, dash)
    ensures TrimRight(SlugBody(runes, out, dash)) ==
      if out == [] then Dashed(Words(runes))
      else if !dash then out + Onward(runes)
      else if Words(runes) == [] then out[..|out| - 1] else out + Dashed(Words(runes))
    decreases |runes|
  {
    if runes == [] {
      if dash { TrimOne(out); }
    } else if Usable(runes[0]) {
      assert IsSlug(out + [runes[0]]) by {
        if dash { assert out == out[..|out| - 1] + [DASH]; }
      }
      BodySpells(runes[1..], out + [runes[0]], false);
      WordsBegin(runes);
      Assoc(out, [runes[0]], Onward(runes[1..]));
    } else if !dash && out != [] {
      assert (out + [DASH])[..|out|] == out;
      BodySpells(runes[1..], out + [DASH], true);
      Assoc(out, [DASH], Dashed(Words(runes[1..])));
    } else {
      BodySpells(runes[1..], out, dash);
    }
  }

  /** A slug is the title's words with one dash between them. */
  lemma SlugSpellsWords(lowered: seq<int>)
    ensures Slug(lowered) == Dashed(Words(lowered))
  {
    BodyBuilds(lowered, [], false);
    var b := SlugBody(lowered, [], false);
    if Building(b, true) { assert b[..|b| - 1][0] == b[0]; }
    assert TrimLeft(b) == b;
    BodySpells(lowered, [], false);
  }

  /** Making a slug of a slug changes nothing. */
  lemma SlugOfSlug(s: Bytes)
    requires IsSlug(s)
    ensures Slug(s) == s
  {
    assert [] + s == s;
    BodyKeeps([], s, false);
  }

  lemma {:induction false} BodyKeeps(out: Bytes, s: Bytes, dash: bool)
    requires IsSlug(out + s) && (dash <==> out != [] && out[|out| - 1] == DASH)
    ensures SlugBody(s, out, dash) == out + s
    decreases |s|
  {
    if s == [] {
      assert out + s == out;
    } else {
      assert (out + s)[|out|] == s[0];
      if out != [] { assert (out + s)[|out| - 1] == out[|out| - 1]; }
      assert out + [s[0]] + s[1..] == out + s;
      BodyKeeps(out + [s[0]], s[1..], s[0] == DASH);
    }
  }

  lemma SlugFoldsToItself(a: Bytes, b: Bytes)
    requires IsSlug(a) && IsSlug(b) && EqualFold(a, b)
    ensures a == b
  {
    forall i | 0 <= i < |a| ensures a[i] == b[i] { assert Lower(a[i]) == a[i] && Lower(b[i]) == b[i]; }
  }

  /** A slug is a legal key exactly when it is not empty, not too long and no device name; and no two slugs fold. */
  lemma SlugIsLegalKey(s: Bytes)
    requires IsSlug(s)
    ensures LegalKey(s) <==> s != [] && |s| <= MAX_KEY && s !in DEVICES
    ensures forall t :: IsSlug(t) ==> !FoldsTo(s, t)
  {
    assert forall i :: 0 <= i < |DEVICES| ==> IsSlug(DEVICES[i]);
    assert DOT !in s;
    assert Base(s) == s;
    assert IsDevice(s) <==> s in DEVICES by {
      if IsDevice(s) {
        var i :| 0 <= i < |DEVICES| && EqualFold(s, DEVICES[i]);
        SlugFoldsToItself(s, DEVICES[i]);
      }
      if s in DEVICES {
        var i :| 0 <= i < |DEVICES| && DEVICES[i] == s;
        assert EqualFold(s, DEVICES[i]);
      }
    }
    forall t | IsSlug(t) ensures !FoldsTo(s, t) {
      if EqualFold(s, t) { SlugFoldsToItself(s, t); }
    }
    LegalExceptDevice(s);
  }

  lemma LegalExceptDevice(s: Bytes)
    requires IsSlug(s)
    ensures LegalKey(s) <==> s != [] && |s| <= MAX_KEY && !IsDevice(Base(s))
  {
    assert LegalKey(s) ==> !Breaks(s, Empty) && !Breaks(s, TooLong) && !Breaks(s, Device);
    if s != [] && |s| <= MAX_KEY && !IsDevice(Base(s)) {
      forall e ensures !Breaks(s, e) { match e case _ => }
    }
  }

  lemma LegalHasNoSlash(key: Bytes)
    requires LegalKey(key)
    ensures key != [] && 0x2F !in key
  {
    assert !Breaks(key, Illegal) && !Breaks(key, Empty);
  }
}
