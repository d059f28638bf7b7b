/** Base64 (section 4 of RFC 4648) as Go's `base64.StdEncoding` reads and writes it. */
module Base64 {
  import opened Basics

  const PAD: Byte := 0x3D

  /** The standard alphabet: A-Z, a-z, 0-9, `+`, `/`. */
  function Symbol(i: nat): (c: Byte)
    requires i < 64
    ensures 0x2B <= c <= 0x7A && c != PAD && c != 0x5C
  {
    if i < 26 then 0x41 + i else if i < 52 then 0x61 + (i - 26) else if i < 62 then 0x30 + (i - 52)
    else if i == 62 then 0x2B else 0x2F
  }

  function Index(c: Byte): (i: Option<nat>)
    ensures i.Some? ==> i.value < 64
  {
    if 0x41 <= c <= 0x5A then Some(c - 0x41) else if 0x61 <= c <= 0x7A then Some(c - 0x61 + 26)
    else if 0x30 <= c <= 0x39 then Some(c - 0x30 + 52)
    else if c == 0x2B then Some(62) else if c == 0x2F then Some(63) else None
  }

  lemma SymbolIndex(i: nat)
    requires i < 64
    ensures Index(Symbol(i)) == Some(i)
  {
  }

  /** The characters for a last byte, for a last two, and for three. */
  function Ending(a: Byte): Bytes { [Symbol(a / 4), Symbol(a % 4 * 16), PAD, PAD] }

  function LongEnding(a: Byte, b: Byte): Bytes {
    [Symbol(a / 4), Symbol(a % 4 * 16 + b / 16), Symbol(b % 16 * 4), PAD]
  }

  function Group(a: Byte, b: Byte, c: Byte): Bytes {
    [Symbol(a / 4), Symbol(a % 4 * 16 + b / 16), Symbol(b % 16 * 4 + c / 64), Symbol(c % 64)]
  }

  function Encode(b: Bytes): Bytes {
    if b == [] then []
    else if |b| == 1 then Ending(b[0])
    else if |b| == 2 then LongEnding(b[0], b[1])
    else Group(b[0], b[1], b[2]) + Encode(b[3..])
  }

  /** Printable ASCII, and nothing that a string would have to escape. */
  predicate IsText(e: Bytes) { forall i :: 0 <= i < |e| ==> 0x2B <= e[i] <= 0x7A && e[i] != 0x5C }

  lemma {:induction false} EncodeIsText(b: Bytes)
    ensures IsText(Encode(b))
  {
    if |b| > 2 {
      EncodeIsText(b[3..]);
      assert IsText(Group(b[0], b[1], b[2]));
    }
  }

  /** The decoder skips line breaks wherever they stand. */
  function WithoutBreaks(s: Bytes): Bytes {
    if s == [] then []
    else (if s[0] == 0x0A || s[0] == 0x0D then [] else [s[0]]) + WithoutBreaks(s[1..])
  }

  function First(x: nat, y: nat): Byte requires x < 64 && y < 64 { x * 4 + y / 16 }
  function Second(y: nat, z: nat): Byte requires y < 64 && z < 64 { y % 16 * 16 + z / 4 }
  function Third(z: nat, w: nat): Byte requires z < 64 && w < 64 { z % 4 * 64 + w }

  /** Groups of four; padding ends the text, and bits left over in front of it are ignored. */
  function DecodeGroups(s: Bytes): Option<Bytes> {
    if s == [] then Some([])
    else if |s| < 4 then None
    else match (Index(s[0]), Index(s[1]))
      case (Some(x), Some(y)) =>
        if s[2] == PAD then
          if s[3] == PAD && |s| == 4 then Some([First(x, y)]) else None
        else (match Index(s[2])
          case None => None
          case Some(z) =>
            if s[3] == PAD then
              if |s| == 4 then Some([First(x, y), Second(y, z)]) else None
            else match (Index(s[3]), DecodeGroups(s[4..]))
              case (Some(w), Some(more)) => Some([First(x, y), Second(y, z), Third(z, w)] + more)
              case _ => None)
      case _ => None
  }

  function Decode(s: Bytes): Option<Bytes> { DecodeGroups(WithoutBreaks(s)) }

  lemma {:induction false} NoBreaks(s: Bytes)
    requires forall i :: 0 <= i < |s| ==> s[i] >= 0x2B
    ensures WithoutBreaks(s) == s
  {
    if s != [] { NoBreaks(s[1..]); }
  }

  /** A decoded text, and the bytes it is to give: kept apart from how either came about. */
  predicate Gives(text: Bytes, b: Bytes) { DecodeGroups(text) == Some(b) }

  lemma {:induction false} GroupsRoundTrip(b: Bytes)
    ensures Gives(Encode(b), b)
  {
    if |b| > 2 {
      GroupsRoundTrip(b[3..]);
      OneGroup(b[0], b[1], b[2], Encode(b[3..]), b[3..]);
      assert b == [b[0], b[1], b[2]] + b[3..];
    } else {
      ShortText(b);
    }
  }

  lemma ShortText(b: Bytes)
    requires |b| <= 2
    ensures Gives(Encode(b), b)
  {
    if |b| == 2 { TwoBytes(b); } else if |b| == 1 { OneByte(b); }
  }

  lemma OneGroup(a: Byte, b: Byte, c: Byte, rest: Bytes, more: Bytes)
    requires Gives(rest, more)
    ensures Gives(Group(a, b, c) + rest, [a, b, c] + more)
  {
    Triple(a, b, c);
    FullGroup(a / 4, a % 4 * 16 + b / 16, b % 16 * 4 + c / 64, c % 64, rest, more);
  }

  lemma OneByte(b: Bytes)
    requires |b| == 1
    ensures Gives(Ending(b[0]), b)
  {
    var a := b[0];
    SymbolIndex(a / 4);
    SymbolIndex(a % 4 * 16);
    assert First(a / 4, a % 4 * 16) == a;
    assert b == [a];
  }

  lemma TwoBytes(b: Bytes)
    requires |b| == 2
    ensures Gives(LongEnding(b[0], b[1]), b)
  {
    var a, c := b[0], b[1];
    SymbolIndex(a / 4);
    SymbolIndex(a % 4 * 16 + c / 16);
    SymbolIndex(c % 16 * 4);
    assert First(a / 4, a % 4 * 16 + c / 16) == a;
    assert Second(a % 4 * 16 + c / 16, c % 16 * 4) == c;
    assert b == [a, c];
  }

  lemma FullGroup(x: nat, y: nat, z: nat, w: nat, rest: Bytes, more: Bytes)
    requires x < 64 && y < 64 && z < 64 && w < 64 && DecodeGroups(rest) == Some(more)
    ensures DecodeGroups([Symbol(x), Symbol(y), Symbol(z), Symbol(w)] + rest)
      == Some([First(x, y), Second(y, z), Third(z, w)] + more)
  {
    var s := [Symbol(x), Symbol(y), Symbol(z), Symbol(w)] + rest;
    SymbolIndex(x);
    SymbolIndex(y);
    SymbolIndex(z);
    SymbolIndex(w);
    assert s[4..] == rest;
  }

  lemma Triple(a: Byte, b: Byte, c: Byte)
    ensures var x, y, z, w := a / 4, a % 4 * 16 + b / 16, b % 16 * 4 + c / 64, c % 64;
      First(x, y) == a && Second(y, z) == b && Third(z, w) == c
  {
  }

  /** Decoding an encoding returns the bytes. */
  lemma RoundTrip(b: Bytes)
    ensures Decode(Encode(b)) == Some(b)
  {
    EncodeIsText(b);
    NoBreaks(Encode(b));
    GroupsRoundTrip(b);
  }

  // ---- what a text stands for ---------------------------------------------

  /** The order of the alphabet: the capitals, the small letters, the digits, and the two signs. */
  lemma AlphabetInOrder(i: nat)
    requires i < 64
    ensures Symbol(0) == 'A' as int && Symbol(25) == 'Z' as int && Symbol(26) == 'a' as int && Symbol(51) == 'z' as int
    ensures Symbol(52) == '0' as int && Symbol(61) == '9' as int && Symbol(62) == '+' as int && Symbol(63) == '/' as int
    ensures i !in {25, 51, 61, 62, 63} ==> Symbol(i + 1) == Symbol(i) + 1
  {
  }

  predicate IsQuad(w: nat, x: nat, y: nat, z: nat) { w < 64 && x < 64 && y < 64 && z < 64 }

  /** Four characters and the bytes they stand for: 24 bits, or what padding leaves of them, unused bits ignored. */
  predicate Means(w: nat, x: nat, y: nat, z: nat, q: Bytes, b: Bytes)
    requires IsQuad(w, x, y, z)
  {
    var first: int, second: int, third: int :=
      if |b| > 0 then b[0] else 0, if |b| > 1 then b[1] else 0, if |b| > 2 then b[2] else 0;
    || (|b| == 1 && q == [Symbol(w), Symbol(x), PAD, PAD] && (w * 64 + x) / 16 == first)
    || (|b| == 2 && q == [Symbol(w), Symbol(x), Symbol(y), PAD] && ((w * 64 + x) * 64 + y) / 4 == first * 256 + second)
    || (|b| == 3 && q == [Symbol(w), Symbol(x), Symbol(y), Symbol(z)]
        && ((w * 64 + x) * 64 + y) * 64 + z == (first * 256 + second) * 256 + third)
  }

  ghost predicate Quad(q: Bytes, b: Bytes) {
    exists w: nat, x: nat, y: nat, z: nat :: IsQuad(w, x, y, z) && Means(w, x, y, z, q, b)
  }

  /** What a text without line breaks stands for, four characters at a time; only the last four may be padded. */
  ghost predicate StandsFor(s: Bytes, b: Bytes) {
    if b == [] then s == []
    else if |b| < 3 then Quad(s, b)
    else |s| >= 4 && Quad(s[..4], b[..3]) && StandsFor(s[4..], b[3..])
  }

  lemma IndexIs(c: Byte, i: nat)
    requires i < 64
    ensures Index(c) == Some(i) <==> c == Symbol(i)
  {
    SymbolIndex(i);
  }

  lemma PadIsNone()
    ensures Index(PAD).None?
  {
  }

  lemma Sextets(w: nat, x: nat, y: nat, z: nat)
    requires IsQuad(w, x, y, z)
    ensures (w * 64 + x) / 16 == First(w, x)
    ensures ((w * 64 + x) * 64 + y) / 4 == First(w, x) * 256 + Second(x, y)
    ensures ((w * 64 + x) * 64 + y) * 64 + z == (First(w, x) * 256 + Second(x, y)) * 256 + Third(y, z)
  {
  }

  lemma SameBytes(a: int, b: int, c: int, d: int, e: int, f: int)
    requires 0 <= a < 256 && 0 <= b < 256 && 0 <= c < 256 && 0 <= d < 256 && 0 <= e < 256 && 0 <= f < 256
    ensures (a * 256 + b) * 256 + c == (d * 256 + e) * 256 + f <==> a == d && b == e && c == f
    ensures a * 256 + b == d * 256 + e <==> a == d && b == e
  {
  }

  /** Three characters decided: the group is whole. */
  lemma WholeGroup(s: Bytes, b: Bytes)
    requires |s| >= 4 && Index(s[0]).Some? && Index(s[1]).Some? && Index(s[2]).Some? && Index(s[3]).Some?
    requires s[2] != PAD && s[3] != PAD
    ensures var w, x, y, z := Index(s[0]).value, Index(s[1]).value, Index(s[2]).value, Index(s[3]).value;
      DecodeGroups(s) == Some(b) <==>
        |b| >= 3 && b[..3] == [First(w, x), Second(x, y), Third(y, z)] && DecodeGroups(s[4..]) == Some(b[3..])
  {
    if |b| >= 3 { assert b == b[..3] + b[3..]; }
    var w, x, y, z := Index(s[0]).value, Index(s[1]).value, Index(s[2]).value, Index(s[3]).value;
    var front := [First(w, x), Second(x, y), Third(y, z)];
    if DecodeGroups(s[4..]).Some? {
      var more := DecodeGroups(s[4..]).value;
      assert (front + more)[..3] == front && (front + more)[3..] == more;
    }
  }

  lemma QuadOf(w: nat, x: nat, y: nat, z: nat, q: Bytes, b: Bytes)
    requires IsQuad(w, x, y, z)
    requires || (q == [Symbol(w), Symbol(x), PAD, PAD] && b == [First(w, x)])
      || (q == [Symbol(w), Symbol(x), Symbol(y), PAD] && b == [First(w, x), Second(x, y)])
      || (q == [Symbol(w), Symbol(x), Symbol(y), Symbol(z)] && b == [First(w, x), Second(x, y), Third(y, z)])
    ensures Quad(q, b)
  {
    Sextets(w, x, y, z);
    assert Means(w, x, y, z, q, b);
  }

  lemma OfQuad(q: Bytes, b: Bytes) returns (w: nat, x: nat, y: nat, z: nat)
    requires Quad(q, b)
    ensures IsQuad(w, x, y, z)
    ensures || (q == [Symbol(w), Symbol(x), PAD, PAD] && b == [First(w, x)])
      || (q == [Symbol(w), Symbol(x), Symbol(y), PAD] && b == [First(w, x), Second(x, y)])
      || (q == [Symbol(w), Symbol(x), Symbol(y), Symbol(z)] && b == [First(w, x), Second(x, y), Third(y, z)])
  {
    w, x, y, z :| IsQuad(w, x, y, z) && Means(w, x, y, z, q, b);
    Sextets(w, x, y, z);
    SameBytes(First(w, x), Second(x, y), Third(y, z), b[0], if |b| > 1 then b[1] else 0, if |b| > 2 then b[2] else 0);
  }

  lemma {:induction false} StandsForDecodes(s: Bytes, b: Bytes)
    requires StandsFor(s, b)
    ensures DecodeGroups(s) == Some(b)
    decreases |b|
  {
    if b != [] {
      var w, x, y, z := OfQuad(if |b| < 3 then s else s[..4], if |b| < 3 then b else b[..3]);
      SymbolIndex(w);
      SymbolIndex(x);
      SymbolIndex(y);
      SymbolIndex(z);
      if |b| >= 3 {
        assert s[0] == s[..4][0] && s[1] == s[..4][1] && s[2] == s[..4][2] && s[3] == s[..4][3];
        StandsForDecodes(s[4..], b[3..]);
        WholeGroup(s, b);
      }
    }
  }

  lemma {:induction false} DecodedStandsFor(s: Bytes, b: Bytes)
    requires DecodeGroups(s) == Some(b)
    ensures StandsFor(s, b)
    decreases |s|
  {
    if s != [] {
      var w, x := Index(s[0]).value, Index(s[1]).value;
      IndexIs(s[0], w);
      IndexIs(s[1], x);
      if s[2] == PAD {
        QuadOf(w, x, 0, 0, s, b);
      } else {
        var y := Index(s[2]).value;
        IndexIs(s[2], y);
        if s[3] == PAD {
          QuadOf(w, x, y, 0, s, b);
        } else {
          var z := Index(s[3]).value;
          IndexIs(s[3], z);
          WholeGroup(s, b);
          assert s[..4] == [s[0], s[1], s[2], s[3]];
          QuadOf(w, x, y, z, s[..4], b[..3]);
          DecodedStandsFor(s[4..], b[3..]);
        }
      }
    }
  }

  /** A text decodes to these bytes exactly when, line breaks aside, it stands for them. */
  lemma DecodesExactly(s: Bytes, b: Bytes)
    ensures Decode(s) == Some(b) <==> StandsFor(WithoutBreaks(s), b)
  {
    if Decode(s) == Some(b) { DecodedStandsFor(WithoutBreaks(s), b); }
    if StandsFor(WithoutBreaks(s), b) { StandsForDecodes(WithoutBreaks(s), b); }
  }
}
