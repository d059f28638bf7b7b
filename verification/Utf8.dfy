/**
  UTF-8 (section 3 of RFC 3629) as Go's `unicode/utf8` implements it: an ill-formed byte decodes to U+FFFD
  with width 1, and a value that is no scalar encodes as U+FFFD.
*/
module Utf8 {
  import opened Basics

  predicate IsScalar(r: int) { 0 <= r < 0xD800 || 0xE000 <= r <= 0x10FFFF }

  const RUNE_ERROR := 0xFFFD

  /** `utf8.AppendRune` and `Buffer.WriteRune`. */
  function EncodeRune(r: int): (e: Bytes)
    ensures 1 <= |e| <= 4
  {
    if !IsScalar(r) then [0xEF, 0xBF, 0xBD]
    else if r < 0x80 then [r]
    else if r < 0x800 then [0xC0 + r / 64, 0x80 + r % 64]
    else if r < 0x10000 then [0xE0 + r / 64 / 64, 0x80 + r / 64 % 64, 0x80 + r % 64]
    else [0xF0 + r / 64 / 64 / 64, 0x80 + r / 64 / 64 % 64, 0x80 + r / 64 % 64, 0x80 + r % 64]
  }

  function Join2(a: int, b: int): int { (a - 0xC0) * 64 + (b - 0x80) }
  function Join3(a: int, b: int, c: int): int { ((a - 0xE0) * 64 + (b - 0x80)) * 64 + (c - 0x80) }
  function Join4(a: int, b: int, c: int, d: int): int {
    (((a - 0xF0) * 64 + (b - 0x80)) * 64 + (c - 0x80)) * 64 + (d - 0x80)
  }

  predicate IsTail(b: Byte) { 0x80 <= b < 0xC0 }

  predicate Starts2(s: Bytes) { |s| >= 2 && 0xC2 <= s[0] <= 0xDF && IsTail(s[1]) }

  predicate Starts3(s: Bytes) {
    && |s| >= 3 && 0xE0 <= s[0] <= 0xEF && IsTail(s[1]) && IsTail(s[2])
    && (s[0] == 0xE0 ==> 0xA0 <= s[1])
    && (s[0] == 0xED ==> s[1] < 0xA0)
  }

  predicate Starts4(s: Bytes) {
    && |s| >= 4 && 0xF0 <= s[0] <= 0xF4 && IsTail(s[1]) && IsTail(s[2]) && IsTail(s[3])
    && (s[0] == 0xF0 ==> 0x90 <= s[1])
    && (s[0] == 0xF4 ==> s[1] < 0x90)
  }

  /** `utf8.DecodeRune`: the first rune and its width. */
  function DecodeRune(s: Bytes): (d: (int, nat))
    requires s != []
    ensures 1 <= d.1 <= 4 && d.1 <= |s| && IsScalar(d.0)
  {
    if s[0] < 0x80 then (s[0], 1)
    else if Starts2(s) then (Join2(s[0], s[1]), 2)
    else if Starts3(s) then (Join3(s[0], s[1], s[2]), 3)
    else if Starts4(s) then (Join4(s[0], s[1], s[2], s[3]), 4)
    else (RUNE_ERROR, 1)
  }

  predicate StartsWell(s: Bytes)
    requires s != []
  {
    s[0] < 0x80 || Starts2(s) || Starts3(s) || Starts4(s)
  }

  /** `utf8.Valid`. */
  predicate Valid(s: Bytes) {
    s == [] || (StartsWell(s) && Valid(s[DecodeRune(s).1..]))
  }

  /** What ranging over a string's runes and writing each one back produces. */
  function Sanitize(s: Bytes): Bytes {
    if s == [] then [] else EncodeRune(DecodeRune(s).0) + Sanitize(s[DecodeRune(s).1..])
  }

  /** A text made of Unicode scalar values, in UTF-8. */
  function Encode(s: string): Bytes {
    if s == [] then [] else EncodeRune(s[0] as int) + Encode(s[1..])
  }

  lemma DecodeEncoded(r: int, rest: Bytes)
    requires IsScalar(r)
    ensures DecodeRune(EncodeRune(r) + rest) == (r, |EncodeRune(r)|)
    ensures StartsWell(EncodeRune(r) + rest)
  {
    var e := EncodeRune(r);
    var s := e + rest;
    assert s[..|e|] == e;
    assert forall i :: 0 <= i < |e| ==> s[i] == e[i];
    if r < 0x80 {
    } else if r < 0x800 {
      assert Starts2(s);
    } else if r < 0x10000 {
      assert Starts3(s);
      assert Join3(e[0], e[1], e[2]) == r;
    } else {
      assert Starts4(s);
      assert Join4(e[0], e[1], e[2], e[3]) == r;
    }
  }

  /** Decoding rune by rune finds exactly these characters, each well-formed. */
  predicate Reads(b: Bytes, s: string) {
    if s == [] then b == []
    else b != [] && StartsWell(b) && DecodeRune(b).0 == s[0] as int && Reads(b[DecodeRune(b).1..], s[1..])
  }

  lemma {:induction false} EncodeReads(s: string)
    ensures Reads(Encode(s), s)
  {
    if s != [] {
      var e := EncodeRune(s[0] as int);
      EncodeReads(s[1..]);
      DecodeEncoded(s[0] as int, Encode(s[1..]));
      assert Encode(s)[|e|..] == Encode(s[1..]);
    }
  }

  lemma EncodeDecoded(s: Bytes)
    requires s != [] && StartsWell(s)
    ensures EncodeRune(DecodeRune(s).0) == s[..DecodeRune(s).1]
  {
    var (r, n) := DecodeRune(s);
    if s[0] < 0x80 {
    } else if Starts2(s) {
      Split(s[0] - 0xC0, s[1] - 0x80, r);
    } else if Starts3(s) {
      var a: int, b: int, c: int := s[0], s[1], s[2];
      Split((a - 0xE0) * 64 + (b - 0x80), c - 0x80, r);
      Split(a - 0xE0, b - 0x80, (a - 0xE0) * 64 + (b - 0x80));
    } else {
      var a: int, b: int, c: int, d: int := s[0], s[1], s[2], s[3];
      var mid := (a - 0xF0) * 64 + (b - 0x80);
      Split(mid * 64 + (c - 0x80), d - 0x80, r);
      Split(mid, c - 0x80, mid * 64 + (c - 0x80));
      Split(a - 0xF0, b - 0x80, mid);
    }
  }

  lemma Split(hi: int, lo: int, r: int)
    requires 0 <= hi && 0 <= lo < 64 && r == hi * 64 + lo
    ensures r / 64 == hi && r % 64 == lo
  {
  }

  lemma {:induction false} SanitizeIsValid(s: Bytes)
    ensures Valid(Sanitize(s))
  {
    if s != [] {
      var (r, n) := DecodeRune(s);
      SanitizeIsValid(s[n..]);
      DecodeEncoded(r, Sanitize(s[n..]));
      assert Sanitize(s)[|EncodeRune(r)|..] == Sanitize(s[n..]);
    }
  }

  lemma FirstRune(s: Bytes)
    requires s != [] && Valid(s)
    ensures Valid(s[DecodeRune(s).1..]) && EncodeRune(DecodeRune(s).0) + s[DecodeRune(s).1..] == s
  {
    EncodeDecoded(s);
  }

  lemma {:induction false} SanitizeKeepsValid(s: Bytes)
    requires Valid(s)
    ensures Sanitize(s) == s
  {
    if s != [] {
      FirstRune(s);
      SanitizeKeepsValid(s[DecodeRune(s).1..]);
    }
  }

  /** A well-formed rune is kept as it is, and a byte that begins none becomes U+FFFD. */
  lemma SanitizeReplaces(s: Bytes)
    requires s != []
    ensures StartsWell(s) ==> Sanitize(s) == s[..DecodeRune(s).1] + Sanitize(s[DecodeRune(s).1..])
    ensures !StartsWell(s) ==> Sanitize(s) == [0xEF, 0xBF, 0xBD] + Sanitize(s[1..])
  {
    if StartsWell(s) {
      EncodeDecoded(s);
    } else {
      assert EncodeRune(0xFFFD) == [0xEF, 0xBF, 0xBD];
    }
  }

  /** Rewriting a string rune by rune changes it exactly when it is not valid UTF-8. */
  lemma SanitizeExact(s: Bytes)
    ensures Valid(s) <==> Sanitize(s) == s
  {
    SanitizeIsValid(s);
    if Valid(s) { SanitizeKeepsValid(s); }
  }
}
