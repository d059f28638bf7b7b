/**
  What a string in a bundle may look like, whoever wrote it, and what it means (section 7 of RFC 8259). The parser reads
  exactly these strings, and reads them so.
*/
module BundleStrings {
  import opened Basics
  import opened Bundle
  import Utf8

  /** One character of a string as it is spelled: itself, behind a backslash, or by its number in four digits. */
  datatype Unit = Raw(b: Byte) | Letter(c: Byte) | Code(code: nat, capitals: (bool, bool, bool, bool))

  /** What the letters behind a backslash stand for (section 7 of RFC 8259). */
  const LETTERS: map<Byte, Byte> :=
    map[0x22 := 0x22, 0x5C := 0x5C, 0x2F := 0x2F, 0x62 := 0x08, 0x66 := 0x0C, 0x6E := 0x0A, 0x72 := 0x0D, 0x74 := 0x09]

  predicate IsUnit(u: Unit) {
    match u
    case Raw(b) => b != 0x22 && b != 0x5C
    case Letter(c) => c in LETTERS
    case Code(code, _) => code < 0x1_0000
  }

  predicate AreUnits(us: seq<Unit>) { forall i :: 0 <= i < |us| ==> IsUnit(us[i]) }

  /** A digit of base 16, in either case. */
  function Digit(n: nat, capital: bool): Byte {
    if n % 16 < 10 then 0x30 + n % 16 else if capital then 0x41 + (n % 16 - 10) else 0x61 + (n % 16 - 10)
  }

  function Spelling(u: Unit): Bytes {
    match u
    case Raw(b) => [b]
    case Letter(c) => [0x5C, c]
    case Code(n, up) =>
      [0x5C, 0x75, Digit(n / 0x1000, up.0), Digit(n / 0x100, up.1), Digit(n / 16, up.2), Digit(n, up.3)]
  }

  function Meaning(u: Unit): Bytes {
    match u
    case Raw(b) => [b]
    case Letter(c) => if c in LETTERS then [LETTERS[c]] else []
    case Code(code, _) => Utf8.EncodeRune(code)
  }

  function Spelled(us: seq<Unit>): Bytes { if us == [] then [] else Spelling(us[0]) + Spelled(us[1..]) }

  function Meant(us: seq<Unit>): Bytes { if us == [] then [] else Meaning(us[0]) + Meant(us[1..]) }

  lemma DigitValue(n: nat, capital: bool)
    ensures HexValue(Digit(n, capital)) == Some(n % 16)
  {
  }

  lemma FourDigits(n: nat, up: (bool, bool, bool, bool))
    requires n < 0x1_0000
    ensures Hex4(Digit(n / 0x1000, up.0), Digit(n / 0x100, up.1), Digit(n / 16, up.2), Digit(n, up.3)) == Some(n)
  {
    var w, x, y, z := n / 0x1000, n / 0x100 % 16, n / 16 % 16, n % 16;
    DigitValue(w, up.0);
    DigitValue(n / 0x100, up.1);
    DigitValue(n / 16, up.2);
    DigitValue(n, up.3);
    SumOfDigits(n, w, x, y, z);
    FourValues(Digit(w, up.0), Digit(n / 0x100, up.1), Digit(n / 16, up.2), Digit(n, up.3), w, x, y, z);
  }

  lemma FourValues(a: Byte, b: Byte, c: Byte, d: Byte, w: nat, x: nat, y: nat, z: nat)
    requires HexValue(a) == Some(w) && HexValue(b) == Some(x) && HexValue(c) == Some(y) && HexValue(d) == Some(z)
    ensures Hex4(a, b, c, d) == Some(((w * 16 + x) * 16 + y) * 16 + z)
  {
  }

  lemma SumOfDigits(n: nat, w: nat, x: nat, y: nat, z: nat)
    requires w == n / 0x1000 && x == n / 0x100 % 16 && y == n / 16 % 16 && z == n % 16
    ensures ((w * 16 + x) * 16 + y) * 16 + z == n
  {
    assert n / 0x100 == w * 16 + x && n / 16 == (w * 16 + x) * 16 + y;
  }

  lemma ReadUnit(u: Unit, rest: Bytes)
    requires IsUnit(u)
    ensures StringBody(Spelling(u) + rest) == Prefixed(Meaning(u), StringBody(rest))
  {
    var s := Spelling(u) + rest;
    assert s[|Spelling(u)|..] == rest;
    match u
    case Raw(b) =>
    case Letter(c) => assert Unescape(c) == Some(LETTERS[c]);
    case Code(n, up) => FourDigits(n, up);
  }

  lemma {:induction false} ReadUnits(us: seq<Unit>, rest: Bytes)
    requires AreUnits(us)
    ensures StringBody(Spelled(us) + rest) == Prefixed(Meant(us), StringBody(rest))
  {
    if us == [] {
      assert [] + rest == rest;
      PrefixedTwice([], [], StringBody(rest));
    } else {
      Assoc(Spelling(us[0]), Spelled(us[1..]), rest);
      ReadUnit(us[0], Spelled(us[1..]) + rest);
      ReadUnits(us[1..], rest);
      PrefixedTwice(Meaning(us[0]), Meant(us[1..]), StringBody(rest));
    }
  }

  /** Any spelling of a string up to its closing quote is read as what it means. */
  lemma ReadSpelled(us: seq<Unit>, rest: Bytes)
    requires AreUnits(us)
    ensures StringBody(Spelled(us) + ([0x22] + rest)) == Done(Meant(us), rest)
  {
    ReadUnits(us, [0x22] + rest);
    assert ([0x22] + rest)[1..] == rest;
    assert Meant(us) + [] == Meant(us);
  }

  // ---- nothing else is a string -------------------------------------------

  lemma DigitOf(c: Byte) returns (capital: bool)
    requires HexValue(c).Some?
    ensures Digit(HexValue(c).value, capital) == c
  {
    capital := c < 0x61;
  }

  lemma CodeOf(a: Byte, b: Byte, c: Byte, d: Byte) returns (u: Unit)
    requires Hex4(a, b, c, d).Some?
    ensures IsUnit(u) && Spelling(u) == [0x5C, 0x75, a, b, c, d] && Meaning(u) == Utf8.EncodeRune(Hex4(a, b, c, d).value)
  {
    var p := DigitOf(a);
    var q := DigitOf(b);
    var r := DigitOf(c);
    var s := DigitOf(d);
    var n := Hex4(a, b, c, d).value;
    u := Code(n, (p, q, r, s));
    Digits(HexValue(a).value, HexValue(b).value, HexValue(c).value, HexValue(d).value, n);
  }

  lemma Digits(w: nat, x: nat, y: nat, z: nat, n: nat)
    requires w < 16 && x < 16 && y < 16 && z < 16 && n == ((w * 16 + x) * 16 + y) * 16 + z
    ensures n < 0x1_0000 && n / 0x1000 % 16 == w && n / 0x100 % 16 == x && n / 16 % 16 == y && n % 16 == z
  {
  }

  /** The first unit of a string that is read. */
  lemma FirstUnit(s: Bytes) returns (u: Unit)
    requires StringBody(s).Done? && s[0] != 0x22
    ensures IsUnit(u) && Spelling(u) <= s && StringBody(s[|Spelling(u)|..]).Done?
    ensures StringBody(s) == Prefixed(Meaning(u), StringBody(s[|Spelling(u)|..]))
  {
    if s[0] != 0x5C {
      u := Raw(s[0]);
    } else if s[1] == 0x75 {
      u := CodeOf(s[2], s[3], s[4], s[5]);
    } else {
      u := Letter(s[1]);
    }
  }

  /** Whatever is read as a string is a spelling of what it is read as. */
  lemma {:induction false} UnitsOf(s: Bytes) returns (us: seq<Unit>)
    requires StringBody(s).Done?
    ensures AreUnits(us) && s == Spelled(us) + ([0x22] + StringBody(s).rest) && StringBody(s).value == Meant(us)
    decreases |s|
  {
    us := [];
    if s[0] == 0x22 {
      assert s == [] + ([0x22] + s[1..]);
    } else {
      var u := FirstUnit(s);
      var tail := s[|Spelling(u)|..];
      var more := UnitsOf(tail);
      assert s == Spelling(u) + tail;
      us := [u] + more;
      OneMoreUnit(u, more, [0x22] + StringBody(s).rest);
    }
  }

  lemma OneMoreUnit(u: Unit, more: seq<Unit>, rest: Bytes)
    requires IsUnit(u) && AreUnits(more)
    ensures AreUnits([u] + more) && Meant([u] + more) == Meaning(u) + Meant(more)
    ensures Spelled([u] + more) + rest == Spelling(u) + (Spelled(more) + rest)
  {
    assert ([u] + more)[1..] == more;
    Assoc(Spelling(u), Spelled(more), rest);
  }

  /** The strings that are read, with what they are read as, are exactly the spelled ones. */
  lemma StringsExactly(s: Bytes, v: Bytes, rest: Bytes)
    ensures StringBody(s) == Done(v, rest) <==>
      exists us :: AreUnits(us) && s == Spelled(us) + ([0x22] + rest) && v == Meant(us)
  {
    if StringBody(s) == Done(v, rest) { var us := UnitsOf(s); }
    if us :| AreUnits(us) && s == Spelled(us) + ([0x22] + rest) && v == Meant(us) { ReadSpelled(us, rest); }
  }
}
