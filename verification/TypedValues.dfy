/**
  What a typed value means on the wire, kind by kind: which spellings are taken, and which number or text they are.
*/
module TypedValues {
  import opened Basics
  import opened CommandSpec
  import opened CommandLine
  import opened Encoding
  import opened Varint
  import Decimal
  import Utf8

  // ---- integers -----------------------------------------------------------

  /** An integer as one types it. */
  function Numeral(n: int): string { if n < 0 then "-" + Decimal.Print(-n) else Decimal.Print(n) }

  lemma NumeralReads(n: int)
    ensures Decimal.Signed(Numeral(n)) == Some(n)
    ensures n >= 0 ==> Decimal.Signed("+" + Numeral(n)) == Some(n)
    ensures Decimal.Unsigned(Numeral(n)) == if n < 0 then None else Some(n)
  {
    Decimal.PrintParses(if n < 0 then -n else n);
    if n < 0 {
      assert Numeral(n)[1..] == Decimal.Print(-n);
    } else {
      assert Decimal.IsDigit(Numeral(n)[0]);
      assert ("+" + Numeral(n))[1..] == Numeral(n);
    }
  }

  /** An integer is refused exactly when it is out of the 64-bit range of its kind, and is otherwise on the wire. */
  lemma IntegersAsTyped(f: Flag, n: int)
    ensures f.kind.KInt32? || f.kind.KInt64? ==>
      var p := NativePayload(f, Numeral(n));
      (p.Ok? <==> -TWO63 <= n < TWO63) && (p.Ok? ==> p.value.Number? && FromUint64(p.value.n) == n)
    ensures f.kind.KUint32? || f.kind.KUint64? ==>
      NativePayload(f, Numeral(n)) == if 0 <= n < TWO64 then Ok(Number(n)) else Err(BadValue(f.name))
  {
    NumeralReads(n);
  }

  predicate AllSpace(s: string) { forall i :: 0 <= i < |s| ==> IsSpace(s[i]) }

  /** Digits, one at least, with a sign in front or none. */
  predicate IsInteger(t: string) {
    t != "" && var digits := if t[0] == '+' || t[0] == '-' then t[1..] else t; digits != "" && AreDigits(digits)
  }

  predicate AreDigits(s: string) { forall i :: 0 <= i < |s| ==> '0' <= s[i] <= '9' }

  lemma SignedExactly(t: string)
    ensures Decimal.Signed(t).Some? <==> IsInteger(t)
  {
    if t != "" {
      SameDigits(t);
      SameDigits(t[1..]);
      if t[0] == '+' || t[0] == '-' { assert !Decimal.IsDigit(t[0]); }
    }
  }

  lemma SameDigits(s: string)
    ensures Decimal.AllDigits(s) <==> AreDigits(s)
  {
    if AreDigits(s) { assert forall i :: 0 <= i < |s| ==> Decimal.IsDigit(s[i]); }
    if Decimal.AllDigits(s) {
      forall i | 0 <= i < |s| ensures '0' <= s[i] <= '9' { assert Decimal.IsDigit(s[i]); }
    }
  }

  lemma IntegerHasNoSpace(t: string)
    requires IsInteger(t)
    ensures !IsSpace(t[0]) && !IsSpace(t[|t| - 1])
  {
    var digits := if t[0] == '+' || t[0] == '-' then t[1..] else t;
    assert t[|t| - 1] == digits[|digits| - 1];
    assert t[0] == '+' || t[0] == '-' || t[0] == digits[0];
  }

  lemma {:induction false} TrimsFront(front: string, t: string)
    requires AllSpace(front) && (t != "" ==> !IsSpace(t[0]))
    ensures TrimLeft(front + t) == t
  {
    if front == "" {
      assert front + t == t;
    } else {
      assert (front + t)[1..] == front[1..] + t;
      TrimsFront(front[1..], t);
    }
  }

  lemma {:induction false} TrimsBack(t: string, back: string)
    requires AllSpace(back) && (t != "" ==> !IsSpace(t[|t| - 1]))
    ensures TrimRight(t + back) == t
  {
    if back == "" {
      assert t + back == t;
    } else {
      var s := t + back;
      assert s[..|s| - 1] == t + back[..|back| - 1] && s[|s| - 1] == back[|back| - 1];
      TrimsBack(t, back[..|back| - 1]);
    }
  }

  lemma TrimsBoth(front: string, t: string, back: string)
    requires AllSpace(front) && AllSpace(back) && t != "" && !IsSpace(t[0]) && !IsSpace(t[|t| - 1])
    ensures Trim(front + t + back) == t
  {
    Assoc(front, t, back);
    TrimsFront(front, t + back);
    TrimsBack(t, back);
  }

  lemma {:induction false} FrontOf(s: string) returns (front: string)
    ensures AllSpace(front) && s == front + TrimLeft(s)
  {
    front := "";
    if s != "" && IsSpace(s[0]) {
      var more := FrontOf(s[1..]);
      front := [s[0]] + more;
      Assoc([s[0]], more, TrimLeft(s[1..]));
      assert s == [s[0]] + s[1..];
    } else {
      assert s == "" + s;
    }
  }

  lemma {:induction false} BackOf(s: string) returns (back: string)
    ensures AllSpace(back) && s == TrimRight(s) + back
  {
    back := "";
    if s != "" && IsSpace(s[|s| - 1]) {
      var init, last := s[..|s| - 1], s[|s| - 1];
      var less := BackOf(init);
      back := less + [last];
      Assoc(TrimRight(init), less, [last]);
      assert s == init + [last];
    } else {
      assert s == s + "";
    }
  }

  /** The web encoder's integers: spelled with a sign or without, and white space on either side. */
  predicate IsPadded(raw: string, front: string, t: string, back: string) {
    AllSpace(front) && IsInteger(t) && AllSpace(back) && raw == front + t + back
  }

  lemma WebReadsExactly(f: Flag, raw: string)
    requires f.kind.KInt32? || f.kind.KInt64?
    ensures WebField(f, raw).Ok? <==> exists front, t, back :: IsPadded(raw, front, t, back)
  {
    SignedExactly(Trim(raw));
    if WebField(f, raw).Ok? {
      var front := FrontOf(raw);
      var back := BackOf(TrimLeft(raw));
      Assoc(front, Trim(raw), back);
      assert IsPadded(raw, front, Trim(raw), back);
    }
    if front, t, back :| IsPadded(raw, front, t, back) {
      IntegerHasNoSpace(t);
      TrimsBoth(front, t, back);
    }
  }

  /** The web encoder pushes what was typed, in two's complement when it is negative, and has no upper bound. */
  lemma WebIntegersAsTyped(f: Flag, n: int, front: string, back: string)
    requires AllSpace(front) && AllSpace(back)
    ensures f.kind.KInt32? || f.kind.KInt64? ==>
      WebField(f, front + Numeral(n) + back)
        == Ok(WebTag(f.field, 0) + Pushes(if n < 0 then 0x1_0000_0000_0000_0000 + n else n))
    ensures f.kind.KUint32? || f.kind.KUint64? ==>
      WebField(f, front + Numeral(n) + back)
        == if n < 0 then Err(BadValue(f.name)) else Ok(WebTag(f.field, 0) + Pushes(n))
  {
    var t := Numeral(n);
    NumeralReads(n);
    SignedExactly(t);
    IntegerHasNoSpace(t);
    TrimsBoth(front, t, back);
  }

  // ---- the other kinds ----------------------------------------------------

  /** `true` and `false`, an enumeration's place among its values, and a text's runes. */
  lemma OthersAsTyped(f: Flag, raw: string)
    ensures f.kind.KBool? ==>
      NativePayload(f, raw) ==
        if raw in ["true", "True", "TRUE", "t", "T", "1"] then Ok(Number(1))
        else if raw in ["false", "False", "FALSE", "f", "F", "0"] then Ok(Number(0)) else Err(BadValue(f.name))
    ensures f.kind.KEnum? ==>
      var p := NativePayload(f, raw);
      && (p.Ok? <==> raw in f.enumValues)
      && (p.Ok? ==> p.value.Number? && var i := p.value.n;
            i < |f.enumValues| && f.enumValues[i] == raw && raw !in f.enumValues[..i])
    ensures f.kind.KString? || f.kind.KBytes? ==>
      var p := NativePayload(f, raw); p.Ok? && p.value.Body? && Utf8.Reads(p.value.b, raw)
  {
    if f.kind.KString? || f.kind.KBytes? { Utf8.EncodeReads(raw); }
  }
}
