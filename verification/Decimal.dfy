/**
  Decimal numerals: what `strconv.FormatUint`, `%d` and `String(n)` print, and what `ParseInt`, `ParseUint`
  and the pattern /^[+-]?\d+$/ read.
*/
module Decimal {
  import opened Basics

  predicate IsDigit(c: char) { '0' <= c <= '9' }

  function DigitValue(c: char): (d: nat)
    requires IsDigit(c)
    ensures d < 10
  {
    c as int - '0' as int
  }

  function DigitChar(d: nat): (c: char)
    requires d < 10
    ensures IsDigit(c) && DigitValue(c) == d
  {
    ('0' as int + d) as char
  }

  predicate AllDigits(s: string) { forall i :: 0 <= i < |s| ==> IsDigit(s[i]) }

  /** The numeral of `n`, without leading zeros. */
  function Print(n: nat): (s: string)
    ensures s != [] && AllDigits(s)
  {
    if n < 10 then [DigitChar(n)] else Print(n / 10) + [DigitChar(n % 10)]
  }

  /** The number a string of digits denotes, read left to right. */
  function Value(s: string): nat
    requires AllDigits(s)
  {
    if s == [] then 0 else Value(s[..|s| - 1]) * 10 + DigitValue(s[|s| - 1])
  }

  /** An unsigned numeral: one digit or more and nothing else. */
  function Unsigned(s: string): Option<nat> {
    if s != [] && AllDigits(s) then Some(Value(s)) else None
  }

  /** /^[+-]?\d+$/ and the number it denotes. */
  function Signed(s: string): Option<int> {
    if s == [] then None
    else if s[0] == '+' then
      (match Unsigned(s[1..]) case Some(n) => Some(n as int) case None => None)
    else if s[0] == '-' then
      (match Unsigned(s[1..]) case Some(n) => Some(0 - (n as int)) case None => None)
    else
      match Unsigned(s) case Some(n) => Some(n as int) case None => None
  }

  lemma {:induction false} PrintValue(n: nat)
    ensures Value(Print(n)) == n
  {
    var s := Print(n);
    if n >= 10 {
      PrintValue(n / 10);
      assert s[..|s| - 1] == Print(n / 10);
    } else {
      assert s[..0] == [];
    }
  }

  /** Reading a printed number gives the number back. */
  lemma PrintParses(n: nat)
    ensures Unsigned(Print(n)) == Some(n)
  {
    PrintValue(n);
  }

  lemma PrintInjective(m: nat, n: nat)
    requires Print(m) == Print(n)
    ensures m == n
  {
    PrintValue(m);
    PrintValue(n);
  }
}
