/**
  Building request bytes from values, as each runner does it. The native side borrows protobuf's `protowire`; the
  web side writes varints itself with BigInt arithmetic and a 32-bit tag, pushing numbers that `Uint8Array.from`
  reduces modulo 256.
*/
module Encoding {
  import opened Basics
  import opened CommandSpec
  import opened CommandLine
  import opened Varint
  import Decimal
  import Utf8

  // ---- JavaScript whitespace ----------------------------------------------

  /** What `\s` matches and `trim` removes. */
  predicate IsSpace(c: char) {
    var n := c as int;
    || 9 <= n <= 13 || n == 0x20 || n == 0xA0 || n == 0x1680 || 0x2000 <= n <= 0x200A
    || n == 0x2028 || n == 0x2029 || n == 0x202F || n == 0x205F || n == 0x3000 || n == 0xFEFF
  }

  function TrimLeft(s: string): string { if s != [] && IsSpace(s[0]) then TrimLeft(s[1..]) else s }

  function TrimRight(s: string): string {
    if s != [] && IsSpace(s[|s| - 1]) then TrimRight(s[..|s| - 1]) else s
  }

  function Trim(s: string): string { TrimRight(TrimLeft(s)) }

  // ---- native: strconv and protowire --------------------------------------

  const TWO63 := 0x8000_0000_0000_0000
  const TWO64 := 0x1_0000_0000_0000_0000

  function ParseBool(raw: string): Option<bool> {
    if raw in ["1", "t", "T", "TRUE", "true", "True"] then Some(true)
    else if raw in ["0", "f", "F", "FALSE", "false", "False"] then Some(false)
    else None
  }

  function ParseInt(raw: string): Option<int> {
    match Decimal.Signed(raw) case Some(n) => if -TWO63 <= n < TWO63 then Some(n) else None case None => None
  }

  function ParseUint(raw: string): Option<nat> {
    match Decimal.Unsigned(raw) case Some(n) => if n < TWO64 then Some(n) else None case None => None
  }

  /** A signed integer as 64-bit two's complement, and back. */
  function ToUint64(n: int): int { if n < 0 then n + TWO64 else n }
  function FromUint64(n: nat): int { if n < TWO63 then n else n - TWO64 }

  function NativePayload(f: Flag, raw: string): Result<Payload, CliError> {
    match f.kind
    case KString | KBytes => Ok(Body(Utf8.Encode(raw)))
    case KBool =>
      (match ParseBool(raw) case Some(b) => Ok(Number(if b then 1 else 0)) case None => Err(BadValue(f.name)))
    case KInt32 | KInt64 =>
      (match ParseInt(raw) case Some(n) => Ok(Number(ToUint64(n))) case None => Err(BadValue(f.name)))
    case KUint32 | KUint64 =>
      (match ParseUint(raw) case Some(n) => Ok(Number(n)) case None => Err(BadValue(f.name)))
    case KEnum =>
      var i := IndexOf(f.enumValues, raw);
      if i < |f.enumValues| then Ok(Number(i)) else Err(BadValue(f.name))
  }

  function NativeField(f: Flag, raw: string): Result<Bytes, CliError> {
    match NativePayload(f, raw)
    case Err(e) => Err(e)
    case Ok(p) => Ok(EncodeRecord(Record(f.field, p)))
  }

  // ---- web: BigInt and numbers --------------------------------------------

  /** `appendVarint`'s pushes. The loop tests `v > 0x7f`, so a negative number is pushed as it is. */
  function Pushes(n: int): seq<int> {
    if n > 127 then [n % 128 + 128] + Pushes(n / 128) else [n]
  }

  /** `Uint8Array.from`: every number modulo 256. */
  function Uint8Array(pushes: seq<int>): Bytes {
    seq(|pushes|, i requires 0 <= i < |pushes| => pushes[i] % 256)
  }

  /** JavaScript's `<<` and `|` on 32-bit integers: a field shifted by three and a wire type below eight. */
  function ToInt32(n: int): int {
    if n % 0x1_0000_0000 < 0x8000_0000 then n % 0x1_0000_0000 else n % 0x1_0000_0000 - 0x1_0000_0000
  }

  function WebTag(field: nat, wire: nat): seq<int> { Pushes(ToInt32(field * 8) + wire) }

  function TwosComplement(n: int): int { if n < 0 then TWO64 + n else n }

  function WebField(f: Flag, raw: string): Result<seq<int>, CliError> {
    match f.kind
    case KString | KBytes =>
      var body := Utf8.Encode(raw);
      Ok(WebTag(f.field, 2) + Pushes(|body|) + body)
    case KBool =>
      if raw != "true" && raw != "false" && raw != "1" && raw != "0" then Err(BadValue(f.name))
      else Ok(WebTag(f.field, 0) + Pushes(if raw == "true" || raw == "1" then 1 else 0))
    case KInt32 | KInt64 =>
      (match Decimal.Signed(Trim(raw))
       case None => Err(BadValue(f.name))
       case Some(n) => Ok(WebTag(f.field, 0) + Pushes(TwosComplement(n))))
    case KUint32 | KUint64 =>
      (match Decimal.Signed(Trim(raw))
       case None => Err(BadValue(f.name))
       case Some(n) => if n < 0 then Err(BadValue(f.name)) else Ok(WebTag(f.field, 0) + Pushes(n)))
    case KEnum =>
      var i := IndexOf(f.enumValues, raw);
      if i < |f.enumValues| then Ok(WebTag(f.field, 0) + Pushes(i)) else Err(BadValue(f.name))
  }

  method AppendVarint(out: seq<int>, n: int) returns (r: seq<int>)
    ensures r == out + Pushes(n)
  {
    r := out;
    var v := n;
    while v > 127
      invariant r + Pushes(v) == out + Pushes(n)
    {
      assert r + ([v % 128 + 128] + Pushes(v / 128)) == r + [v % 128 + 128] + Pushes(v / 128);
      r := r + [v % 128 + 128];
      v := v / 128;
    }
    r := r + [v];
  }

  // ---- whole requests -----------------------------------------------------

  function NativeValues(f: Flag, vals: seq<string>): Result<Bytes, CliError> {
    if vals == [] then Ok([])
    else match NativeField(f, vals[0])
      case Err(e) => Err(e)
      case Ok(b) => match NativeValues(f, vals[1..]) case Err(e) => Err(e) case Ok(more) => Ok(b + more)
  }

  /** One field: absent, one value, or several when it is repeated. */
  function NativeOne(f: Flag, vals: seq<string>): Result<Bytes, CliError> {
    if !f.repeated && |vals| > 1 then Err(TooMany(f.name)) else NativeValues(f, vals)
  }

  function NativeFields(fs: seq<Flag>, values: Values): Result<Bytes, CliError> {
    if fs == [] then Ok([])
    else match NativeOne(fs[0], Get(values, fs[0].name))
      case Err(e) => Err(e)
      case Ok(b) => match NativeFields(fs[1..], values) case Err(e) => Err(e) case Ok(more) => Ok(b + more)
  }

  function WebValues(f: Flag, vals: seq<string>): Result<seq<int>, CliError> {
    if vals == [] then Ok([])
    else match WebField(f, vals[0])
      case Err(e) => Err(e)
      case Ok(b) => match WebValues(f, vals[1..]) case Err(e) => Err(e) case Ok(more) => Ok(b + more)
  }

  /** One field: absent, one value, or several when it is repeated. */
  function WebOne(f: Flag, vals: seq<string>): Result<seq<int>, CliError> {
    if !f.repeated && |vals| > 1 then Err(TooMany(f.name)) else WebValues(f, vals)
  }

  function WebFields(fs: seq<Flag>, values: Values): Result<seq<int>, CliError> {
    if fs == [] then Ok([])
    else match WebOne(fs[0], Get(values, fs[0].name))
      case Err(e) => Err(e)
      case Ok(b) => match WebFields(fs[1..], values) case Err(e) => Err(e) case Ok(more) => Ok(b + more)
  }

  /** Go's `encodeRequest`: fields in ascending order of their numbers. */
  function NativeRequest(cmd: Command, values: Values): Result<Bytes, CliError> {
    NativeFields(StableSort(ByField, cmd.flags), values)
  }

  /** The web `encodeRequest`. Its sort is stable, so by StableSortUnique it orders the fields the same way. */
  function WebRequest(cmd: Command, values: Values): Result<Bytes, CliError> {
    match WebFields(StableSort(ByField, cmd.flags), values)
    case Err(e) => Err(e)
    case Ok(pushes) => Ok(Uint8Array(pushes))
  }

  ghost function After(out: Bytes, r: Result<Bytes, CliError>): Result<Bytes, CliError> {
    match r case Err(e) => Err(e) case Ok(b) => Ok(out + b)
  }

  lemma AfterAfter(a: Bytes, b: Bytes, r: Result<Bytes, CliError>)
    ensures After(a, After(b, r)) == After(a + b, r)
    ensures After([], r) == r
  {
    if r.Ok? { assert a + (b + r.value) == a + b + r.value && [] + r.value == r.value; }
  }

  /** The inner loop: one field's values appended to what has been written. */
  method AppendValues(out: Bytes, f: Flag, vals: seq<string>) returns (r: Result<Bytes, CliError>)
    ensures r == After(out, NativeValues(f, vals))
  {
    var written: Bytes := out;
    var k := 0;
    assert vals[0..] == vals;
    while k < |vals|
      invariant 0 <= k <= |vals|
      invariant After(out, NativeValues(f, vals)) == After(written, NativeValues(f, vals[k..]))
    {
      assert vals[k..][1..] == vals[k + 1..];
      var b := NativeField(f, vals[k]);
      if b.Err? { return Err(b.error); }
      AfterAfter(written, b.value, NativeValues(f, vals[k + 1..]));
      written := written + b.value;
      k := k + 1;
    }
    assert written + [] == written;
    return Ok(written);
  }

  lemma FieldsFrom(fs: seq<Flag>, i: nat, values: Values, out: Bytes)
    requires i < |fs|
    ensures var one := After(out, NativeOne(fs[i], Get(values, fs[i].name)));
      After(out, NativeFields(fs[i..], values)) ==
      match one case Err(e) => Err(e) case Ok(next) => After(next, NativeFields(fs[i + 1..], values))
  {
    assert fs[i..][0] == fs[i] && fs[i..][1..] == fs[i + 1..];
    var one := NativeOne(fs[i], Get(values, fs[i].name));
    if one.Ok? { AfterAfter(out, one.value, NativeFields(fs[i + 1..], values)); }
  }

  /** Go's `encodeRequest`, loop for loop. */
  method EncodeNative(cmd: Command, values: Values) returns (r: Result<Bytes, CliError>)
    ensures r == NativeRequest(cmd, values)
  {
    var fields := FieldsInOrder(cmd);
    var out: Bytes := [];
    var i := 0;
    AfterAfter([], [], NativeFields(fields, values));
    assert fields[0..] == fields;
    while i < |fields|
      invariant 0 <= i <= |fields|
      invariant NativeFields(fields, values) == After(out, NativeFields(fields[i..], values))
    {
      FieldsFrom(fields, i, values, out);
      var next := AppendOne(out, fields[i], Get(values, fields[i].name));
      if next.Err? { return next; }
      out := next.value;
      i := i + 1;
    }
    assert out + [] == out;
    return Ok(out);
  }

  method AppendOne(out: Bytes, f: Flag, vals: seq<string>) returns (r: Result<Bytes, CliError>)
    ensures r == After(out, NativeOne(f, vals))
  {
    if !f.repeated && |vals| > 1 { return Err(TooMany(f.name)); }
    r := AppendValues(out, f, vals);
  }

  ghost function Pushed(out: seq<int>, r: Result<seq<int>, CliError>): Result<seq<int>, CliError> {
    match r case Err(e) => Err(e) case Ok(b) => Ok(out + b)
  }

  lemma PushedTwice(a: seq<int>, b: seq<int>, r: Result<seq<int>, CliError>)
    ensures Pushed(a, Pushed(b, r)) == Pushed(a + b, r)
    ensures Pushed([], r) == r
  {
    if r.Ok? { assert a + (b + r.value) == a + b + r.value && [] + r.value == r.value; }
  }

  method AppendText(out: seq<int>, field: nat, body: Bytes) returns (r: seq<int>)
    ensures r == out + (WebTag(field, 2) + Pushes(|body|) + body)
  {
    r := AppendVarint(out, ToInt32(field * 8) + 2);
    r := AppendVarint(r, |body|);
    r := r + body;
    Assoc(out, WebTag(field, 2), Pushes(|body|));
    Assoc(out, WebTag(field, 2) + Pushes(|body|), body);
  }

  method AppendNumber(out: seq<int>, field: nat, n: int) returns (r: seq<int>)
    ensures r == out + (WebTag(field, 0) + Pushes(n))
  {
    r := AppendVarint(out, ToInt32(field * 8) + 0);
    r := AppendVarint(r, n);
    Assoc(out, WebTag(field, 0), Pushes(n));
  }

  /** The web `appendField`, pushing onto a list of numbers. */
  method AppendField(out: seq<int>, f: Flag, raw: string) returns (r: Result<seq<int>, CliError>)
    ensures r == Pushed(out, WebField(f, raw))
  {
    var n: int;
    match f.kind {
      case KString | KBytes =>
        var pushes := AppendText(out, f.field, Utf8.Encode(raw));
        return Ok(pushes);
      case KBool =>
        if raw != "true" && raw != "false" && raw != "1" && raw != "0" { return Err(BadValue(f.name)); }
        n := if raw == "true" || raw == "1" then 1 else 0;
      case KInt32 | KInt64 =>
        var parsed := Decimal.Signed(Trim(raw));
        if parsed.None? { return Err(BadValue(f.name)); }
        n := TwosComplement(parsed.value);
      case KUint32 | KUint64 =>
        var parsed := Decimal.Signed(Trim(raw));
        if parsed.None? || parsed.value < 0 { return Err(BadValue(f.name)); }
        n := parsed.value;
      case KEnum =>
        n := IndexOf(f.enumValues, raw);
        if n == |f.enumValues| { return Err(BadValue(f.name)); }
    }
    var pushes := AppendNumber(out, f.field, n);
    return Ok(pushes);
  }

  method PushValues(out: seq<int>, f: Flag, vals: seq<string>) returns (r: Result<seq<int>, CliError>)
    ensures r == Pushed(out, WebValues(f, vals))
  {
    var pushes := out;
    var k := 0;
    assert vals[0..] == vals;
    while k < |vals|
      invariant 0 <= k <= |vals|
      invariant Pushed(out, WebValues(f, vals)) == Pushed(pushes, WebValues(f, vals[k..]))
    {
      assert vals[k..][1..] == vals[k + 1..];
      var next := AppendField(pushes, f, vals[k]);
      if next.Err? { return next; }
      PushedTwice(pushes, WebField(f, vals[k]).value, WebValues(f, vals[k + 1..]));
      pushes := next.value;
      k := k + 1;
    }
    assert pushes + [] == pushes;
    return Ok(pushes);
  }

  lemma WebFieldsFrom(fs: seq<Flag>, i: nat, values: Values, out: seq<int>)
    requires i < |fs|
    ensures var one := Pushed(out, WebOne(fs[i], Get(values, fs[i].name)));
      Pushed(out, WebFields(fs[i..], values)) ==
      match one case Err(e) => Err(e) case Ok(next) => Pushed(next, WebFields(fs[i + 1..], values))
  {
    assert fs[i..][0] == fs[i] && fs[i..][1..] == fs[i + 1..];
    var one := WebOne(fs[i], Get(values, fs[i].name));
    if one.Ok? { PushedTwice(out, one.value, WebFields(fs[i + 1..], values)); }
  }

  /** The web `encodeRequest`, loop for loop; the sort is JavaScript's own. */
  method EncodeWeb(cmd: Command, values: Values) returns (r: Result<Bytes, CliError>)
    ensures r == WebRequest(cmd, values)
  {
    var fields := StableSort(ByField, cmd.flags);
    var out: seq<int> := [];
    var i := 0;
    PushedTwice([], [], WebFields(fields, values));
    assert fields[0..] == fields;
    while i < |fields|
      invariant 0 <= i <= |fields|
      invariant WebFields(fields, values) == Pushed(out, WebFields(fields[i..], values))
    {
      WebFieldsFrom(fields, i, values, out);
      var next := PushOne(out, fields[i], Get(values, fields[i].name));
      if next.Err? { return Err(next.error); }
      out := next.value;
      i := i + 1;
    }
    assert out + [] == out;
    return Ok(Uint8Array(out));
  }

  method PushOne(out: seq<int>, f: Flag, vals: seq<string>) returns (r: Result<seq<int>, CliError>)
    ensures r == Pushed(out, WebOne(f, vals))
  {
    if !f.repeated && |vals| > 1 { return Err(TooMany(f.name)); }
    r := PushValues(out, f, vals);
  }

  // ---- properties ---------------------------------------------------------

  /** On numbers that are not negative, the web loop writes protobuf's varint. */
  lemma {:induction false} PushesAreVarint(n: nat)
    ensures Uint8Array(Pushes(n)) == EncodeVarint(n)
    ensures Pushes(n) == EncodeVarint(n)
  {
    if n > 127 { PushesAreVarint(n / 128); }
  }

  lemma Uint8ArrayOfBytes(b: Bytes)
    ensures Uint8Array(b) == b
  {
  }

  /**
    The two tags agree exactly below 2^28. A field number may be as large as 2^29 - 1, and from 2^28 on the web's
    32-bit shift turns negative: one byte goes out where protobuf needs five.
  */
  lemma TagsAgree(field: nat, wire: nat)
    requires 0 < field < 0x2000_0000 && wire < 8
    ensures Uint8Array(WebTag(field, wire)) == EncodeTag(field, wire) <==> field < 0x1000_0000
  {
    var n := field * 8;
    if field < 0x1000_0000 {
      PushesAreVarint(n + wire);
    } else {
      assert ToInt32(n) == n - 0x1_0000_0000;
      assert |WebTag(field, wire)| == 1;
      assert |EncodeTag(field, wire)| > 1;
    }
  }

  lemma {:induction false} TrimKeepsNumerals(raw: string)
    requires Decimal.Signed(raw).Some?
    ensures Trim(raw) == raw
  {
    assert raw[|raw| - 1] == (if raw[0] == '+' || raw[0] == '-' then raw[1..] else raw)[
      |if raw[0] == '+' || raw[0] == '-' then raw[1..] else raw| - 1];
    assert Decimal.IsDigit(raw[|raw| - 1]);
  }

  /** The spellings of a value that both runners read: what is left of each side's own extras. */
  predicate Common(f: Flag, raw: string) {
    match f.kind
    case KString | KBytes => true
    case KBool => raw == "true" || raw == "false" || raw == "1" || raw == "0"
    case KInt32 | KInt64 => ParseInt(raw).Some?
    case KUint32 | KUint64 => ParseUint(raw).Some?
    case KEnum => raw in f.enumValues
  }

  /** Both encoders accept a value exactly when it is common, and then they write the same bytes. */
  lemma FieldsAgree(f: Flag, raw: string)
    requires 0 < f.field < 0x1000_0000
    ensures Common(f, raw) <==> NativeField(f, raw).Ok? && WebField(f, raw).Ok?
    ensures Common(f, raw) ==> Ok(Uint8Array(WebField(f, raw).value)) == NativeField(f, raw)
  {
    match f.kind
    case KString | KBytes => SameText(f.field, Utf8.Encode(raw));
    case KBool =>
      SameNumber(f.field, 0, 0);
      SameNumber(f.field, 0, 1);
    case KInt32 | KInt64 => SignedAgrees(f, raw);
    case KUint32 | KUint64 => UnsignedAgrees(f, raw);
    case KEnum => SameNumber(f.field, 0, IndexOf(f.enumValues, raw));
  }

  lemma SignedAgrees(f: Flag, raw: string)
    requires 0 < f.field < 0x1000_0000 && (f.kind.KInt32? || f.kind.KInt64?)
    ensures NativeField(f, raw).Ok? <==> ParseInt(raw).Some?
    ensures ParseInt(raw).Some? ==>
      WebField(f, raw).Ok? && Ok(Uint8Array(WebField(f, raw).value)) == NativeField(f, raw)
  {
    if ParseInt(raw).Some? {
      TrimKeepsNumerals(raw);
      SameNumber(f.field, 0, ToUint64(ParseInt(raw).value));
    }
  }

  lemma UnsignedAgrees(f: Flag, raw: string)
    requires 0 < f.field < 0x1000_0000 && (f.kind.KUint32? || f.kind.KUint64?)
    ensures NativeField(f, raw).Ok? <==> ParseUint(raw).Some?
    ensures ParseUint(raw).Some? ==>
      WebField(f, raw).Ok? && Ok(Uint8Array(WebField(f, raw).value)) == NativeField(f, raw)
  {
    if ParseUint(raw).Some? {
      assert Decimal.Signed(raw) == Some(Decimal.Unsigned(raw).value) by {
        assert Decimal.IsDigit(raw[0]);
      }
      TrimKeepsNumerals(raw);
      SameNumber(f.field, 0, ParseUint(raw).value);
    }
  }

  lemma SameText(field: nat, body: Bytes)
    requires 0 < field < 0x1000_0000
    ensures Uint8Array(WebTag(field, 2) + Pushes(|body|) + body) == EncodeRecord(Record(field, Body(body)))
  {
    var tag, len := EncodeTag(field, 2), EncodeVarint(|body|);
    calc {
      Uint8Array(WebTag(field, 2) + Pushes(|body|) + body);
      { Uint8ArrayAppend(WebTag(field, 2) + Pushes(|body|), body); Uint8ArrayOfBytes(body); }
      Uint8Array(WebTag(field, 2) + Pushes(|body|)) + body;
      { SameNumber(field, 2, |body|); }
      tag + len + body;
      tag + (len + body);
    }
  }

  lemma Uint8ArrayAppend(a: seq<int>, b: seq<int>)
    ensures Uint8Array(a + b) == Uint8Array(a) + Uint8Array(b)
  {
  }

  lemma SameNumber(field: nat, wire: nat, n: nat)
    requires 0 < field < 0x1000_0000 && wire < 8
    ensures Uint8Array(WebTag(field, wire) + Pushes(n)) == EncodeTag(field, wire) + EncodeVarint(n)
  {
    TagsAgree(field, wire);
    PushesAreVarint(n);
    assert Uint8Array(WebTag(field, wire) + Pushes(n)) == Uint8Array(WebTag(field, wire)) + Uint8Array(Pushes(n));
  }
}
