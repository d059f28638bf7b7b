/**
  Lines in the web terminal: how a typed line splits into argv, and the line the inspector prints for a filled-in
  form. Retyping that line gives back what the form held, exactly for the values that survive quoting.
*/
module Terminal {
  import opened Basics
  import opened CommandSpec
  import opened CommandLine
  import opened Parsing
  import Encoding

  // ---- tokenize -----------------------------------------------------------

  predicate IsQuote(c: char) { c == '"' || c == '\'' }
  predicate IsBlank(c: char) { c == ' ' || c == '\t' }

  datatype LineError = Unbalanced(quote: char)

  function Tokens(s: string, cur: string, quote: Option<char>, started: bool): Result<seq<string>, LineError> {
    if s == [] then
      if quote.Some? then Err(Unbalanced(quote.value)) else Ok(if started then [cur] else [])
    else if quote.Some? then
      if s[0] == '\\' && quote.value == '"' && |s| > 1 then Tokens(s[2..], cur + [s[1]], quote, started)
      else if s[0] == quote.value then Tokens(s[1..], cur, None, started)
      else Tokens(s[1..], cur + [s[0]], quote, started)
    else if IsQuote(s[0]) then Tokens(s[1..], cur, Some(s[0]), true)
    else if IsBlank(s[0]) then
      match Tokens(s[1..], "", None, false)
      case Err(e) => Err(e)
      case Ok(more) => Ok((if started then [cur] else []) + more)
    else Tokens(s[1..], cur + [s[0]], None, true)
  }

  function Tokenized(line: string): Result<seq<string>, LineError> { Tokens(line, "", None, false) }

  ghost function Behind(out: seq<string>, r: Result<seq<string>, LineError>): Result<seq<string>, LineError> {
    match r case Err(e) => Err(e) case Ok(more) => Ok(out + more)
  }

  lemma BehindTwice(a: seq<string>, b: seq<string>, r: Result<seq<string>, LineError>)
    ensures Behind(a, Behind(b, r)) == Behind(a + b, r)
    ensures Behind([], r) == r
  {
    if r.Ok? { assert a + (b + r.value) == a + b + r.value && [] + r.value == r.value; }
  }

  /** `tokenize`, character by character. */
  method Tokenize(line: string) returns (r: Result<seq<string>, LineError>)
    ensures r == Tokenized(line)
  {
    var out: seq<string> := [];
    var cur: string := "";
    var quote: Option<char> := None;
    var started := false;
    var i := 0;
    assert line[0..] == line;
    BehindTwice([], [], Tokenized(line));
    while i < |line|
      invariant 0 <= i <= |line|
      invariant Tokenized(line) == Behind(out, Tokens(line[i..], cur, quote, started))
    {
      var c := line[i];
      assert line[i..][1..] == line[i + 1..];
      if quote.Some? {
        if c == '\\' && quote.value == '"' && i + 1 < |line| {
          assert line[i..][2..] == line[i + 2..];
          i := i + 1;
          cur := cur + [line[i]];
        } else if c == quote.value {
          quote := None;
        } else {
          cur := cur + [c];
        }
      } else if IsQuote(c) {
        quote := Some(c);
        started := true;
      } else if IsBlank(c) {
        BehindTwice(out, if started then [cur] else [], Tokens(line[i + 1..], "", None, false));
        if started { out := out + [cur]; } else { assert out + [] == out; }
        cur := "";
        started := false;
      } else {
        cur := cur + [c];
        started := true;
      }
      i := i + 1;
    }
    if quote.Some? { return Err(Unbalanced(quote.value)); }
    if started { out := out + [cur]; } else { assert out + [] == out; }
    return Ok(out);
  }

  // ---- the inspector's line -----------------------------------------------

  const HEX := "0123456789abcdef"

  /** What JSON writes behind the backslash for a character it escapes (section 7 of RFC 8259). */
  function EscapeTail(c: char): (e: string)
    requires c as int < 0x20
    ensures e != [] && forall i :: 0 <= i < |e| ==> e[i] as int >= 0x20 && e[i] != '"' && e[i] != '\\'
  {
    if c == '\n' then "n" else if c == '\r' then "r" else if c == '\t' then "t"
    else if c as int == 8 then "b" else if c as int == 12 then "f"
    else "u00" + [HEX[c as int / 16], HEX[c as int % 16]]
  }

  function JsonChar(c: char): string {
    if c == '"' || c == '\\' then ['\\', c]
    else if c as int < 0x20 then ['\\'] + EscapeTail(c)
    else [c]
  }

  function JsonBody(v: string): string {
    if v == [] then [] else JsonChar(v[0]) + JsonBody(v[1..])
  }

  /** `JSON.stringify` of a string without lone surrogates. */
  function Json(v: string): string { ['"'] + JsonBody(v) + ['"'] }

  predicate HasSpace(v: string) { exists i :: 0 <= i < |v| && Encoding.IsSpace(v[i]) }

  /** How a value is shown: quoted when it holds whitespace, as it is otherwise. */
  function Show(v: string): string { if HasSpace(v) then Json(v) else v }

  /** The inspector's parts: each flag with its value, in declaration order. */
  function Args(flags: seq<Flag>, values: Values): seq<string> {
    if flags == [] then [] else ArgsOf(flags[0], Get(values, flags[0].name)) + Args(flags[1..], values)
  }

  function ArgsOf(f: Flag, vals: seq<string>): seq<string> {
    if vals == [] then [] else ["--" + f.name, vals[0]] + ArgsOf(f, vals[1..])
  }

  /** `parts.join(" ")` with every value shown. Flag spellings hold no whitespace, so showing leaves them alone. */
  function Joined(parts: seq<string>): string {
    if parts == [] then "" else [' '] + Show(parts[0]) + Joined(parts[1..])
  }

  function Line(cmd: Command, values: Values): string { cmd.name + Joined(Args(cmd.flags, values)) }

  // ---- which values survive -----------------------------------------------

  predicate NoControl(v: string) { forall i :: 0 <= i < |v| ==> v[i] as int >= 0x20 }
  predicate NoQuote(v: string) { forall i :: 0 <= i < |v| ==> !IsQuote(v[i]) }

  /** With whitespace in it a value is quoted, and then control characters are lost; without, quotes are. */
  predicate Survives(v: string) { v != "" && if HasSpace(v) then NoControl(v) else NoQuote(v) }

  /** What a quoted value reads back as: every escaped control character turns into the text of its escape. */
  function Retyped(v: string): string {
    if v == [] then [] else (if v[0] as int < 0x20 then EscapeTail(v[0]) else [v[0]]) + Retyped(v[1..])
  }

  lemma {:induction false} ReadRun(s: string, rest: string, cur: string, quote: Option<char>, started: bool)
    requires quote.None? ==> forall i :: 0 <= i < |s| ==> !IsQuote(s[i]) && !IsBlank(s[i])
    requires quote.Some? ==> forall i :: 0 <= i < |s| ==> s[i] != '\\' && s[i] != quote.value
    ensures Tokens(s + rest, cur, quote, started)
      == Tokens(rest, cur + s, quote, started || (quote.None? && s != []))
  {
    if s == [] {
      assert s + rest == rest && cur + s == cur;
    } else {
      assert (s + rest)[1..] == s[1..] + rest && (s + rest)[0] == s[0];
      ReadRun(s[1..], rest, cur + [s[0]], quote, started || quote.None?);
      assert cur + [s[0]] + s[1..] == cur + s;
    }
  }

  lemma ReadEscape(c: char, rest: string, cur: string)
    ensures Tokens(['\\', c] + rest, cur, Some('"'), true) == Tokens(rest, cur + [c], Some('"'), true)
  {
    assert (['\\', c] + rest)[2..] == rest;
  }

  lemma ReadJsonChar(c: char, rest: string, cur: string)
    ensures Tokens(JsonChar(c) + rest, cur, Some('"'), true)
      == Tokens(rest, cur + (if c as int < 0x20 then EscapeTail(c) else [c]), Some('"'), true)
  {
    if c == '"' || c == '\\' {
      ReadEscape(c, rest, cur);
    } else if c as int < 0x20 {
      var e := EscapeTail(c);
      assert JsonChar(c) + rest == ['\\', e[0]] + (e[1..] + rest);
      ReadEscape(e[0], e[1..] + rest, cur);
      ReadRun(e[1..], rest, cur + [e[0]], Some('"'), true);
      assert cur + [e[0]] + e[1..] == cur + e;
    } else {
      ReadRun([c], rest, cur, Some('"'), true);
    }
  }

  lemma {:induction false} ReadJsonBody(v: string, rest: string, cur: string)
    ensures Tokens(JsonBody(v) + rest, cur, Some('"'), true) == Tokens(rest, cur + Retyped(v), Some('"'), true)
  {
    if v == [] {
      assert JsonBody(v) + rest == rest && cur + Retyped(v) == cur;
    } else {
      var piece := if v[0] as int < 0x20 then EscapeTail(v[0]) else [v[0]];
      assert JsonBody(v) + rest == JsonChar(v[0]) + (JsonBody(v[1..]) + rest);
      ReadJsonChar(v[0], JsonBody(v[1..]) + rest, cur);
      ReadJsonBody(v[1..], rest, cur + piece);
      assert cur + piece + Retyped(v[1..]) == cur + Retyped(v);
    }
  }

  /** A quoted value is one token, whatever it holds: the value with its escapes spelled out. */
  lemma ReadJson(v: string, rest: string)
    ensures Tokens(Json(v) + rest, "", None, false) == Tokens(rest, Retyped(v), None, true)
  {
    assert Json(v) + rest == ['"'] + (JsonBody(v) + (['"'] + rest));
    Quotes(JsonBody(v) + (['"'] + rest), "");
    ReadJsonBody(v, ['"'] + rest, "");
    assert "" + Retyped(v) == Retyped(v);
    Quotes(rest, Retyped(v));
  }

  lemma Quotes(rest: string, cur: string)
    ensures Tokens(['"'] + rest, "", None, false) == Tokens(rest, "", Some('"'), true)
    ensures Tokens(['"'] + rest, cur, Some('"'), true) == Tokens(rest, cur, None, true)
  {
    assert (['"'] + rest)[1..] == rest;
  }

  lemma {:induction false} RetypedHasNoControl(v: string)
    ensures NoControl(Retyped(v))
  {
    if v != [] {
      var piece := if v[0] as int < 0x20 then EscapeTail(v[0]) else [v[0]];
      assert NoControl(piece);
      RetypedHasNoControl(v[1..]);
    }
  }

  lemma {:induction false} RetypedKeeps(v: string)
    requires NoControl(v)
    ensures Retyped(v) == v
  {
    if v != [] {
      RetypedKeeps(v[1..]);
      assert v == [v[0]] + v[1..];
    }
  }

  lemma RetypedExact(v: string)
    ensures NoControl(v) <==> Retyped(v) == v
  {
    RetypedHasNoControl(v);
    if NoControl(v) { RetypedKeeps(v); }
  }

  lemma ReadShown(v: string, rest: string)
    requires Survives(v)
    ensures Tokens(Show(v) + rest, "", None, false) == Tokens(rest, v, None, true)
  {
    if HasSpace(v) {
      ReadJson(v, rest);
      RetypedExact(v);
    } else {
      ReadRun(v, rest, "", None, false);
      assert "" + v == v;
    }
  }

  /** Behind a value stands the end of the line, or the space before the next part. */
  predicate AtGap(rest: string) { rest == "" || rest[0] == ' ' }

  /** A token that has begun goes on from what it has. */
  lemma {:induction false} FirstToken(s: string, cur: string, quote: Option<char>)
    requires Tokens(s, cur, quote, true).Ok?
    ensures var ts := Tokens(s, cur, quote, true).value;
      && ts != [] && |ts[0]| >= |cur| && ts[0][..|cur|] == cur
      && (quote.None? && AtGap(s) ==> ts[0] == cur)
    decreases |s|
  {
    if s != [] {
      if quote.Some? && s[0] == '\\' && quote.value == '"' && |s| > 1 {
        FirstToken(s[2..], cur + [s[1]], quote);
      } else if quote.Some? && s[0] == quote.value {
        FirstToken(s[1..], cur, None);
      } else if quote.Some? {
        FirstToken(s[1..], cur + [s[0]], quote);
      } else if IsQuote(s[0]) {
        FirstToken(s[1..], cur, Some(s[0]));
      } else if !IsBlank(s[0]) {
        FirstToken(s[1..], cur + [s[0]], None);
      }
    }
  }

  /** A bare value in which a quote has opened ends as a shorter token, or swallows the space behind it. */
  lemma {:induction false} QuoteSwallows(v: string, rest: string, cur: string, quote: Option<char>)
    requires (forall i :: 0 <= i < |v| ==> !IsBlank(v[i])) && AtGap(rest) && (quote.Some? ==> IsQuote(quote.value))
    requires Tokens(v + rest, cur, quote, true).Ok?
    ensures var t := Tokens(v + rest, cur, quote, true).value; t != [] && (|t[0]| <= |cur| + |v| || ' ' in t[0])
    decreases |v|
  {
    FirstToken(v + rest, cur, quote);
    if v == "" {
      assert v + rest == rest;
      if quote.Some? { Swallowed(rest, cur, quote); }
    } else {
      assert (v + rest)[0] == v[0] && (v + rest)[1..] == v[1..] + rest;
      if quote.Some? && v[0] == '\\' && quote.value == '"' && |v + rest| > 1 {
        if |v| > 1 {
          assert (v + rest)[1] == v[1] && (v + rest)[2..] == v[2..] + rest;
          QuoteSwallows(v[2..], rest, cur + [v[1]], quote);
        } else {
          assert (v + rest)[1] == ' ' && (v + rest)[2..] == rest[1..];
          FirstToken(rest[1..], cur + [' '], quote);
          assert Tokens(v + rest, cur, quote, true).value[0][..|cur| + 1][|cur|] == ' ';
        }
      } else if quote.Some? && v[0] == quote.value {
        QuoteSwallows(v[1..], rest, cur, None);
      } else if quote.Some? || !IsQuote(v[0]) {
        QuoteSwallows(v[1..], rest, cur + [v[0]], quote);
      } else {
        QuoteSwallows(v[1..], rest, cur, Some(v[0]));
      }
    }
  }

  lemma Swallowed(rest: string, cur: string, quote: Option<char>)
    requires AtGap(rest) && quote.Some? && IsQuote(quote.value) && Tokens(rest, cur, quote, true).Ok?
    ensures Tokens(rest, cur, quote, true).value != [] && ' ' in Tokens(rest, cur, quote, true).value[0]
  {
    FirstToken(rest[1..], cur + [' '], quote);
    assert Tokens(rest, cur, quote, true).value[0][..|cur| + 1][|cur|] == ' ';
  }

  lemma FirstQuote(v: string) returns (p: nat)
    requires !NoQuote(v)
    ensures p < |v| && IsQuote(v[p]) && NoQuote(v[..p])
  {
    p := 0;
    while !IsQuote(v[p])
      invariant p < |v| && NoQuote(v[..p])
      invariant exists i :: p <= i < |v| && IsQuote(v[i])
      decreases |v| - p
    {
      p := p + 1;
    }
  }

  /** A value shown and retyped comes back as one token with the same text exactly when it survives quoting. */
  lemma ShownValueExact(v: string)
    requires v != ""
    ensures Tokenized(Show(v)) == Ok([v]) <==> Survives(v)
  {
    assert Show(v) + "" == Show(v);
    if Survives(v) { ReadShown(v, ""); } else { OtherToken(v, ""); }
  }

  /** A value that does not survive is not the first token of what is typed, whatever the line goes on with. */
  lemma OtherToken(v: string, rest: string)
    requires v != "" && !Survives(v) && AtGap(rest)
    ensures var r := Tokens(Show(v) + rest, "", None, false); r.Ok? ==> r.value != [] && r.value[0] != v
  {
    if HasSpace(v) {
      ReadJson(v, rest);
      RetypedExact(v);
      if Tokens(rest, Retyped(v), None, true).Ok? { FirstToken(rest, Retyped(v), None); }
    } else {
      BareQuoteIsLost(v, rest);
    }
  }

  lemma BareQuoteIsLost(v: string, rest: string)
    requires !HasSpace(v) && !NoQuote(v) && AtGap(rest)
    ensures var r := Tokens(v + rest, "", None, false); r.Ok? ==> r.value != [] && r.value[0] != v
  {
    var p := FirstQuote(v);
    assert forall i :: 0 <= i < |v| ==> !Encoding.IsSpace(v[i]);
    var a, q, b := v[..p], v[p], v[p + 1..];
    assert v == a + ([q] + b);
    Assoc(a, [q] + b, rest);
    Assoc([q], b, rest);
    QuoteIsLost(a, q, b, rest);
  }

  lemma QuoteIsLost(a: string, q: char, b: string, rest: string)
    requires (forall i :: 0 <= i < |a| ==> !IsBlank(a[i])) && (forall i :: 0 <= i < |b| ==> !IsBlank(b[i]))
    requires NoQuote(a) && IsQuote(q) && AtGap(rest)
    ensures var r := Tokens(a + ([q] + (b + rest)), "", None, false);
      r.Ok? ==> r.value != [] && r.value[0] != a + ([q] + b)
  {
    var quoted := [q] + (b + rest);
    ReadRun(a, quoted, "", None, false);
    assert "" + a == a && quoted[0] == q && quoted[1..] == b + rest;
    assert Tokens(a + quoted, "", None, false) == Tokens(b + rest, a, Some(q), true);
    if Tokens(b + rest, a, Some(q), true).Ok? { QuoteSwallows(b, rest, a, Some(q)); }
  }

  // ---- the whole line -----------------------------------------------------

  /** A name as the generator makes them: it is shown as it is and is one token. */
  predicate IsWord(n: string) { IsFlagName(n) && !HasSpace(n) && NoQuote(n) }

  predicate AllSurvive(parts: seq<string>) { forall i :: 0 <= i < |parts| ==> Survives(parts[i]) }

  lemma SurviveBoth(a: seq<string>, b: seq<string>)
    ensures AllSurvive(a + b) <==> AllSurvive(a) && AllSurvive(b)
  {
    if AllSurvive(a + b) {
      assert forall i :: 0 <= i < |a| ==> (a + b)[i] == a[i];
      assert forall i :: 0 <= i < |b| ==> (a + b)[|a| + i] == b[i];
    }
  }

  lemma JoinedText(parts: seq<string>)
    requires parts != []
    ensures Joined(parts) == [' '] + (Show(parts[0]) + Joined(parts[1..]))
    ensures AtGap(Joined(parts))
  {
  }

  /** Parts shown and joined come back as themselves exactly when each of them survives. */
  lemma {:induction false} ReadJoined(parts: seq<string>, cur: string)
    requires forall i :: 0 <= i < |parts| ==> parts[i] != ""
    ensures Tokens(Joined(parts), cur, None, true) == Ok([cur] + parts) <==> AllSurvive(parts)
  {
    if parts == [] {
      assert [cur] + parts == [cur];
    } else {
      var rest := Joined(parts[1..]);
      assert [parts[0]] + parts[1..] == parts;
      JoinedText(parts);
      NextToken(Show(parts[0]) + rest, cur, parts);
      ReadPart(parts[0], rest, parts[1..]);
      ReadJoined(parts[1..], parts[0]);
      SurviveBoth([parts[0]], parts[1..]);
    }
  }

  lemma ReadPart(v: string, rest: string, more: seq<string>)
    requires v != "" && AtGap(rest)
    ensures Tokens(Show(v) + rest, "", None, false) == Ok([v] + more) <==>
      Survives(v) && Tokens(rest, v, None, true) == Ok([v] + more)
  {
    if Survives(v) { ReadShown(v, rest); } else { OtherToken(v, rest); }
  }

  lemma NextToken(tail: string, cur: string, more: seq<string>)
    ensures Tokens([' '] + tail, cur, None, true) == Ok([cur] + more) <==> Tokens(tail, "", None, false) == Ok(more)
  {
    assert ([' '] + tail)[1..] == tail;
    var r := Tokens(tail, "", None, false);
    if r.Ok? && [cur] + r.value == [cur] + more { assert ([cur] + r.value)[1..] == ([cur] + more)[1..]; }
  }

  lemma WordSurvives(n: string)
    requires IsWord(n)
    ensures Survives(n) && Survives("--" + n)
  {
    var t := "--" + n;
    forall i | 0 <= i < |t| ensures !Encoding.IsSpace(t[i]) && !IsQuote(t[i]) {
      if i >= 2 { assert t[i] == n[i - 2]; }
    }
  }

  /** A form as the inspector holds it: an input for every field, switches too, and a value for each that is not empty. */
  ghost predicate IsForm(flags: seq<Flag>, values: Values) {
    && (forall n :: n in values ==> exists f :: f in flags && f.name == n)
    && (forall n :: n in values ==> |values[n]| == 1 && values[n][0] != "")
  }

  /** A switch with something in its input. */
  predicate Filled(f: Flag, values: Values) { f.kind.KBool? && f.name in values }

  ghost predicate NoSwitch(flags: seq<Flag>, values: Values) { forall f :: f in flags ==> !Filled(f, values) }

  ghost predicate NamesAreWords(flags: seq<Flag>) {
    && (forall f :: f in flags ==> IsWord(f.name) && (f.short != "" ==> IsFlagName(f.short)))
    && DistinctFlagNames(flags)
    && forall f, g :: f in flags && g in flags ==> f.short != g.name
  }

  /** The arguments survive exactly when the values do. */
  lemma {:induction false} ArgsSurvive(flags: seq<Flag>, values: Values)
    requires forall f :: f in flags ==> IsWord(f.name)
    requires forall n :: n in values ==> |values[n]| == 1 && values[n][0] != ""
    ensures AllSurvive(Args(flags, values)) <==>
      forall f :: f in flags && f.name in values ==> Survives(values[f.name][0])
    ensures forall i :: 0 <= i < |Args(flags, values)| ==> Args(flags, values)[i] != ""
  {
    if flags != [] {
      var f, more := flags[0], Args(flags[1..], values);
      WordSurvives(f.name);
      ArgsSurvive(flags[1..], values);
      assert flags == [f] + flags[1..];
      if f.name in values {
        ArgsOne(f, values, flags);
        var pair := ["--" + f.name, values[f.name][0]];
        assert AllSurvive(pair + more) <==> AllSurvive(pair) && AllSurvive(more) by { SurviveBoth(pair, more); }
        assert pair[1] == values[f.name][0];
      } else {
        assert Args(flags, values) == more;
      }
    }
  }

  lemma {:induction false} LookupByName(flags: seq<Flag>, f: Flag)
    requires f in flags && DistinctFlagNames(flags)
    requires forall x, g :: x in flags && g in flags ==> x.short != g.name
    ensures f.name in ByName(flags) && ByName(flags)[f.name] == f
  {
    var init, last := flags[..|flags| - 1], flags[|flags| - 1];
    assert flags == init + [last];
    if f == last {
    } else {
      assert f in init;
      LookupByName(init, f);
      var i :| 0 <= i < |init| && init[i] == f;
      assert flags[i] == f && flags[|flags| - 1] == last;
    }
  }

  /** The form's values for the first `i` flags. */
  ghost function Seen(flags: seq<Flag>, i: nat, values: Values): Values
    requires i <= |flags|
  {
    map n | n in values && (exists k :: 0 <= k < i && flags[k].name == n) :: values[n]
  }

  lemma SeenNext(flags: seq<Flag>, i: nat, values: Values)
    requires i < |flags| && DistinctFlagNames(flags)
    requires flags[i].name in values ==> |values[flags[i].name]| == 1
    ensures var n := flags[i].name;
      Seen(flags, i + 1, values)
      == if n in values then AddValue(Seen(flags, i, values), n, values[n][0]) else Seen(flags, i, values)
  {
    var n := flags[i].name;
    if n in values {
      assert n !in Seen(flags, i, values);
      assert flags[i].name == n;
      assert [] + [values[n][0]] == values[n];
    }
  }

  lemma SeenAll(flags: seq<Flag>, values: Values)
    requires IsForm(flags, values)
    ensures Seen(flags, |flags|, values) == values
  {
    forall n | n in values ensures n in Seen(flags, |flags|, values) {
      var f :| f in flags && f.name == n;
      var k :| 0 <= k < |flags| && flags[k] == f;
      assert flags[k].name == n;
    }
  }

  /** The bare arguments that filled switches leave behind when each is set to `true`. */
  function Strays(flags: seq<Flag>, values: Values): seq<string> {
    if flags == [] then [] else (if Filled(flags[0], values) then ["true"] else []) + Strays(flags[1..], values)
  }

  predicate Truthful(flags: seq<Flag>, values: Values) {
    forall f :: f in flags && Filled(f, values) ==> values[f.name] == ["true"]
  }

  /** Scanning the inspector's arguments collects the form's values, one flag after another, and the strays. */
  lemma {:induction false} ScanArgs(cmd: Command, i: nat, values: Values)
    requires NamesAreWords(cmd.flags) && IsForm(cmd.flags, values) && i <= |cmd.flags| && Truthful(cmd.flags, values)
    ensures Scan(ByName(cmd.flags), Args(cmd.flags[i..], values), Seen(cmd.flags, i, values))
      == Ok((values, Strays(cmd.flags[i..], values)))
    decreases |cmd.flags| - i
  {
    if i == |cmd.flags| {
      SeenAll(cmd.flags, values);
    } else {
      assert cmd.flags[i..][0] == cmd.flags[i] && cmd.flags[i..][1..] == cmd.flags[i + 1..];
      assert [] + Strays(cmd.flags[i + 1..], values) == Strays(cmd.flags[i + 1..], values);
      SeenNext(cmd.flags, i, values);
      ScanArgs(cmd, i + 1, values);
      if cmd.flags[i].name in values {
        ScanOneMore(cmd, i, values, Seen(cmd.flags, i, values));
        ScanStray(ByName(cmd.flags), Args(cmd.flags[i + 1..], values), Seen(cmd.flags, i + 1, values));
      } else {
        assert Args(cmd.flags[i..], values) == Args(cmd.flags[i + 1..], values);
      }
    }
  }

  lemma ScanStray(table: Table, more: seq<string>, seen: Values)
    ensures Scan(table, ["true"] + more, seen) == match Scan(table, more, seen)
      case Err(e) => Err(e)
      case Ok((v, rest)) => Ok((v, ["true"] + rest))
  {
    assert (["true"] + more)[0] == "true" && (["true"] + more)[1..] == more;
  }

  /** One more flag of the form: a pair for a value, a switch and then what was typed into it. */
  lemma ScanOneMore(cmd: Command, i: nat, values: Values, seen: Values)
    requires NamesAreWords(cmd.flags) && IsForm(cmd.flags, values) && i < |cmd.flags|
    requires cmd.flags[i].name in values
    ensures var f, v := cmd.flags[i], values[cmd.flags[i].name][0]; var table := ByName(cmd.flags);
      var more := Args(cmd.flags[i + 1..], values);
      Scan(table, Args(cmd.flags[i..], values), seen)
      == if f.kind.KBool? then Scan(table, [v] + more, AddValue(seen, f.name, "true"))
         else Scan(table, more, AddValue(seen, f.name, v))
  {
    var f := cmd.flags[i];
    assert cmd.flags[i..][0] == f && cmd.flags[i..][1..] == cmd.flags[i + 1..];
    ArgsOne(f, values, cmd.flags[i..]);
    LookupByName(cmd.flags, f);
    ScanPair(ByName(cmd.flags), f, values[f.name][0], Args(cmd.flags[i + 1..], values), seen);
  }

  lemma {:induction false} ScanKeeps(table: Table, argv: seq<string>, values: Values, n: string)
    requires Scan(table, argv, values).Ok? && Get(values, n) != []
    ensures var out := Scan(table, argv, values).value.0; Get(out, n) != [] && Get(out, n)[0] == Get(values, n)[0]
    decreases |argv|
  {
    if argv != [] {
      if !LooksLikeFlag(argv[0]) {
        ScanKeeps(table, argv[1..], values, n);
      } else {
        var name := Bare(argv[0]);
        var eq := IndexOf(name, '=');
        var f := table[name[..eq]];
        if eq < |name| {
          ScanKeeps(table, argv[1..], AddValue(values, f.name, name[eq + 1..]), n);
        } else if f.kind.KBool? {
          ScanKeeps(table, argv[1..], AddValue(values, f.name, "true"), n);
        } else {
          ScanKeeps(table, argv[2..], AddValue(values, f.name, argv[1]), n);
        }
      }
    }
  }

  /** What a scan has recorded first for a field. */
  predicate FirstRead(r: Result<(Values, seq<string>), CliError>, n: string, v: string) {
    r.Ok? ==> Get(r.value.0, n) != [] && Get(r.value.0, n)[0] == v
  }

  /**
    What a line's parts can come back as: the same one after the other, as long as they survive; from the first one
    that reads differently on, anything.
  */
  predicate Retold(parts: seq<string>, ts: seq<string>) {
    if parts == [] then ts == []
    else ts != [] && (Survives(parts[0]) ==> ts[0] == parts[0]) && (ts[0] == parts[0] ==> Retold(parts[1..], ts[1..]))
  }

  lemma {:induction false} RetoldAsTheyAre(parts: seq<string>)
    ensures Retold(parts, parts)
  {
    if parts != [] { RetoldAsTheyAre(parts[1..]); }
  }

  lemma {:induction false} LineIsRetold(parts: seq<string>, cur: string)
    requires forall i :: 0 <= i < |parts| ==> parts[i] != ""
    ensures var r := Tokens(Joined(parts), cur, None, true);
      r.Ok? ==> r.value != [] && r.value[0] == cur && Retold(parts, r.value[1..])
  {
    if parts != [] {
      var tail := Show(parts[0]) + Joined(parts[1..]);
      JoinedText(parts);
      var r := Tokens(tail, "", None, false);
      if r.Ok? { NextToken(tail, cur, r.value); }
      if Survives(parts[0]) {
        ReadShown(parts[0], Joined(parts[1..]));
        LineIsRetold(parts[1..], parts[0]);
      } else {
        OtherToken(parts[0], Joined(parts[1..]));
      }
      AfterGap(tail, cur);
    }
  }

  lemma AfterGap(tail: string, cur: string)
    ensures Tokens([' '] + tail, cur, None, true).Ok? <==> Tokens(tail, "", None, false).Ok?
    ensures Tokens(tail, "", None, false).Ok? ==>
      Tokens([' '] + tail, cur, None, true).value[1..] == Tokens(tail, "", None, false).value
  {
    assert ([' '] + tail)[1..] == tail;
  }

  /** The field was recorded with something else first. */
  predicate Misread(r: Result<(Values, seq<string>), CliError>, values: Values, n: string) {
    n in values && (r.Ok? ==> Get(r.value.0, n) != [] && [Get(r.value.0, n)[0]] != values[n])
  }

  /** Recorded once in another way, a field stays misread to the end of the scan. */
  lemma StaysMisread(table: Table, ts: seq<string>, seen: Values, values: Values, n: string, v: string)
    requires n in values && [v] != values[n] && n !in seen
    ensures Misread(Scan(table, ts, AddValue(seen, n, v)), values, n)
  {
    var next := AddValue(seen, n, v);
    assert Get(next, n) == [] + [v];
    if Scan(table, ts, next).Ok? { ScanKeeps(table, ts, next, n); }
  }

  /** The two tokens that a flag's pair comes back as. */
  lemma PairRetold(cmd: Command, i: nat, values: Values, ts: seq<string>)
    requires NamesAreWords(cmd.flags) && IsForm(cmd.flags, values) && i < |cmd.flags| && cmd.flags[i].name in values
    requires Retold(Args(cmd.flags[i..], values), ts)
    ensures var f, v := cmd.flags[i], values[cmd.flags[i].name][0];
      && |ts| >= 2 && ts[0] == "--" + f.name && ts == ["--" + f.name, ts[1]] + ts[2..]
      && (Survives(v) ==> ts[1] == v)
      && (ts[1] == v ==> Retold(Args(cmd.flags[i + 1..], values), ts[2..]))
  {
    var f, v := cmd.flags[i], values[cmd.flags[i].name][0];
    var rest := Args(cmd.flags[i + 1..], values);
    assert cmd.flags[i..][0] == f && cmd.flags[i..][1..] == cmd.flags[i + 1..];
    ArgsOne(f, values, cmd.flags[i..]);
    WordSurvives(f.name);
    TwoRetold("--" + f.name, v, rest, ts);
  }

  lemma TwoRetold(a: string, b: string, rest: seq<string>, ts: seq<string>)
    requires Retold([a, b] + rest, ts) && Survives(a)
    ensures |ts| >= 2 && ts[0] == a && ts == [a, ts[1]] + ts[2..]
    ensures (Survives(b) ==> ts[1] == b) && (ts[1] == b ==> Retold(rest, ts[2..]))
  {
    var parts := [a, b] + rest;
    assert parts[1..] == [b] + rest && parts[1..][1..] == rest && parts[1..][0] == b;
    assert Retold(parts[1..], ts[1..]);
    assert ts[1..][1..] == ts[2..] && ts[1..][0] == ts[1];
  }

  /** Whether a flag of the form is read as something else, given the token its value comes back as. */
  predicate Differs(f: Flag, values: Values, token: string) {
    f.name in values && ((f.kind.KBool? && values[f.name] != ["true"]) || [token] != values[f.name])
  }

  lemma DifferenceShows(cmd: Command, i: nat, values: Values, ts: seq<string>)
    requires NamesAreWords(cmd.flags) && IsForm(cmd.flags, values) && i < |cmd.flags| && cmd.flags[i].name in values
    requires Retold(Args(cmd.flags[i..], values), ts) && |ts| >= 2 && Differs(cmd.flags[i], values, ts[1])
    ensures Misread(Scan(ByName(cmd.flags), ts, Seen(cmd.flags, i, values)), values, cmd.flags[i].name)
  {
    var f, table, seen := cmd.flags[i], ByName(cmd.flags), Seen(cmd.flags, i, values);
    PairRetold(cmd, i, values, ts);
    TrueSurvives();
    LookupByName(cmd.flags, f);
    NotYetSeen(cmd.flags, i, values);
    ScanPair(table, f, ts[1], ts[2..], seen);
    if f.kind.KBool? {
      StaysMisread(table, [ts[1]] + ts[2..], seen, values, f.name, "true");
    } else {
      StaysMisread(table, ts[2..], seen, values, f.name, ts[1]);
    }
  }

  lemma TrueSurvives()
    ensures Survives("true")
  {
  }

  /** Unless all comes back as it was, and every filled switch is `true`, some field is misread. */
  lemma {:induction false} ScanLoses(cmd: Command, i: nat, values: Values, ts: seq<string>) returns (n: string)
    requires NamesAreWords(cmd.flags) && IsForm(cmd.flags, values) && i <= |cmd.flags|
    requires Retold(Args(cmd.flags[i..], values), ts)
    requires !(ts == Args(cmd.flags[i..], values) && Truthful(cmd.flags[i..], values))
    ensures Misread(Scan(ByName(cmd.flags), ts, Seen(cmd.flags, i, values)), values, n)
    decreases |cmd.flags| - i
  {
    var f := cmd.flags[i];
    n := f.name;
    assert cmd.flags[i..] == [f] + cmd.flags[i + 1..];
    if f.name !in values {
      assert Args(cmd.flags[i..], values) == Args(cmd.flags[i + 1..], values);
      SeenNext(cmd.flags, i, values);
      n := ScanLoses(cmd, i + 1, values, ts);
    } else {
      PairRetold(cmd, i, values, ts);
      if Differs(f, values, ts[1]) {
        DifferenceShows(cmd, i, values, ts);
      } else {
        ArgsOne(f, values, cmd.flags[i..]);
        SameScan(cmd, i, values, ts[2..]);
        n := ScanLoses(cmd, i + 1, values, ts[2..]);
      }
    }
  }

  /** Past a flag that came back as it was, the scan goes on with the form's value recorded. */
  lemma SameScan(cmd: Command, i: nat, values: Values, more: seq<string>)
    requires NamesAreWords(cmd.flags) && IsForm(cmd.flags, values) && i < |cmd.flags| && cmd.flags[i].name in values
    requires Filled(cmd.flags[i], values) ==> values[cmd.flags[i].name] == ["true"]
    ensures var table, f := ByName(cmd.flags), cmd.flags[i];
      var here := Scan(table, ["--" + f.name, values[f.name][0]] + more, Seen(cmd.flags, i, values));
      var there := Scan(table, more, Seen(cmd.flags, i + 1, values));
      here.Ok? ==> there.Ok? && here.value.0 == there.value.0
  {
    var f := cmd.flags[i];
    SeenNext(cmd.flags, i, values);
    LookupByName(cmd.flags, f);
    ScanPair(ByName(cmd.flags), f, values[f.name][0], more, Seen(cmd.flags, i, values));
    ScanStray(ByName(cmd.flags), more, Seen(cmd.flags, i + 1, values));
  }

  lemma NotYetSeen(flags: seq<Flag>, i: nat, values: Values)
    requires i < |flags| && DistinctFlagNames(flags)
    ensures flags[i].name !in Seen(flags, i, values)
  {
  }

  lemma ArgsOne(f: Flag, values: Values, flags: seq<Flag>)
    requires flags != [] && flags[0] == f && f.name in values && |values[f.name]| == 1
    ensures Args(flags, values) == ["--" + f.name, values[f.name][0]] + Args(flags[1..], values)
  {
    assert ArgsOf(f, values[f.name]) == ["--" + f.name, values[f.name][0]] by {
      assert values[f.name][1..] == [];
    }
  }

  lemma ScanPair(table: Table, f: Flag, v: string, more: seq<string>, seen: Values)
    requires IsFlagName(f.name) && f.name in table && table[f.name] == f
    ensures Scan(table, ["--" + f.name, v] + more, seen) ==
      if f.kind.KBool? then Scan(table, [v] + more, AddValue(seen, f.name, "true"))
      else Scan(table, more, AddValue(seen, f.name, v))
  {
    var t := "--" + f.name;
    var argv := [t, v] + more;
    assert Bare(t) == f.name;
    assert f.name[..IndexOf(f.name, '=')] == f.name;
    assert argv[2..] == more && argv[0] == t && argv[1] == v && argv[1..] == [v] + more;
  }

  lemma {:induction false} StraysWhenFilled(flags: seq<Flag>, values: Values)
    ensures Strays(flags, values) == [] <==> NoSwitch(flags, values)
  {
    if flags != [] {
      StraysWhenFilled(flags[1..], values);
      assert flags == [flags[0]] + flags[1..];
    }
  }

  /** Parsing what the inspector prints gives the form back exactly when no switch in it is filled in. */
  lemma PrintedPartsParse(cmd: Command, values: Values)
    requires NamesAreWords(cmd.flags) && IsForm(cmd.flags, values)
    ensures WebParse(cmd, Args(cmd.flags, values)) == Ok(values) <==> NoSwitch(cmd.flags, values)
  {
    assert cmd.flags[0..] == cmd.flags && Seen(cmd.flags, 0, values) == map[];
    if Truthful(cmd.flags, values) {
      ScanArgs(cmd, 0, values);
      StraysWhenFilled(cmd.flags, values);
      if NoSwitch(cmd.flags, values) {
        NothingToAssign(Positionals(cmd), values);
      } else {
        BareArgumentsShow(Positionals(cmd), Strays(cmd.flags, values), values);
      }
    } else {
      RetoldAsTheyAre(Args(cmd.flags, values));
      OtherwiseIsLost(cmd, values, Args(cmd.flags, values));
    }
  }

  /** Tokens that are not the printed parts, or hold a switch that is not `true`, do not parse into the form's values. */
  lemma OtherwiseIsLost(cmd: Command, values: Values, ts: seq<string>)
    requires NamesAreWords(cmd.flags) && IsForm(cmd.flags, values) && Retold(Args(cmd.flags, values), ts)
    requires !(ts == Args(cmd.flags, values) && Truthful(cmd.flags, values))
    ensures WebParse(cmd, ts) != Ok(values)
  {
    assert cmd.flags[0..] == cmd.flags && Seen(cmd.flags, 0, values) == map[];
    var n := ScanLoses(cmd, 0, values, ts);
    var r := Scan(ByName(cmd.flags), ts, map[]);
    if r.Ok? && AssignFrom(Positionals(cmd), r.value.1, r.value.0).Ok? {
      AssignKeepsGiven(Positionals(cmd), r.value.1, r.value.0, n);
      assert values[n] == [values[n][0]];
    }
  }

  /** The line is the command's name and its printed parts; and the name comes back first. */
  lemma LineTokens(cmd: Command, args: seq<string>)
    requires IsWord(cmd.name)
    ensures Tokenized(cmd.name + Joined(args)) == Tokens(Joined(args), cmd.name, None, true)
  {
    WordSurvives(cmd.name);
    ReadRun(cmd.name, Joined(args), "", None, false);
    assert "" + cmd.name == cmd.name;
  }

  /**
    The inspector's line, typed into the terminal: its parts come back exactly when every value survives being shown,
    they would parse into the values the form held exactly when no switch is filled in, and the typed line does parse
    into those values exactly when both is so.
  */
  lemma RetypingTheLine(cmd: Command, values: Values)
    requires NamesAreWords(cmd.flags) && IsForm(cmd.flags, values) && IsWord(cmd.name)
    ensures Tokenized(Line(cmd, values)) == Ok([cmd.name] + Args(cmd.flags, values))
      <==> forall n :: n in values ==> Survives(values[n][0])
    ensures WebParse(cmd, Args(cmd.flags, values)) == Ok(values) <==> NoSwitch(cmd.flags, values)
    ensures var t := Tokenized(Line(cmd, values));
      (t.Ok? && t.value != [] && WebParse(cmd, t.value[1..]) == Ok(values)) <==>
      (NoSwitch(cmd.flags, values) && forall n :: n in values ==> Survives(values[n][0]))
  {
    PartsComeBack(cmd, values);
    PrintedPartsParse(cmd, values);
    WholeLine(cmd, values, Tokenized(Line(cmd, values)));
  }

  /** The printed parts come back exactly when every value survives, and otherwise they are retold. */
  lemma PartsComeBack(cmd: Command, values: Values)
    requires NamesAreWords(cmd.flags) && IsForm(cmd.flags, values) && IsWord(cmd.name)
    ensures var t, args := Tokenized(Line(cmd, values)), Args(cmd.flags, values);
      && (t == Ok([cmd.name] + args) <==> forall n :: n in values ==> Survives(values[n][0]))
      && (t.Ok? ==> t.value != [] && t.value[0] == cmd.name && Retold(args, t.value[1..]))
  {
    var args := Args(cmd.flags, values);
    ArgsSurvive(cmd.flags, values);
    LineTokens(cmd, args);
    ReadJoined(args, cmd.name);
    LineIsRetold(args, cmd.name);
    assert forall n :: n in values ==> exists f :: f in cmd.flags && f.name == n;
  }

  lemma WholeLine(cmd: Command, values: Values, t: Result<seq<string>, LineError>)
    requires NamesAreWords(cmd.flags) && IsForm(cmd.flags, values)
    requires WebParse(cmd, Args(cmd.flags, values)) == Ok(values) <==> NoSwitch(cmd.flags, values)
    requires t.Ok? ==> t.value != [] && t.value[0] == cmd.name && Retold(Args(cmd.flags, values), t.value[1..])
    ensures t.Ok? && t.value != [] && WebParse(cmd, t.value[1..]) == Ok(values) <==>
      NoSwitch(cmd.flags, values) && t == Ok([cmd.name] + Args(cmd.flags, values))
  {
    if t.Ok? {
      assert t.value == [cmd.name] + t.value[1..];
      if t.value[1..] != Args(cmd.flags, values) {
        OtherwiseIsLost(cmd, values, t.value[1..]);
        assert ([cmd.name] + Args(cmd.flags, values))[1..] == Args(cmd.flags, values);
      }
    }
  }

  /** A switch that was set to `true` and printed: the parser takes its value for an argument nobody asked for. */
  lemma PrintedSwitchIsRefused(cmd: Command, f: Flag)
    requires cmd.flags == [f] && f.kind.KBool? && f.positional == 0 && IsWord(f.name) && f.short == ""
    ensures Args(cmd.flags, map[f.name := ["true"]]) == ["--" + f.name, "true"]
    ensures WebParse(cmd, ["--" + f.name, "true"]) == Err(Unexpected("true"))
  {
    var values := map[f.name := ["true"]];
    assert cmd.flags[0..] == cmd.flags && Seen(cmd.flags, 0, values) == map[];
    assert [f][1..] == [] && [f][..0] == [];
    ArgsOne(f, values, cmd.flags);
    assert Args(cmd.flags, values) == ["--" + f.name, "true"] + [];
    ScanArgs(cmd, 0, values);
    assert Positional([f]) == Positional([]);
    assert Strays([f], values) == ["true"] + [];
  }

  lemma {:induction false} NothingToAssign(ps: seq<Flag>, values: Values)
    ensures AssignFrom(ps, [], values) == Ok(values)
  {
    if ps != [] { NothingToAssign(ps[1..], values); }
  }
}
