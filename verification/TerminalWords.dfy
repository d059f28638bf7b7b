/**
  What a typed line says, apart from how the terminal splits it: characters, quoted parts and gaps. A line that is split
  at all is made of these, and is split into the words between the gaps.
*/
module TerminalWords {
  import opened Basics
  import opened Terminal

  /** A space or a tab; a character that stands for itself; and text in quotes, where double ones allow a backslash. */
  datatype Part = Gap(tab: bool) | Bare(c: char) | Single(text: string) | Double(cs: seq<Quoted>)
  datatype Quoted = Quoted(c: char, escaped: bool)

  predicate Fits(p: Part) {
    match p
    case Gap(_) => true
    case Bare(c) => c != ' ' && c != '\t' && c != '"' && c != '\''
    case Single(text) => '\'' !in text
    case Double(cs) => forall i :: 0 <= i < |cs| ==> cs[i].escaped || (cs[i].c != '"' && cs[i].c != '\\')
  }

  predicate AllFit(ps: seq<Part>) { forall i :: 0 <= i < |ps| ==> Fits(ps[i]) }

  function Inside(cs: seq<Quoted>): string {
    if cs == [] then "" else (if cs[0].escaped then ['\\', cs[0].c] else [cs[0].c]) + Inside(cs[1..])
  }

  function Unquoted(cs: seq<Quoted>): string { if cs == [] then "" else [cs[0].c] + Unquoted(cs[1..]) }

  function Spelling(p: Part): string {
    match p
    case Gap(tab) => if tab then "\t" else " "
    case Bare(c) => [c]
    case Single(text) => ['\''] + (text + ['\''])
    case Double(cs) => ['"'] + (Inside(cs) + ['"'])
  }

  function Text(p: Part): string {
    match p case Gap(_) => "" case Bare(c) => [c] case Single(text) => text case Double(cs) => Unquoted(cs)
  }

  function Typed(ps: seq<Part>): string { if ps == [] then "" else Spelling(ps[0]) + Typed(ps[1..]) }

  /** What stands between two gaps is one word, an empty one too if it is quoted. */
  function Words(ps: seq<Part>): (w: seq<string>)
    ensures ps != [] && !ps[0].Gap? ==> w != []
    decreases |ps|, 0
  {
    if ps == [] then []
    else if ps[0].Gap? then Words(ps[1..])
    else Behind(Text(ps[0]), ps[1..])
  }

  /** A word that has begun goes on up to the next gap. */
  function Behind(begun: string, ps: seq<Part>): (w: seq<string>)
    ensures w != []
    decreases |ps|, 1
  {
    if ps != [] && !ps[0].Gap? then
      var w := Words(ps);
      [begun + w[0]] + w[1..]
    else [begun] + Words(ps)
  }

  // ---- splitting finds the words ------------------------------------------

  lemma {:induction false} ReadSingle(text: string, rest: string, cur: string)
    requires '\'' !in text
    ensures Tokens(text + (['\''] + rest), cur, Some('\''), true) == Tokens(rest, cur + text, None, true)
  {
    var s := text + (['\''] + rest);
    if text == "" {
      assert s == ['\''] + rest && s[1..] == rest && cur + text == cur;
    } else {
      assert s[0] == text[0] && s[1..] == text[1..] + (['\''] + rest);
      ReadSingle(text[1..], rest, cur + [text[0]]);
      assert cur + [text[0]] + text[1..] == cur + text;
    }
  }

  lemma {:induction false} ReadDouble(cs: seq<Quoted>, rest: string, cur: string)
    requires Fits(Double(cs))
    ensures Tokens(Inside(cs) + (['"'] + rest), cur, Some('"'), true) == Tokens(rest, cur + Unquoted(cs), None, true)
  {
    var s := Inside(cs) + (['"'] + rest);
    if cs == [] {
      assert s == ['"'] + rest && s[1..] == rest && cur + "" == cur;
    } else {
      var c, tail := cs[0].c, Inside(cs[1..]) + (['"'] + rest);
      ReadDouble(cs[1..], rest, cur + [c]);
      assert cur + [c] + Unquoted(cs[1..]) == cur + Unquoted(cs);
      OneMoreQuoted(cs[0], cs[1..], ['"'] + rest);
      assert [cs[0]] + cs[1..] == cs;
      if cs[0].escaped { assert s[2..] == tail; } else { assert s[1..] == tail; }
    }
  }

  /** One part that is not a gap goes to the word that has begun, or begins one. */
  lemma ReadPartOf(p: Part, rest: string, cur: string, started: bool)
    requires Fits(p) && !p.Gap?
    ensures Tokens(Spelling(p) + rest, cur, None, started) == Tokens(rest, cur + Text(p), None, true)
  {
    match p
    case Bare(c) => assert ([c] + rest)[1..] == rest;
    case Single(text) =>
      Enclosed('\'', text, rest, cur, started);
      ReadSingle(text, rest, cur);
    case Double(cs) =>
      Enclosed('"', Inside(cs), rest, cur, started);
      ReadDouble(cs, rest, cur);
  }

  lemma Enclosed(q: char, inside: string, rest: string, cur: string, started: bool)
    requires IsQuote(q)
    ensures Tokens([q] + (inside + [q]) + rest, cur, None, started)
      == Tokens(inside + ([q] + rest), cur, Some(q), true)
  {
    Assoc([q], inside + [q], rest);
    Assoc(inside, [q], rest);
    assert ([q] + (inside + ([q] + rest)))[1..] == inside + ([q] + rest);
  }

  lemma BehindMore(begun: string, ps: seq<Part>)
    requires ps != [] && !ps[0].Gap?
    ensures Behind(begun, ps) == Behind(begun + Text(ps[0]), ps[1..])
  {
    var first, more := Text(ps[0]), ps[1..];
    var w, v := Behind(first, more), Words(more);
    assert Behind(begun, ps) == [begun + w[0]] + w[1..];
    if more != [] && !more[0].Gap? {
      assert w[0] == first + v[0] && w[1..] == v[1..];
      Assoc(begun, first, v[0]);
    } else {
      assert w[0] == first && w[1..] == v;
    }
  }

  lemma {:induction false} TokensAreWords(ps: seq<Part>, cur: string, started: bool)
    requires AllFit(ps) && (!started ==> cur == "")
    ensures Tokens(Typed(ps), cur, None, started) == Ok(if started then Behind(cur, ps) else Words(ps))
  {
    if ps == [] {
      assert [cur] + [] == [cur];
    } else {
      var p, more := ps[0], ps[1..];
      assert Typed(ps)[|Spelling(p)|..] == Typed(more);
      if p.Gap? {
        TokensAreWords(more, "", false);
        assert [] + Words(more) == Words(more);
        assert Words(ps) == Words(more);
      } else {
        ReadPartOf(p, Typed(more), cur, started);
        TokensAreWords(more, cur + Text(p), true);
        if started { BehindMore(cur, ps); } else { assert cur + Text(p) == Text(p); }
      }
    }
  }

  // ---- every line that is split is made of parts --------------------------

  /** The rest of a quoted text, up to its closing quote. */
  lemma {:induction false} SingleOf(s: string, cur: string) returns (text: string, rest: string)
    requires Tokens(s, cur, Some('\''), true).Ok?
    ensures '\'' !in text && s == text + (['\''] + rest) && Tokens(rest, cur + text, None, true).Ok?
    decreases |s|
  {
    if s[0] == '\'' {
      text, rest := "", s[1..];
      assert cur + text == cur;
    } else {
      var more;
      more, rest := SingleOf(s[1..], cur + [s[0]]);
      text := [s[0]] + more;
      assert s == [s[0]] + s[1..];
      Assoc([s[0]], more, ['\''] + rest);
      Assoc(cur, [s[0]], more);
    }
  }

  lemma {:induction false} DoubleOf(s: string, cur: string) returns (cs: seq<Quoted>, rest: string)
    requires Tokens(s, cur, Some('"'), true).Ok?
    ensures Fits(Double(cs)) && s == Inside(cs) + (['"'] + rest) && Tokens(rest, cur + Unquoted(cs), None, true).Ok?
    decreases |s|
  {
    if s[0] == '"' {
      cs, rest := [], s[1..];
      assert cur + Unquoted(cs) == cur;
    } else {
      var escaped := s[0] == '\\' && |s| > 1;
      var n := if escaped then 2 else 1;
      var c := s[n - 1];
      LoneBackslash(cur);
      assert s != ['\\'];
      var more;
      more, rest := DoubleOf(s[n..], cur + [c]);
      cs := [Quoted(c, escaped)] + more;
      OneMoreQuoted(Quoted(c, escaped), more, ['"'] + rest);
      assert s == s[..n] + s[n..];
      Assoc(cur, [c], Unquoted(more));
    }
  }

  lemma LoneBackslash(cur: string)
    ensures Tokens(['\\'], cur, Some('"'), true).Err?
  {
    assert ['\\'][1..] == [];
  }

  lemma OneMoreQuoted(q: Quoted, more: seq<Quoted>, rest: string)
    ensures Inside([q] + more) + rest == (if q.escaped then ['\\', q.c] else [q.c]) + (Inside(more) + rest)
    ensures Unquoted([q] + more) == [q.c] + Unquoted(more)
  {
    assert ([q] + more)[1..] == more;
    Assoc(if q.escaped then ['\\', q.c] else [q.c], Inside(more), rest);
  }

  /** The first part of a line that is split. */
  lemma FirstPart(s: string, cur: string, started: bool) returns (p: Part)
    requires s != "" && Tokens(s, cur, None, started).Ok?
    ensures Fits(p) && Spelling(p) <= s
    ensures Tokens(s[|Spelling(p)|..], if p.Gap? then "" else cur + Text(p), None, !p.Gap?).Ok?
  {
    if s[0] == '\'' {
      var text, rest := SingleOf(s[1..], cur);
      p := Single(text);
      assert s == Spelling(p) + rest;
    } else if s[0] == '"' {
      var cs, rest := DoubleOf(s[1..], cur);
      p := Double(cs);
      assert s == Spelling(p) + rest;
    } else if s[0] == ' ' || s[0] == '\t' {
      p := Gap(s[0] == '\t');
    } else {
      p := Bare(s[0]);
    }
  }

  lemma {:induction false} PartsOf(s: string, cur: string, started: bool) returns (ps: seq<Part>)
    requires Tokens(s, cur, None, started).Ok?
    ensures AllFit(ps) && Typed(ps) == s
    decreases |s|
  {
    ps := [];
    if s != "" {
      var p := FirstPart(s, cur, started);
      var more := PartsOf(s[|Spelling(p)|..], if p.Gap? then "" else cur + Text(p), !p.Gap?);
      ps := [p] + more;
      OneMorePart(p, more, s);
    }
  }

  lemma OneMorePart(p: Part, more: seq<Part>, s: string)
    requires Spelling(p) <= s && Typed(more) == s[|Spelling(p)|..]
    ensures Typed([p] + more) == s
  {
    assert ([p] + more)[1..] == more;
  }

  /** The lines that are split, with the words they are split into, are exactly those typed from parts. */
  lemma SplitsExactly(line: string, words: seq<string>)
    ensures Tokenized(line) == Ok(words) <==> exists ps :: AllFit(ps) && Typed(ps) == line && Words(ps) == words
  {
    if Tokenized(line).Ok? {
      var ps := PartsOf(line, "", false);
      TokensAreWords(ps, "", false);
    }
    if ps :| AllFit(ps) && Typed(ps) == line && Words(ps) == words { TokensAreWords(ps, "", false); }
  }

  // ---- a quote that is left open ------------------------------------------

  /** What can stand behind a quote that is never closed; a last backslash has nothing to stand for. */
  ghost predicate Unclosed(q: char, inner: string) {
    if q == '\'' then '\'' !in inner
    else q == '"' && exists cs :: Fits(Double(cs)) && (inner == Inside(cs) || inner == Inside(cs) + "\\")
  }

  lemma {:induction false} SingleStaysOpen(inner: string, cur: string)
    requires '\'' !in inner
    ensures Tokens(inner, cur, Some('\''), true) == Err(Unbalanced('\''))
  {
    if inner != "" { SingleStaysOpen(inner[1..], cur + [inner[0]]); }
  }

  lemma {:induction false} DoubleStaysOpen(cs: seq<Quoted>, last: string, cur: string)
    requires Fits(Double(cs)) && (last == "" || last == "\\")
    ensures Tokens(Inside(cs) + last, cur, Some('"'), true) == Err(Unbalanced('"'))
  {
    if cs == [] {
      assert Inside(cs) + last == last;
      if last != "" { assert last[1..] == ""; }
    } else {
      var c, tail := cs[0].c, Inside(cs[1..]) + last;
      DoubleStaysOpen(cs[1..], last, cur + [c]);
      OneMoreQuoted(cs[0], cs[1..], last);
      assert [cs[0]] + cs[1..] == cs;
      var s := Inside(cs) + last;
      if cs[0].escaped { assert s[2..] == tail; } else { assert s[1..] == tail; }
    }
  }

  lemma StaysOpen(q: char, inner: string, cur: string, started: bool)
    requires Unclosed(q, inner)
    ensures Tokens([q] + inner, cur, None, started) == Err(Unbalanced(q))
  {
    assert ([q] + inner)[1..] == inner;
    if q == '\'' {
      SingleStaysOpen(inner, cur);
    } else {
      var cs :| Fits(Double(cs)) && (inner == Inside(cs) || inner == Inside(cs) + "\\");
      if inner == Inside(cs) {
        assert inner + "" == inner;
        DoubleStaysOpen(cs, "", cur);
      } else {
        DoubleStaysOpen(cs, "\\", cur);
      }
    }
  }

  lemma {:induction false} OpenBehind(ps: seq<Part>, q: char, inner: string, cur: string, started: bool)
    requires AllFit(ps) && Unclosed(q, inner)
    ensures Tokens(Typed(ps) + ([q] + inner), cur, None, started) == Err(Unbalanced(q))
  {
    var tail := [q] + inner;
    if ps == [] {
      assert Typed(ps) + tail == tail;
      StaysOpen(q, inner, cur, started);
    } else {
      var p, more := ps[0], ps[1..];
      Assoc(Spelling(p), Typed(more), tail);
      if p.Gap? {
        assert (Spelling(p) + (Typed(more) + tail))[1..] == Typed(more) + tail;
        OpenBehind(more, q, inner, "", false);
      } else {
        ReadPartOf(p, Typed(more) + tail, cur, started);
        OpenBehind(more, q, inner, cur + Text(p), true);
      }
    }
  }

  /** A text behind a single quote, up to the quote that closes it or to the end. */
  lemma SingleSplits(s: string) returns (text: string, rest: string, closed: bool)
    ensures '\'' !in text && s == text + if closed then ['\''] + rest else ""
  {
    var i := IndexOf(s, '\'');
    text, closed := s[..i], i < |s|;
    rest := if closed then s[i + 1..] else "";
  }

  lemma {:induction false} DoubleSplits(s: string) returns (cs: seq<Quoted>, rest: string, closed: bool)
    ensures Fits(Double(cs)) && if closed then s == Inside(cs) + (['"'] + rest) else Unclosed('"', s)
  {
    if s == "" || s == "\\" {
      cs, rest, closed := [], "", false;
      assert Fits(Double(cs)) && (s == Inside(cs) || s == Inside(cs) + "\\");
    } else if s[0] == '"' {
      cs, rest, closed := [], s[1..], true;
    } else {
      var escaped := s[0] == '\\';
      var n := if escaped then 2 else 1;
      var q := Quoted(s[n - 1], escaped);
      var more;
      more, rest, closed := DoubleSplits(s[n..]);
      cs := [q] + more;
      assert s == s[..n] + s[n..];
      if closed { OneMoreQuoted(q, more, ['"'] + rest); } else { MoreUnclosed(q, s[n..], s); }
    }
  }

  lemma MoreUnclosed(q: Quoted, inner: string, s: string)
    requires (q.escaped || (q.c != '"' && q.c != '\\')) && Unclosed('"', inner)
    requires s == (if q.escaped then ['\\', q.c] else [q.c]) + inner
    ensures Unclosed('"', s)
  {
    var cs :| Fits(Double(cs)) && (inner == Inside(cs) || inner == Inside(cs) + "\\");
    OneMoreQuoted(q, cs, "");
    OneMoreQuoted(q, cs, "\\");
    assert Inside(cs) + "" == Inside(cs) && Inside([q] + cs) + "" == Inside([q] + cs);
    assert Fits(Double([q] + cs)) && (s == Inside([q] + cs) || s == Inside([q] + cs) + "\\");
  }

  /** The parts in front of the quote that a line leaves open. */
  lemma {:induction false} OpenOf(s: string, cur: string, started: bool) returns (ps: seq<Part>, q: char, inner: string)
    requires Tokens(s, cur, None, started).Err?
    ensures AllFit(ps) && Unclosed(q, inner) && s == Typed(ps) + ([q] + inner)
    decreases |s|
  {
    var closed, p := true, Bare(s[0]);
    if s[0] == '\'' {
      var text, rest, end := SingleSplits(s[1..]);
      closed, p := end, Single(text);
    } else if s[0] == '"' {
      var cs, rest, end := DoubleSplits(s[1..]);
      closed, p := end, Double(cs);
    } else if s[0] == ' ' || s[0] == '\t' {
      p := Gap(s[0] == '\t');
    }
    assert s == [s[0]] + s[1..];
    if !closed {
      ps, q, inner := [], s[0], s[1..];
      assert s == Typed(ps) + ([q] + inner);
    } else {
      var tail := s[|Spelling(p)|..];
      assert s == Spelling(p) + tail;
      if !p.Gap? { ReadPartOf(p, tail, cur, started); }
      var more;
      more, q, inner := OpenOf(tail, if p.Gap? then "" else cur + Text(p), !p.Gap?);
      ps := [p] + more;
      assert ps[1..] == more;
      Assoc(Spelling(p), Typed(more), [q] + inner);
    }
  }

  /** A line is refused for a quote exactly when that quote stands behind whole parts and is never closed. */
  lemma RefusesExactly(line: string, q: char)
    ensures Tokenized(line) == Err(Unbalanced(q)) <==>
      exists ps, inner :: AllFit(ps) && Unclosed(q, inner) && line == Typed(ps) + ([q] + inner)
  {
    if Tokenized(line).Err? {
      var ps, p, inner := OpenOf(line, "", false);
      OpenBehind(ps, p, inner, "", false);
    }
    if ps, inner :| AllFit(ps) && Unclosed(q, inner) && line == Typed(ps) + ([q] + inner) {
      OpenBehind(ps, q, inner, "", false);
    }
  }
}
