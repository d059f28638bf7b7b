/**
  What a command line says, apart from how either parser reads it: a list of items, each spelled in one of the ways
  that the documentation of the flags gives. Reading the spelled items finds exactly what they say, and a command line
  that is accepted is one that can be spelled so.
*/
module TypedLine {
  import opened Basics
  import opened CommandSpec
  import opened CommandLine
  import opened Parsing

  /** `--tier=web`, `--tier web`, `--force` and a bare argument; `token` is the flag as it is spelled. */
  datatype Item =
    | Inline(f: Flag, token: string, v: string)
    | Pair(f: Flag, token: string, v: string)
    | Switch(f: Flag, token: string)
    | Argument(v: string)

  /** One dash or two, in front of the name or of the short one. */
  predicate Spells(token: string, f: Flag) {
    || token == "--" + f.name || token == "-" + f.name
    || (f.short != "" && (token == "--" + f.short || token == "-" + f.short))
  }

  predicate Fits(flags: seq<Flag>, i: Item) {
    match i
    case Inline(f, token, _) => f in flags && Spells(token, f)
    case Pair(f, token, _) => f in flags && Spells(token, f) && !f.kind.KBool?
    case Switch(f, token) => f in flags && Spells(token, f) && f.kind.KBool?
    case Argument(v) => v == "" || v == "-" || v[0] != '-'
  }

  predicate AllFit(flags: seq<Flag>, items: seq<Item>) { forall k :: 0 <= k < |items| ==> Fits(flags, items[k]) }

  function Words(i: Item): seq<string> {
    match i
    case Inline(_, token, v) => [token + ['='] + v]
    case Pair(_, token, v) => [token, v]
    case Switch(_, token) => [token]
    case Argument(v) => [v]
  }

  /** The command line that the items are typed as. */
  function Typed(items: seq<Item>): seq<string> { if items == [] then [] else Words(items[0]) + Typed(items[1..]) }

  /** The values that an item gives a field: its own, or `true` for a switch. */
  function ValueOf(i: Item, name: string): seq<string> {
    if i.Argument? || i.f.name != name then [] else [if i.Switch? then "true" else i.v]
  }

  /** All the values given for a field, in the order they were typed. */
  function ValuesOf(items: seq<Item>, name: string): seq<string> {
    if items == [] then [] else ValueOf(items[0], name) + ValuesOf(items[1..], name)
  }

  function ArgumentsOf(items: seq<Item>): seq<string> {
    if items == [] then [] else (if items[0].Argument? then [items[0].v] else []) + ArgumentsOf(items[1..])
  }

  // ---- spellings ----------------------------------------------------------

  lemma {:induction false} TableHolds(flags: seq<Flag>, f: Flag)
    requires Registrable(flags) && f in flags
    ensures f.name in ByName(flags) && ByName(flags)[f.name] == f && IsFlagName(f.name)
    ensures f.short != "" ==> f.short in ByName(flags) && ByName(flags)[f.short] == f && IsFlagName(f.short)
  {
    var front, last := flags[..|flags| - 1], flags[|flags| - 1];
    assert flags == front + [last];
    if f != last { TableHolds(front, f); }
  }

  lemma BareSpelling(w: string)
    requires w != "" && w[0] != '-'
    ensures Bare("--" + w) == w && LooksLikeFlag("--" + w)
    ensures Bare("-" + w) == w && LooksLikeFlag("-" + w)
  {
    var two, one := "--" + w, "-" + w;
    assert two[2..] == w && one[1..] == w && one[1] == w[0];
  }

  lemma KeyOfInline(n: string, v: string)
    requires IsFlagName(n)
    ensures var name := n + ['='] + v; IndexOf(name, '=') == |n| && name[..|n|] == n && name[|n| + 1..] == v
  {
    var name := n + ['='] + v;
    assert name[|n|] == '=';
    assert forall k :: 0 <= k < |n| ==> name[k] == n[k];
  }

  lemma ReadsInline(flags: seq<Flag>, f: Flag, n: string, token: string, v: string)
    requires Registrable(flags) && f in flags && (n == f.name || (f.short != "" && n == f.short))
    requires token == "--" + n || token == "-" + n
    ensures Known(ByName(flags), token + ['='] + v)
    ensures var name := Bare(token + ['='] + v); var eq := IndexOf(name, '=');
      eq < |name| && ByName(flags)[name[..eq]] == f && name[eq + 1..] == v
  {
    var w := n + ['='] + v;
    TableHolds(flags, f);
    KeyOfInline(n, v);
    BareSpelling(w);
    Behind("--", n, v);
    Behind("-", n, v);
    assert w[0] == n[0];
  }

  lemma Behind(dashes: string, n: string, v: string)
    ensures dashes + n + ['='] + v == dashes + (n + ['='] + v)
  {
    Assoc(dashes, n, ['=']);
    Assoc(dashes, n + ['='], v);
  }

  lemma ReadsToken(flags: seq<Flag>, f: Flag, n: string, token: string)
    requires Registrable(flags) && f in flags && (n == f.name || (f.short != "" && n == f.short))
    requires token == "--" + n || token == "-" + n
    ensures LooksLikeFlag(token) && Bare(token) == n && n in ByName(flags) && ByName(flags)[n] == f
    ensures IndexOf(n, '=') == |n| && n[..|n|] == n
  {
    TableHolds(flags, f);
    BareSpelling(n);
  }

  /** The flag's name or its short one, whichever the token spells. */
  lemma Spelled(token: string, f: Flag) returns (n: string)
    requires Spells(token, f)
    ensures n == f.name || (f.short != "" && n == f.short)
    ensures token == "--" + n || token == "-" + n
  {
    n := if token == "--" + f.name || token == "-" + f.name then f.name else f.short;
  }

  /** The values with those that one item gives. */
  function With(values: Values, i: Item): Values {
    match i
    case Inline(f, _, v) => AddValue(values, f.name, v)
    case Pair(f, _, v) => AddValue(values, f.name, v)
    case Switch(f, _) => AddValue(values, f.name, "true")
    case Argument(_) => values
  }

  /** One item at the front of a command line. */
  lemma ScanItem(flags: seq<Flag>, i: Item, more: seq<string>, values: Values)
    requires Registrable(flags) && Fits(flags, i)
    ensures Scan(ByName(flags), Words(i) + more, values) ==
      InFront(if i.Argument? then [i.v] else [], Scan(ByName(flags), more, With(values, i)))
  {
    InFrontNothing(Scan(ByName(flags), more, With(values, i)));
    if i.Argument? {
      assert ([i.v] + more)[1..] == more;
      ScanBare(ByName(flags), [i.v] + more, values);
    } else {
      var n := Spelled(i.token, i.f);
      if i.Inline? {
        ReadsInline(flags, i.f, n, i.token, i.v);
        ScanOne(ByName(flags), i.token + ['='] + i.v, more, values);
      } else {
        ReadsToken(flags, i.f, n, i.token);
        if i.Switch? { ScanOne(ByName(flags), i.token, more, values); }
        else { ScanTwo(ByName(flags), i.token, i.v, more, values); }
      }
    }
  }

  /** A token that says all: `--name=value`, or a switch. */
  lemma ScanOne(table: Table, t: string, more: seq<string>, values: Values)
    requires LooksLikeFlag(t)
    requires var name := Bare(t); var eq := IndexOf(name, '=');
      name[..eq] in table && (eq < |name| || table[name[..eq]].kind.KBool?)
    ensures var name := Bare(t); var eq := IndexOf(name, '='); var f := table[name[..eq]];
      Scan(table, [t] + more, values) ==
        Scan(table, more, AddValue(values, f.name, if eq < |name| then name[eq + 1..] else "true"))
  {
    assert ([t] + more)[1..] == more;
  }

  /** A token whose value is the next one. */
  lemma ScanTwo(table: Table, t: string, v: string, more: seq<string>, values: Values)
    requires LooksLikeFlag(t) && '=' !in Bare(t) && Bare(t) in table && !table[Bare(t)].kind.KBool?
    ensures Scan(table, [t, v] + more, values) == Scan(table, more, AddValue(values, table[Bare(t)].name, v))
  {
    var argv, name := [t, v] + more, Bare(t);
    assert argv[2..] == more && name[..|name|] == name;
  }

  lemma WithGives(values: Values, i: Item, n: string)
    ensures Get(With(values, i), n) == Get(values, n) + ValueOf(i, n)
  {
  }

  /** Reading a spelled command line finds every value that it gives, in the order typed, and the bare arguments. */
  lemma {:induction false} ScanTyped(flags: seq<Flag>, items: seq<Item>, values: Values)
    requires Registrable(flags) && AllFit(flags, items)
    ensures var r := Scan(ByName(flags), Typed(items), values);
      && r.Ok? && r.value.1 == ArgumentsOf(items)
      && forall n :: Get(r.value.0, n) == Get(values, n) + ValuesOf(items, n)
  {
    if items != [] {
      var i, more := items[0], items[1..];
      var next := With(values, i);
      ScanItem(flags, i, Typed(more), values);
      ScanTyped(flags, more, next);
      var r := Scan(ByName(flags), Typed(more), next).value.0;
      forall n ensures Get(r, n) == Get(values, n) + ValuesOf(items, n) {
        WithGives(values, i, n);
        Assoc(Get(values, n), ValueOf(i, n), ValuesOf(more, n));
      }
    }
  }

  // ---- what is accepted can be spelled so ---------------------------------

  lemma {:induction false} TableSpells(flags: seq<Flag>, n: string)
    requires n in ByName(flags)
    ensures var f := ByName(flags)[n]; f in flags && (n == f.name || (f.short != "" && n == f.short))
  {
    var front, last := flags[..|flags| - 1], flags[|flags| - 1];
    assert flags == front + [last];
    if n != last.name && !(last.short != "" && n == last.short) { TableSpells(front, n); }
  }

  function Dashes(t: string): string { if |t| >= 2 && t[1] == '-' then "--" else "-" }

  lemma DashedBare(t: string)
    requires LooksLikeFlag(t)
    ensures t == Dashes(t) + Bare(t)
  {
  }

  lemma TokenOf(t: string, name: string, key: string, v: string)
    requires LooksLikeFlag(t) && name == Bare(t) && name == key + ['='] + v
    ensures t == Dashes(t) + key + ['='] + v
  {
    DashedBare(t);
    Behind(Dashes(t), key, v);
  }

  lemma Cut<T>(s: seq<T>, i: nat, x: T)
    requires i < |s| && s[i] == x
    ensures s == s[..i] + [x] + s[i + 1..]
  {
  }

  /** The item that a flag token is, with the next word when it takes that. */
  function FlagItem(f: Flag, argv: seq<string>): Item
    requires argv != [] && LooksLikeFlag(argv[0])
  {
    var name := Bare(argv[0]);
    var eq := IndexOf(name, '=');
    if eq < |name| then Inline(f, Dashes(argv[0]) + name[..eq], name[eq + 1..])
    else if f.kind.KBool? || |argv| == 1 then Switch(f, argv[0])
    else Pair(f, argv[0], argv[1])
  }

  lemma FlagItemFits(flags: seq<Flag>, f: Flag, argv: seq<string>)
    requires argv != [] && LooksLikeFlag(argv[0]) && f in flags
    requires var name := Bare(argv[0]); var eq := IndexOf(name, '=');
      && (name[..eq] == f.name || (f.short != "" && name[..eq] == f.short))
      && (eq < |name| || f.kind.KBool? || |argv| > 1)
    ensures var i := FlagItem(f, argv);
      Fits(flags, i) && |Words(i)| <= |argv| && Words(i) == argv[..|Words(i)|]
  {
    var name := Bare(argv[0]);
    var eq := IndexOf(name, '=');
    DashedBare(argv[0]);
    if eq < |name| {
      Cut(name, eq, '=');
      TokenOf(argv[0], name, name[..eq], name[eq + 1..]);
    } else {
      assert name[..eq] == name;
    }
  }

  /** The first item of a command line that is accepted, and the words it takes. */
  lemma FirstItem(flags: seq<Flag>, argv: seq<string>, values: Values) returns (i: Item)
    requires argv != [] && Scan(ByName(flags), argv, values).Ok?
    ensures Fits(flags, i) && |Words(i)| <= |argv| && Words(i) == argv[..|Words(i)|]
    ensures Scan(ByName(flags), argv[|Words(i)|..], With(values, i)).Ok?
  {
    if !LooksLikeFlag(argv[0]) {
      i := Argument(argv[0]);
    } else {
      var name := Bare(argv[0]);
      var key := name[..IndexOf(name, '=')];
      TableSpells(flags, key);
      i := FlagItem(ByName(flags)[key], argv);
      FlagItemFits(flags, ByName(flags)[key], argv);
    }
  }

  lemma {:induction false} ItemsOf(flags: seq<Flag>, argv: seq<string>, values: Values) returns (items: seq<Item>)
    requires Scan(ByName(flags), argv, values).Ok?
    ensures AllFit(flags, items) && Typed(items) == argv
    decreases |argv|
  {
    items := [];
    if argv != [] {
      var i := FirstItem(flags, argv, values);
      var more := ItemsOf(flags, argv[|Words(i)|..], With(values, i));
      items := [i] + more;
      assert items[1..] == more;
    }
  }

  /** A command line is accepted, as far as flags go, exactly when it can be spelled from items. */
  lemma AcceptedIsTyped(flags: seq<Flag>, argv: seq<string>)
    requires Registrable(flags)
    ensures Scan(ByName(flags), argv, map[]).Ok? <==> exists items :: AllFit(flags, items) && Typed(items) == argv
  {
    if Scan(ByName(flags), argv, map[]).Ok? {
      var items := ItemsOf(flags, argv, map[]);
      assert AllFit(flags, items) && Typed(items) == argv;
    }
    if items :| AllFit(flags, items) && Typed(items) == argv { ScanTyped(flags, items, map[]); }
  }

  // ---- the whole parse ----------------------------------------------------

  /** The positions that no flag of the line has filled, in position order. */
  function Vacant(ps: seq<Flag>, items: seq<Item>): seq<Flag> {
    if ps == [] then [] else (if ValuesOf(items, ps[0].name) == [] then [ps[0]] else []) + Vacant(ps[1..], items)
  }

  function Collected(ps: seq<Flag>, values: Values): seq<string> {
    if ps == [] then [] else Get(values, ps[0].name) + Collected(ps[1..], values)
  }

  lemma {:induction false} VacantIsOpen(ps: seq<Flag>, items: seq<Item>, before: Values, after: Values)
    requires forall n :: Get(before, n) == ValuesOf(items, n)
    ensures HandedOut(ps, before, after) == Collected(Vacant(ps, items), after)
    ensures Open(ps, before) == |Vacant(ps, items)|
    ensures TakesAnyNumber(ps, before) <==> exists p :: p in Vacant(ps, items) && p.repeated
  {
    if ps != [] {
      VacantIsOpen(ps[1..], items, before, after);
      var first := if ValuesOf(items, ps[0].name) == [] then [ps[0]] else [];
      assert Vacant(ps, items) == first + Vacant(ps[1..], items);
      assert first == [] ==> Vacant(ps, items) == Vacant(ps[1..], items);
      assert first != [] ==> Vacant(ps, items)[1..] == Vacant(ps[1..], items);
      FirstOpen(ps, before);
    }
  }

  lemma FirstOpen(ps: seq<Flag>, values: Values)
    requires ps != []
    ensures TakesAnyNumber(ps, values) <==>
      (ps[0].repeated && Get(values, ps[0].name) == []) || TakesAnyNumber(ps[1..], values)
  {
    if TakesAnyNumber(ps[1..], values) {
      var i :| 0 <= i < |ps[1..]| && ps[1..][i].repeated && Get(values, ps[1..][i].name) == [];
      assert ps[i + 1].repeated && Get(values, ps[i + 1].name) == [];
    }
    if i :| 0 < i < |ps| && ps[i].repeated && Get(values, ps[i].name) == [] {
      assert ps[1..][i - 1].repeated && Get(values, ps[1..][i - 1].name) == [];
    }
  }

  lemma {:induction false} NameOnce(flags: seq<Flag>, f: Flag)
    requires Registrable(flags)
    ensures multiset(flags)[f] <= 1
    ensures f in flags ==> forall g :: g in flags && g.name == f.name ==> g == f
  {
    if flags != [] {
      var front, last := flags[..|flags| - 1], flags[|flags| - 1];
      assert flags == front + [last];
      NameOnce(front, f);
      if last in front { TableHolds(front, last); }
      if f in flags {
        TableHolds(flags, f);
        forall g | g in flags && g.name == f.name ensures g == f { TableHolds(flags, g); }
      }
    }
  }

  lemma {:induction false} PositionalCounts(fs: seq<Flag>, f: Flag)
    ensures multiset(Positional(fs))[f] <= multiset(fs)[f]
  {
    if fs != [] {
      var front, last := fs[..|fs| - 1], fs[|fs| - 1];
      assert fs == front + [last];
      PositionalCounts(front, f);
    }
  }

  lemma Twice<T>(s: seq<T>, i: nat, j: nat)
    requires i < j < |s| && s[i] == s[j]
    ensures multiset(s)[s[i]] >= 2
  {
    assert s == s[..j] + s[j..];
    assert s[..j][i] == s[i] && s[j..][0] == s[i];
  }

  lemma NamesApart(flags: seq<Flag>, ps: seq<Flag>, i: nat, j: nat)
    requires Registrable(flags) && i < j < |ps| && forall f :: multiset(ps)[f] <= multiset(flags)[f]
    ensures ps[i].name != ps[j].name
  {
    var f, g := ps[i], ps[j];
    assert f in multiset(ps) && g in multiset(ps);
    assert f in multiset(flags) && g in multiset(flags);
    NameOnce(flags, f);
    if f == g { Twice(ps, i, j); }
  }

  lemma PositionsDistinct(cmd: Command)
    requires Registrable(cmd.flags)
    ensures DistinctFlagNames(Positionals(cmd))
  {
    var ps := Positionals(cmd);
    SortIsStable(ByPosition, Positional(cmd.flags), 0);
    forall f ensures multiset(ps)[f] <= multiset(cmd.flags)[f] { PositionalCounts(cmd.flags, f); }
    forall i, j | 0 <= i < j < |ps| ensures ps[i].name != ps[j].name { NamesApart(cmd.flags, ps, i, j); }
  }

  /**
    What a command line gives, read by either runner: each flag's values in the order they were typed, and the bare
    arguments to the positions left vacant. It is refused exactly when there are more of them than such positions and
    none of those is repeated.
  */
  lemma ValuesAsTyped(cmd: Command, items: seq<Item>)
    requires Registrable(cmd.flags) && AllFit(cmd.flags, items)
    ensures var w, vacant := WebParse(cmd, Typed(items)), Vacant(Positionals(cmd), items);
      && (w.Err? <==> |ArgumentsOf(items)| > |vacant| && forall p :: p in vacant ==> !p.repeated)
      && (w.Ok? ==> Collected(vacant, w.value) == ArgumentsOf(items))
      && (w.Ok? ==> forall n :: ValuesOf(items, n) != [] || (forall p :: p in Positionals(cmd) ==> p.name != n) ==>
            Get(w.value, n) == ValuesOf(items, n))
      && NativeParse(cmd, Typed(items)).Ok? == w.Ok?
      && (w.Ok? ==> NativeParse(cmd, Typed(items)) == w)
  {
    var table, argv, ps := ByName(cmd.flags), Typed(items), Positionals(cmd);
    ScanTyped(cmd.flags, items, map[]);
    var (values, rest) := Scan(table, argv, map[]).value;
    assert forall n :: [] + ValuesOf(items, n) == ValuesOf(items, n);
    PositionsDistinct(cmd);
    AssignFailsExactly(ps, rest, values);
    var r := AssignFrom(ps, rest, values);
    VacantIsOpen(ps, items, values, if r.Ok? then r.value else values);
    if r.Ok? {
      AssignConserves(ps, rest, values);
      forall n ensures ValuesOf(items, n) != [] || (forall p :: p in ps ==> p.name != n) ==>
        Get(r.value, n) == ValuesOf(items, n) { AssignFrame(ps, rest, values, n); }
    }
    RegistrableIsSound(cmd.flags);
    ParsersAgree(cmd, argv);
    TableNames(cmd.flags);
    if !Plain(table, argv) { NotPlainFails(table, argv, map[]); }
  }

  // ---- which commands can be registered -----------------------------------

  /** Every spelling that the flags take up, in order. */
  function Spellings(flags: seq<Flag>): seq<string> {
    if flags == [] then []
    else
      var f := flags[|flags| - 1];
      Spellings(flags[..|flags| - 1]) + ([f.name] + if f.short != "" then [f.short] else [])
  }

  predicate Distinct(names: seq<string>) { forall i, j :: 0 <= i < j < |names| ==> names[i] != names[j] }

  lemma {:induction false} TableHasSpellings(flags: seq<Flag>, n: string)
    ensures n in ByName(flags) <==> n in Spellings(flags)
  {
    if flags != [] { TableHasSpellings(flags[..|flags| - 1], n); }
  }

  lemma DistinctOneMore(names: seq<string>, n: string)
    ensures Distinct(names + [n]) <==> Distinct(names) && n !in names
  {
    var more := names + [n];
    if Distinct(more) {
      forall i, j | 0 <= i < j < |names| ensures names[i] != names[j] { assert more[i] != more[j]; }
      forall i | 0 <= i < |names| ensures names[i] != n { assert more[i] != more[|names|]; }
    }
  }

  /** Registering a command's flags does not panic exactly when their spellings are flag names, each taken once. */
  lemma {:induction false} RegistrableExactly(flags: seq<Flag>)
    ensures Registrable(flags) <==> NamesAreSound(flags) && Distinct(Spellings(flags))
  {
    if flags != [] {
      var front, f := flags[..|flags| - 1], flags[|flags| - 1];
      assert flags == front + [f];
      RegistrableExactly(front);
      var before := Spellings(front);
      TableHasSpellings(front, f.name);
      TableHasSpellings(front, f.short);
      DistinctOneMore(before, f.name);
      DistinctOneMore(before + [f.name], f.short);
      assert before + ([f.name] + [f.short]) == before + [f.name] + [f.short];
      assert before + ([f.name] + []) == before + [f.name];
    }
  }
}
