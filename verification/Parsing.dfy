/**
  From argv to flag values, as each runner does it. Native: `permute` moves flags ahead of positionals, then Go's
  `flag` package parses them. Web: one left-to-right scan.
*/
module Parsing {
  import opened Basics
  import opened CommandSpec
  import opened CommandLine

  /** Flags by every spelling. A later registration under the same name would win. */
  type Table = map<string, Flag>

  function Register(table: Table, f: Flag): Table {
    var named := table[f.name := f];
    if f.short != "" then named[f.short := f] else named
  }

  function ByName(flags: seq<Flag>): Table {
    if flags == [] then map[] else Register(ByName(flags[..|flags| - 1]), flags[|flags| - 1])
  }

  /** What Go's `flag` package accepts as a name; it panics on anything else, and `--` needs a non-empty one. */
  predicate IsFlagName(n: string) { n != "" && n[0] != '-' && '=' !in n }

  predicate NamesAreSound(flags: seq<Flag>) {
    forall f :: f in flags ==> IsFlagName(f.name) && (f.short != "" ==> IsFlagName(f.short))
  }

  /** What Go's `flag` package registers without a panic: sound names, and no spelling twice. */
  predicate Registrable(flags: seq<Flag>) {
    flags == [] ||
      var front, f := flags[..|flags| - 1], flags[|flags| - 1];
      && Registrable(front)
      && IsFlagName(f.name) && f.name !in ByName(front)
      && (f.short != "" ==> IsFlagName(f.short) && f.short !in ByName(front) && f.short != f.name)
  }

  lemma {:induction false} RegistrableIsSound(flags: seq<Flag>)
    requires Registrable(flags)
    ensures NamesAreSound(flags)
  {
    if flags != [] {
      RegistrableIsSound(flags[..|flags| - 1]);
      assert flags == flags[..|flags| - 1] + [flags[|flags| - 1]];
    }
  }

  lemma {:induction false} TableNames(flags: seq<Flag>)
    requires NamesAreSound(flags)
    ensures forall n :: n in ByName(flags) ==> IsFlagName(n)
    ensures forall n :: n in ByName(flags) ==>
      ByName(flags)[n] in flags && (ByName(flags)[n].name == n || ByName(flags)[n].short == n)
  {
    if flags != [] {
      TableNames(flags[..|flags| - 1]);
      assert flags[|flags| - 1] in flags;
    }
  }

  /** A flag token without its one or two leading dashes. */
  function Bare(t: string): string
    requires t != ""
  {
    if |t| >= 2 && t[1] == '-' then t[2..] else t[1..]
  }

  function TrimDashes(t: string): string {
    if t != "" && t[0] == '-' then TrimDashes(t[1..]) else t
  }

  // ---- native: permute ----------------------------------------------------

  datatype Split = Split(flags: seq<string>, pos: seq<string>, terminated: bool)

  /** The tail of argv sorted into flags with their values and the rest; `--` ends the sorting. */
  function Permuted(table: Table, tail: seq<string>): Split {
    if tail == [] then Split([], [], false)
    else
      var t := tail[0];
      if t == "--" then Split([], tail[1..], true)
      else if LooksLikeFlag(t) then
        var bare := TrimDashes(t);
        if '=' !in bare && bare in table && !table[bare].kind.KBool? && |tail| > 1 then
          var s := Permuted(table, tail[2..]);
          s.(flags := [t, tail[1]] + s.flags)
        else
          var s := Permuted(table, tail[1..]);
          s.(flags := [t] + s.flags)
      else
        var s := Permuted(table, tail[1..]);
        s.(pos := [t] + s.pos)
  }

  function Rejoin(s: Split): seq<string> {
    s.flags + (if s.terminated then ["--"] else []) + s.pos
  }

  /** The first token without a leading dash, which names the subcommand. */
  function CommandIndex(args: seq<string>): (i: nat)
    ensures i <= |args|
    ensures forall m :: 0 <= m < i ==> args[m] != "" && args[m][0] == '-'
    ensures i < |args| ==> args[i] == "" || args[i][0] != '-'
  {
    if args == [] || args[0] == "" || args[0][0] != '-' then 0
    else
      var i := CommandIndex(args[1..]);
      assert forall m :: 0 < m < i + 1 ==> args[m] == args[1..][m - 1];
      i + 1
  }

  function Find(commands: seq<Command>, name: string): Option<Command> {
    if commands == [] then None
    else if commands[0].name == name then Some(commands[0])
    else Find(commands[1..], name)
  }

  function PermutedArgs(commands: seq<Command>, args: seq<string>): seq<string> {
    var at := CommandIndex(args);
    if at == |args| then args
    else match Find(commands, args[at])
      case None => args
      case Some(cmd) => args[..at + 1] + Rejoin(Permuted(ByName(cmd.flags), args[at + 1..]))
  }

  method FindCommand(commands: seq<Command>, name: string) returns (cmd: Option<Command>)
    ensures cmd == Find(commands, name)
  {
    var i := 0;
    while i < |commands|
      invariant 0 <= i <= |commands|
      invariant Find(commands, name) == Find(commands[i..], name)
    {
      if commands[i].name == name { return Some(commands[i]); }
      assert commands[i..][1..] == commands[i + 1..];
      i := i + 1;
    }
    return None;
  }

  /** The known spellings, collected in a loop over the command's flags. */
  method KnownFlags(flags: seq<Flag>) returns (known: Table)
    ensures known == ByName(flags)
  {
    known := map[];
    var k := 0;
    assert flags[..0] == [] && flags[..|flags|] == flags;
    while k < |flags|
      invariant 0 <= k <= |flags|
      invariant known == ByName(flags[..k])
    {
      assert flags[..k + 1][..k] == flags[..k];
      known := Register(known, flags[k]);
      k := k + 1;
    }
  }

  /** The loop of Go's `permute` over the tokens behind the subcommand's name. */
  method PermuteTail(known: Table, tail: seq<string>) returns (s: Split)
    ensures s == Permuted(known, tail)
  {
    var flags, pos, terminated := [], [], false;
    var i := 0;
    assert tail[0..] == tail;
    assert Behind([], [], Permuted(known, tail)) == Permuted(known, tail);
    while i < |tail|
      invariant 0 <= i <= |tail|
      invariant !terminated
      invariant Permuted(known, tail) == Behind(flags, pos, Permuted(known, tail[i..]))
    {
      ghost var left := if i + 1 < |tail| then Permuted(known, tail[i + 2..]) else Split([], [], false);
      BehindTwice(flags, [tail[i]], pos, Permuted(known, tail[i + 1..]));
      if i + 1 < |tail| { BehindTwice(flags, [tail[i], tail[i + 1]], pos, left); }
      BehindPos(flags, pos, [tail[i]], Permuted(known, tail[i + 1..]));
      var t := tail[i];
      assert tail[i..][1..] == tail[i + 1..];
      if t == "--" {
        terminated := true;
        pos := pos + tail[i + 1..];
        break;
      }
      if LooksLikeFlag(t) {
        var bare := TrimDashes(t);
        if '=' !in bare && bare in known && !known[bare].kind.KBool? && i + 1 < |tail| {
          assert tail[i..][2..] == tail[i + 2..];
          flags := flags + [t, tail[i + 1]];
          i := i + 1;
        } else {
          flags := flags + [t];
        }
      } else {
        pos := pos + [t];
      }
      i := i + 1;
    }
    s := Split(flags, pos, terminated);
  }

  ghost function Behind(flags: seq<string>, pos: seq<string>, s: Split): Split {
    Split(flags + s.flags, pos + s.pos, s.terminated)
  }

  lemma BehindTwice(a: seq<string>, b: seq<string>, pos: seq<string>, s: Split)
    ensures Behind(a, pos, s.(flags := b + s.flags)) == Behind(a + b, pos, s)
  {
    assert a + (b + s.flags) == a + b + s.flags;
  }

  lemma BehindPos(flags: seq<string>, a: seq<string>, b: seq<string>, s: Split)
    ensures Behind(flags, a, s.(pos := b + s.pos)) == Behind(flags, a + b, s)
  {
    assert a + (b + s.pos) == a + b + s.pos;
  }

  /** Go's `permute`. */
  method Permute(commands: seq<Command>, args: seq<string>) returns (out: seq<string>)
    ensures out == PermutedArgs(commands, args)
  {
    var name := CommandIndex(args);
    if name == |args| { return args; }
    var cmd := FindCommand(commands, args[name]);
    if cmd.None? { return args; }
    var known := KnownFlags(cmd.value.flags);
    var s := PermuteTail(known, args[name + 1..]);
    out := args[..name + 1] + s.flags;
    if s.terminated { out := out + ["--"]; }
    out := out + s.pos;
    assert out == args[..name + 1] + Rejoin(s);
  }

  // ---- native: Go's flag package ------------------------------------------

  /** `FlagSet.Parse`: stops at the first token that is no flag, or after `--`; boolean flags take no token. */
  function ParseFlagSet(table: Table, args: seq<string>, values: Values)
    : (r: Result<(Values, seq<string>), CliError>)
  {
    if args == [] || !LooksLikeFlag(args[0]) then Ok((values, args))
    else if args[0] == "--" then Ok((values, args[1..]))
    else
      var name := Bare(args[0]);
      if name[0] == '-' || name[0] == '=' then Err(BadSyntax(args[0]))
      else
        var eq := IndexOf(name, '=');
        var key := name[..eq];
        if key !in table then Err(if key == "help" || key == "h" then HelpAsked else Unknown(key))
        else
          var f := table[key];
          if eq < |name| then ParseFlagSet(table, args[1..], AddValue(values, f.name, name[eq + 1..]))
          else if f.kind.KBool? then ParseFlagSet(table, args[1..], AddValue(values, f.name, "true"))
          else if |args| > 1 then ParseFlagSet(table, args[2..], AddValue(values, f.name, args[1]))
          else Err(NeedsValue(key))
  }

  // ---- web: one scan ------------------------------------------------------

  /** The web parser's pass over argv: flag values by name, and the bare arguments. */
  function Scan(table: Table, argv: seq<string>, values: Values): Result<(Values, seq<string>), CliError> {
    if argv == [] then Ok((values, []))
    else if !LooksLikeFlag(argv[0]) then
      match Scan(table, argv[1..], values)
      case Err(e) => Err(e)
      case Ok((v, rest)) => Ok((v, [argv[0]] + rest))
    else
      var name := Bare(argv[0]);
      var eq := IndexOf(name, '=');
      var key := name[..eq];
      if key !in table then Err(Unknown(key))
      else
        var f := table[key];
        if eq < |name| then Scan(table, argv[1..], AddValue(values, f.name, name[eq + 1..]))
        else if f.kind.KBool? then Scan(table, argv[1..], AddValue(values, f.name, "true"))
        else if |argv| > 1 then Scan(table, argv[2..], AddValue(values, f.name, argv[1]))
        else Err(NeedsValue(f.name))
  }

  /** The loop of the web `parseFlags` that fills `values` and `rest`. */
  method ScanFlags(table: Table, argv: seq<string>) returns (r: Result<(Values, seq<string>), CliError>)
    ensures r == Scan(table, argv, map[])
  {
    var values: Values := map[];
    var rest: seq<string> := [];
    var i := 0;
    assert argv[0..] == argv;
    InFrontNothing(Scan(table, argv, map[]));
    while i < |argv|
      invariant 0 <= i <= |argv|
      invariant Scan(table, argv, map[]) == InFront(rest, Scan(table, argv[i..], values))
    {
      var tok := argv[i];
      assert argv[i..][1..] == argv[i + 1..];
      if !LooksLikeFlag(tok) {
        ScanBare(table, argv[i..], values);
        InFrontTwice(rest, [tok], Scan(table, argv[i + 1..], values));
        rest := rest + [tok];
        i := i + 1;
        continue;
      }
      var name := Bare(tok);
      var eq := IndexOf(name, '=');
      var inline := if eq < |name| then Some(name[eq + 1..]) else None;
      if name[..eq] !in table { return Err(Unknown(name[..eq])); }
      var f := table[name[..eq]];
      if inline.Some? {
        values := AddValue(values, f.name, inline.value);
      } else if f.kind.KBool? {
        values := AddValue(values, f.name, "true");
      } else if i + 1 < |argv| {
        assert argv[i..][2..] == argv[i + 2..];
        i := i + 1;
        values := AddValue(values, f.name, argv[i]);
      } else {
        return Err(NeedsValue(f.name));
      }
      i := i + 1;
    }
    InFrontTwice(rest, [], Ok((values, [])));
    assert rest + [] == rest;
    return Ok((values, rest));
  }

  ghost function InFront(rest: seq<string>, r: Result<(Values, seq<string>), CliError>)
    : Result<(Values, seq<string>), CliError>
  {
    match r case Err(e) => Err(e) case Ok((v, more)) => Ok((v, rest + more))
  }

  lemma ScanBare(table: Table, argv: seq<string>, values: Values)
    requires argv != [] && !LooksLikeFlag(argv[0])
    ensures Scan(table, argv, values) == InFront([argv[0]], Scan(table, argv[1..], values))
  {
  }

  // ---- the two agree ------------------------------------------------------

  lemma InFrontNothing(r: Result<(Values, seq<string>), CliError>)
    ensures InFront([], r) == r
  {
    if r.Ok? { assert [] + r.value.1 == r.value.1; }
  }

  lemma InFrontTwice(a: seq<string>, b: seq<string>, r: Result<(Values, seq<string>), CliError>)
    ensures InFront(a, InFront(b, r)) == InFront(a + b, r)
  {
    if r.Ok? { assert a + (b + r.value.1) == a + b + r.value.1; }
  }

  /**
    No bare `--` where a flag could stand, and no value flag left without its value at the end: what a caller can
    see by walking argv once.
  */
  predicate Plain(table: Table, tail: seq<string>) {
    if tail == [] then true
    else if !LooksLikeFlag(tail[0]) then Plain(table, tail[1..])
    else if tail[0] == "--" then false
    else if '=' in Bare(tail[0]) then Plain(table, tail[1..])
    else if Bare(tail[0]) in table && !table[Bare(tail[0])].kind.KBool? then |tail| > 1 && Plain(table, tail[2..])
    else Plain(table, tail[1..])
  }

  lemma TrimIsBare(t: string)
    requires LooksLikeFlag(t)
    requires Bare(t) == "" || Bare(t)[0] != '-'
    ensures TrimDashes(t) == Bare(t)
  {
    assert TrimDashes(t) == TrimDashes(t[1..]);
    if t[1] == '-' { assert t[1..][1..] == t[2..]; }
  }

  /**
    Both passes over the same tail. Where the scan succeeds, the native flag parser reads the permuted flags to the
    same values and stops exactly where the bare arguments `more` begin; where it fails, so does the other.
  */
  ghost predicate Agree(table: Table, tail: seq<string>, more: seq<string>, values: Values) {
    AgreeOn(table, Permuted(table, tail), Scan(table, tail, values), more, values)
  }

  ghost predicate AgreeOn(table: Table, s: Split, scan: Result<(Values, seq<string>), CliError>,
                          more: seq<string>, values: Values)
  {
    match scan
    case Err(_) => ParseFlagSet(table, s.flags + more, values).Err?
    case Ok((v, rest)) =>
      && !s.terminated && rest == s.pos
      && (forall p :: p in rest ==> !LooksLikeFlag(p))
      && (more == [] || !LooksLikeFlag(more[0]) ==> ParseFlagSet(table, s.flags + more, values) == Ok((v, more)))
  }

  /** Taking a flag token apart as both parsers do: its key, and where the `=` stands. */
  predicate Known(table: Table, t: string) {
    && LooksLikeFlag(t) && t != "--"
    && var key := Bare(t)[..IndexOf(Bare(t), '=')];
       key in table && IsFlagName(key)
  }

  lemma KnownIsTrimmed(table: Table, t: string)
    requires Known(table, t)
    ensures Bare(t) != [] && Bare(t)[0] != '-' && Bare(t)[0] != '='
    ensures TrimDashes(t) == Bare(t)
  {
    var key := Bare(t)[..IndexOf(Bare(t), '=')];
    assert key[0] == Bare(t)[0];
    TrimIsBare(t);
  }

  lemma ReadInline(table: Table, t: string, args: seq<string>, values: Values)
    requires Known(table, t) && '=' in Bare(t)
    ensures var name := Bare(t); var eq := IndexOf(name, '=');
      ParseFlagSet(table, [t] + args, values)
      == ParseFlagSet(table, args, AddValue(values, table[name[..eq]].name, name[eq + 1..]))
  {
    KnownIsTrimmed(table, t);
    assert ([t] + args)[1..] == args;
  }

  lemma ReadSwitch(table: Table, t: string, args: seq<string>, values: Values)
    requires Known(table, t) && '=' !in Bare(t) && Bare(t) in table && table[Bare(t)].kind.KBool?
    ensures ParseFlagSet(table, [t] + args, values)
      == ParseFlagSet(table, args, AddValue(values, table[Bare(t)].name, "true"))
  {
    KnownIsTrimmed(table, t);
    assert Bare(t)[..|Bare(t)|] == Bare(t);
    assert ([t] + args)[1..] == args;
  }

  lemma ReadPair(table: Table, t: string, v: string, args: seq<string>, values: Values)
    requires Known(table, t) && '=' !in Bare(t) && Bare(t) in table && !table[Bare(t)].kind.KBool?
    ensures ParseFlagSet(table, [t, v] + args, values)
      == ParseFlagSet(table, args, AddValue(values, table[Bare(t)].name, v))
  {
    KnownIsTrimmed(table, t);
    assert Bare(t)[..|Bare(t)|] == Bare(t);
    assert ([t, v] + args)[2..] == args;
  }

  lemma {:induction false} SameSplit(table: Table, tail: seq<string>, more: seq<string>, values: Values)
    requires forall n :: n in table ==> IsFlagName(n)
    requires Plain(table, tail)
    ensures Agree(table, tail, more, values)
    decreases |tail|
  {
    if tail == [] {
      assert [] + more == more;
    } else if !LooksLikeFlag(tail[0]) {
      SameSplit(table, tail[1..], more, values);
      SameBareArgument(table, tail, more, values);
    } else if !Known(table, tail[0]) {
      assert Agree(table, tail, more, values) by {
        var args := Permuted(table, tail).flags + more;
        assert args[0] == tail[0];
      }
    } else if '=' in Bare(tail[0]) {
      SameSplit(table, tail[1..], more, InlineValue(table, tail[0], values));
      SameInline(table, tail, more, values);
    } else {
      var name := Bare(tail[0]);
      assert name[..IndexOf(name, '=')] == name;
      if table[name].kind.KBool? {
        SameSplit(table, tail[1..], more, AddValue(values, table[name].name, "true"));
        SameSwitch(table, tail, more, values);
      } else {
        SameSplit(table, tail[2..], more, AddValue(values, table[name].name, tail[1]));
        SamePair(table, tail, more, values);
      }
    }
  }

  /** The values with the one that a `--name=value` token carries. */
  function InlineValue(table: Table, t: string, values: Values): Values
    requires Known(table, t) && '=' in Bare(t)
  {
    var name := Bare(t);
    var eq := IndexOf(name, '=');
    AddValue(values, table[name[..eq]].name, name[eq + 1..])
  }

  lemma SameInline(table: Table, tail: seq<string>, more: seq<string>, values: Values)
    requires tail != [] && Known(table, tail[0]) && '=' in Bare(tail[0])
    requires Agree(table, tail[1..], more, InlineValue(table, tail[0], values))
    ensures Agree(table, tail, more, values)
  {
    var next := InlineValue(table, tail[0], values);
    ReadInline(table, tail[0], Permuted(table, tail[1..]).flags + more, values);
    PermuteOne(table, tail);
    SameStep(table, Permuted(table, tail[1..]), Scan(table, tail[1..], next), [tail[0]], more, values, next);
  }

  lemma SameSwitch(table: Table, tail: seq<string>, more: seq<string>, values: Values)
    requires tail != [] && Known(table, tail[0]) && '=' !in Bare(tail[0])
    requires Bare(tail[0]) in table && table[Bare(tail[0])].kind.KBool?
    requires Agree(table, tail[1..], more, AddValue(values, table[Bare(tail[0])].name, "true"))
    ensures Agree(table, tail, more, values)
  {
    var next := AddValue(values, table[Bare(tail[0])].name, "true");
    assert Bare(tail[0])[..|Bare(tail[0])|] == Bare(tail[0]);
    ReadSwitch(table, tail[0], Permuted(table, tail[1..]).flags + more, values);
    PermuteOne(table, tail);
    SameStep(table, Permuted(table, tail[1..]), Scan(table, tail[1..], next), [tail[0]], more, values, next);
  }

  lemma SamePair(table: Table, tail: seq<string>, more: seq<string>, values: Values)
    requires |tail| > 1 && Known(table, tail[0]) && '=' !in Bare(tail[0])
    requires Bare(tail[0]) in table && !table[Bare(tail[0])].kind.KBool?
    requires Agree(table, tail[2..], more, AddValue(values, table[Bare(tail[0])].name, tail[1]))
    ensures Agree(table, tail, more, values)
  {
    var next := AddValue(values, table[Bare(tail[0])].name, tail[1]);
    var pair := [tail[0], tail[1]];
    assert Bare(tail[0])[..|Bare(tail[0])|] == Bare(tail[0]);
    ReadPair(table, tail[0], tail[1], Permuted(table, tail[2..]).flags + more, values);
    PermuteTwo(table, tail);
    SameStep(table, Permuted(table, tail[2..]), Scan(table, tail[2..], next), pair, more, values, next);
  }

  lemma SameBareArgument(table: Table, tail: seq<string>, more: seq<string>, values: Values)
    requires tail != [] && !LooksLikeFlag(tail[0])
    requires Agree(table, tail[1..], more, values)
    ensures Agree(table, tail, more, values)
  {
  }

  lemma PermuteOne(table: Table, tail: seq<string>)
    requires tail != [] && Known(table, tail[0])
    requires var bare := Bare(tail[0]); '=' in bare || bare !in table || table[bare].kind.KBool?
    ensures var left := Permuted(table, tail[1..]);
      Permuted(table, tail) == left.(flags := [tail[0]] + left.flags)
  {
    KnownIsTrimmed(table, tail[0]);
  }

  lemma PermuteTwo(table: Table, tail: seq<string>)
    requires |tail| > 1 && Known(table, tail[0])
    requires var bare := Bare(tail[0]); '=' !in bare && bare in table && !table[bare].kind.KBool?
    ensures var left := Permuted(table, tail[2..]);
      Permuted(table, tail) == left.(flags := [tail[0], tail[1]] + left.flags)
  {
    KnownIsTrimmed(table, tail[0]);
  }

  /** Both passes took the same group of tokens off the front and recorded the same value. */
  lemma SameStep(table: Table, left: Split, scan: Result<(Values, seq<string>), CliError>, group: seq<string>,
                 more: seq<string>, values: Values, next: Values)
    requires ParseFlagSet(table, group + (left.flags + more), values) == ParseFlagSet(table, left.flags + more, next)
    requires AgreeOn(table, left, scan, more, next)
    ensures AgreeOn(table, left.(flags := group + left.flags), scan, more, values)
  {
    assert group + left.flags + more == group + (left.flags + more);
  }

  /** What is not plain, the web scan refuses. */
  lemma {:induction false} NotPlainFails(table: Table, tail: seq<string>, values: Values)
    requires forall n :: n in table ==> IsFlagName(n)
    requires !Plain(table, tail)
    ensures Scan(table, tail, values).Err?
    decreases |tail|
  {
    var t := tail[0];
    if !LooksLikeFlag(t) {
      NotPlainFails(table, tail[1..], values);
    } else {
      var name := Bare(t);
      var eq := IndexOf(name, '=');
      if name[..eq] in table {
        var f := table[name[..eq]];
        if eq < |name| {
          NotPlainFails(table, tail[1..], AddValue(values, f.name, name[eq + 1..]));
        } else {
          assert name[..eq] == name;
          if f.kind.KBool? {
            NotPlainFails(table, tail[1..], AddValue(values, f.name, "true"));
          } else if |tail| > 1 {
            NotPlainFails(table, tail[2..], AddValue(values, f.name, tail[1]));
          }
        }
      }
    }
  }

  // ---- the whole parse ----------------------------------------------------

  /** Native: permuted argv through the flag package, then the bare arguments to their positions. */
  function NativeParse(cmd: Command, tail: seq<string>): Result<Values, CliError> {
    var table := ByName(cmd.flags);
    match ParseFlagSet(table, Rejoin(Permuted(table, tail)), map[])
    case Err(e) => Err(e)
    case Ok((values, rest)) => AssignFrom(Positionals(cmd), rest, values)
  }

  /** Web: one scan, then the same assignment. */
  function WebParse(cmd: Command, argv: seq<string>): Result<Values, CliError> {
    match Scan(ByName(cmd.flags), argv, map[])
    case Err(e) => Err(e)
    case Ok((values, rest)) => AssignFrom(Positionals(cmd), rest, values)
  }

  /** The web's `parseFlags`. */
  method ParseFlags(cmd: Command, argv: seq<string>) returns (r: Result<Values, CliError>)
    ensures r == WebParse(cmd, argv)
  {
    var table := KnownFlags(cmd.flags);
    var scanned := ScanFlags(table, argv);
    if scanned.Err? { return Err(scanned.error); }
    r := AssignPositionals(cmd, scanned.value.1, scanned.value.0);
  }

  /**
    The web parser accepts exactly the plain command lines the native one accepts, with the same values. The two
    exceptions to agreement are both native extras: a `--` terminator, and a trailing value flag, which permuting
    moves in front of a bare argument.
  */
  lemma ParsersAgree(cmd: Command, tail: seq<string>)
    requires NamesAreSound(cmd.flags)
    ensures var table := ByName(cmd.flags);
      && (WebParse(cmd, tail).Ok? <==> Plain(table, tail) && NativeParse(cmd, tail).Ok?)
      && (WebParse(cmd, tail).Ok? ==> NativeParse(cmd, tail) == WebParse(cmd, tail))
  {
    var table := ByName(cmd.flags);
    TableNames(cmd.flags);
    if Plain(table, tail) {
      SameParse(table, tail);
    } else {
      NotPlainFails(table, tail, map[]);
    }
  }

  lemma SameParse(table: Table, tail: seq<string>)
    requires forall n :: n in table ==> IsFlagName(n)
    requires Plain(table, tail)
    ensures match Scan(table, tail, map[])
      case Err(_) => ParseFlagSet(table, Rejoin(Permuted(table, tail)), map[]).Err?
      case Ok(r) => ParseFlagSet(table, Rejoin(Permuted(table, tail)), map[]) == Ok(r)
  {
    var s := Permuted(table, tail);
    var more := (if s.terminated then ["--"] else []) + s.pos;
    assert Rejoin(s) == s.flags + more;
    SameSplit(table, tail, more, map[]);
    var r := Scan(table, tail, map[]);
    if r.Ok? {
      assert more == s.pos == r.value.1;
      assert more != [] ==> more[0] in r.value.1;
    }
  }

  /** A terminator: native reads what follows `--` as a bare argument, whatever it looks like; the web refuses it. */
  lemma TerminatorDiffers(cmd: Command, f: Flag, v: string)
    requires cmd.flags == [f] && IsFlagName(f.name) && f.short == "" && f.positional == 1
    ensures NativeParse(cmd, ["--", v]) == Ok(map[f.name := [v]])
    ensures WebParse(cmd, ["--", v]).Err?
  {
    var tail := ["--", v];
    SingleFlag(cmd, f);
    assert "" !in ByName(cmd.flags);
    Terminated(ByName(cmd.flags), v);
    Whole(cmd, tail);
    assert WebParse(cmd, tail).Err?;
    assert NativeParse(cmd, tail) == AssignFrom(Positionals(cmd), [v], map[]);
    assert AssignFrom([f], [v], map[]) == Ok(map[f.name := [v]]) by {
      assert [f][1..] == [] && [v][1..] == [];
    }
  }

  lemma Whole(cmd: Command, tail: seq<string>)
    ensures var parsed := ParseFlagSet(ByName(cmd.flags), Rejoin(Permuted(ByName(cmd.flags), tail)), map[]);
      parsed.Ok? ==> NativeParse(cmd, tail) == AssignFrom(Positionals(cmd), parsed.value.1, parsed.value.0)
    ensures Scan(ByName(cmd.flags), tail, map[]).Err? ==> WebParse(cmd, tail).Err?
  {
  }

  lemma Terminated(table: Table, t: string)
    requires "" !in table
    ensures ParseFlagSet(table, Rejoin(Permuted(table, ["--", t])), map[]) == Ok((map[], [t]))
    ensures Scan(table, ["--", t], map[]).Err?
  {
    var tail := ["--", t];
    assert tail[1..] == [t];
    assert Permuted(table, tail) == Split([], [t], true);
    assert Rejoin(Split([], [t], true)) == tail;
    assert Bare("--") == "";
  }

  /** A trailing value flag: native feeds it the bare argument in front of it, the web refuses it. */
  lemma DanglingDiffers(cmd: Command, f: Flag, v: string)
    requires cmd.flags == [f] && f.name == "n" && f.short == "" && f.positional == 1 && !f.kind.KBool?
    requires !LooksLikeFlag(v)
    ensures NativeParse(cmd, [v, "--n"]) == Ok(map["n" := [v]])
    ensures WebParse(cmd, [v, "--n"]).Err?
  {
    SingleFlag(cmd, f);
    Dangling(ByName(cmd.flags), v);
    assert AssignFrom([f], [], map["n" := [v]]) == Ok(map["n" := [v]]) by {
      assert [f][1..] == [];
    }
    Whole(cmd, [v, "--n"]);
  }

  lemma Dangling(table: Table, v: string)
    requires "n" in table && !table["n"].kind.KBool? && table["n"].name == "n" && !LooksLikeFlag(v)
    ensures ParseFlagSet(table, Rejoin(Permuted(table, [v, "--n"])), map[]) == Ok((map["n" := [v]], []))
    ensures Scan(table, [v, "--n"], map[]).Err?
  {
    NKnown(table);
    DanglingLast(table);
    var tail := [v, "--n"];
    assert tail[1..] == ["--n"];
    assert Permuted(table, tail) == Split(["--n"], [v], false);
    assert Rejoin(Split(["--n"], [v], false)) == ["--n", v] + [];
    ReadPair(table, "--n", v, [], map[]);
    assert Get(map[], "n") + [v] == [v];
    assert ParseFlagSet(table, [], map["n" := [v]]) == Ok((map["n" := [v]], []));
  }

  lemma NKnown(table: Table)
    requires "n" in table
    ensures Bare("--n") == "n" && IndexOf("n", '=') == 1 && '=' !in Bare("--n") && Known(table, "--n")
  {
    assert Bare("--n") == "n";
    assert "n"[..1] == "n";
  }

  lemma DanglingLast(table: Table)
    requires "n" in table && !table["n"].kind.KBool? && Known(table, "--n")
    ensures Permuted(table, ["--n"]) == Split(["--n"], [], false)
    ensures Scan(table, ["--n"], map[]).Err?
  {
    NKnown(table);
    KnownIsTrimmed(table, "--n");
    assert ["--n"][1..] == [];
    assert "n"[..1] == "n";
  }

  lemma SingleFlag(cmd: Command, f: Flag)
    requires cmd.flags == [f] && f.short == "" && f.positional > 0
    ensures ByName(cmd.flags) == map[f.name := f]
    ensures Positionals(cmd) == [f]
  {
    assert [f][..0] == [];
    assert Positional([f]) == Positional([]) + [f];
    assert StableSort(ByPosition, [f]) == Place(ByPosition, [], f);
  }
}
