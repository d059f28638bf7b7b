/**
  One command line, two runners, the same request bytes. The native runner permutes argv, routes it, parses it with
  Go's flag package, and encodes with protowire; the web terminal scans, and encodes by hand.
*/
module SameBytes {
  import opened Basics
  import opened CommandSpec
  import opened CommandLine
  import opened Parsing
  import opened Encoding
  import opened Varint
  import Decimal

  /** What one typed command line comes to: a request, help text, a refusal, or a panic before anything is parsed. */
  datatype Outcome = Request(cmd: Command, bytes: Bytes) | Usage | Refused(error: CliError) | Panics

  function NativeExec(cmd: Command, values: Values, fill: Values -> Values): Outcome {
    match Finish(cmd, fill, values)
    case Err(e) => Refused(e)
    case Ok(full) =>
      match NativeRequest(cmd, full) case Err(e) => Refused(e) case Ok(b) => Request(cmd, b)
  }

  function WebExec(cmd: Command, values: Values, fill: Values -> Values): Outcome {
    match Finish(cmd, fill, values)
    case Err(e) => Refused(e)
    case Ok(full) =>
      match WebRequest(cmd, full) case Err(e) => Refused(e) case Ok(b) => Request(cmd, b)
  }

  /** Registering a command's flags panics on a name Go's `flag` package refuses, and on one it has already. */
  predicate Buildable(commands: seq<Command>) { forall c :: c in commands ==> Registrable(c.flags) }

  /** What an engine that answered says it has; a local verb needs nothing of it. None: no answer, no claim. */
  predicate Available(cmd: Command, live: Option<set<nat>>) {
    live.None? || cmd.local || cmd.id in live.value
  }

  /** The one lower-case spelling of a letter, of the Kelvin sign and of the long s. */
  function Folded(c: char): char {
    if 'A' <= c <= 'Z' then (c as int + 32) as char
    else if c == '\U{212A}' then 'k' else if c == '\U{017F}' then 's' else c
  }

  /** `strings.EqualFold` against a lower-case ASCII name. */
  predicate FoldsTo(typed: string, name: string) {
    |typed| == |name| && forall i :: 0 <= i < |typed| ==> Folded(typed[i]) == name[i]
  }

  /** How ffcli finds a subcommand. */
  function Route(commands: seq<Command>, typed: string): Option<Command> {
    if commands == [] then None
    else if FoldsTo(typed, commands[0].name) then Some(commands[0])
    else Route(commands[1..], typed)
  }

  /**
    The native `Run`: the root flag set has no flags, so it stops at the subcommand's name. `listed` holds the commands
    as ffcli is given them, in whatever order the sort by name has left them.
  */
  function NativeRun(commands: seq<Command>, listed: seq<Command>, live: Option<set<nat>>, args: seq<string>,
                     fill: Values -> Values): Outcome {
    if !Buildable(commands) then Panics
    else match ParseFlagSet(map[], PermutedArgs(commands, args), map[])
      case Err(e) => if e.HelpAsked? then Usage else Refused(e)
      case Ok((_, rest)) =>
        if rest == [] then Usage
        else match Route(listed, rest[0])
          case None => Refused(Unexpected(rest[0]))
          case Some(cmd) => NativeSubcommand(cmd, live, rest[1..], fill)
  }

  /** A subcommand's own flags, and then what it executes; one that is unavailable refuses only now. */
  function NativeSubcommand(cmd: Command, live: Option<set<nat>>, args: seq<string>, fill: Values -> Values): Outcome {
    match ParseFlagSet(ByName(cmd.flags), args, map[])
    case Err(e) => if e.HelpAsked? then Usage else Refused(e)
    case Ok((values, bare)) =>
      if !Available(cmd, live) then Refused(Unavailable(cmd.name))
      else match AssignFrom(Positionals(cmd), bare, values)
        case Err(e) => Refused(e)
        case Ok(given) => NativeExec(cmd, given, fill)
  }

  /** The terminal's `dispatch` of a tokenised line. */
  function WebRun(commands: seq<Command>, argv: seq<string>, fill: Values -> Values): Outcome {
    if argv == [] || argv[0] in ["help", "-h", "--help"] then Usage
    else match Find(commands, argv[0])
      case None => Refused(Unexpected(argv[0]))
      case Some(cmd) =>
        if "-h" in argv || "--help" in argv then Usage
        else match WebParse(cmd, argv[1..])
          case Err(e) => Refused(e)
          case Ok(values) => WebExec(cmd, values, fill)
  }

  /** Lower-case letters, digits, `-` and `_`: what the generator lets a command be called. */
  predicate IsToken(name: string) {
    && name != "" && name[0] != '-'
    && forall i :: 0 <= i < |name| ==>
      'a' <= name[i] <= 'z' || '0' <= name[i] <= '9' || name[i] == '-' || name[i] == '_'
  }

  /** A surface the generator can emit: typeable names, each once, literal values, tags both encoders agree on. */
  ghost predicate SoundSurface(commands: seq<Command>) {
    && DistinctNames(commands)
    && forall c :: c in commands ==>
      IsToken(c.name) && forall f :: f in c.flags ==> 0 < f.field < 0x1000_0000 && f.source.Literal?
  }

  ghost predicate DistinctNames(commands: seq<Command>) {
    forall c, d :: c in commands && d in commands && c.name == d.name ==> c == d
  }

  lemma {:induction false} SameValues(f: Flag, vals: seq<string>)
    requires 0 < f.field < 0x1000_0000
    ensures NativeValues(f, vals).Ok? && WebValues(f, vals).Ok? <==> forall v :: v in vals ==> Common(f, v)
    ensures NativeValues(f, vals).Ok? && WebValues(f, vals).Ok? ==>
      Uint8Array(WebValues(f, vals).value) == NativeValues(f, vals).value
  {
    if vals != [] {
      FieldsAgree(f, vals[0]);
      SameValues(f, vals[1..]);
      assert vals == [vals[0]] + vals[1..];
      if WebField(f, vals[0]).Ok? && WebValues(f, vals[1..]).Ok? {
        Uint8ArrayAppend(WebField(f, vals[0]).value, WebValues(f, vals[1..]).value);
      }
    }
  }

  ghost predicate CommonIn(fs: seq<Flag>, values: Values) {
    forall f, v :: f in fs && v in Get(values, f.name) ==> Common(f, v)
  }

  lemma CommonInFirst(fs: seq<Flag>, values: Values)
    requires fs != []
    ensures CommonIn(fs, values) <==>
      (forall v :: v in Get(values, fs[0].name) ==> Common(fs[0], v)) && CommonIn(fs[1..], values)
  {
    assert fs == [fs[0]] + fs[1..];
  }

  lemma {:induction false} SameFields(fs: seq<Flag>, values: Values)
    requires forall f :: f in fs ==> 0 < f.field < 0x1000_0000
    ensures NativeFields(fs, values).Ok? && WebFields(fs, values).Ok? ==>
      CommonIn(fs, values) && Uint8Array(WebFields(fs, values).value) == NativeFields(fs, values).value
    ensures CommonIn(fs, values) ==> (NativeFields(fs, values).Ok? <==> WebFields(fs, values).Ok?)
  {
    if fs != [] {
      var vals := Get(values, fs[0].name);
      SameValues(fs[0], vals);
      SameFields(fs[1..], values);
      CommonInFirst(fs, values);
      if WebValues(fs[0], vals).Ok? && WebFields(fs[1..], values).Ok? {
        Uint8ArrayAppend(WebValues(fs[0], vals).value, WebFields(fs[1..], values).value);
      }
    }
  }

  /** Every value about to be encoded is spelled so that both encoders read it. */
  ghost predicate AllCommon(cmd: Command, values: Values) { CommonIn(cmd.flags, values) }

  /** The two encoders write the same bytes for the values both accept, and both accept exactly the common ones. */
  lemma RequestsAgree(cmd: Command, values: Values)
    requires forall f :: f in cmd.flags ==> 0 < f.field < 0x1000_0000
    ensures var n, w := NativeRequest(cmd, values), WebRequest(cmd, values);
      && (n.Ok? && w.Ok? ==> n == w && AllCommon(cmd, values))
      && (AllCommon(cmd, values) ==> (n.Ok? <==> w.Ok?))
  {
    SortIsStable(ByField, cmd.flags, 0);
    var sorted := StableSort(ByField, cmd.flags);
    assert forall f :: f in sorted <==> f in multiset(sorted);
    assert forall f :: f in cmd.flags <==> f in multiset(cmd.flags);
    SameFields(sorted, values);
    assert CommonIn(sorted, values) <==> AllCommon(cmd, values);
  }

  lemma {:induction false} FindIsMember(commands: seq<Command>, name: string)
    ensures Find(commands, name).Some? ==>
      Find(commands, name).value in commands && Find(commands, name).value.name == name
  {
    if commands != [] { FindIsMember(commands[1..], name); }
  }

  /** On lower-case names, a name typed exactly is routed to the command of that name, wherever it is listed. */
  lemma {:induction false} RouteFinds(listed: seq<Command>, cmd: Command)
    requires cmd in listed && DistinctNames(listed) && forall c :: c in listed ==> IsToken(c.name)
    ensures Route(listed, cmd.name) == Some(cmd)
  {
    assert FoldsTo(cmd.name, listed[0].name) <==> cmd.name == listed[0].name;
    if listed[0].name != cmd.name {
      assert listed == [listed[0]] + listed[1..];
      RouteFinds(listed[1..], cmd);
    }
  }

  lemma SameMembers(a: seq<Command>, b: seq<Command>)
    requires multiset(a) == multiset(b)
    ensures forall c :: c in a <==> c in b
  {
    assert forall c :: c in a <==> c in multiset(a);
    assert forall c :: c in b <==> c in multiset(b);
  }

  /** Routing: with the command's name in front, the native runner reaches the same command and parses the tail. */
  lemma NativeRoutes(commands: seq<Command>, listed: seq<Command>, live: Option<set<nat>>, cmd: Command,
                     tail: seq<string>, fill: Values -> Values)
    requires Buildable(commands) && Find(commands, cmd.name) == Some(cmd) && multiset(listed) == multiset(commands)
    requires DistinctNames(commands) && forall c :: c in commands ==> IsToken(c.name)
    requires NativeParse(cmd, tail).Ok?
    ensures NativeRun(commands, listed, live, [cmd.name] + tail, fill) ==
      if Available(cmd, live) then NativeExec(cmd, NativeParse(cmd, tail).value, fill)
      else Refused(Unavailable(cmd.name))
  {
    FindIsMember(commands, cmd.name);
    SameMembers(commands, listed);
    RouteFinds(listed, cmd);
    var args := [cmd.name] + tail;
    assert CommandIndex(args) == 0;
    assert args[0 + 1..] == tail && args[..0 + 1] == [cmd.name];
    var moved := Rejoin(Permuted(ByName(cmd.flags), tail));
    var permuted := PermutedArgs(commands, args);
    assert permuted == [cmd.name] + moved;
    assert permuted[0] == cmd.name && permuted[1..] == moved;
    assert ParseFlagSet(map[], permuted, map[]) == Ok((map[], permuted));
  }

  lemma WebTakes(commands: seq<Command>, argv: seq<string>, fill: Values -> Values)
    requires WebRun(commands, argv, fill).Request?
    ensures argv != [] && Find(commands, argv[0]).Some?
    ensures var cmd := Find(commands, argv[0]).value;
      WebParse(cmd, argv[1..]).Ok? && WebRun(commands, argv, fill) == WebExec(cmd, WebParse(cmd, argv[1..]).value, fill)
  {
  }

  /**
    The repository's promise. Whenever the web terminal turns a command line into a request, the native runner makes
    the same request, exactly if it could register every flag, the engine has the command, and every value is spelled
    so that both encoders read it; and it never makes another one.
  */
  lemma SameCommandLineSameBytes(commands: seq<Command>, listed: seq<Command>, live: Option<set<nat>>,
                                 argv: seq<string>, fill: Values -> Values)
    requires SoundSurface(commands) && multiset(listed) == multiset(commands)
    requires WebRun(commands, argv, fill).Request?
    ensures var w, n := WebRun(commands, argv, fill), NativeRun(commands, listed, live, argv, fill);
      && (n.Request? ==> n == w)
      && (n.Request? <==> (Buildable(commands) && (live.None? || w.cmd.local || w.cmd.id in live.value)
          && AllCommon(w.cmd, Finish(w.cmd, fill, WebParse(w.cmd, argv[1..]).value).value)))
  {
    WebTakes(commands, argv, fill);
    if Buildable(commands) {
      var cmd := Find(commands, argv[0]).value;
      FindIsMember(commands, argv[0]);
      assert argv == [cmd.name] + argv[1..];
      SameParsed(commands, listed, live, cmd, argv[1..], fill);
      ExecAgrees(cmd, WebParse(cmd, argv[1..]).value, fill);
    }
  }

  /** What the web parses, the native runner gets as far as executing. */
  lemma SameParsed(commands: seq<Command>, listed: seq<Command>, live: Option<set<nat>>, cmd: Command,
                   tail: seq<string>, fill: Values -> Values)
    requires SoundSurface(commands) && multiset(listed) == multiset(commands) && Buildable(commands)
    requires Find(commands, cmd.name) == Some(cmd) && WebParse(cmd, tail).Ok?
    ensures NativeRun(commands, listed, live, [cmd.name] + tail, fill) ==
      if Available(cmd, live) then NativeExec(cmd, WebParse(cmd, tail).value, fill)
      else Refused(Unavailable(cmd.name))
  {
    FindIsMember(commands, cmd.name);
    RegistrableIsSound(cmd.flags);
    ParsersAgree(cmd, tail);
    NativeRoutes(commands, listed, live, cmd, tail, fill);
  }

  /** From equal values on, both runners come to the same request or the native one to none. */
  lemma ExecAgrees(cmd: Command, values: Values, fill: Values -> Values)
    requires forall f :: f in cmd.flags ==> 0 < f.field < 0x1000_0000
    requires WebExec(cmd, values, fill).Request?
    ensures var w, n := WebExec(cmd, values, fill), NativeExec(cmd, values, fill);
      && (n.Request? ==> n == w)
      && (n.Request? <==> AllCommon(cmd, Finish(cmd, fill, values).value))
  {
    RequestsAgree(cmd, Finish(cmd, fill, values).value);
  }

  /** A name in another case: the native runner executes the command, the web terminal knows none by that name. */
  lemma CaseDiffers(cmd: Command, live: Option<set<nat>>, typed: string, fill: Values -> Values)
    requires Registrable(cmd.flags) && Available(cmd, live) && IsToken(cmd.name)
    requires typed != cmd.name && FoldsTo(typed, cmd.name) && typed != "help"
    ensures NativeRun([cmd], [cmd], live, [typed], fill) == NativeExec(cmd, map[], fill)
    ensures WebRun([cmd], [typed], fill) == Refused(Unexpected(typed))
  {
    assert typed[0] != '-';
    assert Find([cmd], typed) == None by { assert [cmd][1..] == []; }
    NativeTakes(cmd, live, typed, fill);
  }

  lemma NativeTakes(cmd: Command, live: Option<set<nat>>, typed: string, fill: Values -> Values)
    requires Registrable(cmd.flags) && Available(cmd, live) && typed != "" && typed[0] != '-'
    requires FoldsTo(typed, cmd.name) && Find([cmd], typed) == None
    ensures NativeRun([cmd], [cmd], live, [typed], fill) == NativeExec(cmd, map[], fill)
  {
    assert CommandIndex([typed]) == 0;
    assert PermutedArgs([cmd], [typed]) == [typed];
    assert ParseFlagSet(map[], [typed], map[]) == Ok((map[], [typed]));
    assert Route([cmd], typed) == Some(cmd);
    assert [typed][1..] == [];
    assert AssignFrom(Positionals(cmd), [], map[]) == Ok(map[]);
  }

  // ---- what the bytes say -------------------------------------------------

  /** The fields a decoder should find for one flag, and for all of them in order. */
  ghost function Payloads(f: Flag, vals: seq<string>): seq<Record>
    requires NativeValues(f, vals).Ok?
  {
    if vals == [] then [] else [Record(f.field, NativePayload(f, vals[0]).value)] + Payloads(f, vals[1..])
  }

  ghost function Records(fs: seq<Flag>, values: Values): seq<Record>
    requires NativeFields(fs, values).Ok?
  {
    if fs == [] then [] else Payloads(fs[0], Get(values, fs[0].name)) + Records(fs[1..], values)
  }

  lemma {:induction false} ValuesAreRecords(f: Flag, vals: seq<string>)
    requires NativeValues(f, vals).Ok?
    ensures NativeValues(f, vals).value == EncodeRecords(Payloads(f, vals))
    ensures forall r :: r in Payloads(f, vals) ==> r.field == f.field
    ensures |Payloads(f, vals)| == |vals|
  {
    if vals != [] {
      ValuesAreRecords(f, vals[1..]);
      var p := Payloads(f, vals);
      assert p[1..] == Payloads(f, vals[1..]);
    }
  }

  lemma {:induction false} FieldsAreRecords(fs: seq<Flag>, values: Values)
    requires NativeFields(fs, values).Ok?
    ensures NativeFields(fs, values).value == EncodeRecords(Records(fs, values))
    ensures forall r :: r in Records(fs, values) ==> exists f :: f in fs && r.field == f.field
  {
    if fs != [] {
      ValuesAreRecords(fs[0], Get(values, fs[0].name));
      FieldsAreRecords(fs[1..], values);
      EncodeRecordsAppend(Payloads(fs[0], Get(values, fs[0].name)), Records(fs[1..], values));
    }
  }

  lemma {:induction false} RecordsAscend(fs: seq<Flag>, values: Values)
    requires NativeFields(fs, values).Ok? && Ordered(ByField, fs)
    ensures forall i, j :: 0 <= i < j < |Records(fs, values)| ==>
      Records(fs, values)[i].field <= Records(fs, values)[j].field
  {
    if fs != [] {
      ValuesAreRecords(fs[0], Get(values, fs[0].name));
      FieldsAreRecords(fs[1..], values);
      RecordsAscend(fs[1..], values);
      var a, b := Payloads(fs[0], Get(values, fs[0].name)), Records(fs[1..], values);
      var all: seq<Record> := a + b;
      forall i, j | 0 <= i < j < |all| ensures all[i].field <= all[j].field {
        if i < |a| <= j {
          assert a[i] in a && b[j - |a|] in b;
        } else if j < |a| {
          assert a[i] in a && a[j] in a;
        }
      }
    }
  }

  /** A protobuf decoder run on a request returns exactly the given values, in ascending field order. */
  lemma RequestDecodes(cmd: Command, values: Values)
    requires NativeRequest(cmd, values).Ok?
    ensures var sorted := StableSort(ByField, cmd.flags);
      && DecodeRecords(NativeRequest(cmd, values).value) == Some(Records(sorted, values))
      && forall i, j :: 0 <= i < j < |Records(sorted, values)| ==>
           Records(sorted, values)[i].field <= Records(sorted, values)[j].field
  {
    var sorted := StableSort(ByField, cmd.flags);
    SortIsStable(ByField, cmd.flags, 0);
    FieldsAreRecords(sorted, values);
    RecordsRoundTrip(Records(sorted, values));
    RecordsAscend(sorted, values);
  }

  /** Read back as a signed number, an int64 field holds the integer that was typed, in ten bytes at most. */
  lemma SignedValueSurvives(f: Flag, raw: string)
    requires (f.kind.KInt64? || f.kind.KInt32?) && NativePayload(f, raw).Ok?
    ensures NativePayload(f, raw).value.Number?
    ensures Some(FromUint64(NativePayload(f, raw).value.n)) == Decimal.Signed(raw)
    ensures |EncodeVarint(NativePayload(f, raw).value.n)| <= 10
  {
    assert Pow128(1) == 128 && Pow128(2) == 0x4000 && Pow128(4) == 0x1000_0000 && Pow128(5) == 0x8_0000_0000;
    assert Pow128(6) == 128 * Pow128(5) && Pow128(7) == 128 * Pow128(6) && Pow128(8) == 128 * Pow128(7);
    assert Pow128(9) == 128 * Pow128(8) && Pow128(10) == 128 * Pow128(9);
    VarintLength(NativePayload(f, raw).value.n, 10);
  }

  // ---- which values make a request ----------------------------------------

  /** A field's values can be written: one at most unless it is repeated, and each of them read by the encoder. */
  predicate NativeTakesAll(f: Flag, vals: seq<string>) {
    (f.repeated || |vals| <= 1) && forall v :: v in vals ==> NativePayload(f, v).Ok?
  }

  predicate WebTakesAll(f: Flag, vals: seq<string>) {
    (f.repeated || |vals| <= 1) && forall v :: v in vals ==> WebField(f, v).Ok?
  }

  lemma {:induction false} NativeValuesExact(f: Flag, vals: seq<string>)
    ensures NativeValues(f, vals).Ok? <==> forall v :: v in vals ==> NativePayload(f, v).Ok?
  {
    if vals != [] {
      NativeValuesExact(f, vals[1..]);
      assert vals == [vals[0]] + vals[1..];
    }
  }

  lemma {:induction false} WebValuesExact(f: Flag, vals: seq<string>)
    ensures WebValues(f, vals).Ok? <==> forall v :: v in vals ==> WebField(f, v).Ok?
  {
    if vals != [] {
      WebValuesExact(f, vals[1..]);
      assert vals == [vals[0]] + vals[1..];
    }
  }

  lemma {:induction false} FieldsExact(fs: seq<Flag>, values: Values)
    ensures NativeFields(fs, values).Ok? <==> forall f :: f in fs ==> NativeTakesAll(f, Get(values, f.name))
    ensures WebFields(fs, values).Ok? <==> forall f :: f in fs ==> WebTakesAll(f, Get(values, f.name))
  {
    if fs != [] {
      NativeValuesExact(fs[0], Get(values, fs[0].name));
      WebValuesExact(fs[0], Get(values, fs[0].name));
      FieldsExact(fs[1..], values);
      assert fs == [fs[0]] + fs[1..];
    }
  }

  /** Either encoder makes a request exactly when no field that is not repeated has several values, and it reads them all. */
  lemma RequestExactly(cmd: Command, values: Values)
    ensures NativeRequest(cmd, values).Ok? <==>
      forall f :: f in cmd.flags ==> NativeTakesAll(f, Get(values, f.name))
    ensures WebRequest(cmd, values).Ok? <==>
      forall f :: f in cmd.flags ==> WebTakesAll(f, Get(values, f.name))
  {
    var sorted := StableSort(ByField, cmd.flags);
    SortIsStable(ByField, cmd.flags, 0);
    assert forall f :: f in sorted <==> f in multiset(sorted);
    assert forall f :: f in cmd.flags <==> f in multiset(cmd.flags);
    FieldsExact(sorted, values);
  }
}
