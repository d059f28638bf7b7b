/**
  The steps both runners take once argv has been split into flag values and bare arguments: hand the bare arguments
  to positional fields, apply defaults and the host's fill hook, and check required fields. Error texts are not
  modelled, only which error it is.
*/
module CommandLine {
  import opened Basics
  import opened CommandSpec

  datatype CliError =
    | Unknown(name: string)       // no such flag
    | NeedsValue(name: string)    // a value flag at the end of argv
    | BadSyntax(token: string)    // Go's flag package: `---x`, `-=x`
    | HelpAsked                   // Go's flag.ErrHelp
    | Unexpected(token: string)   // a bare argument no position takes
    | Missing(name: string)       // required and absent
    | TooMany(name: string)       // several values, not repeated
    | BadValue(name: string)      // does not parse as the field's kind
    | Unavailable(name: string)   // not registered on this host

  /** A token that starts with a dash and is not a lone dash. */
  predicate LooksLikeFlag(t: string) { |t| > 1 && t[0] == '-' }

  // ---- positional arguments -----------------------------------------------

  function AssignFrom(ps: seq<Flag>, rest: seq<string>, values: Values): Result<Values, CliError> {
    if ps == [] then
      if rest == [] then Ok(values) else Err(Unexpected(rest[0]))
    else if Get(values, ps[0].name) != [] then AssignFrom(ps[1..], rest, values)
    else if rest == [] then Ok(values)
    else if ps[0].repeated then Ok(values[ps[0].name := rest])
    else AssignFrom(ps[1..], rest[1..], values[ps[0].name := [rest[0]]])
  }

  /** The values the positional fields got that had none before, in position order. */
  ghost function HandedOut(ps: seq<Flag>, before: Values, after: Values): seq<string> {
    if ps == [] then []
    else (if Get(before, ps[0].name) == [] then Get(after, ps[0].name) else [])
         + HandedOut(ps[1..], before, after)
  }

  ghost predicate DistinctFlagNames(fs: seq<Flag>) {
    forall i, j :: 0 <= i < j < |fs| ==> fs[i].name != fs[j].name
  }

  /** How many positions are still open, and whether one of them takes any number of arguments. */
  ghost function Open(ps: seq<Flag>, values: Values): nat {
    if ps == [] then 0 else (if Get(values, ps[0].name) == [] then 1 else 0) + Open(ps[1..], values)
  }

  ghost predicate TakesAnyNumber(ps: seq<Flag>, values: Values) {
    exists i :: 0 <= i < |ps| && ps[i].repeated && Get(values, ps[i].name) == []
  }

  lemma {:induction false} HandedOutFrame(ps: seq<Flag>, b1: Values, b2: Values, after: Values)
    requires forall i :: 0 <= i < |ps| ==> (Get(b1, ps[i].name) == [] <==> Get(b2, ps[i].name) == [])
    ensures HandedOut(ps, b1, after) == HandedOut(ps, b2, after)
  {
    if ps != [] {
      assert Get(b1, ps[0].name) == [] <==> Get(b2, ps[0].name) == [];
      forall i | 0 <= i < |ps[1..]|
        ensures Get(b1, ps[1..][i].name) == [] <==> Get(b2, ps[1..][i].name) == []
      {
        assert ps[1..][i] == ps[i + 1];
      }
      HandedOutFrame(ps[1..], b1, b2, after);
    }
  }

  lemma {:induction false} NothingHandedOut(ps: seq<Flag>, before: Values, after: Values)
    requires forall i :: 0 <= i < |ps| ==> Get(after, ps[i].name) == Get(before, ps[i].name)
    ensures HandedOut(ps, before, after) == []
  {
    if ps != [] {
      assert Get(after, ps[0].name) == Get(before, ps[0].name);
      forall i | 0 <= i < |ps[1..]| ensures Get(after, ps[1..][i].name) == Get(before, ps[1..][i].name) {
        assert ps[1..][i] == ps[i + 1];
      }
      NothingHandedOut(ps[1..], before, after);
    }
  }

  lemma {:induction false} AssignKeepsGiven(ps: seq<Flag>, rest: seq<string>, values: Values, n: string)
    requires AssignFrom(ps, rest, values).Ok? && Get(values, n) != []
    ensures Get(AssignFrom(ps, rest, values).value, n) == Get(values, n)
    decreases |ps|
  {
    if ps != [] {
      if Get(values, ps[0].name) != [] {
        AssignKeepsGiven(ps[1..], rest, values, n);
      } else if rest != [] && !ps[0].repeated {
        AssignKeepsGiven(ps[1..], rest[1..], values[ps[0].name := [rest[0]]], n);
      }
    }
  }

  /** Bare arguments never leave the values as they were: they are taken in, or refused. */
  lemma {:induction false} BareArgumentsShow(ps: seq<Flag>, rest: seq<string>, values: Values)
    requires rest != []
    ensures AssignFrom(ps, rest, values) != Ok(values)
    decreases |ps|
  {
    if ps != [] {
      var n := ps[0].name;
      if Get(values, n) != [] {
        BareArgumentsShow(ps[1..], rest, values);
      } else if !ps[0].repeated {
        var next := values[n := [rest[0]]];
        if AssignFrom(ps[1..], rest[1..], next).Ok? { AssignKeepsGiven(ps[1..], rest[1..], next, n); }
      }
    }
  }

  /** Assignment touches only positional fields that had no value, and gives a single field one value at most. */
  lemma {:induction false} AssignFrame(ps: seq<Flag>, rest: seq<string>, values: Values, n: string)
    requires DistinctFlagNames(ps) && AssignFrom(ps, rest, values).Ok?
    ensures var after := AssignFrom(ps, rest, values).value;
      && (Get(values, n) != [] || (forall f :: f in ps ==> f.name != n) ==> Get(after, n) == Get(values, n))
      && (Get(values, n) == [] && (forall f :: f in ps && f.name == n ==> !f.repeated) ==> |Get(after, n)| <= 1)
    decreases |ps|
  {
    if ps != [] {
      var p, tail := ps[0], ps[1..];
      assert ps == [p] + tail;
      assert DistinctFlagNames(tail);
      if Get(values, p.name) != [] {
        AssignFrame(tail, rest, values, n);
      } else if rest != [] && !p.repeated {
        var next := values[p.name := [rest[0]]];
        AssignFrame(tail, rest[1..], next, n);
        AssignFrame(tail, rest[1..], next, p.name);
      }
    }
  }

  /**
    When assignment succeeds, the bare arguments have gone to the open positions in position order: all of them,
    each once. With AssignFrame, everything given as a flag is untouched.
  */
  lemma {:induction false} AssignConserves(ps: seq<Flag>, rest: seq<string>, values: Values)
    requires DistinctFlagNames(ps) && AssignFrom(ps, rest, values).Ok?
    ensures HandedOut(ps, values, AssignFrom(ps, rest, values).value) == rest
    decreases |ps|
  {
    if ps != [] {
      var after := AssignFrom(ps, rest, values).value;
      var p, tail := ps[0], ps[1..];
      assert forall i :: 0 <= i < |tail| ==> tail[i] == ps[i + 1];
      assert forall i :: 0 <= i < |tail| ==> tail[i].name != p.name;
      if Get(values, p.name) != [] {
        AssignConserves(tail, rest, values);
      } else if rest == [] {
        NothingHandedOut(ps, values, after);
      } else if p.repeated {
        NothingHandedOut(tail, values, after);
      } else {
        AssignConserves(tail, rest[1..], values[p.name := [rest[0]]]);
        HandsOne(p, tail, rest, values);
      }
    }
  }

  /** An open position that is not repeated takes the first argument and leaves the others to those behind it. */
  lemma HandsOne(p: Flag, tail: seq<Flag>, rest: seq<string>, values: Values)
    requires DistinctFlagNames(tail) && (forall i :: 0 <= i < |tail| ==> tail[i].name != p.name)
    requires Get(values, p.name) == [] && rest != [] && AssignFrom(tail, rest[1..], values[p.name := [rest[0]]]).Ok?
    requires var next := values[p.name := [rest[0]]];
      HandedOut(tail, next, AssignFrom(tail, rest[1..], next).value) == rest[1..]
    ensures var after := AssignFrom(tail, rest[1..], values[p.name := [rest[0]]]).value;
      Get(after, p.name) + HandedOut(tail, values, after) == rest
  {
    var next := values[p.name := [rest[0]]];
    HandedOutFrame(tail, values, next, AssignFrom(tail, rest[1..], next).value);
    AssignKeepsGiven(tail, rest[1..], next, p.name);
  }

  /** It fails exactly when there are more bare arguments than open positions and none of those is repeated. */
  lemma {:induction false} AssignFailsExactly(ps: seq<Flag>, rest: seq<string>, values: Values)
    requires DistinctFlagNames(ps)
    ensures AssignFrom(ps, rest, values).Err? <==> |rest| > Open(ps, values) && !TakesAnyNumber(ps, values)
    decreases |ps|
  {
    if ps != [] {
      var p, tail := ps[0], ps[1..];
      assert forall i :: 0 <= i < |tail| ==> tail[i] == ps[i + 1] && tail[i].name != p.name;
      assert TakesAnyNumber(ps, values) <==>
        (p.repeated && Get(values, p.name) == []) || TakesAnyNumber(tail, values) by {
        if TakesAnyNumber(tail, values) {
          var i :| 0 <= i < |tail| && tail[i].repeated && Get(values, tail[i].name) == [];
          assert ps[i + 1].repeated && Get(values, ps[i + 1].name) == [];
        }
        if TakesAnyNumber(ps, values) && !(p.repeated && Get(values, p.name) == []) {
          var i :| 0 <= i < |ps| && ps[i].repeated && Get(values, ps[i].name) == [];
          assert tail[i - 1] == ps[i];
        }
      }
      if Get(values, p.name) != [] {
        AssignFailsExactly(tail, rest, values);
      } else if rest != [] && !p.repeated {
        var next := values[p.name := [rest[0]]];
        AssignFailsExactly(tail, rest[1..], next);
        OpenFrame(tail, values, next);
        assert TakesAnyNumber(tail, values) <==> TakesAnyNumber(tail, next);
      }
    }
  }

  lemma {:induction false} OpenFrame(ps: seq<Flag>, a: Values, b: Values)
    requires forall i :: 0 <= i < |ps| ==> Get(a, ps[i].name) == Get(b, ps[i].name)
    ensures Open(ps, a) == Open(ps, b)
    ensures TakesAnyNumber(ps, a) <==> TakesAnyNumber(ps, b)
  {
    if ps != [] {
      assert Get(a, ps[0].name) == Get(b, ps[0].name);
      forall i | 0 <= i < |ps[1..]| ensures Get(a, ps[1..][i].name) == Get(b, ps[1..][i].name) {
        assert ps[1..][i] == ps[i + 1];
      }
      OpenFrame(ps[1..], a, b);
    }
  }

  /** `assignPositionals`, and the loop at the end of the web's `parseFlags`, which is the same. */
  method AssignPositionals(cmd: Command, rest: seq<string>, given: Values) returns (r: Result<Values, CliError>)
    ensures r == AssignFrom(Positionals(cmd), rest, given)
  {
    var ps := CollectPositionals(cmd);
    var values := given;
    var i, k := 0, 0;
    assert ps[0..] == ps && rest[0..] == rest;
    while k < |ps|
      invariant 0 <= k <= |ps| && 0 <= i <= |rest|
      invariant AssignFrom(ps, rest, given) == AssignFrom(ps[k..], rest[i..], values)
    {
      assert ps[k..][1..] == ps[k + 1..];
      var f := ps[k];
      k := k + 1;
      if Get(values, f.name) != [] { continue; }
      if i >= |rest| { return Ok(values); }
      if f.repeated { return Ok(values[f.name := rest[i..]]); }
      assert rest[i..][1..] == rest[i + 1..];
      values := values[f.name := [rest[i]]];
      i := i + 1;
    }
    if i < |rest| { return Err(Unexpected(rest[i])); }
    return Ok(values);
  }

  // ---- defaults, fill, required -------------------------------------------

  function ApplyDefaults(flags: seq<Flag>, values: Values): Values {
    if flags == [] then values
    else
      var f := flags[0];
      var next := if f.default != "" && Get(values, f.name) == [] then values[f.name := [f.default]] else values;
      ApplyDefaults(flags[1..], next)
  }

  function CheckRequired(flags: seq<Flag>, values: Values): Result<Values, CliError> {
    if flags == [] then Ok(values)
    else if flags[0].required && Get(values, flags[0].name) == [] then Err(Missing(flags[0].name))
    else CheckRequired(flags[1..], values)
  }

  /** Defaults first, then the host's hook, then the required check: a host-supplied value satisfies it. */
  function Finish(cmd: Command, fill: Values -> Values, values: Values): Result<Values, CliError> {
    CheckRequired(cmd.flags, fill(ApplyDefaults(cmd.flags, values)))
  }

  /** The loops of `exec` and `executeCommand` in front of encoding. */
  method Complete(cmd: Command, fill: Values -> Values, given: Values) returns (r: Result<Values, CliError>)
    ensures r == Finish(cmd, fill, given)
  {
    var values := given;
    var i := 0;
    while i < |cmd.flags|
      invariant 0 <= i <= |cmd.flags|
      invariant ApplyDefaults(cmd.flags, given) == ApplyDefaults(cmd.flags[i..], values)
    {
      var f := cmd.flags[i];
      assert cmd.flags[i..][1..] == cmd.flags[i + 1..];
      if f.default != "" && Get(values, f.name) == [] { values := values[f.name := [f.default]]; }
      i := i + 1;
    }
    values := fill(values);
    i := 0;
    while i < |cmd.flags|
      invariant 0 <= i <= |cmd.flags|
      invariant CheckRequired(cmd.flags, values) == CheckRequired(cmd.flags[i..], values)
    {
      assert cmd.flags[i..][1..] == cmd.flags[i + 1..];
      if cmd.flags[i].required && Get(values, cmd.flags[i].name) == [] { return Err(Missing(cmd.flags[i].name)); }
      i := i + 1;
    }
    return Ok(values);
  }

  /** A value given on the command line is never replaced by a default; an absent one gets its first default. */
  lemma {:induction false} DefaultsFillGaps(flags: seq<Flag>, values: Values, n: string)
    ensures Get(values, n) != [] ==> Get(ApplyDefaults(flags, values), n) == Get(values, n)
    ensures Get(values, n) == [] && Get(ApplyDefaults(flags, values), n) != [] ==>
      exists f :: f in flags && f.name == n && f.default != "" && Get(ApplyDefaults(flags, values), n) == [f.default]
    ensures Get(ApplyDefaults(flags, values), n) == [] ==>
      forall f :: f in flags && f.name == n ==> f.default == ""
  {
    if flags != [] {
      var f := flags[0];
      var next := if f.default != "" && Get(values, f.name) == [] then values[f.name := [f.default]] else values;
      DefaultsFillGaps(flags[1..], next, n);
      assert flags == [f] + flags[1..];
    }
  }

  /** A required field that is still without a value, and none in front of it is. */
  predicate FirstMissing(flags: seq<Flag>, values: Values, i: nat) {
    && i < |flags| && flags[i].required && Get(values, flags[i].name) == []
    && forall j :: 0 <= j < i && flags[j].required ==> Get(values, flags[j].name) != []
  }

  lemma {:induction false} CheckExactly(flags: seq<Flag>, values: Values)
    ensures CheckRequired(flags, values) == Ok(values) <==>
      forall i :: 0 <= i < |flags| && flags[i].required ==> Get(values, flags[i].name) != []
    ensures CheckRequired(flags, values) != Ok(values) ==>
      exists i: nat :: FirstMissing(flags, values, i) && CheckRequired(flags, values) == Err(Missing(flags[i].name))
  {
    if flags != [] {
      var more := flags[1..];
      if flags[0].required && Get(values, flags[0].name) == [] {
        assert FirstMissing(flags, values, 0);
      } else {
        CheckExactly(more, values);
        assert forall i :: 0 < i < |flags| ==> flags[i] == more[i - 1];
        if i: nat :| FirstMissing(more, values, i) && CheckRequired(more, values) == Err(Missing(more[i].name)) {
          assert flags[i + 1] == more[i];
          assert FirstMissing(flags, values, i + 1);
        }
        if forall i :: 0 <= i < |flags| && flags[i].required ==> Get(values, flags[i].name) != [] {
          assert forall i :: 0 <= i < |more| ==> more[i] == flags[i + 1];
        }
      }
    }
  }

  /**
    What the encoder gets is the filled values, all required fields among them. Otherwise the first required field that
    is without a value is named.
  */
  lemma FinishExactly(cmd: Command, fill: Values -> Values, given: Values)
    ensures var filled, r := fill(ApplyDefaults(cmd.flags, given)), Finish(cmd, fill, given);
      && (r.Ok? <==> forall f :: f in cmd.flags && f.required ==> Get(filled, f.name) != [])
      && (r.Ok? ==> r.value == filled)
      && (r.Err? ==> exists i: nat :: FirstMissing(cmd.flags, filled, i) && r == Err(Missing(cmd.flags[i].name)))
  {
    CheckExactly(cmd.flags, fill(ApplyDefaults(cmd.flags, given)));
  }
}
