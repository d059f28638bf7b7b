/**
  Runs from two fresh tabs in which a write is lost: after a reload in mid-flush, a flush that throws, a cleared store.
  And one in which a command that only reads writes all the same.
*/
module LostWrites {
  import opened Basics
  import opened Opfs
  import opened Bits
  import opened Fingerprint
  import opened Tabs

  // ---- writes that are lost -----------------------------------------------

  /** A tab that has booted over a store and listed it. */
  ghost function Up(tree: Tree): Tab {
    Tab(false, 0, Ready, tree, tree, TreeDigest(Dir(tree)), Idle, [], [])
  }

  function Boots(i: nat, seen: Tree): seq<Step> {
    [Admit(i), BootStart(i), BootEnd(i, seen), Command(i, seen, []), Finish(i)]
  }

  ghost function WithTab(w: World, i: nat, t: Tab): World
    requires i < |w.tabs|
  {
    w.(tabs := w.tabs[i := t])
  }

  lemma BootsUp(w: World, i: nat)
    requires i < |w.tabs| && w.tabs[i] == Fresh() && !OtherFlushes(w.tabs, i)
    ensures Legal(w, Boots(i, Seen(w.store)))
    ensures End(w, Boots(i, Seen(w.store))) == WithTab(w, i, Up(Seen(w.store)))
  {
    var tree := Seen(w.store);
    var w2 := WithTab(w, i, Fresh().(phase := Admitted, boot := Hydrating(false)));
    var w3 := WithTab(w, i, Up(tree).(phase := Admitted));
    var w1 := WithTab(w, i, Fresh().(phase := Admitted));
    assert Next(w1, BootStart(i)) == w2 by { SameOthers(w, i, w1.tabs[i]); }
    assert Next(w2, BootEnd(i, tree)) == w3;
    ListsOnly(w, i, tree);
    OneStep(w2, BootEnd(i, tree), [Command(i, tree, []), Finish(i)]);
    OneStep(w1, BootStart(i), [BootEnd(i, tree), Command(i, tree, []), Finish(i)]);
    OneStep(w, Admit(i), [BootStart(i), BootEnd(i, tree), Command(i, tree, []), Finish(i)]);
  }

  /** The command a page begins with: it lists, writes nothing, and returns. */
  lemma ListsOnly(w: World, i: nat, tree: Tree)
    requires i < |w.tabs|
    ensures var v := WithTab(w, i, Up(tree).(phase := Admitted));
      && Legal(v, [Command(i, tree, []), Finish(i)])
      && End(v, [Command(i, tree, []), Finish(i)]) == WithTab(w, i, Up(tree))
  {
    var w3 := WithTab(w, i, Up(tree).(phase := Admitted));
    var w4 := WithTab(w, i, Up(tree).(phase := Done(false)));
    var none: seq<Event> := [];
    assert w3.tabs[i] == Up(tree).(phase := Admitted) && none + none == none;
    assert Next(w3, Command(i, tree, [])) == w4;
    assert Next(w4, Finish(i)) == WithTab(w, i, Up(tree));
    OneStep(w4, Finish(i), []);
    OneStep(w3, Command(i, tree, []), [Finish(i)]);
  }

  lemma SameOthers(w: World, i: nat, t: Tab)
    requires i < |w.tabs|
    ensures OtherFlushes(WithTab(w, i, t).tabs, i) <==> OtherFlushes(w.tabs, i)
  {
    assert forall k :: 0 <= k < |w.tabs| && k != i ==> WithTab(w, i, t).tabs[k] == w.tabs[k];
  }

  ghost function TwoFresh(store: Tree): World { World(store, [Fresh(), Fresh()]) }

  ghost function TwoUp(before: Tree): World { World(before, [Up(before), Up(before)]) }

  function BothBoot(before: Tree): seq<Step> { Boots(0, before) + Boots(1, before) }

  lemma TwoComeUp(before: Tree)
    requires Seen(before) == before
    ensures Legal(TwoFresh(before), BothBoot(before)) && End(TwoFresh(before), BothBoot(before)) == TwoUp(before)
  {
    var w := TwoFresh(before);
    BootsUp(w, 0);
    var v := WithTab(w, 0, Up(before));
    BootsUp(v, 1);
    Joined(w, Boots(0, before), Boots(1, before));
    assert WithTab(v, 1, Up(before)) == TwoUp(before);
  }

  function SecondWrites(second: Tree, store: Tree): seq<Step> {
    [Admit(1), Command(1, second, []), FlushEnd(1, store)]
  }

  /**
    Two tabs come up over a store; something happens of which the second is not told; then it runs a command. Its flush
    leaves its own tree, whatever the store held, and it still has heard nothing.
  */
  lemma Unheard(before: Tree, happened: seq<Step>, second: Tree)
    requires Seen(before) == before && Legal(TwoUp(before), happened)
    requires var v := End(TwoUp(before), happened);
      && |v.tabs| == 2 && !v.tabs[0].phase.Flushing? && v.tabs[1] == Up(before)
      && Compatible(v.store, Dir(second), RESERVED)
    requires TreeDigest(Dir(second)) != TreeDigest(Dir(before))
    ensures var last := Mirrored(End(TwoUp(before), happened).store, second, RESERVED);
      Overwritten(TwoFresh(before), BothBoot(before) + (happened + SecondWrites(second, last)), last)
  {
    var v := End(TwoUp(before), happened);
    var last := Mirrored(v.store, second, RESERVED);
    TwoComeUp(before);
    SecondGoesThrough(v, second);
    Joined(TwoUp(before), happened, SecondWrites(second, last));
    Joined(TwoFresh(before), BothBoot(before), happened + SecondWrites(second, last));
  }

  /** From two fresh tabs, a run that ends with this store and a second tab that has heard nothing. */
  ghost predicate Overwritten(start: World, run: seq<Step>, last: Tree) {
    && AllFresh(start) && Legal(start, run)
    && var v := End(start, run);
      v.store == last && |v.tabs| == 2 && !v.tabs[1].stale && v.tabs[1].inbox == 0
  }

  lemma SecondGoesThrough(w: World, second: Tree)
    requires |w.tabs| == 2 && !w.tabs[0].phase.Flushing?
    requires w.tabs[1].phase.Idle? && w.tabs[1].boot.Ready? && !w.tabs[1].stale && w.tabs[1].inbox == 0
    requires TreeDigest(Dir(second)) != w.tabs[1].flushed && Compatible(w.store, Dir(second), RESERVED)
    ensures var run := SecondWrites(second, Mirrored(w.store, second, RESERVED));
      && Legal(w, run) && End(w, run).store == Mirrored(w.store, second, RESERVED)
      && |End(w, run).tabs| == 2 && !End(w, run).tabs[1].stale && End(w, run).tabs[1].inbox == 0
  {
    var last := Mirrored(w.store, second, RESERVED);
    var w1 := Next(w, Admit(1));
    var w2 := Next(w1, Command(1, second, []));
    assert w2.tabs[1].phase == Flushing(w.store, true);
    OneStep(w2, FlushEnd(1, last), []);
    OneStep(w1, Command(1, second, []), [FlushEnd(1, last)]);
    OneStep(w, Admit(1), [Command(1, second, []), FlushEnd(1, last)]);
  }

  function Starts(first: Tree, part: Tree): seq<Step> { [Admit(0), Command(0, first, []), Write(0, part)] }

  function FirstWrites(first: Tree, part: Tree, last: Step): seq<Step> { Starts(first, part) + [last] }

  function OneFile(name: Name, content: Byte): Tree { map[name := File([content])] }

  lemma OneFileMirrored(store: Tree, name: Name, content: Byte)
    requires name != HOST && HOST !in store && (name in store ==> store[name].File?)
    ensures Mirrored(store, OneFile(name, content), RESERVED) == OneFile(name, content)
    ensures Compatible(store, Dir(OneFile(name, content)), RESERVED)
    ensures Seen(OneFile(name, content)) == OneFile(name, content)
  {
  }

  /** The first tab changes a byte and is reloaded in mid-flush: the second one's flush leaves no trace of the change. */
  lemma ReloadMidFlushLosesAWrite(name: Name, before: Byte, first: Byte, second: Byte)
    requires name != HOST && before != first && before != second
    ensures Overwritten(TwoFresh(OneFile(name, before)),
      BothBoot(OneFile(name, before)) + (FirstWrites(OneFile(name, first), OneFile(name, first), Reload(0))
        + SecondWrites(OneFile(name, second), OneFile(name, second))), OneFile(name, second))
  {
    ByteShows(name, before, first);
    ByteShows(name, before, second);
    FirstStops(OneFile(name, before), OneFile(name, first), OneFile(name, first), Reload(0));
    OneFileMirrored(OneFile(name, first), name, second);
    OneFileMirrored(map[], name, before);
    Unheard(OneFile(name, before), FirstWrites(OneFile(name, first), OneFile(name, first), Reload(0)),
            OneFile(name, second));
  }

  /** The first tab clears the store; the second one's flush brings it back. */
  lemma ClearIsUndone(name: Name, before: Byte, second: Byte)
    requires name != HOST && before != second
    ensures Overwritten(TwoFresh(OneFile(name, before)),
      BothBoot(OneFile(name, before)) + ([ClearStorage(0, map[])] + SecondWrites(OneFile(name, second), OneFile(name, second))),
      OneFile(name, second))
  {
    var w := TwoUp(OneFile(name, before));
    ByteShows(name, before, second);
    assert OthersDisturbed(w.tabs, 0)[0 := Disturbed(w.tabs[0])] == w.tabs;
    OneStep(w, ClearStorage(0, map[]), []);
    assert [ClearStorage(0, map[])] + [] == [ClearStorage(0, map[])];
    OneFileMirrored(map[], name, second);
    OneFileMirrored(map[], name, before);
    Unheard(OneFile(name, before), [ClearStorage(0, map[])], OneFile(name, second));
  }

  /** The first tab writes and says so while the second is admitted already: the check comes before, not after. */
  function AdmittedTooEarly(first: Tree): seq<Step> {
    [Admit(1)] + ([Admit(0), Command(0, first, []), FlushEnd(0, first), Finish(0)] + [Receive(1)])
  }

  /**
    The window that no announcement closes: a tab admitted before it hears of another's write runs its command all the
    same, stale as it now is, and its flush leaves no trace of that write. Every step of it is harmless.
  */
  lemma AdmittedTabOverwrites(name: Name, before: Byte, first: Byte, second: Byte)
    requires name != HOST && before != first && before != second
    ensures var run := AdmittedTooEarly(OneFile(name, first))
        + [Command(1, OneFile(name, second), []), FlushEnd(1, OneFile(name, second))];
      && Legal(TwoUp(OneFile(name, before)), run)
      && var v := End(TwoUp(OneFile(name, before)), run);
        v.store == OneFile(name, second) && |v.tabs| == 2 && v.tabs[1].stale
  {
    var last := [Command(1, OneFile(name, second), []), FlushEnd(1, OneFile(name, second))];
    ByteShows(name, before, first);
    ByteShows(name, before, second);
    OneFileMirrored(OneFile(name, before), name, first);
    OneFileMirrored(OneFile(name, first), name, second);
    FirstSaysSo(OneFile(name, before), OneFile(name, first));
    var v := End(TwoUp(OneFile(name, before)), AdmittedTooEarly(OneFile(name, first)));
    StaleGoesThrough(v, OneFile(name, second));
    Joined(TwoUp(OneFile(name, before)), AdmittedTooEarly(OneFile(name, first)), last);
  }

  lemma FirstSaysSo(before: Tree, first: Tree)
    requires TreeDigest(Dir(first)) != TreeDigest(Dir(before))
    requires Compatible(before, Dir(first), RESERVED) && Mirrored(before, first, RESERVED) == first
    ensures Legal(TwoUp(before), AdmittedTooEarly(first))
    ensures End(TwoUp(before), AdmittedTooEarly(first))
      == World(first, [Up(first), Up(before).(stale := true, phase := Admitted)])
  {
    var w := WithTab(TwoUp(before), 1, Up(before).(phase := Admitted));
    var v := World(first, [Up(first), Up(before).(inbox := 1, phase := Admitted)]);
    WritesAndTells(w, before, first);
    var u := World(first, [Up(first), Up(before).(stale := true, phase := Admitted)]);
    assert Next(v, Receive(1)) == u;
    OneStep(v, Receive(1), []);
    assert [Receive(1)] + [] == [Receive(1)];
    Joined(w, [Admit(0), Command(0, first, []), FlushEnd(0, first), Finish(0)], [Receive(1)]);
    OneStep(TwoUp(before), Admit(1), [Admit(0), Command(0, first, []), FlushEnd(0, first), Finish(0)] + [Receive(1)]);
  }

  lemma WritesAndTells(w: World, before: Tree, first: Tree)
    requires w == World(before, [Up(before), Up(before).(phase := Admitted)])
    requires TreeDigest(Dir(first)) != TreeDigest(Dir(before))
    requires Compatible(before, Dir(first), RESERVED) && Mirrored(before, first, RESERVED) == first
    ensures var run := [Admit(0), Command(0, first, []), FlushEnd(0, first), Finish(0)];
      && Legal(w, run)
      && End(w, run) == World(first, [Up(first), Up(before).(inbox := 1, phase := Admitted)])
  {
    var other := Up(before).(phase := Admitted);
    var w1 := World(before, [Up(before).(phase := Admitted), other]);
    var w2 := World(before, [Ran(Up(before).(phase := Admitted), first, [], before, true), other]);
    assert Next(w, Admit(0)) == w1;
    FirstRuns(w1, w2, first);
    EndsAndTells(w2, before, first);
    OneStep(w1, Command(0, first, []), [FlushEnd(0, first), Finish(0)]);
    OneStep(w, Admit(0), [Command(0, first, []), FlushEnd(0, first), Finish(0)]);
  }

  lemma EndsAndTells(w: World, before: Tree, first: Tree)
    requires |w.tabs| == 2 && w.tabs[0] == Ran(Up(before).(phase := Admitted), first, [], before, true)
    requires w.tabs[1] == Up(before).(phase := Admitted) && TreeDigest(Dir(first)) != TreeDigest(Dir(before))
    requires Compatible(before, Dir(first), RESERVED) && Mirrored(before, first, RESERVED) == first
    ensures Legal(w, [FlushEnd(0, first), Finish(0)])
    ensures End(w, [FlushEnd(0, first), Finish(0)])
      == World(first, [Up(first), Up(before).(inbox := 1, phase := Admitted)])
  {
    var w3 := World(first, [Up(first).(phase := Done(true)), w.tabs[1]]);
    PersistsAlone(w, before, first);
    Tells(w3, first);
    TwoSteps(w, FlushEnd(0, first), Finish(0));
  }

  lemma PersistsAlone(w: World, before: Tree, first: Tree)
    requires |w.tabs| == 2 && w.tabs[0] == Ran(Up(before).(phase := Admitted), first, [], before, true)
    requires w.tabs[1] == Up(before).(phase := Admitted) && TreeDigest(Dir(first)) != TreeDigest(Dir(before))
    requires Compatible(before, Dir(first), RESERVED) && Mirrored(before, first, RESERVED) == first
    ensures Enabled(w, FlushEnd(0, first))
    ensures Next(w, FlushEnd(0, first)) == World(first, [Up(first).(phase := Done(true)), w.tabs[1]])
  {
    var none: seq<Event> := [];
    assert none + none == none;
    assert OthersDisturbed(w.tabs, 0) == w.tabs;
  }

  lemma Tells(w: World, first: Tree)
    requires |w.tabs| == 2 && w.tabs[0] == Up(first).(phase := Done(true))
    ensures Enabled(w, Finish(0))
    ensures Next(w, Finish(0)) == w.(tabs := [Up(first), w.tabs[1].(inbox := w.tabs[1].inbox + 1)])
  {
    var none: seq<Event> := [];
    assert none + none == none;
  }

  lemma StaleGoesThrough(w: World, second: Tree)
    requires |w.tabs| == 2 && !w.tabs[0].phase.Flushing? && w.tabs[1].stale
    requires w.tabs[1].phase.Admitted? && w.tabs[1].boot.Ready? && TreeDigest(Dir(second)) != w.tabs[1].flushed
    requires Compatible(w.store, Dir(second), RESERVED) && Mirrored(w.store, second, RESERVED) == second
    ensures var run := [Command(1, second, []), FlushEnd(1, second)];
      && Legal(w, run) && End(w, run).store == second && |End(w, run).tabs| == 2 && End(w, run).tabs[1].stale
  {
    var w2 := Next(w, Command(1, second, []));
    assert w2.tabs[1].phase == Flushing(w.store, true);
    OneStep(w2, FlushEnd(1, second), []);
    OneStep(w, Command(1, second, []), [FlushEnd(1, second)]);
  }

  function TwoFiles(a: Name, b: Name, x: Byte, y: Byte): Tree { map[a := File([x]), b := File([y])] }

  /**
    The first tab removes one file and makes a directory of the other, whose name stops its flush after the removal. The
    second one's flush brings the removed file back.
  */
  lemma FailedFlushIsUndone(a: Name, b: Name, x: Byte, y: Byte, second: Byte)
    requires a != b && a != HOST && b != HOST && x != second
    requires TreeDigest(Dir(map[a := Dir(map[])])) != TreeDigest(Dir(TwoFiles(a, b, x, y)))
    ensures Overwritten(TwoFresh(TwoFiles(a, b, x, y)),
      BothBoot(TwoFiles(a, b, x, y)) + (FirstWrites(map[a := Dir(map[])], OneFile(a, x), FlushFail(0))
        + SecondWrites(TwoFiles(a, b, second, y), TwoFiles(a, b, second, y))), TwoFiles(a, b, second, y))
  {
    var before, first, after := TwoFiles(a, b, x, y), map[a := Dir(map[])], TwoFiles(a, b, second, y);
    assert !Agree(before[a], first[a]);
    FirstStops(before, first, OneFile(a, x), FlushFail(0));
    OtherByteShows(a, b, x, y, second);
    TwoFilesMirrored(a, b, x, y, second);
    Unheard(before, FirstWrites(first, OneFile(a, x), FlushFail(0)), after);
  }

  lemma TwoFilesMirrored(a: Name, b: Name, x: Byte, y: Byte, z: Byte)
    requires a != b && a != HOST && b != HOST
    ensures Mirrored(OneFile(a, x), TwoFiles(a, b, z, y), RESERVED) == TwoFiles(a, b, z, y)
    ensures Compatible(OneFile(a, x), Dir(TwoFiles(a, b, z, y)), RESERVED)
    ensures Seen(TwoFiles(a, b, x, y)) == TwoFiles(a, b, x, y)
  {
  }

  lemma OtherByteShows(a: Name, b: Name, x: Byte, y: Byte, z: Byte)
    requires a != b && x != z
    ensures TreeDigest(Dir(TwoFiles(a, b, z, y))) != TreeDigest(Dir(TwoFiles(a, b, x, y)))
  {
    var m, n := TwoFiles(a, b, z, y), TwoFiles(a, b, x, y);
    OneByteFiles(z, x);
    assert a in m && OneByteApart(m[a], n[a]) && m.Keys == n.Keys;
    EditShows(Dir(m), Dir(n));
  }

  lemma OneByteFiles(x: Byte, y: Byte)
    requires x != y
    ensures OneByteApart(File([x]), File([y]))
  {
    var s, t := [x], [y];
    assert s[0] != t[0];
  }

  lemma ByteShows(name: Name, a: Byte, b: Byte)
    requires a != b
    ensures TreeDigest(Dir(OneFile(name, b))) != TreeDigest(Dir(OneFile(name, a)))
  {
    OneByteFiles(b, a);
    assert name in OneFile(name, b) && OneByteApart(OneFile(name, b)[name], OneFile(name, a)[name]);
    EditShows(Dir(OneFile(name, b)), Dir(OneFile(name, a)));
  }

  /** The first tab begins a flush and gets as far as `part`; then it is reloaded, or the flush throws. */
  lemma FirstStops(before: Tree, first: Tree, part: Tree, last: Step)
    requires TreeDigest(Dir(first)) != TreeDigest(Dir(before))
    requires last == Reload(0) || (last == FlushFail(0) && !Compatible(before, Dir(first), RESERVED))
    ensures Legal(TwoUp(before), FirstWrites(first, part, last))
    ensures var v := End(TwoUp(before), FirstWrites(first, part, last));
      v.store == part && |v.tabs| == 2 && v.tabs[0].phase.Idle? && v.tabs[1] == Up(before)
  {
    var v := World(part, [Ran(Up(before).(phase := Admitted), first, [], before, true), Up(before)]);
    FirstGetsTo(before, first, part);
    StopsAt(v, last);
    Joined(TwoUp(before), Starts(first, part), [last]);
  }

  lemma StopsAt(v: World, last: Step)
    requires |v.tabs| == 2 && v.tabs[0].phase.Flushing?
    requires last == Reload(0)
      || (last == FlushFail(0) && !Compatible(v.tabs[0].phase.from, Dir(v.tabs[0].live), RESERVED))
    ensures Legal(v, [last])
    ensures var u := End(v, [last]);
      u.store == v.store && |u.tabs| == 2 && u.tabs[0].phase.Idle? && u.tabs[1] == v.tabs[1]
  {
    OneStep(v, last, []);
    assert [last] + [] == [last];
  }

  lemma FirstGetsTo(before: Tree, first: Tree, part: Tree)
    requires TreeDigest(Dir(first)) != TreeDigest(Dir(before))
    ensures Legal(TwoUp(before), Starts(first, part))
    ensures End(TwoUp(before), Starts(first, part))
        == World(part, [Ran(Up(before).(phase := Admitted), first, [], before, true), Up(before)])
  {
    var w := TwoUp(before);
    var w1 := World(before, [Up(before).(phase := Admitted), Up(before)]);
    var w2 := World(before, [Ran(Up(before).(phase := Admitted), first, [], before, true), Up(before)]);
    assert Next(w, Admit(0)) == w1;
    FirstRuns(w1, w2, first);
    assert Next(w2, Write(0, part)) == World(part, w2.tabs) by { assert OthersDisturbed(w2.tabs, 0) == w2.tabs; }
    OneStep(w2, Write(0, part), []);
    OneStep(w1, Command(0, first, []), [Write(0, part)]);
    OneStep(w, Admit(0), [Command(0, first, []), Write(0, part)]);
  }

  lemma FirstRuns(w: World, v: World, after: Tree)
    requires |w.tabs| == 2 && w.tabs[0].phase.Admitted? && w.tabs[0].boot.Ready?
    requires !w.tabs[1].boot.Hydrating? && !w.tabs[1].phase.Flushing?
    requires v == World(w.store, [Ran(w.tabs[0], after, [], w.store, true), w.tabs[1]])
    ensures Next(w, Command(0, after, [])) == v
  {
    assert OthersDisturbed(w.tabs, 0) == w.tabs;
    assert !OtherFlushes(w.tabs, 0);
    assert w.tabs[0 := v.tabs[0]] == v.tabs;
  }

  /**
    A trap leaves a changed tree behind that nobody has persisted, so the next command writes it, though it changes
    nothing itself: reading is not always quiet.
  */
  lemma TrapMakesAReaderWrite(name: Name, before: Byte, changed: Byte)
    requires name != HOST && before != changed
    ensures var start := World(OneFile(name, before), [Fresh()]);
      var run := Boots(0, OneFile(name, before)) + [Admit(0), Trap(0, OneFile(name, changed)), Admit(0)];
      && AllFresh(start) && Legal(start, run)
      && var w := End(start, run);
        && |w.tabs| == 1 && Enabled(w, Command(0, w.tabs[0].live, []))
        && Next(w, Command(0, w.tabs[0].live, [])).tabs[0].phase.Flushing?
  {
    var tree, other := OneFile(name, before), OneFile(name, changed);
    var start := World(tree, [Fresh()]);
    OneFileMirrored(map[], name, before);
    BootsUp(start, 0);
    TrapLeaves(WithTab(start, 0, Up(tree)), tree, other);
    Joined(start, Boots(0, tree), [Admit(0), Trap(0, other), Admit(0)]);
    ByteShows(name, before, changed);
  }

  lemma TrapLeaves(w: World, tree: Tree, other: Tree)
    requires |w.tabs| == 1 && w.tabs[0] == Up(tree)
    ensures Legal(w, [Admit(0), Trap(0, other), Admit(0)])
    ensures End(w, [Admit(0), Trap(0, other), Admit(0)]).tabs == [Up(tree).(live := other, phase := Admitted)]
  {
    var w1 := WithTab(w, 0, Up(tree).(phase := Admitted));
    var w2 := WithTab(w, 0, Up(tree).(live := other));
    OneStep(w2, Admit(0), []);
    OneStep(w1, Trap(0, other), [Admit(0)]);
    OneStep(w, Admit(0), [Trap(0, other), Admit(0)]);
  }

  lemma OneStep(w: World, s: Step, rest: seq<Step>)
    requires Enabled(w, s) && Legal(Next(w, s), rest)
    ensures Legal(w, [s] + rest) && End(w, [s] + rest) == End(Next(w, s), rest)
  {
    assert ([s] + rest)[1..] == rest;
  }

  lemma TwoSteps(w: World, s: Step, t: Step)
    requires Enabled(w, s) && Enabled(Next(w, s), t)
    ensures Legal(w, [s, t]) && End(w, [s, t]) == Next(Next(w, s), t)
  {
    OneStep(Next(w, s), t, []);
    OneStep(w, s, [t]);
    assert [s] + [t] == [s, t];
  }

  lemma FirstOf(w: World, run: seq<Step>)
    requires run != [] && Legal(w, run)
    ensures Enabled(w, run[0]) && Legal(Next(w, run[0]), run[1..]) && End(w, run) == End(Next(w, run[0]), run[1..])
  {
  }

  lemma OneStepJoined(w: World, front: seq<Step>, rest: seq<Step>)
    requires front != [] && Enabled(w, front[0]) && Legal(Next(w, front[0]), front[1..] + rest)
    ensures Legal(w, front + rest) && End(w, front + rest) == End(Next(w, front[0]), front[1..] + rest)
  {
    OneStep(w, front[0], front[1..] + rest);
    assert [front[0]] + (front[1..] + rest) == front + rest;
  }

  lemma {:induction false} Joined(w: World, front: seq<Step>, rest: seq<Step>)
    requires Legal(w, front) && Legal(End(w, front), rest)
    ensures Legal(w, front + rest) && End(w, front + rest) == End(End(w, front), rest)
    decreases |front|
  {
    if front == [] {
      assert front + rest == rest;
    } else {
      FirstOf(w, front);
      Joined(Next(w, front[0]), front[1..], rest);
      OneStepJoined(w, front, rest);
    }
  }
}
