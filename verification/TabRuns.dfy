/**
  What every run of all tabs keeps: which tree a tab holds, what a flush overwrites from its start to its end, when a
  command writes at all, and when its events go out.
*/
module TabRuns {
  import opened Basics
  import opened Opfs
  import opened Bits
  import opened Fingerprint
  import opened Tabs

  // ---- what every run keeps -----------------------------------------------

  /**
    In every interleaving, a tab that is up, has heard nothing and is not itself flushing holds exactly the tree in
    the store, unless a broadcast is on its way to it or another tab is between starting a flush and announcing it.
  */
  lemma EveryRunIsSafe(start: World, run: seq<Step>, i: nat)
    requires AllFresh(start) && Legal(start, run) && AllHarmless(start, run)
    requires i < |End(start, run).tabs|
    ensures var w := End(start, run); var t := w.tabs[i];
      t.boot.Ready? && !t.stale && !t.phase.Flushing? ==>
        Seen(t.base) == Seen(w.store) || t.inbox > 0 || OtherInWindow(w.tabs, i)
  {
    RunKeepsInv(start, run);
    assert Safe(End(start, run), i);
  }

  // ---- a flush from its start to its end ----------------------------------

  /** None of these steps ends the flush that a tab is in; everything else may happen meanwhile, in any tab. */
  predicate Lasts(mid: seq<Step>, i: nat) {
    forall k :: 0 <= k < |mid| && mid[k].tab == i ==> !mid[k].FlushEnd? && !mid[k].FlushFail? && !mid[k].Reload?
  }

  /** No other tab writes to the store, or clears it. */
  predicate Alone(mid: seq<Step>, i: nat) {
    forall k :: 0 <= k < |mid| && mid[k].tab != i ==> !mid[k].Write? && !mid[k].FlushEnd? && !mid[k].ClearStorage?
  }

  lemma OneStepOfAFlush(w: World, s: Step, i: nat)
    requires Enabled(w, s) && i < |w.tabs| && w.tabs[i].phase.Flushing? && w.tabs[i].boot.Ready? && Lasts([s], i)
    ensures |Next(w, s).tabs| == |w.tabs|
    ensures var t, u := w.tabs[i], Next(w, s).tabs[i];
      && u.phase.Flushing? && u.boot.Ready? && u.phase.from == t.phase.from && u.live == t.live && u.base == t.base
      && (u.phase.clean ==> t.phase.clean && Alone([s], i))
  {
    assert [s][0] == s;
  }

  /** While it lasts, a flush keeps what it began with; and it is clean only if nobody else has written. */
  lemma {:induction false} FlushKeepsItsOwn(w: World, mid: seq<Step>, i: nat)
    requires Legal(w, mid) && Lasts(mid, i)
    requires i < |w.tabs| && w.tabs[i].phase.Flushing? && w.tabs[i].boot.Ready?
    ensures |End(w, mid).tabs| == |w.tabs|
    ensures var t, u := w.tabs[i], End(w, mid).tabs[i];
      && u.phase.Flushing? && u.phase.from == t.phase.from && u.live == t.live && u.base == t.base
      && (u.phase.clean ==> t.phase.clean && Alone(mid, i))
    decreases |mid|
  {
    if mid != [] {
      assert [mid[0]] + mid[1..] == mid;
      OneStepOfAFlush(w, mid[0], i);
      FlushKeepsItsOwn(Next(w, mid[0]), mid[1..], i);
    }
  }

  /**
    A whole flush in any run: from the command that begins it, through whatever all tabs do meanwhile, to its end. A tab
    that is unaware at the start overwrites the very tree its own was made from. One that is unaware at the end has
    had the store to itself, and leaves its own tree and the host's entries there. So a write is overwritten only by a
    tab that has heard of it or is bound to.
  */
  lemma NoWriteIsLost(start: World, run: seq<Step>, i: nat, after: Tree, events: seq<Event>, mid: seq<Step>, store: Tree)
    requires AllFresh(start) && Legal(start, run) && AllHarmless(start, run)
    requires Enabled(End(start, run), Command(i, after, events))
    requires var u := Next(End(start, run), Command(i, after, events));
      && u.tabs[i].phase.Flushing? && Legal(u, mid) && AllHarmless(u, mid) && Lasts(mid, i)
      && Enabled(End(u, mid), FlushEnd(i, store))
    ensures var w := End(start, run); var v := End(Next(w, Command(i, after, events)), mid);
      && (!Aware(w, i) ==> Seen(w.tabs[i].base) == Seen(w.store))
      && (!Aware(v, i) ==> Alone(mid, i) && store == Mirrored(w.store, after, RESERVED) && Seen(store) == Seen(after))
      && (!Aware(v, i) ==> (HOST in store <==> HOST in w.store))
      && (!Aware(v, i) && HOST in store ==> HOST in w.store && store[HOST] == w.store[HOST])
  {
    RunKeepsInv(start, run);
    FlushFromHere(End(start, run), i, after, events, mid, store);
  }

  lemma FlushFromHere(w: World, i: nat, after: Tree, events: seq<Event>, mid: seq<Step>, store: Tree)
    requires Inv(w) && Enabled(w, Command(i, after, events))
    requires var u := Next(w, Command(i, after, events));
      && u.tabs[i].phase.Flushing? && Legal(u, mid) && AllHarmless(u, mid) && Lasts(mid, i)
      && Enabled(End(u, mid), FlushEnd(i, store))
    ensures var v := End(Next(w, Command(i, after, events)), mid);
      && (!Aware(w, i) ==> Seen(w.tabs[i].base) == Seen(w.store))
      && (!Aware(v, i) ==> Alone(mid, i) && store == Mirrored(w.store, after, RESERVED) && Seen(store) == Seen(after))
      && (!Aware(v, i) ==> (HOST in store <==> HOST in w.store))
      && (!Aware(v, i) && HOST in store ==> HOST in w.store && store[HOST] == w.store[HOST])
  {
    var u := Next(w, Command(i, after, events));
    StepExact(w, Command(i, after, events));
    RunKeepsInv(u, mid);
    assert Safe(w, i) && Safe(End(u, mid), i);
    assert u.tabs[i] == Ran(w.tabs[i], after, events, w.store, !OtherFlushes(w.tabs, i));
    FlushKeepsItsOwn(u, mid, i);
    FlushThenLoad(w.store, after);
  }

  /** A stale tab that is idle stays so, and its engine runs nothing, until it is reloaded. */
  lemma {:induction false} StaleRunsNothing(w: World, run: seq<Step>, i: nat)
    requires Legal(w, run) && i < |w.tabs| && w.tabs[i].stale && w.tabs[i].phase.Idle? && !w.tabs[i].boot.Hydrating?
    requires forall k :: 0 <= k < |run| ==> run[k] != Reload(i)
    ensures |End(w, run).tabs| == |w.tabs|
    ensures var t := End(w, run).tabs[i];
      t == w.tabs[i].(inbox := t.inbox)
    ensures forall k :: 0 <= k < |run| && run[k].tab == i ==> run[k].Receive? || run[k].ClearStorage?
    decreases |run|
  {
    if run != [] {
      var v := Next(w, run[0]);
      assert run[0] != Reload(i);
      assert v.tabs[i] == w.tabs[i].(inbox := v.tabs[i].inbox);
      StaleRunsNothing(v, run[1..], i);
      forall k | 0 <= k < |run| && run[k].tab == i ensures run[k].Receive? || run[k].ClearStorage? {
        if k > 0 { assert run[k] == run[1..][k - 1]; }
      }
    }
  }

  /**
    A command writes exactly when the digest of the tree it leaves differs from that of the tree last hydrated or
    persisted. One that does not write leaves the store and every other tab as they were, to the end.
  */
  lemma WritesExactly(start: World, run: seq<Step>, i: nat, after: Tree, events: seq<Event>)
    requires AllFresh(start) && Legal(start, run) && AllHarmless(start, run)
    requires Enabled(End(start, run), Command(i, after, events))
    ensures var w := End(start, run); var u := Next(w, Command(i, after, events));
      && (u.tabs[i].phase.Flushing? <==> TreeDigest(Dir(after)) != TreeDigest(Dir(w.tabs[i].base)))
      && (!u.tabs[i].phase.Flushing? ==> Enabled(u, Finish(i)) && SameButFor(w, Next(u, Finish(i)), i))
  {
    RunKeepsInv(start, run);
    var w := End(start, run);
    assert Sound(w.tabs[i]);
    var u := Next(w, Command(i, after, events));
    assert u.tabs[i] == Ran(w.tabs[i], after, events, w.store, !OtherFlushes(w.tabs, i));
  }

  predicate SameButFor(w: World, v: World, i: nat) {
    && v.store == w.store && |v.tabs| == |w.tabs|
    && forall k :: 0 <= k < |w.tabs| && k != i ==> v.tabs[k] == w.tabs[k]
  }

  /** Every command of this tab, one that traps included, leaves the tree as it finds it. */
  ghost predicate OnlyReads(w: World, run: seq<Step>, i: nat)
    requires Legal(w, run) && i < |w.tabs|
    decreases |run|
  {
    run == [] ||
      var s := run[0];
      && (s.tab == i && (s.Command? || s.Trap?) ==> s.after == w.tabs[i].live)
      && |Next(w, s).tabs| == |w.tabs| && OnlyReads(Next(w, s), run[1..], i)
  }

  /** Nothing of this tab's own is left to write. */
  ghost predicate Quiet(t: Tab) { !InWindow(t) && (t.boot.Ready? ==> t.flushed == TreeDigest(Dir(t.live))) }

  lemma ReadKeepsQuiet(w: World, s: Step, i: nat)
    requires Enabled(w, s) && i < |w.tabs| && Quiet(w.tabs[i])
    requires s.tab == i && (s.Command? || s.Trap?) ==> s.after == w.tabs[i].live
    ensures |Next(w, s).tabs| == |w.tabs| && Quiet(Next(w, s).tabs[i])
    ensures s.tab == i && !s.ClearStorage? ==> SameButFor(w, Next(w, s), i)
  {
  }

  /** No step of this tab, clearing the store apart, changes the store or any other tab. */
  ghost predicate TouchesNothing(w: World, run: seq<Step>, i: nat)
    requires Legal(w, run)
    decreases |run|
  {
    run == [] ||
      var s := run[0];
      && (s.tab == i && !s.ClearStorage? ==> SameButFor(w, Next(w, s), i))
      && TouchesNothing(Next(w, s), run[1..], i)
  }

  /** A tab whose commands only read touches nothing, whatever other tabs do; so listing makes nobody stale. */
  lemma {:induction false} ReadersTouchNothing(w: World, run: seq<Step>, i: nat)
    requires Legal(w, run) && i < |w.tabs| && Quiet(w.tabs[i]) && OnlyReads(w, run, i)
    ensures TouchesNothing(w, run, i)
    decreases |run|
  {
    if run != [] {
      ReadKeepsQuiet(w, run[0], i);
      ReadersTouchNothing(Next(w, run[0]), run[1..], i);
    }
  }

  /** No two trees the tab has held share a digest. */
  ghost predicate NoCollision(t: Tab) {
    TreeDigest(Dir(t.live)) == TreeDigest(Dir(t.base)) ==> t.live == t.base
  }

  // ---- events -------------------------------------------------------------

  /** The flush that a tab is in throws: of what ends it, a `FlushFail` comes first. */
  predicate Thrown(rest: seq<Step>, i: nat) {
    rest != [] &&
      if rest[0] == FlushFail(i) then true else if rest[0] == Finish(i) then false else Thrown(rest[1..], i)
  }

  /** What a run says of a tab's events: those of its commands since it was last loaded whose flush did not throw. */
  function EventsOf(run: seq<Step>, i: nat): seq<Event> {
    if run == [] then []
    else
      var s, rest := run[0], run[1..];
      (if s.Command? && s.tab == i && Reload(i) !in rest && !Thrown(rest, i) then s.events else []) + EventsOf(rest, i)
  }

  /** What becomes of the events a tab has told, and of those it holds back, once it has gone through a run. */
  function Left(run: seq<Step>, i: nat, told: seq<Event>, pending: seq<Event>): seq<Event> {
    if Reload(i) in run then [] else told + if Thrown(run, i) then [] else pending
  }

  /** The events told and held back, once one step more is taken. */
  predicate Moved(s: Step, i: nat, told: seq<Event>, pending: seq<Event>, told': seq<Event>, pending': seq<Event>) {
    if s == Reload(i) then told' == [] && pending' == []
    else if s == Finish(i) then told' == told + pending && pending' == []
    else if s == FlushFail(i) then told' == told && pending' == []
    else if s.Command? && s.tab == i then told' == told && pending == [] && pending' == s.events
    else told' == told && pending' == pending
  }

  lemma OneStepMoves(w: World, s: Step, i: nat)
    requires Enabled(w, s) && i < |w.tabs| && Sound(w.tabs[i])
    ensures |Next(w, s).tabs| == |w.tabs| && Sound(Next(w, s).tabs[i])
    ensures Moved(s, i, w.tabs[i].told, w.tabs[i].pending, Next(w, s).tabs[i].told, Next(w, s).tabs[i].pending)
  {
    if s.tab == i { SoundOwn(w, s); } else { SoundOther(w, s, i); }
  }

  lemma MovedLeaves(s: Step, rest: seq<Step>, i: nat, told: seq<Event>, pending: seq<Event>,
                    told': seq<Event>, pending': seq<Event>)
    requires Moved(s, i, told, pending, told', pending')
    ensures var run := [s] + rest;
      Left(rest, i, told', pending') + EventsOf(rest, i) == Left(run, i, told, pending) + EventsOf(run, i)
  {
    var run := [s] + rest;
    assert run[1..] == rest && run[0] == s;
    assert Reload(i) in run <==> s == Reload(i) || Reload(i) in rest;
  }

  lemma {:induction false} RunTells(w: World, run: seq<Step>, i: nat)
    requires Legal(w, run) && i < |w.tabs| && Sound(w.tabs[i])
    ensures |End(w, run).tabs| == |w.tabs| && Sound(End(w, run).tabs[i])
    ensures var t, u := w.tabs[i], End(w, run).tabs[i];
      u.told + u.pending == Left(run, i, t.told, t.pending) + EventsOf(run, i)
    decreases |run|
  {
    var t := w.tabs[i];
    if run == [] {
      assert t.told + t.pending + [] == t.told + t.pending;
    } else {
      assert [run[0]] + run[1..] == run;
      var u := Next(w, run[0]).tabs[i];
      OneStepMoves(w, run[0], i);
      MovedLeaves(run[0], run[1..], i, t.told, t.pending, u.told, u.pending);
      RunTells(Next(w, run[0]), run[1..], i);
    }
  }

  /**
    In every run, harmless or not, a tab tells its page the events of all its commands since it was loaded, in order and
    each once, but for those whose flush threw; only those of the command in flight are still held back.
  */
  lemma EventsAreTold(start: World, run: seq<Step>, i: nat)
    requires AllFresh(start) && Legal(start, run) && i < |start.tabs|
    ensures i < |End(start, run).tabs|
    ensures var t := End(start, run).tabs[i];
      && t.told + t.pending == EventsOf(run, i)
      && (t.phase.Idle? || t.phase.Admitted? ==> t.told == EventsOf(run, i))
  {
    RunTells(start, run, i);
    var t := End(start, run).tabs[i];
    assert Left(run, i, [], []) == [] && [] + EventsOf(run, i) == EventsOf(run, i);
    if t.pending == [] { assert t.told + [] == t.told; }
  }

  /**
    Events go to the page in the order they were emitted, each once and none held back; and when they go, the store
    holds the tree of the command that emitted them, unless another tab has written since and this one will hear of it.
  */
  lemma EventsFollowTheWrite(start: World, run: seq<Step>, i: nat)
    requires AllFresh(start) && Legal(start, run) && AllHarmless(start, run)
    requires var w := End(start, run);
      i < |w.tabs| && Enabled(w, Finish(i)) && NoCollision(w.tabs[i])
    ensures i < |start.tabs|
    ensures var w := End(start, run);
      && Next(w, Finish(i)).tabs[i].told == EventsOf(run, i)
      && (Seen(w.tabs[i].live) == Seen(w.store) || Aware(w, i))
  {
    SameTabs(start, run);
    EventsAreTold(start, run, i);
    RunKeepsInv(start, run);
    EventsFollowHere(End(start, run), i);
  }

  lemma {:induction false} SameTabs(w: World, run: seq<Step>)
    requires Legal(w, run)
    ensures |End(w, run).tabs| == |w.tabs|
    decreases |run|
  {
    if run != [] { SameTabs(Next(w, run[0]), run[1..]); }
  }

  lemma EventsFollowHere(w: World, i: nat)
    requires Inv(w) && Enabled(w, Finish(i)) && NoCollision(w.tabs[i])
    ensures Next(w, Finish(i)).tabs[i].told == w.tabs[i].told + w.tabs[i].pending
    ensures (Seen(w.tabs[i].live) == Seen(w.store) || Aware(w, i))
  {
    assert Sound(w.tabs[i]) && Safe(w, i);
    assert Next(w, Finish(i)).tabs[i] == Finished(w.tabs[i]);
  }
}
