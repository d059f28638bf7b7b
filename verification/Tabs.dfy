/**
  Several tabs over one store. Each tab's worker hydrates a copy of the store when its first command boots the
  engine, runs commands on that copy, mirrors it back when its fingerprint has moved, and then tells the other tabs,
  which from then on refuse commands until they are reloaded. A step is the code between two awaits, so steps of
  different tabs interleave freely, also inside a hydration or a flush. One command at a time is in flight per tab.
*/
module Tabs {
  import opened Basics
  import opened Opfs
  import opened Bits
  import opened Fingerprint

  datatype Event = Event(topic: string, payload: Bytes)

  /** `torn`: the store changed under the hydration. */
  datatype Boot = Cold | Hydrating(torn: bool) | Ready

  /** `from`: the store as the flush found it; `clean`: nobody else has written since. */
  datatype Phase = Idle | Admitted | Flushing(from: Tree, clean: bool) | Done(wrote: bool)

  /**
    A tab's worker. `live` is the engine's tree, `base` the tree last hydrated or persisted, `flushed` its digest.
    `inbox` counts the broadcasts not yet received; `pending` holds the events of the command in flight, `told` all
    that were handed to the page.
  */
  datatype Tab = Tab(stale: bool, inbox: nat, boot: Boot, live: Tree, base: Tree, flushed: Word,
                        phase: Phase, pending: seq<Event>, told: seq<Event>)

  datatype World = World(store: Tree, tabs: seq<Tab>)

  datatype Step =
    | Admit(tab: nat)
    | BootStart(tab: nat)
    | BootEnd(tab: nat, seen: Tree)
    | Command(tab: nat, after: Tree, events: seq<Event>)
    | Trap(tab: nat, after: Tree)
    | Write(tab: nat, store: Tree)
    | FlushEnd(tab: nat, store: Tree)
    | FlushFail(tab: nat)
    | Finish(tab: nat)
    | Receive(tab: nat)
    | Reload(tab: nat)
    | ClearStorage(tab: nat, left: Tree)

  // ---- one tab ------------------------------------------------------------

  /** A page just loaded. */
  function Fresh(): Tab { Tab(false, 0, Cold, map[], map[], OFFSET, Idle, [], []) }

  function Seen(t: Tree): Tree { Visible(t, RESERVED) }

  ghost function Booted(t: Tab, seen: Tree): Tab {
    t.(boot := Ready, live := seen, base := seen, flushed := TreeDigest(Dir(seen)))
  }

  /** The engine has run; the tab flushes when its tree's digest differs from the one last persisted. */
  ghost function Ran(t: Tab, after: Tree, events: seq<Event>, from: Tree, clean: bool): Tab {
    t.(live := after, pending := events,
       phase := if TreeDigest(Dir(after)) == t.flushed then Done(false) else Flushing(from, clean))
  }

  ghost function Persisted(t: Tab): Tab {
    t.(base := t.live, flushed := TreeDigest(Dir(t.live)), phase := Done(true))
  }

  /** The flush has thrown: the command never returns, and its events go nowhere. */
  function Dropped(t: Tab): Tab { t.(phase := Idle, pending := []) }

  function Finished(t: Tab): Tab { t.(phase := Idle, told := t.told + t.pending, pending := []) }

  function Received(t: Tab): Tab {
    t.(stale := true, inbox := if t.inbox > 0 then t.inbox - 1 else 0)
  }

  /** Somebody else wrote: what this tab is reading or writing is no longer of one piece. */
  function Disturbed(t: Tab): Tab {
    t.(boot := if t.boot.Hydrating? then Hydrating(true) else t.boot,
       phase := if t.phase.Flushing? then t.phase.(clean := false) else t.phase)
  }

  // ---- all tabs -----------------------------------------------------------

  function OthersDisturbed(tabs: seq<Tab>, me: nat): seq<Tab> {
    seq(|tabs|, i requires 0 <= i < |tabs| => if i == me then tabs[i] else Disturbed(tabs[i]))
  }

  /** The broadcast reaches every other tab's queue. */
  function OthersToldOf(tabs: seq<Tab>, me: nat): seq<Tab> {
    seq(|tabs|, i requires 0 <= i < |tabs| => if i == me then tabs[i] else tabs[i].(inbox := tabs[i].inbox + 1))
  }

  predicate OtherFlushes(tabs: seq<Tab>, me: nat) {
    exists k :: 0 <= k < |tabs| && k != me && tabs[k].phase.Flushing?
  }

  /** What the program's own checks, and the meaning of `torn` and `clean`, let happen. */
  ghost predicate Enabled(w: World, s: Step) {
    && s.tab < |w.tabs|
    && var t := w.tabs[s.tab];
      match s
      case Admit(_) => t.phase.Idle? && !t.stale
      case BootStart(_) => t.phase.Admitted? && t.boot.Cold?
      case BootEnd(_, seen) => t.boot.Hydrating? && (t.boot.torn || seen == Seen(w.store))
      case Command(_, _, _) => t.phase.Admitted? && t.boot.Ready?
      case Trap(_, _) => t.phase.Admitted? && t.boot.Ready?
      case Write(_, _) => t.phase.Flushing?
      case FlushEnd(_, store) => t.phase.Flushing? && (t.phase.clean ==>
        Compatible(t.phase.from, Dir(t.live), RESERVED) && store == Mirrored(t.phase.from, t.live, RESERVED))
      case FlushFail(_) => t.phase.Flushing? && (t.phase.clean ==>
        !Compatible(t.phase.from, Dir(t.live), RESERVED))
      case Finish(_) => t.phase.Done?
      case Receive(_) => t.inbox > 0
      case Reload(_) => true
      case ClearStorage(_, left) => forall k :: k in left ==> k in w.store && left[k] == w.store[k]
  }

  ghost function Next(w: World, s: Step): World
    requires Enabled(w, s)
  {
    var me, t := s.tab, w.tabs[s.tab];
    match s
    case Admit(_) => w.(tabs := w.tabs[me := t.(phase := Admitted)])
    case BootStart(_) => w.(tabs := w.tabs[me := t.(boot := Hydrating(OtherFlushes(w.tabs, me)))])
    case BootEnd(_, seen) => w.(tabs := w.tabs[me := Booted(t, seen)])
    case Command(_, after, events) =>
      var ran := Ran(t, after, events, w.store, !OtherFlushes(w.tabs, me));
      w.(tabs := (if ran.phase.Flushing? then OthersDisturbed(w.tabs, me) else w.tabs)[me := ran])
    case Trap(_, after) => w.(tabs := w.tabs[me := t.(live := after, phase := Idle)])
    case Write(_, store) => World(store, OthersDisturbed(w.tabs, me))
    case FlushEnd(_, store) => World(store, OthersDisturbed(w.tabs, me)[me := Persisted(t)])
    case FlushFail(_) => w.(tabs := w.tabs[me := Dropped(t)])
    case Finish(_) =>
      w.(tabs := (if t.phase.wrote then OthersToldOf(w.tabs, me) else w.tabs)[me := Finished(t)])
    case Receive(_) => w.(tabs := w.tabs[me := Received(t)])
    case Reload(_) => w.(tabs := w.tabs[me := Fresh()])
    case ClearStorage(_, left) => World(left, OthersDisturbed(w.tabs, me)[me := Disturbed(t)])
  }

  ghost predicate Legal(w: World, run: seq<Step>)
    decreases |run|
  {
    run == [] || (Enabled(w, run[0]) && Legal(Next(w, run[0]), run[1..]))
  }

  ghost function End(w: World, run: seq<Step>): World
    requires Legal(w, run)
    decreases |run|
  {
    if run == [] then w else End(Next(w, run[0]), run[1..])
  }

  // ---- the invariant ------------------------------------------------------

  /** From the start of a flush until the others are told. */
  predicate InWindow(t: Tab) { t.phase.Flushing? || t.phase == Done(true) }

  predicate OtherInWindow(tabs: seq<Tab>, me: nat) {
    exists k :: 0 <= k < |tabs| && k != me && InWindow(tabs[k])
  }

  /** The tab knows it is behind, or is bound to be told. */
  predicate Aware(w: World, i: nat)
    requires i < |w.tabs|
  {
    w.tabs[i].stale || w.tabs[i].inbox > 0 || OtherInWindow(w.tabs, i)
  }

  predicate InStep(t: Tab, store: Tree) { Seen(t.base) == Seen(store) }

  predicate Broken(t: Tab) { t.boot == Hydrating(true) || (t.phase.Flushing? && !t.phase.clean) }

  /** The heart of it: a tab that is up and not flushing holds what the store holds, or is aware that it may not. */
  predicate Safe(w: World, i: nat)
    requires i < |w.tabs|
  {
    var t := w.tabs[i];
    && (t.boot.Ready? && !t.phase.Flushing? ==> Aware(w, i) || InStep(t, w.store))
    && (Broken(t) ==> Aware(w, i))
  }

  /** A tab's own bookkeeping. */
  ghost predicate Sound(t: Tab) {
    && (t.phase.Flushing? || t.phase.Done? ==> t.boot.Ready?)
    && (t.boot.Hydrating? ==> t.phase.Admitted?)
    && (t.boot.Ready? ==> t.flushed == TreeDigest(Dir(t.base)))
    && (t.phase.Done? ==> t.flushed == TreeDigest(Dir(t.live)))
    && (t.phase == Done(true) ==> t.base == t.live)
    && (t.phase.Idle? || t.phase.Admitted? ==> t.pending == [])
  }

  ghost predicate Inv(w: World) {
    forall i :: 0 <= i < |w.tabs| ==> Sound(w.tabs[i]) && Safe(w, i)
  }

  lemma SoundOwn(w: World, s: Step)
    requires Enabled(w, s) && Sound(w.tabs[s.tab])
    ensures Sound(Next(w, s).tabs[s.tab])
  {
    var u, t := Next(w, s).tabs[s.tab], w.tabs[s.tab];
    match s
    case Command(_, after, events) =>
      assert u == Ran(t, after, events, w.store, !OtherFlushes(w.tabs, s.tab));
    case Finish(_) => assert u == Finished(t);
    case FlushEnd(_, _) => assert u == Persisted(t);
    case BootEnd(_, seen) => assert u == Booted(t, seen);
    case ClearStorage(_, _) => assert u == Disturbed(t);
    case FlushFail(_) => assert u == Dropped(t);
    case _ =>
  }

  lemma SoundOther(w: World, s: Step, i: nat)
    requires Enabled(w, s) && i < |w.tabs| && i != s.tab && Sound(w.tabs[i])
    ensures Sound(Next(w, s).tabs[i])
  {
    var u, t := Next(w, s).tabs[i], w.tabs[i];
    assert u == t || u == Disturbed(t) || u == t.(inbox := t.inbox + 1);
  }

  lemma SoundKept(w: World, s: Step)
    requires Inv(w) && Enabled(w, s)
    ensures forall i :: 0 <= i < |w.tabs| ==> Sound(Next(w, s).tabs[i])
  {
    forall i | 0 <= i < |w.tabs| ensures Sound(Next(w, s).tabs[i]) {
      assert Sound(w.tabs[i]);
      if i == s.tab { SoundOwn(w, s); } else { SoundOther(w, s, i); }
    }
  }

  lemma AwareKept(w: World, v: World, i: nat)
    requires |v.tabs| == |w.tabs| && i < |w.tabs| && Aware(w, i)
    requires w.tabs[i].stale ==> v.tabs[i].stale
    requires w.tabs[i].inbox > 0 ==> v.tabs[i].inbox > 0 || v.tabs[i].stale
    requires forall k :: 0 <= k < |w.tabs| && k != i && InWindow(w.tabs[k]) ==>
      InWindow(v.tabs[k]) || v.tabs[i].inbox > 0
    ensures Aware(v, i)
  {
    if OtherInWindow(w.tabs, i) {
      var k :| 0 <= k < |w.tabs| && k != i && InWindow(w.tabs[k]);
      assert InWindow(v.tabs[k]) || v.tabs[i].inbox > 0;
    }
  }

  /** A step that touches one tab only, takes nothing out of a window and leaves the store alone. */
  lemma QuietStep(w: World, v: World, me: nat)
    requires Inv(w) && me < |w.tabs| && v.store == w.store && |v.tabs| == |w.tabs|
    requires forall k :: 0 <= k < |w.tabs| && k != me ==> v.tabs[k] == w.tabs[k]
    requires InWindow(w.tabs[me]) ==> InWindow(v.tabs[me])
    ensures forall i :: 0 <= i < |w.tabs| && i != me ==> Safe(v, i)
  {
    forall i | 0 <= i < |w.tabs| && i != me ensures Safe(v, i) {
      assert Safe(w, i);
      if Aware(w, i) { AwareKept(w, v, i); }
    }
  }

  /** While one tab is in its window, every other tab is aware. */
  lemma WindowCovers(v: World, me: nat)
    requires me < |v.tabs| && InWindow(v.tabs[me])
    ensures forall i :: 0 <= i < |v.tabs| && i != me ==> Aware(v, i)
  {
    forall i | 0 <= i < |v.tabs| && i != me ensures Aware(v, i) {
      assert me != i && InWindow(v.tabs[me]);
    }
  }

  lemma BootKeeps(w: World, s: Step)
    requires Inv(w) && Enabled(w, s) && (s.BootStart? || s.BootEnd?)
    ensures forall i :: 0 <= i < |w.tabs| ==> Safe(Next(w, s), i)
  {
    var v := Next(w, s);
    QuietStep(w, v, s.tab);
    var t := w.tabs[s.tab];
    assert Safe(w, s.tab);
    if s.BootStart? {
      if OtherFlushes(w.tabs, s.tab) {
        var k :| 0 <= k < |w.tabs| && k != s.tab && w.tabs[k].phase.Flushing?;
        assert InWindow(v.tabs[k]);
      }
    } else {
      if t.boot.torn { AwareKept(w, v, s.tab); } else { assert Seen(s.seen) == Seen(w.store); }
    }
  }

  lemma FlushStartKeeps(w: World, s: Step)
    requires Inv(w) && Enabled(w, s) && s.Command? && Next(w, s).tabs[s.tab].phase.Flushing?
    ensures forall i :: 0 <= i < |w.tabs| ==> Safe(Next(w, s), i)
  {
    var v := Next(w, s);
    assert Safe(w, s.tab);
    WindowCovers(v, s.tab);
    if OtherFlushes(w.tabs, s.tab) {
      var k :| 0 <= k < |w.tabs| && k != s.tab && w.tabs[k].phase.Flushing?;
      assert InWindow(v.tabs[k]);
    }
  }

  lemma CommandKeeps(w: World, s: Step)
    requires Inv(w) && Enabled(w, s) && (s.Command? || s.Trap? || s.Admit?)
    ensures forall i :: 0 <= i < |w.tabs| ==> Safe(Next(w, s), i)
  {
    var v := Next(w, s);
    if s.Command? && v.tabs[s.tab].phase.Flushing? {
      FlushStartKeeps(w, s);
    } else {
      QuietStep(w, v, s.tab);
      assert Safe(w, s.tab);
      if Aware(w, s.tab) { AwareKept(w, v, s.tab); }
    }
  }

  lemma FlushKeeps(w: World, s: Step)
    requires Inv(w) && Enabled(w, s) && (s.Write? || s.FlushEnd?)
    ensures forall i :: 0 <= i < |w.tabs| ==> Safe(Next(w, s), i)
  {
    var v := Next(w, s);
    assert Safe(w, s.tab);
    WindowCovers(v, s.tab);
    if Aware(w, s.tab) {
      AwareKept(w, v, s.tab);
    } else if s.FlushEnd? {
      FlushThenLoad(w.tabs[s.tab].phase.from, w.tabs[s.tab].live);
    }
  }

  lemma FinishKeeps(w: World, s: Step)
    requires Inv(w) && Enabled(w, s) && s.Finish?
    ensures forall i :: 0 <= i < |w.tabs| ==> Safe(Next(w, s), i)
  {
    var v := Next(w, s);
    forall i | 0 <= i < |w.tabs| ensures Safe(v, i) {
      assert Safe(w, i);
      if Aware(w, i) { AwareKept(w, v, i); }
    }
  }

  lemma ReceiveKeeps(w: World, s: Step)
    requires Inv(w) && Enabled(w, s) && s.Receive?
    ensures forall i :: 0 <= i < |w.tabs| ==> Safe(Next(w, s), i)
  {
    QuietStep(w, Next(w, s), s.tab);
  }

  // ---- the three steps that can break it ----------------------------------

  /** Aware without counting on tab `me`. */
  predicate AwareWithout(w: World, i: nat, me: nat)
    requires i < |w.tabs|
  {
    || w.tabs[i].stale || w.tabs[i].inbox > 0
    || exists k :: 0 <= k < |w.tabs| && k != i && k != me && InWindow(w.tabs[k])
  }

  predicate Covered(w: World, i: nat, me: nat)
    requires i < |w.tabs|
  {
    var t := w.tabs[i];
    AwareWithout(w, i, me) || (!Broken(t) && (t.boot.Ready? && !t.phase.Flushing? ==> InStep(t, w.store)))
  }

  lemma LeavingExact(w: World, v: World, me: nat)
    requires me < |w.tabs| && v.store == w.store && |v.tabs| == |w.tabs| && !InWindow(v.tabs[me])
    requires forall k :: 0 <= k < |w.tabs| && k != me ==> v.tabs[k] == w.tabs[k]
    ensures forall i :: 0 <= i < |w.tabs| && i != me ==> (Safe(v, i) <==> Covered(w, i, me))
  {
    forall i | 0 <= i < |w.tabs| && i != me ensures Safe(v, i) <==> Covered(w, i, me) {
      assert OtherInWindow(v.tabs, i) <==>
        exists k :: 0 <= k < |w.tabs| && k != i && k != me && InWindow(w.tabs[k]) by {
        if OtherInWindow(v.tabs, i) {
          var k :| 0 <= k < |v.tabs| && k != i && InWindow(v.tabs[k]);
          assert k != me && InWindow(w.tabs[k]);
        }
        if k :| 0 <= k < |w.tabs| && k != i && k != me && InWindow(w.tabs[k]) { assert InWindow(v.tabs[k]); }
      }
    }
  }

  /**
    A reload is harmless exactly when every other tab that is up is in step with the store as it stands, or has heard
    or will hear from a third tab. Outside a window that always holds; inside one it is what the broadcast was for.
  */
  lemma ReloadExact(w: World, me: nat)
    requires Inv(w) && me < |w.tabs|
    ensures Inv(Next(w, Reload(me))) <==> forall i :: 0 <= i < |w.tabs| && i != me ==> Covered(w, i, me)
  {
    var v := Next(w, Reload(me));
    SoundKept(w, Reload(me));
    LeavingExact(w, v, me);
    assert Safe(v, me);
  }

  /** A flush that throws half-way announces nothing: harmless exactly when no tab, its own included, is left behind. */
  lemma FlushFailExact(w: World, me: nat)
    requires Inv(w) && Enabled(w, FlushFail(me))
    ensures Inv(Next(w, FlushFail(me))) <==>
      && (forall i :: 0 <= i < |w.tabs| && i != me ==> Covered(w, i, me))
      && (Aware(w, me) || InStep(w.tabs[me], w.store))
  {
    var v := Next(w, FlushFail(me));
    SoundKept(w, FlushFail(me));
    LeavingExact(w, v, me);
    assert Sound(w.tabs[me]);
    assert forall k :: 0 <= k < |w.tabs| && k != me ==> v.tabs[k] == w.tabs[k];
    assert OtherInWindow(v.tabs, me) <==> OtherInWindow(w.tabs, me);
    assert Safe(v, me) <==> Aware(w, me) || InStep(w.tabs[me], w.store);
  }

  /** Nothing read yet, or nothing of what was read is gone. */
  predicate Untouched(t: Tab, left: Tree) { t.boot.Cold? || (t.boot.Ready? && !t.phase.Flushing? && InStep(t, left)) }

  /**
    Clearing removes entry by entry and announces nothing. Each part of it is harmless exactly when every unaware tab that
    is up holds what is left.
  */
  lemma ClearExact(w: World, me: nat, left: Tree)
    requires Inv(w) && Enabled(w, ClearStorage(me, left))
    ensures Inv(Next(w, ClearStorage(me, left))) <==>
      forall i :: 0 <= i < |w.tabs| ==> Aware(w, i) || Untouched(w.tabs[i], left)
  {
    var v := Next(w, ClearStorage(me, left));
    SoundKept(w, ClearStorage(me, left));
    forall i | 0 <= i < |w.tabs| ensures Safe(v, i) <==> Aware(w, i) || Untouched(w.tabs[i], left) {
      assert Sound(w.tabs[i]);
      assert v.tabs[i] == Disturbed(w.tabs[i]);
      if OtherInWindow(w.tabs, i) { AwareKept(w, v, i); }
      if OtherInWindow(v.tabs, i) { AwareKept(v, w, i); }
    }
  }

  /** Every step but three is harmless; those are when nobody is left behind by them. */
  predicate Harmless(w: World, s: Step)
    requires s.tab < |w.tabs|
  {
    match s
    case Reload(me) => forall i :: 0 <= i < |w.tabs| && i != me ==> Covered(w, i, me)
    case FlushFail(me) =>
      && (forall i :: 0 <= i < |w.tabs| && i != me ==> Covered(w, i, me))
      && (Aware(w, me) || InStep(w.tabs[me], w.store))
    case ClearStorage(_, left) => forall i :: 0 <= i < |w.tabs| ==> Aware(w, i) || Untouched(w.tabs[i], left)
    case _ => true
  }

  /** Each step of any tab keeps the invariant exactly when it is harmless. */
  lemma StepExact(w: World, s: Step)
    requires Inv(w) && Enabled(w, s)
    ensures Inv(Next(w, s)) <==> Harmless(w, s)
  {
    SoundKept(w, s);
    if s.BootStart? || s.BootEnd? { BootKeeps(w, s); }
    else if s.Command? || s.Trap? || s.Admit? { CommandKeeps(w, s); }
    else if s.Write? || s.FlushEnd? { FlushKeeps(w, s); }
    else if s.Finish? { FinishKeeps(w, s); }
    else if s.Receive? { ReceiveKeeps(w, s); }
    else if s.Reload? { ReloadExact(w, s.tab); }
    else if s.FlushFail? { FlushFailExact(w, s.tab); }
    else { ClearExact(w, s.tab, s.left); }
  }

  /** A tab that is reloaded with no flush of its own to announce leaves nobody behind. */
  lemma ReloadOutsideWindow(w: World, me: nat)
    requires Inv(w) && me < |w.tabs| && !InWindow(w.tabs[me])
    ensures Harmless(w, Reload(me))
  {
    forall i | 0 <= i < |w.tabs| && i != me ensures Covered(w, i, me) { assert Safe(w, i); }
  }

  ghost predicate AllHarmless(w: World, run: seq<Step>)
    requires Legal(w, run)
    decreases |run|
  {
    run == [] || (Harmless(w, run[0]) && AllHarmless(Next(w, run[0]), run[1..]))
  }

  ghost predicate AllFresh(w: World) { forall i :: 0 <= i < |w.tabs| ==> w.tabs[i] == Fresh() }

  lemma {:induction false} RunKeepsInv(w: World, run: seq<Step>)
    requires Inv(w) && Legal(w, run) && AllHarmless(w, run)
    ensures Inv(End(w, run))
    decreases |run|
  {
    if run != [] {
      StepExact(w, run[0]);
      RunKeepsInv(Next(w, run[0]), run[1..]);
    }
  }
}
