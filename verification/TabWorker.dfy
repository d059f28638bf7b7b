/**
  One tab's worker as the program has it: module state, and one method for each stretch of code between two awaits.
  Each method takes the tab through the step that Tabs gives it.
*/
module TabWorker {
  import opened Basics
  import opened Opfs
  import opened Bits
  import opened Fingerprint
  import opened Tabs

  class Worker {
    const id: string
    var stale: bool
    var boot: Boot
    var tree: Tree
    var flushed: Word
    var duringCommand: seq<Event>
    var told: seq<Event>
    ghost var inbox: nat
    ghost var base: Tree
    ghost var phase: Phase

    ghost function State(): Tab
      reads this
    {
      Tab(stale, inbox, boot, tree, base, flushed, phase, duringCommand, told)
    }

    constructor (tabId: string)
      ensures State() == Fresh() && id == tabId
    {
      id := tabId;
      stale := false;
      boot := Cold;
      tree := map[];
      flushed := OFFSET;
      duringCommand := [];
      told := [];
      inbox := 0;
      base := map[];
      phase := Idle;
    }

    /** The channel's handler: a tab's own message is none of its business, any other makes it stale for good. */
    method HearStoreChanged(sender: string)
      modifies this
      ensures State() == if sender == id then old(State()) else Received(old(State()))
    {
      if sender == id { return; }
      stale := true;
      inbox := if inbox > 0 then inbox - 1 else 0;
    }

    /** The start of `execute`. */
    method Admit() returns (refused: bool)
      modifies this
      ensures refused == old(stale)
      ensures State() == if refused then old(State()) else old(State()).(phase := Admitted)
    {
      refused := stale;
      if refused { return; }
      phase := Admitted;
    }

    /** `boot` over a store that nobody else is writing. */
    method Boot(store: Tree)
      modifies this
      ensures State() == Booted(old(State()), Seen(store))
    {
      var seen := LoadTree(store);
      FinishBoot(seen);
    }

    /** The end of `boot`, with the tree that was loaded: the digest is seeded from it. */
    method FinishBoot(seen: Tree)
      modifies this
      ensures State() == Booted(old(State()), seen)
    {
      tree := seen;
      flushed := TreeFingerprint(Dir(tree));
      base := seen;
      boot := Ready;
    }

    /** The engine runs and emits; then the first half of `flush` decides whether to write at all. */
    method RunCommand(after: Tree, events: seq<Event>, ghost from: Tree, ghost clean: bool) returns (write: bool)
      requires duringCommand == []
      modifies this
      ensures State() == Ran(old(State()), after, events, from, clean)
      ensures write == State().phase.Flushing?
    {
      var i := 0;
      while i < |events|
        invariant 0 <= i <= |events| && duringCommand == events[..i]
        invariant State() == old(State()).(pending := events[..i])
        modifies this
      {
        duringCommand := duringCommand + [events[i]];
        i := i + 1;
      }
      tree := after;
      var digest := TreeFingerprint(Dir(tree));
      write := digest != flushed;
      phase := if write then Flushing(from, clean) else Done(false);
    }

    /** The rest of `flush`, when nobody else writes meanwhile. */
    method Persist(store: Tree) returns (after: Tree, ok: bool)
      requires phase == Flushing(store, true)
      modifies this
      ensures ok <==> Compatible(store, Dir(old(tree)), RESERVED)
      ensures ok ==> after == Mirrored(store, old(tree), RESERVED) && State() == Persisted(old(State()))
      ensures !ok ==> State() == Dropped(old(State()))
    {
      after, ok := FlushTree(store, tree);
      if ok { EndFlush(); } else { DropFlush(); }
    }

    /** The mirror is through, whoever else has written meanwhile: the digest is that of this tab's tree. */
    method EndFlush()
      modifies this
      ensures State() == Persisted(old(State()))
    {
      flushed := TreeFingerprint(Dir(tree));
      base := tree;
      phase := Done(true);
    }

    /** The mirror has thrown: nothing is recorded, announced or delivered. */
    method DropFlush()
      modifies this
      ensures State() == Dropped(old(State()))
    {
      duringCommand := [];
      phase := Idle;
    }

    /** The end of `execute`: whether to broadcast, then the events, in order. */
    method Finish(wrote: bool) returns (broadcast: bool)
      requires phase == Done(wrote)
      modifies this
      ensures broadcast == wrote
      ensures State() == Finished(old(State()))
    {
      broadcast := wrote;
      var events := duringCommand;
      duringCommand := [];
      var i := 0;
      while i < |events|
        invariant 0 <= i <= |events|
        invariant State() == old(State()).(pending := [], told := old(told) + events[..i])
        modifies this
      {
        assert events[..i + 1] == events[..i] + [events[i]];
        told := told + [events[i]];
        i := i + 1;
      }
      phase := Idle;
    }
  }
}
