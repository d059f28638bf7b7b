/**
  The command registry: one flat map of method ids, of which the platform's own come and go with what the app has
  declared and what the host says it can do.
*/
module Registry {
  import opened Basics

  const CORE: set<nat> := {1, 2, 4}
  const FILESYSTEM: set<nat> := {100, 101, 102}
  const INDEX: set<nat> := {200}
  const HANDLED: set<nat> := CORE + FILESYSTEM + INDEX
  const SET_ENVIRONMENT: nat := 2

  /** A block of ids that is registered as a unit. */
  datatype Block = Core | Filesystem | Index {
    function Lo(): nat { match this case Core => 1 case Filesystem => 100 case Index => 200 }
    function Hi(): nat { match this case Core => 99 case Filesystem => 199 case Index => 299 }
    predicate Has(id: nat) { Lo() <= id <= Hi() }
  }

  /** Who answers an id: the platform's generated handler, or one the app has put there. */
  datatype Handler = Platform | App(name: string)

  type Table = map<nat, Handler>

  datatype Availability = Unspecified | Absent | Present
  datatype Environment = Environment(revision: nat, filesystem: Availability)
  datatype Changed = Changed(revision: nat, surface: set<nat>)

  /** The package's variables, and the events sent so far with the surface each listener would have found. */
  datatype Engine = Engine(registry: Table, rebuilder: bool, discovered: bool, env: Option<Environment>,
                           events: seq<Changed>)

  const START: Engine := Engine(map[], false, false, None, [])

  datatype Call =
    | RegisterCore
    | RegisterAll
    | RegisterDiscovered
    | SetIndexRebuilder(given: bool)
    | Register(id: nat, name: string)
    | Unregister(id: nat)
    | SetEnvironment(next: Option<Environment>)

  // ---- what each call does ------------------------------------------------

  function HasFilesystem(e: Engine): bool { e.env.Some? && e.env.value.filesystem == Present }

  /** Every handler of the block that is not there yet. */
  function WithBlock(t: Table, b: Block): Table {
    map id | id in t.Keys + HANDLED && (id in t || b.Has(id)) :: if id in t then t[id] else Platform
  }

  function WithoutBlock(t: Table, b: Block): Table { map id | id in t && !b.Has(id) :: t[id] }

  function InLine(t: Table, b: Block, wanted: bool): Table { if wanted then WithBlock(t, b) else WithoutBlock(t, b) }

  /** `syncIndexVerbs` */
  function IndexSynced(e: Engine): Engine {
    e.(registry := InLine(e.registry, Index, e.rebuilder && (!e.discovered || HasFilesystem(e))))
  }

  /** `syncCapabilityVerbs`; an app that registered everything has opted out of the first half. */
  function Synced(e: Engine): Engine {
    IndexSynced(if e.discovered then e.(registry := InLine(e.registry, Filesystem, HasFilesystem(e))) else e)
  }

  datatype Refusal = UnknownMethod | NoEnvironment | ZeroRevision

  /** `handleSetEnvironment`, behind the dispatch that has to find it. */
  function Manifest(e: Engine, next: Option<Environment>): (Engine, Result<bool, Refusal>) {
    if SET_ENVIRONMENT !in e.registry then (e, Err(UnknownMethod))
    else if next.None? then (e, Err(NoEnvironment))
    else if next.value.revision == 0 then (e, Err(ZeroRevision))
    else if e.env.Some? && e.env.value.revision == next.value.revision then (e, Ok(false))
    else
      var done := Synced(e.(env := next));
      (done.(events := done.events + [Changed(next.value.revision, done.registry.Keys)]), Ok(true))
  }

  /** One call; None is the panic on a second handler for one id. */
  function Called(e: Engine, c: Call): Option<Engine> {
    match c
    case RegisterCore => Some(e.(registry := WithBlock(e.registry, Core)))
    case RegisterAll => Some(e.(registry := WithBlock(WithBlock(e.registry, Core), Filesystem)))
    case RegisterDiscovered => Some(Synced(e.(registry := WithBlock(e.registry, Core), discovered := true)))
    case SetIndexRebuilder(given) => Some(IndexSynced(e.(rebuilder := given)))
    case Register(id, name) => if id in e.registry then None else Some(e.(registry := e.registry[id := App(name)]))
    case Unregister(id) => Some(e.(registry := e.registry - {id}))
    case SetEnvironment(next) => Some(Manifest(e, next).0)
  }

  /** The state after a run of calls, unless one of them panicked. */
  function After(run: seq<Call>): Option<Engine>
    decreases |run|
  {
    if run == [] then Some(START)
    else match After(run[..|run| - 1]) case None => None case Some(e) => Called(e, run[|run| - 1])
  }

  // ---- the package as it is -----------------------------------------------

  class Package {
    var registry: Table
    var rebuilder: bool
    var discovered: bool
    var env: Option<Environment>
    ghost var events: seq<Changed>

    ghost function State(): Engine
      reads this
    {
      Engine(registry, rebuilder, discovered, env, events)
    }

    constructor ()
      ensures State() == START
    {
      registry := map[];
      rebuilder := false;
      discovered := false;
      env := None;
      events := [];
    }

    method PutHandler(id: nat, h: Handler) returns (ok: bool)
      modifies `registry
      ensures ok <==> id !in old(registry)
      ensures registry == if ok then old(registry)[id := h] else old(registry)
    {
      ok := id !in registry;
      if ok { registry := registry[id := h]; }
    }

    /** `registerBlock`, over the generated map in whatever order it comes. */
    method RegisterBlock(b: Block)
      modifies `registry
      ensures registry == WithBlock(old(registry), b)
    {
      var left := HANDLED;
      while left != {}
        invariant left <= HANDLED
        invariant registry.Keys == set id | id in old(registry).Keys + HANDLED
          && (id in old(registry) || (b.Has(id) && id !in left))
        invariant forall id :: id in registry ==>
          registry[id] == if id in old(registry) then old(registry)[id] else Platform
        decreases left
      {
        var id :| id in left;
        left := left - {id};
        if !b.Has(id) || id in registry { continue; }
        var ok := PutHandler(id, Platform);
      }
    }

    method UnregisterBlock(b: Block)
      modifies `registry
      ensures registry == WithoutBlock(old(registry), b)
    {
      var left := registry.Keys;
      while left != {}
        invariant left <= old(registry).Keys
        invariant registry == map id | id in old(registry) && (id in left || !b.Has(id)) :: old(registry)[id]
        decreases left
      {
        var id :| id in left;
        left := left - {id};
        if b.Has(id) { registry := registry - {id}; }
      }
    }

    method SyncFilesystemVerbs()
      modifies `registry
      ensures registry ==
        if discovered then InLine(old(registry), Filesystem, HasFilesystem(State())) else old(registry)
    {
      if !discovered { return; }
      if env.Some? && env.value.filesystem == Present {
        RegisterBlock(Filesystem);
        return;
      }
      UnregisterBlock(Filesystem);
    }

    method SyncIndexVerbs()
      modifies `registry
      ensures State() == IndexSynced(old(State()))
    {
      if !rebuilder {
        UnregisterBlock(Index);
        return;
      }
      if discovered && !(env.Some? && env.value.filesystem == Present) {
        UnregisterBlock(Index);
        return;
      }
      RegisterBlock(Index);
    }

    method SyncCapabilityVerbs()
      modifies `registry
      ensures State() == Synced(old(State()))
    {
      SyncFilesystemVerbs();
      SyncIndexVerbs();
    }

    method RegisterCore()
      modifies this
      ensures Called(old(State()), Call.RegisterCore) == Some(State())
    {
      RegisterBlock(Core);
    }

    method RegisterAll()
      modifies this
      ensures Called(old(State()), Call.RegisterAll) == Some(State())
    {
      RegisterBlock(Core);
      RegisterBlock(Filesystem);
    }

    method RegisterDiscovered()
      modifies this
      ensures Called(old(State()), Call.RegisterDiscovered) == Some(State())
    {
      RegisterCore();
      discovered := true;
      SyncCapabilityVerbs();
    }

    method SetIndexRebuilder(given: bool)
      modifies this
      ensures Called(old(State()), Call.SetIndexRebuilder(given)) == Some(State())
    {
      rebuilder := given;
      SyncIndexVerbs();
    }

    /** A command reaches its handler through the registry; the event goes out only when the surface is in line. */
    method ExecuteSetEnvironment(next: Option<Environment>) returns (r: Result<bool, Refusal>)
      modifies this
      ensures (State(), r) == Manifest(old(State()), next)
    {
      if SET_ENVIRONMENT !in registry { return Err(UnknownMethod); }
      if next.None? { return Err(NoEnvironment); }
      if next.value.revision == 0 { return Err(ZeroRevision); }
      if env.Some? && env.value.revision == next.value.revision { return Ok(false); }
      env := next;
      SyncCapabilityVerbs();
      events := events + [Changed(next.value.revision, registry.Keys)];
      return Ok(true);
    }

    /** `handleGetCommandSurface`: the live registry, ascending. */
    method CommandSurface() returns (ids: seq<nat>)
      ensures forall id :: id in ids <==> id in registry
      ensures Ascending(ids)
    {
      ids := [];
      var left := registry.Keys;
      while left != {}
        invariant left <= registry.Keys
        invariant forall id :: id in ids <==> id in registry && id !in left
        invariant Ascending(ids)
        decreases left
      {
        var id :| id in left;
        left := left - {id};
        ids := PutInOrder(ids, id);
      }
    }
  }

  method PutInOrder(ids: seq<nat>, id: nat) returns (r: seq<nat>)
    requires id !in ids && Ascending(ids)
    ensures forall x :: x in r <==> x in ids || x == id
    ensures Ascending(r)
  {
    var k := |ids|;
    while k > 0 && ids[k - 1] > id
      invariant 0 <= k <= |ids|
      invariant k < |ids| ==> id < ids[k]
    {
      k := k - 1;
    }
    if k > 0 { assert ids[k - 1] in ids; }
    Inserted(ids, k, id);
    PutOrder(ids, k, id);
    r := ids[..k] + [id] + ids[k..];
  }

  predicate Ascending(ids: seq<nat>) { forall i, j :: 0 <= i < j < |ids| ==> ids[i] < ids[j] }

  lemma PutOrder(ids: seq<nat>, k: nat, id: nat)
    requires k <= |ids| && Ascending(ids)
    requires k > 0 ==> ids[k - 1] < id
    requires k < |ids| ==> id < ids[k]
    ensures Ascending(ids[..k] + [id] + ids[k..])
  {
    var r := ids[..k] + [id] + ids[k..];
    forall i, j | 0 <= i < j < |r| ensures r[i] < r[j] {
      PutAt(ids, k, id, i);
      PutAt(ids, k, id, j);
    }
  }

  lemma PutAt(ids: seq<nat>, k: nat, id: nat, i: nat)
    requires k <= |ids| && i <= |ids|
    ensures (ids[..k] + [id] + ids[k..])[i] == if i < k then ids[i] else if i == k then id else ids[i - 1]
  {
  }

  // ---- the surface in every run -------------------------------------------

  datatype Policy = Nothing | OnlyCore | Eager | Discovering

  /** What the app has declared, whatever the order: discovery outweighs eagerness. */
  function PolicyOf(run: seq<Call>): Policy {
    if RegisterDiscovered in run then Discovering
    else if RegisterAll in run then Eager
    else if RegisterCore in run then OnlyCore else Nothing
  }

  /** The platform ids that the declared policy and the two facts call for. */
  function Expected(p: Policy, rebuilder: bool, present: bool): set<nat> {
    (if p != Nothing then CORE else {})
    + (if p == Eager || (p == Discovering && present) then FILESYSTEM else {})
    + (if rebuilder && (p != Discovering || present) then INDEX else {})
  }

  predicate IsPlatformId(id: nat) { 1 <= id <= 299 }

  function PlatformIds(e: Engine): set<nat> { set id | id in e.registry && IsPlatformId(id) }

  /** The app keeps its hands off the platform's ids. */
  predicate KeepsOff(c: Call) { (c.Register? || c.Unregister?) ==> !IsPlatformId(c.id) }

  predicate AllKeepOff(run: seq<Call>) { forall i :: 0 <= i < |run| ==> KeepsOff(run[i]) }

  /** `RegisterAll` by an app that already discovers, on a host without a filesystem, and nothing since to undo it. */
  predicate Overdone(run: seq<Call>)
    requires After(run).Some?
    decreases |run|
  {
    run != [] && Overdoes(After(run[..|run| - 1]).value, run[|run| - 1], Overdone(run[..|run| - 1]))
  }

  predicate Overdoes(before: Engine, c: Call, already: bool) {
    match c
    case RegisterAll => before.discovered && !HasFilesystem(before)
    case RegisterDiscovered => false
    case SetEnvironment(next) => already && Manifest(before, next).1 != Ok(true)
    case _ => already
  }

  /** What holds of the state a run leads to. */
  predicate Matches(e: Engine, p: Policy, overdone: bool) {
    && e.discovered == (p == Discovering)
    && (p == Nothing ==> e.env.None?)
    && (overdone ==> e.discovered && !HasFilesystem(e))
    && PlatformIds(e) == Expected(p, e.rebuilder, HasFilesystem(e)) + (if overdone then FILESYSTEM else {})
  }

  /** A policy once another registration call is made. */
  function Declared(p: Policy, c: Call): Policy {
    match c
    case RegisterCore => if p == Nothing then OnlyCore else p
    case RegisterAll => if p == Discovering then p else Eager
    case RegisterDiscovered => Discovering
    case _ => p
  }

  lemma BlockIds(e: Engine, b: Block)
    ensures PlatformIds(e.(registry := WithBlock(e.registry, b)))
      == PlatformIds(e) + (match b case Core => CORE case Filesystem => FILESYSTEM case Index => INDEX)
    ensures PlatformIds(e.(registry := WithoutBlock(e.registry, b))) == set id | id in PlatformIds(e) && !b.Has(id)
  {
  }

  lemma IndexSyncedIds(e: Engine)
    requires PlatformIds(e) <= HANDLED
    ensures PlatformIds(IndexSynced(e)) == PlatformIds(e) * (CORE + FILESYSTEM)
      + (if e.rebuilder && (!e.discovered || HasFilesystem(e)) then INDEX else {})
  {
    BlockIds(e, Index);
    assert forall id :: id in HANDLED ==> (Index.Has(id) <==> id in INDEX);
  }

  lemma FilesystemSyncedIds(e: Engine)
    requires PlatformIds(e) <= HANDLED
    ensures PlatformIds(e.(registry := InLine(e.registry, Filesystem, HasFilesystem(e))))
      == PlatformIds(e) * (CORE + INDEX) + (if HasFilesystem(e) then FILESYSTEM else {})
  {
    BlockIds(e, Filesystem);
    assert forall id :: id in HANDLED ==> (Filesystem.Has(id) <==> id in FILESYSTEM);
  }

  /** A sync brings the two blocks in line whatever they were, and leaves the rest. */
  lemma SyncedIds(e: Engine)
    requires PlatformIds(e) <= HANDLED
    ensures PlatformIds(Synced(e)) ==
      (PlatformIds(e) * CORE)
      + (if e.discovered then (if HasFilesystem(e) then FILESYSTEM else {}) else PlatformIds(e) * FILESYSTEM)
      + (if e.rebuilder && (!e.discovered || HasFilesystem(e)) then INDEX else {})
  {
    var f := if e.discovered then e.(registry := InLine(e.registry, Filesystem, HasFilesystem(e))) else e;
    FilesystemSyncedIds(e);
    IndexSyncedIds(f);
  }

  lemma EagerMatches(e: Engine, c: Call, p: Policy, overdone: bool)
    requires Matches(e, p, overdone) && (c.RegisterCore? || c.RegisterAll?)
    ensures Matches(Called(e, c).value, Declared(p, c),
      if c.RegisterAll? then e.discovered && !HasFilesystem(e) else overdone)
  {
    CoreMatches(e, p, overdone);
    if c.RegisterAll? { AllMatches(e, e.(registry := WithBlock(e.registry, Core)), p, overdone); }
  }

  lemma CoreMatches(e: Engine, p: Policy, overdone: bool)
    requires Matches(e, p, overdone)
    ensures Matches(e.(registry := WithBlock(e.registry, Core)), Declared(p, RegisterCore), overdone)
  {
    BlockIds(e, Core);
  }

  lemma AllMatches(e: Engine, f: Engine, p: Policy, overdone: bool)
    requires f == e.(registry := f.registry) && Matches(f, Declared(p, RegisterCore), overdone)
    requires e.discovered == (p == Discovering)
    ensures Matches(f.(registry := WithBlock(f.registry, Filesystem)), Declared(p, RegisterAll),
      e.discovered && !HasFilesystem(e))
  {
    BlockIds(f, Filesystem);
  }

  lemma DiscoveryMatches(e: Engine, p: Policy, overdone: bool)
    requires Matches(e, p, overdone)
    ensures Matches(Called(e, RegisterDiscovered).value, Discovering, false)
  {
    BlockIds(e, Core);
    var f := e.(registry := WithBlock(e.registry, Core));
    var g := f.(discovered := true);
    assert PlatformIds(g) == PlatformIds(f);
    assert PlatformIds(g) * CORE == CORE;
    SyncedIds(g);
  }

  lemma RebuilderMatches(e: Engine, given: bool, p: Policy, overdone: bool)
    requires Matches(e, p, overdone)
    ensures Matches(Called(e, SetIndexRebuilder(given)).value, p, overdone)
  {
    var f := e.(rebuilder := given);
    assert PlatformIds(f) == PlatformIds(e);
    BlockIds(f, Index);
  }

  lemma ManifestMatches(e: Engine, next: Option<Environment>, p: Policy, overdone: bool)
    requires Matches(e, p, overdone)
    ensures var (f, r) := Manifest(e, next); Matches(f, p, overdone && r != Ok(true))
  {
    var (f, r) := Manifest(e, next);
    if r == Ok(true) {
      assert SET_ENVIRONMENT in PlatformIds(e);
      assert PlatformIds(e.(env := next)) == PlatformIds(e);
      SyncMatches(e, e.(env := next), p, overdone);
      assert PlatformIds(f) == PlatformIds(Synced(e.(env := next)));
    }
  }

  lemma SyncMatches(e: Engine, g: Engine, p: Policy, overdone: bool)
    requires Matches(e, p, overdone) && p != Nothing
    requires g == e.(env := g.env) && PlatformIds(g) == PlatformIds(e)
    ensures Matches(Synced(g), p, false)
  {
    SyncedIds(g);
  }

  lemma PolicyGrows(run: seq<Call>)
    requires run != []
    ensures PolicyOf(run) == Declared(PolicyOf(run[..|run| - 1]), run[|run| - 1])
  {
    assert run == run[..|run| - 1] + [run[|run| - 1]];
  }

  lemma CallMatches(e: Engine, c: Call, p: Policy, overdone: bool)
    requires Matches(e, p, overdone) && KeepsOff(c) && Called(e, c).Some?
    ensures Matches(Called(e, c).value, Declared(p, c), Overdoes(e, c, overdone))
  {
    match c
    case SetIndexRebuilder(given) => RebuilderMatches(e, given, p, overdone);
    case SetEnvironment(next) => ManifestMatches(e, next, p, overdone);
    case Register(_, _) => assert PlatformIds(Called(e, c).value) == PlatformIds(e);
    case Unregister(_) => assert PlatformIds(Called(e, c).value) == PlatformIds(e);
    case RegisterDiscovered => DiscoveryMatches(e, p, overdone);
    case _ => EagerMatches(e, c, p, overdone);
  }

  lemma {:induction false} EveryRunMatches(run: seq<Call>)
    requires AllKeepOff(run) && After(run).Some?
    ensures Matches(After(run).value, PolicyOf(run), Overdone(run))
    decreases |run|
  {
    if run == [] {
      assert PlatformIds(START) == {};
    } else {
      var front, last := run[..|run| - 1], run[|run| - 1];
      assert forall i :: 0 <= i < |front| ==> front[i] == run[i];
      assert After(run) == Called(After(front).value, last);
      EveryRunMatches(front);
      PolicyGrows(run);
      CallMatches(After(front).value, last, PolicyOf(front), Overdone(front));
    }
  }

  /**
    In every run of registrations, rebuilder settings and manifests, in any order, the platform's ids are the ones
    that policy, rebuilder and filesystem call for; exactly unless everything was registered on top of discovery on a
    host without a filesystem.
  */
  lemma SurfaceIsExpected(run: seq<Call>)
    requires AllKeepOff(run) && After(run).Some?
    ensures var e := After(run).value;
      PlatformIds(e) == Expected(PolicyOf(run), e.rebuilder, HasFilesystem(e)) <==> !Overdone(run)
  {
    EveryRunMatches(run);
    var e := After(run).value;
    if Overdone(run) { assert 100 !in Expected(PolicyOf(run), e.rebuilder, HasFilesystem(e)); }
  }

  /** Order does not show: runs that declare the same and learn the same end with the same platform ids. */
  lemma OrderDoesNotShow(a: seq<Call>, b: seq<Call>)
    requires AllKeepOff(a) && After(a).Some? && !Overdone(a)
    requires AllKeepOff(b) && After(b).Some? && !Overdone(b)
    requires PolicyOf(a) == PolicyOf(b) && After(a).value.rebuilder == After(b).value.rebuilder
    requires HasFilesystem(After(a).value) == HasFilesystem(After(b).value)
    ensures PlatformIds(After(a).value) == PlatformIds(After(b).value)
  {
    SurfaceIsExpected(a);
    SurfaceIsExpected(b);
  }

  /** The one order that does: discovery first and everything after it, before any manifest. */
  lemma RegisterAllAfterDiscovered()
    ensures var run := [RegisterDiscovered, RegisterAll];
      After(run).Some? && Overdone(run) && 100 in After(run).value.registry && !HasFilesystem(After(run).value)
  {
    var first := [RegisterDiscovered];
    var run := [RegisterDiscovered, RegisterAll];
    assert first[..0] == [] && run[..1] == first;
    var e := After(first).value;
    assert e == Synced(START.(registry := WithBlock(START.registry, Core), discovered := true));
    assert After(run) == Called(e, RegisterAll);
  }

  // ---- the app's own ids --------------------------------------------------

  /** No call but the app's own touches an id outside the platform's blocks. */
  lemma AppIdsUntouched(e: Engine, c: Call, id: nat)
    requires Called(e, c).Some? && !IsPlatformId(id)
    requires (c.Register? || c.Unregister?) ==> c.id != id
    ensures var f := Called(e, c).value;
      (id in f.registry <==> id in e.registry) && (id in e.registry ==> f.registry[id] == e.registry[id])
  {
  }

  /** Why an app must keep off: a handler of its own for a platform id is gone once the filesystem went and came back. */
  lemma OverrideIsLost(e: Engine, gone: Environment, back: Environment)
    requires SET_ENVIRONMENT in e.registry && 100 in e.registry && e.discovered
    requires e.env.Some? && gone.revision != 0 && back.revision != 0
    requires e.env.value.revision != gone.revision && gone.revision != back.revision
    requires gone.filesystem != Present && back.filesystem == Present
    ensures var f := Manifest(e, Some(gone)).0;
      100 !in f.registry && 100 in Manifest(f, Some(back)).0.registry
      && Manifest(f, Some(back)).0.registry[100] == Platform
  {
    var f := Manifest(e, Some(gone)).0;
    assert SET_ENVIRONMENT in f.registry;
  }

  /** What the app itself has last said about an id. */
  function LastSaid(run: seq<Call>, id: nat): Option<string> {
    if run == [] then None
    else match run[|run| - 1]
      case Register(n, name) => if n == id then Some(name) else LastSaid(run[..|run| - 1], id)
      case Unregister(n) => if n == id then None else LastSaid(run[..|run| - 1], id)
      case _ => LastSaid(run[..|run| - 1], id)
  }

  /** In every run, what answers an id outside the platform's blocks is what the app has last put there, or nothing. */
  lemma {:induction false} AppIdsAreTheApps(run: seq<Call>, id: nat)
    requires After(run).Some? && !IsPlatformId(id)
    ensures match LastSaid(run, id)
      case None => id !in After(run).value.registry
      case Some(name) => id in After(run).value.registry && After(run).value.registry[id] == App(name)
    decreases |run|
  {
    if run != [] {
      var front, last := run[..|run| - 1], run[|run| - 1];
      AppIdsAreTheApps(front, id);
      if (last.Register? || last.Unregister?) && last.id == id {
      } else {
        AppIdsUntouched(After(front).value, last, id);
      }
    }
  }

  /** Calls that empty the block an id is in, or take that id out. */
  predicate Drops(e: Engine, c: Call, id: nat) {
    match c
    case RegisterDiscovered =>
      (100 <= id <= 199 && !HasFilesystem(e)) || (200 <= id <= 299 && !(e.rebuilder && HasFilesystem(e)))
    case SetIndexRebuilder(given) => 200 <= id <= 299 && !(given && (!e.discovered || HasFilesystem(e)))
    case SetEnvironment(next) =>
      && Manifest(e, next).1 == Ok(true)
      && var present := next.value.filesystem == Present;
        || (100 <= id <= 199 && e.discovered && !present)
        || (200 <= id <= 299 && !(e.rebuilder && (!e.discovered || present)))
    case Unregister(n) => n == id
    case _ => false
  }

  /** Since the app last registered this id itself, a call has dropped it. */
  predicate DroppedSince(run: seq<Call>, id: nat)
    requires After(run).Some?
    decreases |run|
  {
    run != [] &&
      var front, last := run[..|run| - 1], run[|run| - 1];
      !(last.Register? && last.id == id) && (Drops(After(front).value, last, id) || DroppedSince(front, id))
  }

  /** Who answers an id after one call: nobody the app has put there, if it was dropped; else whoever did before. */
  lemma DropsExactly(e: Engine, c: Call, id: nat)
    requires Called(e, c).Some? && !(c.Register? && c.id == id)
    ensures var f := Called(e, c).value;
      && (Drops(e, c, id) && id in f.registry ==> f.registry[id] == Platform)
      && (!Drops(e, c, id) && id in e.registry ==> id in f.registry && f.registry[id] == e.registry[id])
      && (id !in e.registry && id in f.registry ==> f.registry[id] == Platform)
  {
  }

  /**
    An app may take over a platform id. In every run, and for every id: a handler of the app's is the one that answers
    exactly when it is the last the app registered there and nothing has dropped it since. Whatever else answers is the
    platform's.
  */
  lemma {:induction false} OverridesSurviveExactly(run: seq<Call>, id: nat)
    requires After(run).Some?
    ensures var e := After(run).value;
      && (forall name :: id in e.registry && e.registry[id] == App(name) <==>
            LastSaid(run, id) == Some(name) && !DroppedSince(run, id))
      && (id in e.registry && (LastSaid(run, id).None? || DroppedSince(run, id)) ==> e.registry[id] == Platform)
    decreases |run|
  {
    if run != [] {
      var front, last := run[..|run| - 1], run[|run| - 1];
      OverridesSurviveExactly(front, id);
      if !(last.Register? && last.id == id) { DropsExactly(After(front).value, last, id); }
    }
  }

  /** The app registers an id that something answers already. */
  predicate Collides(run: seq<Call>, i: nat)
    requires i < |run|
  {
    run[i].Register? && After(run[..i]).Some? && run[i].id in After(run[..i]).value.registry
  }

  /** A run panics exactly when the app collides somewhere in it. */
  lemma {:induction false} PanicsExactly(run: seq<Call>)
    ensures After(run).None? <==> exists i: nat :: i < |run| && Collides(run, i)
    decreases |run|
  {
    if run != [] {
      var n := |run| - 1;
      PanicsExactly(run[..n]);
      forall i: nat | i < n ensures Collides(run[..n], i) <==> Collides(run, i) { SameFront(run, n, i); }
      assert Collides(run, n) <==> After(run[..n]).Some? && Called(After(run[..n]).value, run[n]).None?;
    }
  }

  lemma SameFront(run: seq<Call>, n: nat, i: nat)
    requires i < n <= |run|
    ensures Collides(run[..n], i) <==> Collides(run, i)
  {
    assert run[..n][..i] == run[..i];
  }

  lemma OneMoreCall(front: seq<Call>, c: Call)
    requires After(front).Some?
    ensures After(front + [c]) == Called(After(front).value, c)
  {
    var run := front + [c];
    assert run[..|run| - 1] == front;
  }

  /** An app that discovers, and puts its own handler on a platform id while there is a filesystem. */
  function Overriding(mine: string): seq<Call> {
    [RegisterDiscovered, SetEnvironment(Some(Environment(1, Present)))] + [Unregister(100)] + [Register(100, mine)]
  }

  lemma Discovers()
    ensures var e := Called(START, RegisterDiscovered).value; SET_ENVIRONMENT in e.registry && e.discovered && e.env.None?
  {
  }

  lemma HearsOfOne(e: Engine, next: Environment)
    requires SET_ENVIRONMENT in e.registry && e.discovered && e.env.None?
    requires next.revision != 0 && next.filesystem == Present
    ensures var f := Called(e, SetEnvironment(Some(next))).value;
      SET_ENVIRONMENT in f.registry && 100 in f.registry && f.discovered && f.env == Some(next)
  {
  }

  lemma Heard()
    ensures var run := [RegisterDiscovered, SetEnvironment(Some(Environment(1, Present)))];
      && After(run).Some?
      && var e := After(run).value;
        && SET_ENVIRONMENT in e.registry && e.discovered && e.env == Some(Environment(1, Present))
        && 100 in e.registry
  {
    var one := Environment(1, Present);
    OneMoreCall([], RegisterDiscovered);
    assert [] + [RegisterDiscovered] == [RegisterDiscovered];
    Discovers();
    OneMoreCall([RegisterDiscovered], SetEnvironment(Some(one)));
    assert [RegisterDiscovered] + [SetEnvironment(Some(one))] == [RegisterDiscovered, SetEnvironment(Some(one))];
    HearsOfOne(Called(START, RegisterDiscovered).value, one);
  }

  lemma TakesOver(run: seq<Call>, id: nat, mine: string)
    requires After(run).Some?
    ensures var taken := After(run + [Unregister(id)] + [Register(id, mine)]);
      taken == Some(After(run).value.(registry := After(run).value.registry - {id}).(
        registry := (After(run).value.registry - {id})[id := App(mine)]))
  {
    OneMoreCall(run, Unregister(id));
    OneMoreCall(run + [Unregister(id)], Register(id, mine));
  }

  lemma Overridden(mine: string)
    ensures After(Overriding(mine)).Some?
    ensures var e := After(Overriding(mine)).value;
      && SET_ENVIRONMENT in e.registry && e.discovered && e.env == Some(Environment(1, Present))
      && 100 in e.registry && e.registry[100] == App(mine)
  {
    Heard();
    TakesOver([RegisterDiscovered, SetEnvironment(Some(Environment(1, Present)))], 100, mine);
  }

  /** Such a run, and then the filesystem goes and comes back: the app's handler is the platform's again. */
  lemma OverrideRunIsLost(mine: string)
    ensures var before, after := Overriding(mine),
      Overriding(mine) + [SetEnvironment(Some(Environment(2, Absent)))] + [SetEnvironment(Some(Environment(3, Present)))];
      && After(before).Some? && 100 in After(before).value.registry && After(before).value.registry[100] == App(mine)
      && After(after).Some? && 100 in After(after).value.registry && After(after).value.registry[100] == Platform
  {
    var gone, back := Environment(2, Absent), Environment(3, Present);
    Overridden(mine);
    OverrideIsLost(After(Overriding(mine)).value, gone, back);
    OneMoreCall(Overriding(mine), SetEnvironment(Some(gone)));
    OneMoreCall(Overriding(mine) + [SetEnvironment(Some(gone))], SetEnvironment(Some(back)));
  }

  // ---- manifests ----------------------------------------------------------

  /** A revision already in force, like a manifest that is refused, changes nothing and announces nothing. */
  lemma RepeatedRevisionChangesNothing(e: Engine, next: Option<Environment>)
    ensures var (f, r) := Manifest(e, next);
      (f == e <==> r != Ok(true)) &&
      (r == Ok(true) <==> (SET_ENVIRONMENT in e.registry && next.Some? && next.value.revision != 0
        && (e.env.Some? ==> e.env.value.revision != next.value.revision)))
  {
    var (f, r) := Manifest(e, next);
    if r == Ok(true) { assert |f.events| == |e.events| + 1; }
  }

  /** What a run has announced: one event for each manifest that took effect, and never one revision twice running. */
  predicate Announced(e: Engine) {
    && (e.env.None? <==> e.events == [])
    && (e.env.Some? ==> e.events != [] && e.events[|e.events| - 1].revision == e.env.value.revision)
    && forall i :: 0 <= i < |e.events| - 1 ==> e.events[i].revision != e.events[i + 1].revision
  }

  lemma {:induction false} RevisionsDiffer(run: seq<Call>)
    requires After(run).Some?
    ensures Announced(After(run).value)
    decreases |run|
  {
    if run != [] {
      var front, last := run[..|run| - 1], run[|run| - 1];
      RevisionsDiffer(front);
      AnnouncedAfter(After(front).value, last);
    }
  }

  lemma AnnouncedAfter(e: Engine, c: Call)
    requires Announced(e) && Called(e, c).Some?
    ensures Announced(Called(e, c).value)
  {
    if c.SetEnvironment? { RepeatedRevisionChangesNothing(e, c.next); }
  }

  /** Whoever hears of a new environment and asks for the surface finds the one the new facts call for. */
  lemma EventFollowsTheSurface(run: seq<Call>, next: Option<Environment>)
    requires AllKeepOff(run) && After(run).Some?
    requires Manifest(After(run).value, next).1 == Ok(true)
    ensures var f := Manifest(After(run).value, next).0;
      && f.env == next
      && |f.events| == |After(run).value.events| + 1
      && var e := f.events[|f.events| - 1];
        && e.revision == next.value.revision && e.surface == f.registry.Keys
        && (set id | id in e.surface && IsPlatformId(id))
          == Expected(PolicyOf(run), f.rebuilder, next.value.filesystem == Present)
  {
    EveryRunMatches(run);
    ManifestMatches(After(run).value, next, PolicyOf(run), Overdone(run));
    var f := Manifest(After(run).value, next).0;
    assert PlatformIds(f) == set id | id in f.registry.Keys && IsPlatformId(id);
  }
}
