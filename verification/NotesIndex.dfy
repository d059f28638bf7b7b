/**
  The maintained index against a rebuilt one. A key drifts when what a scan finds under it is not the projection of
  the record with that id; every handler that succeeds settles its own id and touches no other, every handler that
  fails or dies half-way can upset its own id only, and a rebuild settles everything or says why it cannot.
*/
module NotesIndex {
  import opened Basics
  import opened Keys
  import opened Notes
  import Paths
  import Sorting

  // ---- records, keys and drift --------------------------------------------

  function RecordAt(fs: Files, k: Bytes): Option<Content> {
    if RecordPlace(k) in fs then Some(fs[RecordPlace(k)]) else None
  }

  function EntryAt(fs: Files, k: Bytes): Option<Content> { if KeyPlace(k) in fs then Some(fs[KeyPlace(k)]) else None }

  /** What a scan sees under a key. */
  function ScanAt(fs: Files, k: Bytes): Option<Content> { if LegalKey(k) then EntryAt(fs, k) else None }

  /** What it should see. */
  function Wanted(fs: Files, k: Bytes): Option<Content> {
    match RecordAt(fs, k) case Some(RecordFile(r)) => Some(EntryFile(Project(r))) case _ => None
  }

  predicate Drifts(fs: Files, k: Bytes) { ScanAt(fs, k) != Wanted(fs, k) }

  /** Every record file is readable and holds the record it is named for. */
  ghost predicate WellFiled(fs: Files) {
    forall k :: RecordAt(fs, k).Some? ==> RecordAt(fs, k).value.RecordFile? && RecordAt(fs, k).value.record.id == k
  }

  lemma SuffixCancels(a: Bytes, b: Bytes, c: Bytes)
    ensures a + c == b + c <==> a == b
  {
    if a + c == b + c {
      assert |a| == |b|;
      assert (a + c)[..|a|] == a && (b + c)[..|b|] == b;
    }
  }

  lemma Apart(j: Bytes, k: Bytes)
    ensures RecordPlace(j) == RecordPlace(k) <==> j == k
    ensures KeyPlace(j) == KeyPlace(k) <==> j == k
    ensures RecordPlace(j) != KeyPlace(k)
  {
    SuffixCancels(j, k, JSON);
    assert RecordPlace(j)[1] == j + JSON && RecordPlace(k)[1] == k + JSON;
    assert KeyPlace(j)[2] == j && KeyPlace(k)[2] == k;
    assert |RecordPlace(j)| == 2 && |KeyPlace(k)| == 3;
  }

  /** An id without a slash leads to the file of its own name. */
  lemma PlainPlace(id: Bytes)
    requires 0x2F !in id
    ensures PlaceOf(id) == Some(RecordPlace(id))
  {
    var names := RecordPlace(id);
    var x := id + JSON;
    assert x[|id|] == 0x2E && x[|id| + 1] == 0x6A;
    assert 0x2F !in x;
    assert Paths.AllNames(names);
    var path := RECORDS + [Paths.SLASH] + x;
    assert names[1..] == [x];
    assert Paths.Join(names) == path;
    Paths.SplitJoin(names);
    assert Paths.IsNormal(names, false);
    assert [] + names == names;
    Paths.NormalFixed([], names, false);
    Paths.NotRooted(names);
    assert Paths.Clean(path) == path;
    Paths.NamesAccepted(names);
  }

  // ---- what one handler touches -------------------------------------------

  /** Only this id's record and key may differ. */
  ghost predicate OnlyAt(before: Files, after: Files, id: Bytes) {
    forall k :: k != id ==> RecordAt(after, k) == RecordAt(before, k) && EntryAt(after, k) == EntryAt(before, k)
  }

  lemma OnlyDriftAt(before: Files, after: Files, id: Bytes)
    requires OnlyAt(before, after, id)
    ensures forall k :: k != id ==> (Drifts(after, k) <==> Drifts(before, k))
  {
    forall k | k != id ensures Drifts(after, k) <==> Drifts(before, k) {
      assert RecordAt(after, k) == RecordAt(before, k);
    }
  }

  lemma WriteTouches(fs: Files, r: Record)
    ensures var after := fs[RecordPlace(r.id) := RecordFile(r)];
      && OnlyAt(fs, after, r.id) && (WellFiled(fs) ==> WellFiled(after))
      && RecordAt(after, r.id) == Some(RecordFile(r)) && forall k :: EntryAt(after, k) == EntryAt(fs, k)
  {
    var after := fs[RecordPlace(r.id) := RecordFile(r)];
    forall k ensures EntryAt(after, k) == EntryAt(fs, k) && (k != r.id ==> RecordAt(after, k) == RecordAt(fs, k)) {
      Apart(k, r.id);
      Apart(r.id, k);
    }
    if WellFiled(fs) {
      forall k | RecordAt(after, k).Some?
        ensures RecordAt(after, k).value.RecordFile? && RecordAt(after, k).value.record.id == k
      {
        if k != r.id { assert RecordAt(after, k) == RecordAt(fs, k); }
      }
    }
  }

  lemma PutTouches(fs: Files, key: Bytes, e: Entry)
    ensures var after := fs[KeyPlace(key) := EntryFile(e)];
      && EntryAt(after, key) == Some(EntryFile(e))
      && (forall k :: k != key ==> EntryAt(after, k) == EntryAt(fs, k))
      && (forall k :: RecordAt(after, k) == RecordAt(fs, k))
  {
    var after := fs[KeyPlace(key) := EntryFile(e)];
    forall k ensures RecordAt(after, k) == RecordAt(fs, k) && (k != key ==> EntryAt(after, k) == EntryAt(fs, k)) {
      Apart(k, key);
    }
  }

  /** The record's file name, suffix and all, is one a file system takes. */
  predicate FileFits(id: Bytes) { |id| + |JSON| <= MAX_KEY }

  lemma PlaceFits(id: Bytes)
    ensures NamesFit(RecordPlace(id)) <==> FileFits(id)
  {
    assert RecordPlace(id)[1] == id + JSON && |RecordPlace(id)[0]| <= MAX_KEY;
  }

  /**
    Saving a record under its own id: on success the id is settled; when the index refuses it the record is there and
    not indexed; when its file name is too long nothing is there.
  */
  lemma SaveSettles(fs: Files, r: Record)
    requires 0x2F !in r.id
    ensures var o := Save(fs, r);
      && OnlyAt(fs, o.files, r.id) && (WellFiled(fs) ==> WellFiled(o.files))
      && (if FileFits(r.id) then RecordAt(o.files, r.id) == Some(RecordFile(r)) else o.files == fs)
      && (o.result.Ok? ==> !Drifts(o.files, r.id))
      && (o.told == if o.result.Ok? then [r.id] else [])
      && (o.result.Ok? <==> FileFits(r.id) && LegalKey(r.id) && !Folds(fs, r.id))
  {
    PlainPlace(r.id);
    PlaceFits(r.id);
    if FileFits(r.id) { SaveFits(fs, r); }
  }

  lemma SaveFits(fs: Files, r: Record)
    requires PlaceOf(r.id) == Some(RecordPlace(r.id)) && NamesFit(RecordPlace(r.id))
    ensures var o := Save(fs, r);
      && OnlyAt(fs, o.files, r.id) && (WellFiled(fs) ==> WellFiled(o.files))
      && RecordAt(o.files, r.id) == Some(RecordFile(r))
      && (o.result.Ok? ==> !Drifts(o.files, r.id))
      && (o.told == if o.result.Ok? then [r.id] else [])
      && (o.result.Ok? <==> LegalKey(r.id) && !Folds(fs, r.id))
  {
    var written := fs[RecordPlace(r.id) := RecordFile(r)];
    WriteTouches(fs, r);
    assert Names(written, INDEX) == Names(fs, INDEX) by { RecordNamesApart(fs, r); }
    assert Folds(written, r.id) <==> Folds(fs, r.id);
    PutTouches(written, r.id, Project(r));
    var o := Save(fs, r);
    if o.result.Ok? {
      assert o.files == written[KeyPlace(r.id) := EntryFile(Project(r))];
      KeepsFiling(written, o.files);
    }
  }

  lemma RecordNamesApart(fs: Files, r: Record)
    ensures Names(fs[RecordPlace(r.id) := RecordFile(r)], INDEX) == Names(fs, INDEX)
  {
    var after := fs[RecordPlace(r.id) := RecordFile(r)];
    assert |RecordPlace(r.id)| == |INDEX|;
    assert forall p :: p != RecordPlace(r.id) ==> (p in after <==> p in fs);
  }

  lemma KeepsFiling(before: Files, after: Files)
    requires forall k :: RecordAt(after, k) == RecordAt(before, k)
    ensures WellFiled(before) ==> WellFiled(after)
  {
    if WellFiled(before) {
      forall k | RecordAt(after, k).Some?
        ensures RecordAt(after, k).value.RecordFile? && RecordAt(after, k).value.record.id == k
      {
        assert RecordAt(after, k) == RecordAt(before, k);
      }
    }
  }

  /** Deleting: the record is gone, and so is its entry if it could ever have had one. */
  lemma DeleteSettles(fs: Files, id: Bytes)
    requires id != [] && 0x2F !in id
    ensures var o := Delete(fs, id);
      && OnlyAt(fs, o.files, id) && (WellFiled(fs) ==> WellFiled(o.files))
      && o.result.Ok? && RecordAt(o.files, id).None? && !Drifts(o.files, id)
      && (o.told == if RecordAt(fs, id).Some? then [id] else [])
  {
    PlainPlace(id);
    var gone := fs - {RecordPlace(id)};
    var after := DeleteKey(gone, id);
    RemoveTouches(fs, id);
    forall k
      ensures RecordAt(after, k) == RecordAt(gone, k)
      ensures k != id ==> EntryAt(after, k) == EntryAt(gone, k)
      ensures k == id && LegalKey(id) ==> EntryAt(after, k).None?
    {
      Apart(k, id);
    }
    KeepsFiling(gone, after);
    assert RecordAt(gone, id).None?;
  }

  lemma RemoveTouches(fs: Files, id: Bytes)
    ensures var gone := fs - {RecordPlace(id)};
      && RecordAt(gone, id).None? && (WellFiled(fs) ==> WellFiled(gone))
      && forall k :: EntryAt(gone, k) == EntryAt(fs, k) && (k != id ==> RecordAt(gone, k) == RecordAt(fs, k))
  {
    var gone := fs - {RecordPlace(id)};
    forall k ensures EntryAt(gone, k) == EntryAt(fs, k) && (k != id ==> RecordAt(gone, k) == RecordAt(fs, k)) {
      Apart(k, id);
      Apart(id, k);
    }
    if WellFiled(fs) {
      forall k | RecordAt(gone, k).Some?
        ensures RecordAt(gone, k).value.RecordFile? && RecordAt(gone, k).value.record.id == k
      {
        assert k != id && RecordAt(gone, k) == RecordAt(fs, k);
      }
    }
  }

  // ---- operations and runs ------------------------------------------------

  datatype Op =
    | CreateOp(create: CreateRequest)
    | UpdateOp(update: UpdateRequest)
    | DeleteOp(id: Bytes)

  function Target(op: Op): Bytes {
    match op case CreateOp(req) => Slug(req.lowered) case UpdateOp(req) => req.id case DeleteOp(id) => id
  }

  function Do(fs: Files, op: Op): (Files, bool) {
    match op
    case CreateOp(req) => (Create(fs, req).files, Create(fs, req).result.Ok?)
    case UpdateOp(req) => (Update(fs, req).files, Update(fs, req).result.Ok?)
    case DeleteOp(id) => (Delete(fs, id).files, Delete(fs, id).result.Ok?)
  }

  /** The record that creating or editing would write, if it gets that far. */
  function Writes(fs: Files, op: Op): Option<Record> {
    match op
    case CreateOp(req) =>
      if req.blank || Slug(req.lowered) == [] then None
      else Some(Record(Slug(req.lowered), req.title, req.body, req.created))
    case UpdateOp(req) =>
      if req.id == [] || ReadRecord(fs, req.id).Err? then None
      else
        var r := ReadRecord(fs, req.id).value;
        if Edited(r, req) == r then None else Some(Edited(r, req))
    case DeleteOp(_) => None
  }

  /** The files when the program dies between the record's file and the index. */
  function Halfway(fs: Files, op: Op): Files {
    match op
    case DeleteOp(id) => if id == [] || PlaceOf(id).None? then fs else fs - {PlaceOf(id).value}
    case _ => match Writes(fs, op)
      case None => fs
      case Some(r) => (match WriteRecord(fs, r) case Err(_) => fs case Ok(written) => written)
  }

  lemma WritesItsTarget(fs: Files, op: Op)
    requires WellFiled(fs) && 0x2F !in Target(op) && Writes(fs, op).Some?
    ensures Writes(fs, op).value.id == Target(op)
    ensures Do(fs, op) == (Save(fs, Writes(fs, op).value).files, Save(fs, Writes(fs, op).value).result.Ok?)
  {
    if op.UpdateOp? {
      PlainPlace(op.update.id);
      assert RecordAt(fs, op.update.id).Some?;
    }
  }

  /** A handler settles its id when it succeeds, and touches nothing else whatever happens. */
  lemma OpSettles(fs: Files, op: Op)
    requires WellFiled(fs) && 0x2F !in Target(op)
    ensures var (after, ok) := Do(fs, op);
      && WellFiled(after) && OnlyAt(fs, after, Target(op))
      && (ok ==> after == fs || !Drifts(after, Target(op)))
  {
    if Writes(fs, op).Some? {
      WritesItsTarget(fs, op);
      SaveSettles(fs, Writes(fs, op).value);
    } else if op.DeleteOp? && op.id != [] {
      DeleteSettles(fs, op.id);
    }
  }

  lemma HalfwayTouches(fs: Files, op: Op)
    requires WellFiled(fs) && 0x2F !in Target(op)
    ensures WellFiled(Halfway(fs, op)) && OnlyAt(fs, Halfway(fs, op), Target(op))
  {
    PlainPlace(Target(op));
    if Writes(fs, op).Some? {
      WritesItsTarget(fs, op);
      WriteTouches(fs, Writes(fs, op).value);
    } else if op.DeleteOp? && op.id != [] {
      RemoveTouches(fs, op.id);
    }
  }

  /** A handler that runs to its end, one that dies half-way, or a rebuild. */
  datatype Step = Whole(op: Op) | Cut(op: Op) | Rebuilding

  ghost function Next(fs: Files, s: Step): Files {
    match s
    case Whole(op) => Do(fs, op).0
    case Cut(op) => Halfway(fs, op)
    case Rebuilding => Rebuild(fs).0
  }

  ghost function End(fs: Files, run: seq<Step>): Files
    decreases |run|
  {
    if run == [] then fs else Next(End(fs, run[..|run| - 1]), run[|run| - 1])
  }

  predicate Plain(s: Step) { s.Rebuilding? || 0x2F !in Target(s.op) }

  /** Since the last rebuild that worked, the last step that changed this id's files failed or was cut short. */
  ghost predicate Suspect(fs: Files, run: seq<Step>, k: Bytes)
    decreases |run|
  {
    if run == [] then false
    else
      var front, last := run[..|run| - 1], run[|run| - 1];
      var before := End(fs, front);
      match last
      case Rebuilding => Rebuild(before).1.Err?
      case Whole(op) =>
        if Target(op) == k && Next(before, last) != before then !Do(before, op).1 else Suspect(fs, front, k)
      case Cut(op) => (Target(op) == k && Next(before, last) != before) || Suspect(fs, front, k)
  }

  // ---- rebuilding ---------------------------------------------------------

  /** A file directly inside one of the two directories, or elsewhere, under names a file system allows. */
  predicate FlatPlace(p: Place) {
    && Paths.AllNames(p)
    && (|p| > 1 && p[0] == RECORDS ==> |p| == 2)
    && (|p| > 2 && p[..2] == INDEX ==> |p| == 3)
  }

  ghost predicate Flat(fs: Files) { forall p :: p in fs ==> FlatPlace(p) }

  lemma KeyPlaceIsFlat(id: Bytes)
    requires LegalKey(id)
    ensures FlatPlace(KeyPlace(id))
  {
    LegalHasNoSlash(id);
    assert !Breaks(id, LeadingDot);
    var p := KeyPlace(id);
    assert p[0] == INDEX_DIR && p[1] == RECORDS && p[2] == id;
    assert INDEX_DIR[1] != RECORDS[1];
    ConstantsAreNames();
  }

  lemma RecordPlaceIsFlat(id: Bytes)
    requires 0x2F !in id
    ensures FlatPlace(RecordPlace(id))
  {
    var x := id + JSON;
    assert x[|id|] == 0x2E && x[|id| + 1] == 0x6A;
    ConstantsAreNames();
    assert Paths.IsName(x);
  }

  lemma ConstantsAreNames()
    ensures Paths.IsName(RECORDS) && Paths.IsName(INDEX_DIR)
  {
  }

  lemma IndexNames(fs: Files, k: Bytes)
    requires Flat(fs)
    ensures k in Names(fs, INDEX) <==> KeyPlace(k) in fs
  {
    assert KeyPlace(k)[..2] == INDEX && KeyPlace(k)[2] == k;
    if k in Names(fs, INDEX) {
      var p :| p in fs && |p| > 2 && p[..2] == INDEX && p[2] == k;
      assert p == p[..2] + [p[2]];
    }
  }

  lemma RecordNames(fs: Files, name: Bytes)
    requires Flat(fs)
    ensures name in Names(fs, [RECORDS]) <==> [RECORDS, name] in fs
    ensures name in Names(fs, [RECORDS]) ==> Paths.IsName(name)
  {
    assert [RECORDS, name][..1] == [RECORDS];
    if name in Names(fs, [RECORDS]) {
      var p :| p in fs && |p| > 1 && p[..1] == [RECORDS] && p[1] == name;
      assert p[0] == p[..1][0];
      assert p == [p[0], p[1]];
      assert Paths.IsName(p[1]);
    }
  }

  lemma StemName(name: Bytes)
    requires IsRecordName(name)
    ensures Stem(name) + JSON == name && RecordPlace(Stem(name)) == [RECORDS, name]
    ensures 0x2F in Stem(name) ==> 0x2F in name
  {
  }

  /** Nothing in the index, everything else as it was. */
  ghost predicate Cleared(fs: Files, after: Files) {
    && (forall k :: KeyPlace(k) !in after)
    && (forall p :: p in after ==> p in fs && after[p] == fs[p])
    && (forall p :: p in fs && p !in after ==> |p| == 3 && p[..2] == INDEX)
  }

  lemma {:induction false} ClearsAll(fs: Files, names: seq<Bytes>)
    requires forall i, j :: 0 <= i < j < |names| ==> names[i] != names[j]
    requires forall i :: 0 <= i < |names| ==> KeyPlace(names[i]) in fs
    requires forall k :: KeyPlace(k) in fs ==> k in names
    ensures var (after, done) := ClearFrom(fs, names); done && Cleared(fs, after)
    decreases |names|
  {
    if names != [] {
      var next := fs - {KeyPlace(names[0])};
      forall i | 0 < i < |names| ensures KeyPlace(names[i]) in next { Apart(names[0], names[i]); }
      forall k | KeyPlace(k) in next ensures k in names[1..] {
        assert k in names && k != names[0];
        assert names == [names[0]] + names[1..];
      }
      ClearsAll(next, names[1..]);
      assert KeyPlace(names[0])[..2] == INDEX;
    } else {
      assert forall k :: KeyPlace(k) !in fs by {
        forall k ensures KeyPlace(k) !in fs { assert k !in names; }
      }
    }
  }

  lemma NotInIndex(p: Place)
    requires |p| > 1 && p[..1] == [RECORDS]
    ensures !(|p| == 3 && p[..2] == INDEX)
  {
    assert p[0] == p[..1][0] && p[0] == p[..2][0];
  }

  lemma ClearedView(fs: Files, after: Files)
    requires Cleared(fs, after)
    ensures forall k :: RecordAt(after, k) == RecordAt(fs, k)
    ensures Flat(fs) ==> Flat(after)
    ensures Names(after, [RECORDS]) == Names(fs, [RECORDS])
  {
    forall k ensures RecordAt(after, k) == RecordAt(fs, k) { assert |RecordPlace(k)| == 2; }
    forall n ensures n in Names(after, [RECORDS]) <==> n in Names(fs, [RECORDS]) {
      if n in Names(fs, [RECORDS]) {
        var p :| p in fs && |p| > 1 && p[..1] == [RECORDS] && p[1] == n;
        NotInIndex(p);
      }
    }
  }

  /** The ids of the record files among some names. */
  function Ids(names: seq<Bytes>): set<Bytes> { set n | n in names && IsRecordName(n) :: Stem(n) }

  ghost predicate NoneFold(keys: set<Bytes>) { forall j, k :: j in keys && k in keys ==> !FoldsTo(j, k) }

  ghost predicate AllLegal(keys: set<Bytes>) { forall k :: k in keys ==> LegalKey(k) }

  /** How a rebuild ends that still has these names to do. */
  ghost predicate Ends(fs: Files, names: seq<Bytes>, n: nat, after: Files, r: Result<nat, Problem>) {
    && (forall k :: RecordAt(after, k) == RecordAt(fs, k))
    && (r.Ok? <==> AllLegal(Ids(names)) && NoneFold(Names(fs, INDEX) + Ids(names)))
    && (r.Ok? ==> forall k :: EntryAt(after, k) == if k in Ids(names) then Wanted(fs, k) else EntryAt(fs, k))
    && (r.Ok? ==> r.value == n + |Ids(names)|)
    && Flat(after)
  }

  /** Where a rebuild can be: the names left are those of distinct files in `records`. */
  ghost predicate Ready(fs: Files, names: seq<Bytes>) {
    && WellFiled(fs) && Flat(fs) && NoneFold(Names(fs, INDEX))
    && (forall i, j :: 0 <= i < j < |names| ==> names[i] != names[j])
    && (forall i :: 0 <= i < |names| ==> [RECORDS, names[i]] in fs)
  }

  lemma NextReady(fs: Files, names: seq<Bytes>, id: Bytes, e: Entry)
    requires Ready(fs, names) && names != [] && LegalKey(id) && !Folds(fs, id)
    ensures Ready(fs[KeyPlace(id) := EntryFile(e)], names[1..])
    ensures Names(fs[KeyPlace(id) := EntryFile(e)], INDEX) == Names(fs, INDEX) + {id}
  {
    var next := fs[KeyPlace(id) := EntryFile(e)];
    PutTouches(fs, id, e);
    KeepsFiling(fs, next);
    PutKeepsFlat(fs, id, e);
    NoneFoldMore(Names(fs, INDEX), id);
    forall i | 0 <= i < |names[1..]| ensures [RECORDS, names[1..][i]] in next { assert names[1..][i] == names[i + 1]; }
  }

  lemma NoneFoldMore(keys: set<Bytes>, id: Bytes)
    requires NoneFold(keys) && forall n :: n in keys ==> !FoldsTo(n, id)
    ensures NoneFold(keys + {id})
  {
  }

  lemma NoNamesLeft(fs: Files, n: nat)
    requires Ready(fs, [])
    ensures Ends(fs, [], n, fs, Ok(n))
  {
    assert Ids([]) == {};
    assert Names(fs, INDEX) + {} == Names(fs, INDEX);
  }

  /** The rest of a rebuild: it succeeds exactly when the ids left are legal and no two of all the keys fold together. */
  lemma {:induction false} RebuildsFrom(fs: Files, names: seq<Bytes>, n: nat)
    requires Ready(fs, names)
    ensures Ends(fs, names, n, RebuildFrom(fs, names, n).0, RebuildFrom(fs, names, n).1)
    decreases |names|
  {
    if names == [] {
      NoNamesLeft(fs, n);
    } else if !IsRecordName(names[0]) {
      assert Ids(names) == Ids(names[1..]) by {
        assert names == [names[0]] + names[1..];
      }
      RebuildsFrom(fs, names[1..], n);
    } else {
      var id := Stem(names[0]);
      ReadsBack(fs, names[0]);
      IdsSplit(names);
      var r := ReadRecord(fs, id).value;
      if LegalKey(id) && !Folds(fs, id) {
        var next := fs[KeyPlace(id) := EntryFile(Project(r))];
        NextReady(fs, names, id, Project(r));
        RebuildsFrom(next, names[1..], n + 1);
        PutTouches(fs, id, Project(r));
        OneMore(fs, names, n, r, next, RebuildFrom(next, names[1..], n + 1).0, RebuildFrom(next, names[1..], n + 1).1);
      } else {
        CannotPut(fs, names, id);
        assert PutKey(fs, r.id, Project(r)).Err?;
      }
    }
  }

  lemma OneMore(fs: Files, names: seq<Bytes>, n: nat, record: Record, next: Files, after: Files, r: Result<nat, Problem>)
    requires names != [] && IsRecordName(names[0]) && LegalKey(Stem(names[0]))
    requires Ids(names) == {Stem(names[0])} + Ids(names[1..]) && Stem(names[0]) !in Ids(names[1..])
    requires RecordAt(fs, Stem(names[0])) == Some(RecordFile(record))
    requires Names(next, INDEX) == Names(fs, INDEX) + {Stem(names[0])}
    requires EntryAt(next, Stem(names[0])) == Some(EntryFile(Project(record)))
    requires forall k :: k != Stem(names[0]) ==> EntryAt(next, k) == EntryAt(fs, k)
    requires forall k :: RecordAt(next, k) == RecordAt(fs, k)
    requires Ends(next, names[1..], n + 1, after, r)
    ensures Ends(fs, names, n, after, r)
  {
    var id, ids, more := Stem(names[0]), Ids(names), Ids(names[1..]);
    assert Names(fs, INDEX) + ids == Names(next, INDEX) + more;
    SameFit(ids, id, more);
    if r.Ok? {
      forall k ensures EntryAt(after, k) == if k in ids then Wanted(fs, k) else EntryAt(fs, k) {
        OneMoreEntry(fs, next, after, id, record, more, k);
      }
    }
  }

  lemma SameFit(ids: set<Bytes>, id: Bytes, more: set<Bytes>)
    requires ids == {id} + more && LegalKey(id) && id !in more
    ensures AllLegal(ids) <==> AllLegal(more)
    ensures |ids| == |more| + 1
  {
    if AllLegal(ids) { forall k | k in more ensures LegalKey(k) { assert k in ids; } }
  }

  lemma OneMoreEntry(fs: Files, next: Files, after: Files, id: Bytes, record: Record, more: set<Bytes>, k: Bytes)
    requires RecordAt(fs, id) == Some(RecordFile(record)) && RecordAt(next, k) == RecordAt(fs, k)
    requires EntryAt(next, id) == Some(EntryFile(Project(record))) && (k != id ==> EntryAt(next, k) == EntryAt(fs, k))
    requires EntryAt(after, k) == if k in more then Wanted(next, k) else EntryAt(next, k)
    ensures EntryAt(after, k) == if k in {id} + more then Wanted(fs, k) else EntryAt(fs, k)
  {
  }

  lemma IdsSplit(names: seq<Bytes>)
    requires names != [] && IsRecordName(names[0])
    requires forall i, j :: 0 <= i < j < |names| ==> names[i] != names[j]
    ensures Ids(names) == {Stem(names[0])} + Ids(names[1..]) && Stem(names[0]) !in Ids(names[1..])
  {
    assert names == [names[0]] + names[1..];
    StemName(names[0]);
    forall m | m in names[1..] && IsRecordName(m) ensures Stem(m) != Stem(names[0]) {
      StemName(m);
      assert forall i :: 0 < i < |names| ==> names[i] != names[0];
    }
  }

  lemma ReadsBack(fs: Files, name: Bytes)
    requires WellFiled(fs) && Flat(fs) && IsRecordName(name) && [RECORDS, name] in fs
    ensures 0x2F !in Stem(name)
    ensures var r := ReadRecord(fs, Stem(name));
      r.Ok? && r.value.id == Stem(name) && RecordAt(fs, Stem(name)) == Some(RecordFile(r.value))
  {
    StemName(name);
    assert Paths.AllNames([RECORDS, name]);
    assert Paths.IsName([RECORDS, name][1]);
    PlainPlace(Stem(name));
    assert RecordAt(fs, Stem(name)).Some?;
  }

  lemma PutKeepsFlat(fs: Files, id: Bytes, e: Entry)
    requires Flat(fs) && LegalKey(id)
    ensures Flat(fs[KeyPlace(id) := EntryFile(e)])
    ensures Names(fs[KeyPlace(id) := EntryFile(e)], INDEX) == Names(fs, INDEX) + {id}
  {
    var next := fs[KeyPlace(id) := EntryFile(e)];
    KeyPlaceIsFlat(id);
    forall k ensures k in Names(next, INDEX) <==> k in Names(fs, INDEX) + {id} {
      IndexNames(fs, k);
      IndexNames(next, k);
      Apart(k, id);
    }
  }

  lemma CannotPut(fs: Files, names: seq<Bytes>, id: Bytes)
    requires id in Ids(names) && (!LegalKey(id) || Folds(fs, id))
    ensures !(AllLegal(Ids(names)) && NoneFold(Names(fs, INDEX) + Ids(names)))
  {
  }

  ghost function AllIds(fs: Files): set<Bytes> { Ids(Sorting.SortedNames(Names(fs, [RECORDS]))) }

  lemma AllIdsExact(fs: Files, k: Bytes)
    requires Flat(fs)
    ensures k in AllIds(fs) <==> RecordAt(fs, k).Some?
  {
    var names := Sorting.SortedNames(Names(fs, [RECORDS]));
    RecordNames(fs, k + JSON);
    assert IsRecordName(k + JSON) && Stem(k + JSON) == k by {
      assert (k + JSON)[|k|..] == JSON && (k + JSON)[..|k|] == k;
    }
    if k in AllIds(fs) {
      var m :| m in names && IsRecordName(m) && Stem(m) == k;
      StemName(m);
    }
    if RecordAt(fs, k).Some? { assert k + JSON in names; }
  }

  /**
    A rebuild succeeds exactly when every record's id is a legal key and no two ids fold together. Then no key
    drifts, whatever was in the index before, and the count is the number of records.
  */
  lemma RebuildExact(fs: Files)
    requires WellFiled(fs) && Flat(fs)
    ensures var (after, r) := Rebuild(fs); Rebuilt(fs, after, r) && (r.Ok? ==> forall k :: !Drifts(after, k))
  {
    var names := Sorting.SortedNames(Names(fs, INDEX));
    forall i | 0 <= i < |names| ensures KeyPlace(names[i]) in fs {
      assert names[i] in names;
      IndexNames(fs, names[i]);
    }
    forall k | KeyPlace(k) in fs ensures k in names { IndexNames(fs, k); }
    ClearsAll(fs, names);
    var clear := ClearFrom(fs, names).0;
    ClearedView(fs, clear);
    KeepsFiling(fs, clear);
    FromClear(clear);
    EndsRebuilt(fs, clear, Sorting.SortedNames(Names(clear, [RECORDS])), Rebuild(fs).0, Rebuild(fs).1);
    if Rebuild(fs).1.Ok? { RebuiltSettles(fs, Rebuild(fs).0, Rebuild(fs).1); }
  }

  /** How a whole rebuild ends. */
  ghost predicate Rebuilt(fs: Files, after: Files, r: Result<nat, Problem>) {
    && (forall k :: RecordAt(after, k) == RecordAt(fs, k))
    && (r.Ok? <==> AllLegal(AllIds(fs)) && NoneFold(AllIds(fs)))
    && (r.Ok? ==> r.value == |AllIds(fs)| && forall k :: EntryAt(after, k) == Wanted(fs, k))
    && WellFiled(after) && Flat(after)
  }

  lemma NoIndexNames(clear: Files)
    requires Flat(clear) && forall k :: KeyPlace(k) !in clear
    ensures Names(clear, INDEX) == {}
  {
    forall k ensures k !in Names(clear, INDEX) { IndexNames(clear, k); }
  }

  lemma ReadyFromClear(clear: Files, names: seq<Bytes>)
    requires WellFiled(clear) && Flat(clear) && (forall k :: KeyPlace(k) !in clear)
    requires names == Sorting.SortedNames(Names(clear, [RECORDS]))
    ensures Ready(clear, names)
  {
    NoIndexNames(clear);
    forall i | 0 <= i < |names| ensures [RECORDS, names[i]] in clear {
      assert names[i] in names;
      RecordNames(clear, names[i]);
    }
  }

  lemma FromClear(clear: Files)
    requires WellFiled(clear) && Flat(clear) && forall k :: KeyPlace(k) !in clear
    ensures var names := Sorting.SortedNames(Names(clear, [RECORDS]));
      Ends(clear, names, 0, RebuildFrom(clear, names, 0).0, RebuildFrom(clear, names, 0).1)
  {
    ReadyFromClear(clear, Sorting.SortedNames(Names(clear, [RECORDS])));
    RebuildsFrom(clear, Sorting.SortedNames(Names(clear, [RECORDS])), 0);
  }

  lemma EndsRebuilt(fs: Files, clear: Files, names: seq<Bytes>, after: Files, r: Result<nat, Problem>)
    requires WellFiled(clear) && Flat(clear) && Flat(fs) && forall k :: KeyPlace(k) !in clear
    requires forall k :: RecordAt(clear, k) == RecordAt(fs, k)
    requires Ids(names) == AllIds(fs) && Ends(clear, names, 0, after, r)
    ensures Rebuilt(fs, after, r)
  {
    NoIndexNames(clear);
    assert Names(clear, INDEX) + AllIds(fs) == AllIds(fs);
    KeepsFiling(clear, after);
    forall k ensures RecordAt(after, k) == RecordAt(fs, k) {
      assert RecordAt(after, k) == RecordAt(clear, k) && RecordAt(clear, k) == RecordAt(fs, k);
    }
    if r.Ok? { EntriesRebuilt(fs, clear, after); }
  }

  lemma EntriesRebuilt(fs: Files, clear: Files, after: Files)
    requires Flat(fs) && (forall k :: KeyPlace(k) !in clear) && forall k :: RecordAt(clear, k) == RecordAt(fs, k)
    requires forall k :: EntryAt(after, k) == if k in AllIds(fs) then Wanted(clear, k) else EntryAt(clear, k)
    ensures forall k :: EntryAt(after, k) == Wanted(fs, k)
  {
    forall k ensures EntryAt(after, k) == Wanted(fs, k) {
      AllIdsExact(fs, k);
      assert RecordAt(clear, k) == RecordAt(fs, k) && EntryAt(clear, k).None?;
    }
  }

  /** With every id legal, an index that holds the projections drifts nowhere. */
  lemma RebuiltSettles(fs: Files, after: Files, r: Result<nat, Problem>)
    requires Flat(fs) && Rebuilt(fs, after, r) && r.Ok?
    ensures forall k :: !Drifts(after, k)
  {
    forall k ensures !Drifts(after, k) {
      AllIdsExact(fs, k);
      assert RecordAt(after, k) == RecordAt(fs, k) && EntryAt(after, k) == Wanted(fs, k);
    }
  }

  // ---- every run ----------------------------------------------------------

  lemma SaveKeepsFlat(fs: Files, r: Record)
    requires Flat(fs) && 0x2F !in r.id
    ensures Flat(Save(fs, r).files) && Flat(fs[RecordPlace(r.id) := RecordFile(r)])
  {
    PlainPlace(r.id);
    var written := fs[RecordPlace(r.id) := RecordFile(r)];
    RecordPlaceIsFlat(r.id);
    if LegalKey(r.id) { PutKeepsFlat(written, r.id, Project(r)); }
  }

  lemma StepKeepsFlat(fs: Files, op: Op)
    requires WellFiled(fs) && Flat(fs) && 0x2F !in Target(op)
    ensures Flat(Do(fs, op).0) && Flat(Halfway(fs, op))
  {
    PlainPlace(Target(op));
    if Writes(fs, op).Some? {
      WritesItsTarget(fs, op);
      SaveKeepsFlat(fs, Writes(fs, op).value);
    }
  }

  /** In every run, a key that drifts is one whose last change failed or was cut short, or follows a failed rebuild. */
  lemma {:induction false} DriftIsSuspect(fs: Files, run: seq<Step>)
    requires WellFiled(fs) && Flat(fs) && forall k :: !Drifts(fs, k)
    requires forall i :: 0 <= i < |run| ==> Plain(run[i])
    ensures WellFiled(End(fs, run)) && Flat(End(fs, run))
    ensures forall k :: Drifts(End(fs, run), k) ==> Suspect(fs, run, k)
    decreases |run|
  {
    if run != [] {
      var front, last := run[..|run| - 1], run[|run| - 1];
      DriftIsSuspect(fs, front);
      var before := End(fs, front);
      assert Plain(last);
      if last.Rebuilding? {
        RebuildExact(before);
      } else {
        OpSettles(before, last.op);
        HalfwayTouches(before, last.op);
        StepKeepsFlat(before, last.op);
        OnlyDriftAt(before, End(fs, run), Target(last.op));
        forall k | Drifts(End(fs, run), k) ensures Suspect(fs, run, k) {
          if End(fs, run) == before || k != Target(last.op) { assert Drifts(before, k); }
        }
      }
    }
  }

  ghost predicate AllSucceed(fs: Files, run: seq<Step>)
    decreases |run|
  {
    run == [] ||
      var front, last := run[..|run| - 1], run[|run| - 1];
      && AllSucceed(fs, front)
      && match last
        case Whole(op) => Do(End(fs, front), op).1
        case Cut(_) => false
        case Rebuilding => Rebuild(End(fs, front)).1.Ok?
  }

  lemma {:induction false} NothingSuspect(fs: Files, run: seq<Step>, k: Bytes)
    requires AllSucceed(fs, run)
    ensures !Suspect(fs, run, k)
    decreases |run|
  {
    if run != [] { NothingSuspect(fs, run[..|run| - 1], k); }
  }

  lemma FoldsBothWays(a: Bytes, b: Bytes)
    ensures FoldsTo(a, b) <==> FoldsTo(b, a)
  {
  }

  /** A settled record's id is a name in the index, where `Put` looks for one that folds. */
  lemma SettledIsListed(fs: Files, k: Bytes)
    requires WellFiled(fs) && Flat(fs) && !Drifts(fs, k) && k in AllIds(fs)
    ensures LegalKey(k) && k in Names(fs, INDEX)
  {
    AllIdsExact(fs, k);
    IndexNames(fs, k);
  }

  /** So a handler that succeeds never puts two ids side by side that fold together. */
  lemma OpKeepsUnfolded(fs: Files, op: Op)
    requires WellFiled(fs) && Flat(fs) && (forall k :: !Drifts(fs, k)) && NoneFold(AllIds(fs))
    requires 0x2F !in Target(op) && Do(fs, op).1
    ensures NoneFold(AllIds(Do(fs, op).0))
  {
    var after := Do(fs, op).0;
    OpSettles(fs, op);
    StepKeepsFlat(fs, op);
    forall j, k | j in AllIds(after) && k in AllIds(after) ensures !FoldsTo(j, k) {
      IdWasThere(fs, op, j);
      IdWasThere(fs, op, k);
      FoldsBothWays(j, k);
    }
  }

  /** An id that is there afterwards was there before, or is new and folds to none that was. */
  lemma IdWasThere(fs: Files, op: Op, k: Bytes)
    requires WellFiled(fs) && Flat(fs) && (forall j :: !Drifts(fs, j))
    requires 0x2F !in Target(op) && Do(fs, op).1 && Flat(Do(fs, op).0) && OnlyAt(fs, Do(fs, op).0, Target(op))
    requires k in AllIds(Do(fs, op).0)
    ensures k in AllIds(fs) || (k == Target(op) && forall j :: j in AllIds(fs) ==> !FoldsTo(j, k))
  {
    AllIdsExact(fs, k);
    AllIdsExact(Do(fs, op).0, k);
    if k == Target(op) && RecordAt(fs, k).None? {
      NewIdIsWritten(fs, op);
      NewIdIsUnfolded(fs, Writes(fs, op).value);
    }
  }

  lemma NewIdIsWritten(fs: Files, op: Op)
    requires WellFiled(fs) && 0x2F !in Target(op) && Do(fs, op).1
    requires RecordAt(fs, Target(op)).None? && RecordAt(Do(fs, op).0, Target(op)).Some?
    ensures Writes(fs, op).Some? && Writes(fs, op).value.id == Target(op) && Save(fs, Writes(fs, op).value).result.Ok?
  {
    if Writes(fs, op).Some? {
      WritesItsTarget(fs, op);
    } else if op.DeleteOp? && op.id != [] {
      DeleteSettles(fs, op.id);
    }
  }

  /** What `Put` looks through holds every settled id, so the one it lets in folds to none of them. */
  lemma NewIdIsUnfolded(fs: Files, r: Record)
    requires WellFiled(fs) && Flat(fs) && (forall j :: !Drifts(fs, j)) && 0x2F !in r.id && Save(fs, r).result.Ok?
    ensures forall j :: j in AllIds(fs) ==> !FoldsTo(j, r.id)
  {
    SaveSettles(fs, r);
    forall j | j in AllIds(fs) ensures !FoldsTo(j, r.id) { SettledIsListed(fs, j); }
  }

  lemma {:induction false} RunKeepsUnfolded(fs: Files, run: seq<Step>)
    requires WellFiled(fs) && Flat(fs) && (forall k :: !Drifts(fs, k)) && NoneFold(AllIds(fs))
    requires (forall i :: 0 <= i < |run| ==> Plain(run[i])) && AllSucceed(fs, run)
    ensures NoneFold(AllIds(End(fs, run)))
    decreases |run|
  {
    if run != [] {
      var front, last := run[..|run| - 1], run[|run| - 1];
      RunKeepsUnfolded(fs, front);
      DriftIsSuspect(fs, front);
      forall k ensures !Drifts(End(fs, front), k) { NothingSuspect(fs, front, k); }
      assert Plain(last);
      if last.Rebuilding? {
        RebuildExact(End(fs, front));
        SameIds(End(fs, front), End(fs, run));
      } else {
        OpKeepsUnfolded(End(fs, front), last.op);
      }
    }
  }

  lemma SameIds(a: Files, b: Files)
    requires Flat(a) && Flat(b) && forall k :: RecordAt(a, k) == RecordAt(b, k)
    ensures AllIds(a) == AllIds(b)
  {
    forall k ensures k in AllIds(a) <==> k in AllIds(b) {
      AllIdsExact(a, k);
      AllIdsExact(b, k);
      assert RecordAt(a, k) == RecordAt(b, k);
    }
  }

  /**
    Where every step succeeded, the maintained index is the rebuilt one: nothing drifts; and from a store in which no
    two ids fold together, as none do in an empty one, rebuilding succeeds and leaves each key as a scan found it.
  */
  lemma MaintainedEqualsRebuilt(fs: Files, run: seq<Step>)
    requires WellFiled(fs) && Flat(fs) && (forall k :: !Drifts(fs, k))
    requires (forall i :: 0 <= i < |run| ==> Plain(run[i])) && AllSucceed(fs, run)
    ensures forall k :: !Drifts(End(fs, run), k)
    ensures AllLegal(AllIds(End(fs, run)))
    ensures var (after, r) := Rebuild(End(fs, run));
      && (NoneFold(AllIds(fs)) ==> r.Ok?)
      && (r.Ok? <==> NoneFold(AllIds(End(fs, run))))
      && (r.Ok? ==> forall k :: ScanAt(after, k) == ScanAt(End(fs, run), k))
  {
    var end := End(fs, run);
    if NoneFold(AllIds(fs)) { RunKeepsUnfolded(fs, run); }
    DriftIsSuspect(fs, run);
    forall k ensures !Drifts(end, k) { NothingSuspect(fs, run, k); }
    forall k | k in AllIds(end) ensures LegalKey(k) {
      AllIdsExact(end, k);
      assert !Drifts(end, k);
    }
    RebuildExact(end);
    var (after, r) := Rebuild(end);
    if r.Ok? {
      forall k ensures ScanAt(after, k) == ScanAt(end, k) {
        assert !Drifts(end, k) && !Drifts(after, k) && RecordAt(after, k) == RecordAt(end, k);
      }
    }
  }

  /** From nothing, every run in which all succeeds ends with the index that a rebuild would make. */
  lemma FromEmptyEqualsRebuilt(empty: Files, run: seq<Step>)
    requires empty == map[]
    requires (forall i :: 0 <= i < |run| ==> Plain(run[i])) && AllSucceed(empty, run)
    ensures var (after, r) := Rebuild(End(empty, run));
      r.Ok? && forall k :: ScanAt(after, k) == ScanAt(End(empty, run), k)
  {
    EmptyIsSettled(empty);
    MaintainedEqualsRebuilt(empty, run);
  }

  lemma EmptyIsSettled(fs: Files)
    requires fs == map[]
    ensures WellFiled(fs) && Flat(fs) && (forall k :: !Drifts(fs, k)) && NoneFold(AllIds(fs))
  {
    assert forall k :: RecordAt(fs, k).None? && EntryAt(fs, k).None?;
    forall k ensures k !in AllIds(fs) { AllIdsExact(fs, k); }
  }

  /** One interruption, of anything but a rebuild, leaves one key at most behind. */
  lemma OneKeyBehind(fs: Files, run: seq<Step>, op: Op)
    requires WellFiled(fs) && Flat(fs) && (forall k :: !Drifts(fs, k))
    requires (forall i :: 0 <= i < |run| ==> Plain(run[i])) && AllSucceed(fs, run) && 0x2F !in Target(op)
    ensures forall k :: Drifts(Halfway(End(fs, run), op), k) ==> k == Target(op)
  {
    MaintainedEqualsRebuilt(fs, run);
    DriftIsSuspect(fs, run);
    HalfwayTouches(End(fs, run), op);
    OnlyDriftAt(End(fs, run), Halfway(End(fs, run), op), Target(op));
  }

  // ---- listing ------------------------------------------------------------

  ghost predicate Ascending(es: seq<Entry>) { forall i, j :: 0 <= i < j < |es| ==> Sorting.Before(es[i].id, es[j].id) }

  /** A settled key shows the projection of its record, and nothing when it is a stray. */
  lemma ShownWhenSettled(fs: Files, k: Bytes)
    requires WellFiled(fs) && !Drifts(fs, k) && KeyPlace(k) in fs
    ensures match Wanted(fs, k)
      case Some(EntryFile(e)) => Shown(fs, k) == Ok([e]) && e.id == k && LegalKey(k)
      case _ => Shown(fs, k) == Ok([]) && !LegalKey(k)
  {
  }

  lemma {:induction false} ListsAll(fs: Files, names: seq<Bytes>)
    requires WellFiled(fs) && (forall k :: !Drifts(fs, k)) && Sorting.StrictlySorted(names)
    requires forall i :: 0 <= i < |names| ==> KeyPlace(names[i]) in fs
    ensures ListFrom(fs, names).Ok?
    ensures var es := ListFrom(fs, names).value;
      && Ascending(es)
      && (forall i :: 0 <= i < |es| ==> es[i].id in names)
      && forall e :: e in es <==> e.id in names && Wanted(fs, e.id) == Some(EntryFile(e))
    decreases |names|
  {
    if names != [] {
      var k, more := names[0], names[1..];
      assert names == [k] + more;
      ListsAll(fs, more);
      assert !Drifts(fs, k);
      ShownWhenSettled(fs, k);
      var rest := ListFrom(fs, more).value;
      assert k !in more by { Sorting.SortedDistinct(names); }
      InFrontAscends(Shown(fs, k).value, rest, k, more);
    }
  }

  lemma InFrontAscends(front: seq<Entry>, rest: seq<Entry>, k: Bytes, more: seq<Bytes>)
    requires Ascending(rest) && Sorting.StrictlySorted([k] + more)
    requires forall i :: 0 <= i < |rest| ==> rest[i].id in more
    requires front == [] || (|front| == 1 && front[0].id == k)
    ensures Ascending(front + rest)
  {
    forall m | m in more ensures Sorting.Before(k, m) {
      var i :| 0 <= i < |more| && more[i] == m;
      assert ([k] + more)[0] == k && ([k] + more)[i + 1] == m;
    }
  }

  /**
    From a settled state a list is the scan of the records, without opening one: what each record is to show, once, in
    ascending order of the ids, so that the sorts behind the scan have nothing left to do.
  */
  lemma ListMatchesRecords(fs: Files)
    requires WellFiled(fs) && Flat(fs) && forall k :: !Drifts(fs, k)
    ensures List(fs).Ok? && Ascending(List(fs).value)
    ensures forall e :: e in List(fs).value <==>
      RecordAt(fs, e.id).Some? && RecordAt(fs, e.id).value.RecordFile? && Shows(e, RecordAt(fs, e.id).value.record)
  {
    forall e: Entry | RecordAt(fs, e.id).Some? ensures Wanted(fs, e.id) == Some(EntryFile(e)) <==>
      RecordAt(fs, e.id).value.RecordFile? && Shows(e, RecordAt(fs, e.id).value.record) {
      ShowsProjection(e, RecordAt(fs, e.id).value.record);
    }
    ListsProjections(fs);
  }

  /** The longest prefix of the body without a line break and of 200 bytes at most. */
  predicate IsPreview(p: Bytes, body: Bytes) {
    && p <= body && 0x0A !in p && |p| <= 200
    && forall n :: |p| < n <= |body| ==> n > 200 || 0x0A in body[..n]
  }

  /** What a list is to say of a record. */
  predicate Shows(e: Entry, r: Record) {
    e.id == r.id && e.title == r.title && e.created == r.created && IsPreview(e.preview, r.body)
  }

  lemma PreviewIs(body: Bytes)
    ensures IsPreview(Preview(body), body)
  {
    var line := body[..IndexOf(body, 0x0A)];
    if |line| < |body| {
      forall n | |line| < n <= |body| ensures 0x0A in body[..n] { assert body[..n][|line|] == 0x0A; }
    }
  }

  lemma ShowsProjection(e: Entry, r: Record)
    ensures Shows(e, r) <==> e == Project(r)
  {
    PreviewIs(r.body);
    if IsPreview(e.preview, r.body) { OnePreview(e.preview, Preview(r.body), r.body); }
  }

  lemma OnePreview(p: Bytes, q: Bytes, body: Bytes)
    requires IsPreview(p, body) && IsPreview(q, body)
    ensures p == q
  {
    assert p == body[..|p|] && q == body[..|q|];
  }

  lemma ListsProjections(fs: Files)
    requires WellFiled(fs) && Flat(fs) && forall k :: !Drifts(fs, k)
    ensures List(fs).Ok? && Ascending(List(fs).value)
    ensures forall e :: e in List(fs).value <==> RecordAt(fs, e.id).Some? && Wanted(fs, e.id) == Some(EntryFile(e))
  {
    var names := Sorting.SortedNames(Names(fs, INDEX));
    forall i | 0 <= i < |names| ensures KeyPlace(names[i]) in fs {
      assert names[i] in names;
      IndexNames(fs, names[i]);
    }
    ListsAll(fs, names);
    forall e ensures e in List(fs).value <==> RecordAt(fs, e.id).Some? && Wanted(fs, e.id) == Some(EntryFile(e)) {
      IndexNames(fs, e.id);
      assert !Drifts(fs, e.id);
    }
  }

  /** The list has an entry for this record, with what it is to show. */
  ghost predicate Listed(fs: Files, r: Record) { List(fs).Ok? && exists e :: e in List(fs).value && Shows(e, r) }

  lemma RecordIsListed(fs: Files, r: Record)
    requires WellFiled(fs) && Flat(fs) && (forall k :: !Drifts(fs, k)) && RecordAt(fs, r.id) == Some(RecordFile(r))
    ensures Listed(fs, r)
  {
    ListMatchesRecords(fs);
    var e := Project(r);
    ShowsProjection(e, r);
    assert e in List(fs).value;
  }

  lemma OpStaysSettled(fs: Files, op: Op)
    requires WellFiled(fs) && Flat(fs) && (forall k :: !Drifts(fs, k)) && 0x2F !in Target(op) && Do(fs, op).1
    ensures var after := Do(fs, op).0; WellFiled(after) && Flat(after) && forall k :: !Drifts(after, k)
  {
    OpSettles(fs, op);
    StepKeepsFlat(fs, op);
    OnlyDriftAt(fs, Do(fs, op).0, Target(op));
  }

  /** A create that succeeds files the request as it was made, and the list shows it. */
  lemma CreatedIsListed(fs: Files, req: CreateRequest)
    requires WellFiled(fs) && Flat(fs) && (forall k :: !Drifts(fs, k)) && Create(fs, req).result.Ok?
    ensures var o, r := Create(fs, req), Record(Slug(req.lowered), req.title, req.body, req.created);
      && o.result == Ok(r) && RecordAt(o.files, r.id) == Some(RecordFile(r)) && Listed(o.files, r)
  {
    var r := Record(Slug(req.lowered), req.title, req.body, req.created);
    SlugIsSlug(req.lowered);
    SaveSettles(fs, r);
    OpStaysSettled(fs, CreateOp(req));
    RecordIsListed(Create(fs, req).files, r);
  }

  /** A record as an edit is to leave it. */
  predicate IsEdit(r: Record, req: UpdateRequest, after: Record) {
    && after.id == r.id && after.created == r.created
    && (if req.title == [] then after.title == r.title else after.title == req.title)
    && (req.clearBody ==> after.body == [])
    && (!req.clearBody ==> if req.body == [] then after.body == r.body else after.body == req.body)
  }

  /** An update succeeds exactly for a record that is there and, where the request changes it, can be saved. */
  lemma UpdateExact(fs: Files, req: UpdateRequest)
    requires WellFiled(fs) && 0x2F !in req.id
    ensures Update(fs, req).result.Ok? <==>
      && req.id != [] && RecordAt(fs, req.id).Some?
      && (IsEdit(RecordAt(fs, req.id).value.record, req, RecordAt(fs, req.id).value.record)
          || (FileFits(req.id) && LegalKey(req.id) && !Folds(fs, req.id)))
    ensures Update(fs, req).result.Err? && RecordAt(fs, req.id).None? ==> Update(fs, req).files == fs
  {
    PlainPlace(req.id);
    if RecordAt(fs, req.id).Some? {
      var before := RecordAt(fs, req.id).value.record;
      assert IsEdit(before, req, before) <==> Edited(before, req) == before;
      if Edited(before, req) != before { SaveSettles(fs, Edited(before, req)); }
    }
  }

  /** An update that succeeds was of a record that is there; it leaves the edit, says whether it differs, and lists it. */
  lemma UpdatedIsListed(fs: Files, req: UpdateRequest)
    requires WellFiled(fs) && Flat(fs) && (forall k :: !Drifts(fs, k)) && 0x2F !in req.id && Update(fs, req).result.Ok?
    ensures RecordAt(fs, req.id).Some? && RecordAt(fs, req.id).value.RecordFile?
    ensures var o, before := Update(fs, req), RecordAt(fs, req.id).value.record;
      && IsEdit(before, req, o.result.value.0) && o.result.value.1 == (o.result.value.0 != before)
      && RecordAt(o.files, req.id) == Some(RecordFile(o.result.value.0)) && Listed(o.files, o.result.value.0)
  {
    var o := Update(fs, req);
    PlainPlace(req.id);
    var before := RecordAt(fs, req.id).value.record;
    if Edited(before, req) != before { SaveSettles(fs, Edited(before, req)); }
    OpStaysSettled(fs, UpdateOp(req));
    RecordIsListed(o.files, o.result.value.0);
  }

  // ---- from any state -----------------------------------------------------

  lemma {:induction false} ClearStops(fs: Files, names: seq<Bytes>)
    requires forall i, j :: 0 <= i < j < |names| ==> names[i] != names[j]
    ensures ClearFrom(fs, names).1 <==> forall i :: 0 <= i < |names| ==> KeyPlace(names[i]) in fs
    decreases |names|
  {
    if names != [] && KeyPlace(names[0]) in fs {
      var next, more := fs - {KeyPlace(names[0])}, names[1..];
      ClearStops(next, more);
      forall i | 0 <= i < |more| ensures KeyPlace(more[i]) in next <==> KeyPlace(names[i + 1]) in fs {
        Apart(names[0], names[i + 1]);
      }
      assert forall i :: 0 < i < |names| ==> names[i] == more[i - 1];
    }
  }

  lemma {:induction false} ScanClearsNothing(fs: Files, names: seq<Bytes>, n: nat)
    ensures RebuildFrom(fs, names, n).1 != Err(NotCleared)
    decreases |names|
  {
    if names != [] {
      var (next, r) := RebuildOne(fs, names[0]);
      if r.Ok? { ScanClearsNothing(next, names[1..], if r.value then n + 1 else n); }
    }
  }

  /** A rebuild stops over the old index exactly when something in its directory is no file. */
  lemma RebuildStops(fs: Files)
    ensures Rebuild(fs).1 == Err(NotCleared) <==> exists k :: k in Names(fs, INDEX) && KeyPlace(k) !in fs
  {
    var names := Sorting.SortedNames(Names(fs, INDEX));
    ClearStops(fs, names);
    var (clear, done) := ClearFrom(fs, names);
    ScanClearsNothing(clear, Sorting.SortedNames(Names(clear, [RECORDS])), 0);
    if k :| k in Names(fs, INDEX) && KeyPlace(k) !in fs { assert k in names; }
  }

  /** What a list takes from a name: an entry, if it is one that a key could have. */
  predicate Holds(fs: Files, k: Bytes, e: Entry) { LegalKey(k) && KeyPlace(k) in fs && fs[KeyPlace(k)] == EntryFile(e) }

  lemma {:induction false} ListsExactly(fs: Files, names: seq<Bytes>)
    ensures ListFrom(fs, names).Ok? <==>
      forall k :: k in names && LegalKey(k) && KeyPlace(k) in fs ==> fs[KeyPlace(k)].EntryFile?
    ensures ListFrom(fs, names).Err? ==> ListFrom(fs, names).error == Unreadable
    ensures ListFrom(fs, names).Ok? ==>
      forall e :: e in ListFrom(fs, names).value <==> exists k :: k in names && Holds(fs, k, e)
    decreases |names|
  {
    if names != [] {
      var k, more := names[0], names[1..];
      assert names == [k] + more;
      ListsExactly(fs, more);
      if ListFrom(fs, names).Ok? {
        forall e ensures e in ListFrom(fs, names).value <==> exists j :: j in names && Holds(fs, j, e) {
          assert e in Shown(fs, k).value <==> Holds(fs, k, e);
        }
      }
    }
  }

  /** In any state a list gives the entries under legal keys, or is refused exactly when one of these is no entry. */
  lemma ListExactly(fs: Files)
    ensures List(fs).Ok? <==> forall k :: LegalKey(k) && KeyPlace(k) in fs ==> fs[KeyPlace(k)].EntryFile?
    ensures List(fs).Err? ==> List(fs).error == Unreadable
    ensures List(fs).Ok? ==> forall e :: e in List(fs).value <==> exists k :: Holds(fs, k, e)
  {
    var names := Sorting.SortedNames(Names(fs, INDEX));
    ListsExactly(fs, names);
    forall k | KeyPlace(k) in fs ensures k in names { assert KeyPlace(k)[..2] == INDEX && KeyPlace(k)[2] == k; }
  }

  // ---- where the code does not keep the promise ---------------------------

  /** Creating a record succeeds exactly for a short, unfolded slug that is no device; a device name is left unindexed. */
  lemma CreateExact(fs: Files, req: CreateRequest)
    requires WellFiled(fs)
    ensures var id := Slug(req.lowered); var o, named := Create(fs, req), !req.blank && id != [];
      && (o.result.Ok? <==> named && FileFits(id) && id !in DEVICES && !Folds(fs, id))
      && (named && FileFits(id) ==> RecordAt(o.files, id).Some?)
      && (named && FileFits(id) && id in DEVICES ==> Drifts(o.files, id))
      && (!named || !FileFits(id) ==> o.files == fs)
      && (o.told == if o.result.Ok? then [id] else [])
  {
    if !req.blank && Slug(req.lowered) != [] {
      SlugIsSlug(req.lowered);
      SlugIsLegalKey(Slug(req.lowered));
      SaveSettles(fs, Record(Slug(req.lowered), req.title, req.body, req.created));
    }
  }

  /**
    Deleting by an id with a slash in it may remove a file that is not its own, and the index then does nothing. From a
    settled state it stays settled exactly when the file is neither a record's nor a record's entry.
  */
  lemma SlashedDeleteExact(fs: Files, id: Bytes)
    requires WellFiled(fs) && (forall k :: !Drifts(fs, k)) && 0x2F in id && PlaceOf(id).Some?
    ensures (forall k :: !Drifts(Delete(fs, id).files, k)) <==>
      !exists k :: RecordAt(fs, k).Some? && (RecordPlace(k) == PlaceOf(id).value || KeyPlace(k) == PlaceOf(id).value)
  {
    var p := PlaceOf(id).value;
    var after := Delete(fs, id).files;
    assert !LegalKey(id) by { if LegalKey(id) { LegalHasNoSlash(id); } }
    assert after == fs - {p};
    forall k ensures Drifts(after, k) <==> RecordAt(fs, k).Some? && (RecordPlace(k) == p || KeyPlace(k) == p) {
      DriftsWithout(fs, p, k);
    }
  }

  lemma DriftsWithout(fs: Files, p: Place, k: Bytes)
    requires WellFiled(fs) && !Drifts(fs, k)
    ensures Drifts(fs - {p}, k) <==> RecordAt(fs, k).Some? && (RecordPlace(k) == p || KeyPlace(k) == p)
  {
    Apart(k, k);
  }

  /**
    Updating by such an id is updating the record it leads to: the record's own id names the file and the key that are
    written, so where it succeeds the record is settled.
  */
  lemma SlashedUpdateIsPlain(fs: Files, req: UpdateRequest, b: Bytes)
    requires WellFiled(fs) && req.id != [] && b != [] && 0x2F !in b && PlaceOf(req.id) == Some(RecordPlace(b))
    ensures Update(fs, req) == Update(fs, req.(id := b))
    ensures var o := Update(fs, req);
      && WellFiled(o.files) && OnlyAt(fs, o.files, b) && (o.result.Ok? ==> o.files == fs || !Drifts(o.files, b))
  {
    PlainPlace(b);
    SameUpdate(fs, req, b);
    OpSettles(fs, UpdateOp(req.(id := b)));
  }

  lemma SameUpdate(fs: Files, req: UpdateRequest, b: Bytes)
    requires req.id != [] && b != [] && PlaceOf(req.id) == PlaceOf(b)
    ensures Update(fs, req) == Update(fs, req.(id := b))
  {
    var found := ReadRecord(fs, req.id);
    assert found == ReadRecord(fs, b);
    if found.Ok? { SameEdit(found.value, req, b); }
  }

  lemma SameEdit(r: Record, req: UpdateRequest, b: Bytes)
    ensures Edited(r, req) == Edited(r, req.(id := b))
  {
  }

  /** `x/../b` is such an id, for every name `x`. */
  lemma SlashedIdLeadsElsewhere(x: Bytes, b: Bytes)
    requires Paths.IsName(x) && 0x2F !in b
    ensures PlaceOf(x + [Paths.SLASH] + Paths.UP + [Paths.SLASH] + b) == Some(RecordPlace(b))
  {
    var name := b + JSON;
    RecordPlaceIsFlat(b);
    assert Paths.IsName(RecordPlace(b)[1]);
    var path := RECORDS + [Paths.SLASH] + (x + [Paths.SLASH] + Paths.UP + [Paths.SLASH] + name);
    Climbed(path, x, name);
    Assoc(x + [Paths.SLASH] + Paths.UP + [Paths.SLASH], b, JSON);
    PlainPlace(b);
    JoinedTwo(name);
  }

  lemma Climbed(path: Bytes, x: Bytes, name: Bytes)
    requires Paths.IsName(x) && Paths.IsName(name)
    requires path == RECORDS + [Paths.SLASH] + (x + [Paths.SLASH] + Paths.UP + [Paths.SLASH] + name)
    ensures Paths.Clean(path) == Paths.Join([RECORDS, name])
  {
    ConstantsAreNames();
    JoinsTo(path, x, name);
    Paths.SplitJoin([RECORDS, x, Paths.UP, name]);
    Climb(x, name);
  }

  lemma JoinMore(a: Bytes, rest: Place)
    requires rest != []
    ensures Paths.Join([a] + rest) == a + [Paths.SLASH] + Paths.Join(rest)
  {
    assert ([a] + rest)[1..] == rest;
  }

  lemma JoinsTo(path: Bytes, x: Bytes, name: Bytes)
    requires path == RECORDS + [Paths.SLASH] + (x + [Paths.SLASH] + Paths.UP + [Paths.SLASH] + name)
    ensures Paths.Join([RECORDS, x, Paths.UP, name]) == path
  {
    JoinMore(Paths.UP, [name]);
    JoinMore(x, [Paths.UP, name]);
    JoinMore(RECORDS, [x, Paths.UP, name]);
    assert [Paths.UP] + [name] == [Paths.UP, name] && [x] + [Paths.UP, name] == [x, Paths.UP, name];
    assert [RECORDS] + [x, Paths.UP, name] == [RECORDS, x, Paths.UP, name];
    var tail := Paths.UP + [Paths.SLASH] + name;
    assert x + [Paths.SLASH] + tail == x + [Paths.SLASH] + Paths.UP + [Paths.SLASH] + name;
  }

  lemma NormalMore(kept: Place, part: Bytes, rest: Place)
    ensures Paths.Normal(kept, [part] + rest, false) == Paths.Normal(Paths.Step(kept, part, false), rest, false)
  {
    assert ([part] + rest)[1..] == rest;
  }

  lemma Climb(x: Bytes, name: Bytes)
    requires Paths.IsName(x) && Paths.IsName(name)
    ensures Paths.Normal([], [RECORDS, x, Paths.UP, name], false) == [RECORDS, name]
  {
    ConstantsAreNames();
    var none: Place := [];
    NormalMore(none, RECORDS, [x, Paths.UP, name]);
    NormalMore([RECORDS], x, [Paths.UP, name]);
    NormalMore([RECORDS, x], Paths.UP, [name]);
    NormalMore([RECORDS], name, none);
    assert none + [RECORDS] == [RECORDS] && [RECORDS] + [x] == [RECORDS, x] && [RECORDS, x][..1] == [RECORDS];
    assert [RECORDS] + [name] == [RECORDS, name] && [name] + none == [name];
    assert [Paths.UP] + [name] == [Paths.UP, name] && [x] + [Paths.UP, name] == [x, Paths.UP, name];
    assert [RECORDS] + [x, Paths.UP, name] == [RECORDS, x, Paths.UP, name];
  }

  lemma JoinedTwo(name: Bytes)
    requires Paths.IsName(name)
    ensures Paths.JoinClean(RECORDS, name) == Paths.Join([RECORDS, name])
  {
    var names := [RECORDS, name];
    assert names[1..] == [name];
    Paths.SplitJoin(names);
    assert [] + names == names;
    Paths.NormalFixed([], names, false);
  }
}
