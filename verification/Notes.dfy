/**
  The notes app over its files: one file for each record, which is the truth, and one small file for each entry of
  the derived index. Every handler writes the record's file first and the index second. The file system is a map from
  places to contents, so a record's id may be any string and lead wherever its path leads.
*/
module Notes {
  import opened Basics
  import opened Keys
  import Paths
  import Sorting

  type Place = seq<Bytes>

  /** `records`, `.json` and `.dlc-index` */
  const RECORDS: Bytes := [0x72, 0x65, 0x63, 0x6F, 0x72, 0x64, 0x73]
  const JSON: Bytes := [0x2E, 0x6A, 0x73, 0x6F, 0x6E]
  const INDEX_DIR: Bytes := [0x2E, 0x64, 0x6C, 0x63, 0x2D, 0x69, 0x6E, 0x64, 0x65, 0x78]
  const INDEX: Place := [INDEX_DIR, RECORDS]
  const PREVIEW: nat := 200

  datatype Record = Record(id: Bytes, title: Bytes, body: Bytes, created: Bytes)
  datatype Entry = Entry(id: Bytes, title: Bytes, preview: Bytes, created: Bytes)

  /** A file's bytes, read with the codec of what was written there. */
  datatype Content = RecordFile(record: Record) | EntryFile(entry: Entry) | Other(bytes: Bytes)

  type Files = map<Place, Content>

  datatype Problem =
    | TitleRequired | NoUsableCharacters | IdRequired | NotFound | Corrupt | OutsideRoot | BadKey | NotCleared
    | Unreadable | NameTooLong

  // ---- files --------------------------------------------------------------

  /** Where a record's id leads: `records/<id>.json`, cleaned and contained. */
  function PlaceOf(id: Bytes): Option<Place> { Paths.Inside(Paths.JoinClean(RECORDS, id + JSON)) }

  function RecordPlace(id: Bytes): Place { [RECORDS, id + JSON] }

  function KeyPlace(key: Bytes): Place { INDEX + [key] }

  function ReadRecord(fs: Files, id: Bytes): Result<Record, Problem> {
    var p := PlaceOf(id);
    if p.None? || p.value !in fs then Err(NotFound)
    else match fs[p.value] case RecordFile(r) => Ok(r) case _ => Err(Corrupt)
  }

  /** What file systems allow a name to be. */
  predicate NamesFit(p: Place) { forall i :: 0 <= i < |p| ==> |p[i]| <= MAX_KEY }

  function WriteRecord(fs: Files, r: Record): Result<Files, Problem> {
    var p := PlaceOf(r.id);
    if p.None? then Err(OutsideRoot)
    else if !NamesFit(p.value) then Err(NameTooLong)
    else Ok(fs[p.value := RecordFile(r)])
  }

  /** The names directly below a directory. */
  function Names(fs: Files, dir: Place): set<Bytes> {
    set p | p in fs && |p| > |dir| && p[..|dir|] == dir :: p[|dir|]
  }

  // ---- the index ----------------------------------------------------------

  function Preview(body: Bytes): Bytes {
    var line := body[..IndexOf(body, 0x0A)];
    if |line| > PREVIEW then line[..PREVIEW] else line
  }

  function Project(r: Record): Entry { Entry(r.id, r.title, Preview(r.body), r.created) }

  predicate Folds(fs: Files, key: Bytes) { exists n :: n in Names(fs, INDEX) && FoldsTo(n, key) }

  function PutKey(fs: Files, key: Bytes, e: Entry): Result<Files, Problem> {
    if !LegalKey(key) || Folds(fs, key) then Err(BadKey) else Ok(fs[KeyPlace(key) := EntryFile(e)])
  }

  function DeleteKey(fs: Files, key: Bytes): Files { if LegalKey(key) then fs - {KeyPlace(key)} else fs }

  // ---- the handlers -------------------------------------------------------

  /** `blank` and `lowered` are what the standard library makes of the title: TrimSpace, and the runes of ToLower. */
  datatype CreateRequest = CreateRequest(title: Bytes, blank: bool, lowered: seq<int>, body: Bytes, created: Bytes)

  /** `title` comes trimmed. */
  datatype UpdateRequest = UpdateRequest(id: Bytes, title: Bytes, body: Bytes, clearBody: bool)

  /** The files a handler leaves, the ids it announced, and its answer. */
  datatype Outcome<T> = Outcome(files: Files, told: seq<Bytes>, result: Result<T, Problem>)

  /** File first, index second, event last. */
  function Save(fs: Files, r: Record): Outcome<Record> {
    match WriteRecord(fs, r)
    case Err(e) => Outcome(fs, [], Err(e))
    case Ok(written) =>
      match PutKey(written, r.id, Project(r))
      case Err(e) => Outcome(written, [], Err(e))
      case Ok(indexed) => Outcome(indexed, [r.id], Ok(r))
  }

  function Create(fs: Files, req: CreateRequest): Outcome<Record> {
    if req.blank then Outcome(fs, [], Err(TitleRequired))
    else
      var id := Slug(req.lowered);
      if id == [] then Outcome(fs, [], Err(NoUsableCharacters))
      else Save(fs, Record(id, req.title, req.body, req.created))
  }

  /** Absent means unchanged; emptying the body takes the flag. */
  function Edited(r: Record, req: UpdateRequest): Record {
    r.(title := if req.title != [] then req.title else r.title,
       body := if req.clearBody then [] else if req.body != [] then req.body else r.body)
  }

  function Update(fs: Files, req: UpdateRequest): Outcome<(Record, bool)> {
    if req.id == [] then Outcome(fs, [], Err(IdRequired))
    else match ReadRecord(fs, req.id)
      case Err(e) => Outcome(fs, [], Err(e))
      case Ok(r) => if Edited(r, req) == r then Outcome(fs, [], Ok((r, false))) else Changed(Save(fs, Edited(r, req)))
  }

  function Changed(saved: Outcome<Record>): Outcome<(Record, bool)> {
    Outcome(saved.files, saved.told, match saved.result case Err(e) => Err(e) case Ok(edited) => Ok((edited, true)))
  }

  function Delete(fs: Files, id: Bytes): Outcome<bool> {
    if id == [] then Outcome(fs, [], Err(IdRequired))
    else
      var p := PlaceOf(id);
      if p.None? then Outcome(fs, [], Err(OutsideRoot))
      else
        Outcome(DeleteKey(fs - {p.value}, id), if p.value in fs then [id] else [], Ok(p.value in fs))
  }

  // ---- rebuilding and listing ---------------------------------------------

  /** Removing the files one by one; a directory in there stops it. */
  function ClearFrom(fs: Files, names: seq<Bytes>): (Files, bool)
    decreases |names|
  {
    if names == [] then (fs, true)
    else if KeyPlace(names[0]) !in fs then (fs, false)
    else ClearFrom(fs - {KeyPlace(names[0])}, names[1..])
  }

  predicate IsRecordName(name: Bytes) { |name| >= |JSON| && name[|name| - |JSON|..] == JSON }

  function Stem(name: Bytes): Bytes
    requires IsRecordName(name)
  {
    name[..|name| - |JSON|]
  }

  /** One name of the scan: whether it was a record's, read and indexed under the id that it holds. */
  function RebuildOne(fs: Files, name: Bytes): (Files, Result<bool, Problem>) {
    if !IsRecordName(name) then (fs, Ok(false))
    else match ReadRecord(fs, Stem(name))
      case Err(e) => (fs, Err(e))
      case Ok(r) =>
        match PutKey(fs, r.id, Project(r)) case Err(e) => (fs, Err(e)) case Ok(next) => (next, Ok(true))
  }

  function RebuildFrom(fs: Files, names: seq<Bytes>, n: nat): (Files, Result<nat, Problem>)
    decreases |names|
  {
    if names == [] then (fs, Ok(n))
    else
      var (next, r) := RebuildOne(fs, names[0]);
      match r
      case Err(e) => (next, Err(e))
      case Ok(counted) => RebuildFrom(next, names[1..], if counted then n + 1 else n)
  }

  ghost function Rebuild(fs: Files): (Files, Result<nat, Problem>) {
    var (clear, done) := ClearFrom(fs, Sorting.SortedNames(Names(fs, INDEX)));
    if !done then (clear, Err(NotCleared))
    else RebuildFrom(clear, Sorting.SortedNames(Names(clear, [RECORDS])), 0)
  }

  /** What a scan makes of one name: strays are passed over, an entry that will not decode is an error. */
  function Shown(fs: Files, name: Bytes): Result<seq<Entry>, Problem> {
    if !LegalKey(name) || KeyPlace(name) !in fs then Ok([])
    else match fs[KeyPlace(name)] case EntryFile(e) => Ok([e]) case _ => Err(Unreadable)
  }

  function Behind(front: seq<Entry>, r: Result<seq<Entry>, Problem>): Result<seq<Entry>, Problem> {
    match r case Err(x) => Err(x) case Ok(more) => Ok(front + more)
  }

  function ListFrom(fs: Files, names: seq<Bytes>): Result<seq<Entry>, Problem>
    decreases |names|
  {
    if names == [] then Ok([])
    else match Shown(fs, names[0]) case Err(x) => Err(x) case Ok(front) => Behind(front, ListFrom(fs, names[1..]))
  }

  ghost function List(fs: Files): Result<seq<Entry>, Problem> {
    ListFrom(fs, Sorting.SortedNames(Names(fs, INDEX)))
  }

  // ---- the engine as it is ------------------------------------------------

  class NotesEngine {
    var files: Files
    var told: seq<Bytes>

    constructor (fs: Files)
      ensures files == fs && told == []
    {
      files := fs;
      told := [];
    }

    /** `fileStore.Put`: validate, look for a name that folds to the key, write. */
    method StorePut(key: Bytes, e: Entry) returns (r: Result<(), Problem>)
      modifies `files
      ensures match PutKey(old(files), key, e)
        case Err(x) => r == Err(x) && files == old(files)
        case Ok(fs) => r == Ok(()) && files == fs
    {
      var problem := ValidateKey(key);
      if problem.Some? { return Err(BadKey); }
      var names: seq<Bytes> := Sorting.CollectSorted(Names(files, INDEX));
      var i := 0;
      while i < |names|
        invariant 0 <= i <= |names|
        invariant forall k :: 0 <= k < i ==> !FoldsTo(names[k], key)
      {
        if FoldsTo(names[i], key) {
          assert names[i] in Names(files, INDEX);
          return Err(BadKey);
        }
        i := i + 1;
      }
      assert forall n :: n in Names(files, INDEX) ==> n in names;
      files := files[KeyPlace(key) := EntryFile(e)];
      return Ok(());
    }

    method StoreDelete(key: Bytes)
      modifies `files
      ensures files == DeleteKey(old(files), key)
    {
      var problem := ValidateKey(key);
      if problem.Some? { return; }
      files := files - {KeyPlace(key)};
    }

    method SaveRecord(r: Record) returns (out: Result<Record, Problem>)
      modifies this
      ensures var o := Save(old(files), r); files == o.files && told == old(told) + o.told && out == o.result
    {
      var p := PlaceOf(r.id);
      if p.None? { return Err(OutsideRoot); }
      if !NamesFit(p.value) { return Err(NameTooLong); }
      files := files[p.value := RecordFile(r)];
      var put := StorePut(r.id, Project(r));
      if put.Err? { return Err(put.error); }
      told := told + [r.id];
      return Ok(r);
    }

    method CreateRecord(req: CreateRequest) returns (out: Result<Record, Problem>)
      modifies this
      ensures var o := Create(old(files), req); files == o.files && told == old(told) + o.told && out == o.result
    {
      if req.blank { return Err(TitleRequired); }
      var id := MakeSlug(req.lowered);
      if id == [] { return Err(NoUsableCharacters); }
      out := SaveRecord(Record(id, req.title, req.body, req.created));
    }

    method UpdateRecord(req: UpdateRequest) returns (out: Result<(Record, bool), Problem>)
      modifies this
      ensures var o := Update(old(files), req); files == o.files && told == old(told) + o.told && out == o.result
    {
      if req.id == [] { return Err(IdRequired); }
      var found := ReadRecord(files, req.id);
      if found.Err? { return Err(found.error); }
      var record := found.value;
      var changed := false;
      if req.title != [] && req.title != record.title {
        record := record.(title := req.title);
        changed := true;
      }
      if req.clearBody {
        if record.body != [] {
          record := record.(body := []);
          changed := true;
        }
      } else if req.body != [] && req.body != record.body {
        record := record.(body := req.body);
        changed := true;
      }
      assert record == Edited(found.value, req) && (changed <==> record != found.value);
      if !changed { return Ok((record, false)); }
      var saved := SaveRecord(record);
      return match saved case Err(e) => Err(e) case Ok(r) => Ok((r, true));
    }

    method DeleteRecord(id: Bytes) returns (out: Result<bool, Problem>)
      modifies this
      ensures var o := Delete(old(files), id); files == o.files && told == old(told) + o.told && out == o.result
    {
      if id == [] { return Err(IdRequired); }
      var p := PlaceOf(id);
      if p.None? { return Err(OutsideRoot); }
      var there := p.value in files;
      files := files - {p.value};
      StoreDelete(id);
      if there { told := told + [id]; }
      return Ok(there);
    }

    method StoreClear() returns (done: bool)
      modifies `files
      ensures (files, done) == ClearFrom(old(files), Sorting.SortedNames(Names(old(files), INDEX)))
    {
      var names: seq<Bytes> := Sorting.CollectSorted(Names(files, INDEX));
      var i := 0;
      assert names[0..] == names;
      while i < |names|
        invariant 0 <= i <= |names|
        invariant ClearFrom(files, names[i..]) == ClearFrom(old(files), names)
      {
        assert names[i..][1..] == names[i + 1..];
        if KeyPlace(names[i]) !in files { return false; }
        files := files - {KeyPlace(names[i])};
        i := i + 1;
      }
      return true;
    }

    method IndexFile(name: Bytes) returns (counted: Result<bool, Problem>)
      modifies `files
      ensures (files, counted) == RebuildOne(old(files), name)
    {
      if !IsRecordName(name) { return Ok(false); }
      var record := ReadRecord(files, Stem(name));
      if record.Err? { return Err(record.error); }
      var put := StorePut(record.value.id, Project(record.value));
      return if put.Err? then Err(put.error) else Ok(true);
    }

    method RebuildIndex() returns (out: Result<nat, Problem>)
      modifies `files
      ensures (files, out) == Rebuild(old(files))
    {
      var done := StoreClear();
      if !done { return Err(NotCleared); }
      var names: seq<Bytes> := Sorting.CollectSorted(Names(files, [RECORDS]));
      out := IndexFiles(names);
    }

    method IndexFiles(names: seq<Bytes>) returns (out: Result<nat, Problem>)
      modifies `files
      ensures (files, out) == RebuildFrom(old(files), names, 0)
    {
      var n := 0;
      var i := 0;
      assert names[0..] == names;
      while i < |names|
        invariant 0 <= i <= |names|
        invariant RebuildFrom(files, names[i..], n) == RebuildFrom(old(files), names, 0)
      {
        assert names[i..][1..] == names[i + 1..];
        var counted := IndexFile(names[i]);
        if counted.Err? { return Err(counted.error); }
        if counted.value { n := n + 1; }
        i := i + 1;
      }
      return Ok(n);
    }

    method ListRecords() returns (out: Result<seq<Entry>, Problem>)
      ensures out == List(files)
    {
      var names: seq<Bytes> := Sorting.CollectSorted(Names(files, INDEX));
      var entries: seq<Entry> := [];
      var i := 0;
      assert names[0..] == names;
      InFront([], [], ListFrom(files, names));
      while i < |names|
        invariant 0 <= i <= |names|
        invariant Behind(entries, ListFrom(files, names[i..])) == ListFrom(files, names)
      {
        assert names[i..][1..] == names[i + 1..];
        var shown := Shown(files, names[i]);
        if shown.Err? { return Err(shown.error); }
        InFront(entries, shown.value, ListFrom(files, names[i + 1..]));
        entries := entries + shown.value;
        i := i + 1;
      }
      assert entries + [] == entries;
      return Ok(entries);
    }
  }

  lemma InFront(a: seq<Entry>, b: seq<Entry>, r: Result<seq<Entry>, Problem>)
    ensures Behind(a, Behind(b, r)) == Behind(a + b, r)
    ensures Behind([], r) == r
  {
    if r.Ok? { assert a + (b + r.value) == a + b + r.value && [] + r.value == r.value; }
  }
}
