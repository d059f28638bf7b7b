/**
  The lock files a build keeps: method ids and event topics, each a text of one entry a line. A build that succeeds
  without the update flag leaves every entry as it found it, and what a lock says is what the last build rendered.
*/
module Locks {
  import opened Basics
  import Decimal
  import Sorting

  const SPACE: Byte := 0x20
  const NEWLINE: Byte := 0x0A
  const HASH: Byte := 0x23
  const ID_LIMIT: nat := 0x1_0000_0000

  // ---- text ---------------------------------------------------------------

  /** `strings.Split(s, "\n")` */
  function Lines(s: Bytes): (r: seq<Bytes>)
    ensures forall i :: 0 <= i < |r| ==> NEWLINE !in r[i]
  {
    var i := IndexOf(s, NEWLINE);
    if i == |s| then
      assert s[..i] == s;
      [s]
    else [s[..i]] + Lines(s[i + 1..])
  }

  /** Each line and its line break. */
  function Text(lines: seq<Bytes>): Bytes {
    if lines == [] then [] else lines[0] + [NEWLINE] + Text(lines[1..])
  }

  lemma FirstLine(a: Bytes, b: Bytes)
    requires NEWLINE !in a
    ensures Lines(a + [NEWLINE] + b) == [a] + Lines(b)
  {
    var s := a + [NEWLINE] + b;
    assert s[|a|] == NEWLINE && forall k :: 0 <= k < |a| ==> s[k] == a[k];
    assert forall i :: |a| < i <= |s| ==> s[..i][|a|] == NEWLINE;
    assert IndexOf(s, NEWLINE) == |a|;
    assert s[..|a|] == a && s[|a| + 1..] == b;
  }

  lemma {:induction false} LinesOfText(lines: seq<Bytes>)
    requires forall i :: 0 <= i < |lines| ==> NEWLINE !in lines[i]
    ensures Lines(Text(lines)) == lines + [[]]
  {
    if lines != [] {
      FirstLine(lines[0], Text(lines[1..]));
      LinesOfText(lines[1..]);
      assert [lines[0]] + (lines[1..] + [[]]) == lines + [[]];
    }
  }

  predicate IsSpace(c: Byte) { c == SPACE || 0x09 <= c <= 0x0D }

  /** Unicode white space in three bytes of UTF-8: U+1680, U+2000 to U+200A, U+2028, U+2029, U+202F, U+205F, U+3000. */
  predicate IsWide(a: Byte, b: Byte, c: Byte) {
    || (a == 0xE1 && b == 0x9A && c == 0x80)
    || (a == 0xE2 && b == 0x80 && (0x80 <= c <= 0x8A || c == 0xA8 || c == 0xA9 || c == 0xAF))
    || (a == 0xE2 && b == 0x81 && c == 0x9F)
    || (a == 0xE3 && b == 0x80 && c == 0x80)
  }

  /** In two bytes: U+0085 and U+00A0. */
  predicate IsPair(a: Byte, b: Byte) { a == 0xC2 && (b == 0x85 || b == 0xA0) }

  /** The length of the white-space character that `s` begins with, or 0. */
  function SpaceAt(s: Bytes): (n: nat)
    ensures n <= |s|
  {
    if s == [] then 0
    else if IsSpace(s[0]) then 1
    else if |s| >= 2 && IsPair(s[0], s[1]) then 2
    else if |s| >= 3 && IsWide(s[0], s[1], s[2]) then 3 else 0
  }

  /** The length of the one that `s` ends with, or 0. */
  function SpaceEnds(s: Bytes): (n: nat)
    ensures n <= |s|
  {
    if s == [] then 0
    else if IsSpace(s[|s| - 1]) then 1
    else if |s| >= 2 && IsPair(s[|s| - 2], s[|s| - 1]) then 2
    else if |s| >= 3 && IsWide(s[|s| - 3], s[|s| - 2], s[|s| - 1]) then 3 else 0
  }

  function TrimLeft(s: Bytes): (t: Bytes)
    ensures t != [] ==> SpaceAt(t) == 0
    ensures forall c :: c in t ==> c in s
  {
    if SpaceAt(s) > 0 then TrimLeft(s[SpaceAt(s)..]) else s
  }

  function TrimRight(s: Bytes): (t: Bytes)
    ensures |t| <= |s| && t == s[..|t|]
    ensures t != [] ==> SpaceEnds(t) == 0
  {
    if SpaceEnds(s) > 0 then
      var shorter := TrimRight(s[..|s| - SpaceEnds(s)]);
      assert s[..|s| - SpaceEnds(s)][..|shorter|] == s[..|shorter|];
      shorter
    else s
  }

  /** `strings.TrimSpace` */
  function Trim(s: Bytes): Bytes { TrimRight(TrimLeft(s)) }

  predicate Trimmed(s: Bytes) { s != [] && SpaceAt(s) == 0 && SpaceEnds(s) == 0 }

  lemma StartKept(a: Bytes, b: Bytes)
    requires SpaceAt(a + b) == 0
    ensures SpaceAt(a) == 0
  {
    assert |a| >= 1 ==> (a + b)[0] == a[0];
    assert |a| >= 2 ==> (a + b)[1] == a[1];
    assert |a| >= 3 ==> (a + b)[2] == a[2];
  }

  lemma EndKept(a: Bytes, b: Bytes)
    requires SpaceEnds(a + b) == 0
    ensures SpaceEnds(b) == 0
  {
    var s := a + b;
    assert |b| >= 1 ==> s[|s| - 1] == b[|b| - 1];
    assert |b| >= 2 ==> s[|s| - 2] == b[|b| - 2];
    assert |b| >= 3 ==> s[|s| - 3] == b[|b| - 3];
  }

  /** No white-space character reaches across a plain space. */
  lemma SpaceBetween(a: Bytes, b: Bytes)
    requires a != [] && SPACE !in a && SpaceAt(a) == 0 && b != [] && SpaceEnds(b) == 0
    ensures Trimmed(a + [SPACE] + b)
  {
    var s := a + [SPACE] + b;
    StartsClear(a, b);
    assert s[|a|] == SPACE && s[|s| - 1] == b[|b| - 1];
    assert |b| >= 2 ==> s[|s| - 2] == b[|b| - 2];
    assert |b| >= 3 ==> s[|s| - 3] == b[|b| - 3];
  }

  lemma StartsClear(a: Bytes, b: Bytes)
    requires a != [] && SPACE !in a && SpaceAt(a) == 0
    ensures SpaceAt(a + [SPACE] + b) == 0
  {
    var s := a + [SPACE] + b;
    assert s[0] == a[0] && s[|a|] == SPACE;
    assert |a| >= 2 ==> s[1] == a[1];
    assert |a| >= 3 ==> s[2] == a[2];
  }

  /** `strings.Cut(line, " ")` */
  function Cut(line: Bytes): Option<(Bytes, Bytes)> {
    var i := IndexOf(line, SPACE);
    if i == |line| then None else Some((line[..i], line[i + 1..]))
  }

  lemma CutJoined(a: Bytes, b: Bytes)
    requires SPACE !in a
    ensures Cut(a + [SPACE] + b) == Some((a, b))
  {
    var s := a + [SPACE] + b;
    assert s[|a|] == SPACE && forall k :: 0 <= k < |a| ==> s[k] == a[k];
    assert forall i :: |a| < i <= |s| ==> s[..i][|a|] == SPACE;
    assert IndexOf(s, SPACE) == |a|;
    assert s[..|a|] == a && s[|a| + 1..] == b;
  }

  /** A line for readers. Each lock opens with two of them, whose wording is left open. */
  type Comment = c: Bytes | Trimmed(c) && c[0] == HASH && NEWLINE !in c witness [HASH]

  type Header = seq<Comment>

  // ---- numbers ------------------------------------------------------------

  function Chars(b: Bytes): string {
    seq(|b|, i requires 0 <= i < |b| => b[i] as char)
  }

  function Numeral(n: nat): (b: Bytes)
    ensures b != [] && forall i :: 0 <= i < |b| ==> 0x30 <= b[i] <= 0x39
  {
    var s := Decimal.Print(n);
    assert forall i :: 0 <= i < |s| ==> Decimal.IsDigit(s[i]);
    seq(|s|, i requires 0 <= i < |s| => s[i] as int)
  }

  /** `strconv.ParseUint(_, 10, 32)` */
  function ParseUint(b: Bytes): Option<nat> {
    match Decimal.Unsigned(Chars(b)) case Some(n) => if n < ID_LIMIT then Some(n) else None case None => None
  }

  lemma NumeralParses(n: nat)
    ensures ParseUint(Trim(Numeral(n))) == if n < ID_LIMIT then Some(n) else None
  {
    var b := Numeral(n);
    assert Trimmed(b);
    assert Trim(b) == b;
    assert Chars(Numeral(n)) == Decimal.Print(n);
    Decimal.PrintParses(n);
  }

  /** Entries put into a map one after the other. */
  function Laid<V>(m: map<Bytes, V>, names: seq<Bytes>, out: map<Bytes, V>): map<Bytes, V>
    requires forall k :: k in names ==> k in m
    decreases |names|
  {
    if names == [] then out else Laid(m, names[1..], out[names[0] := m[names[0]]])
  }

  lemma {:induction false} LaidHolds<V>(m: map<Bytes, V>, names: seq<Bytes>, out: map<Bytes, V>)
    requires forall k :: k in names ==> k in m
    ensures Laid(m, names, out).Keys == out.Keys + set k | k in names
    ensures forall k :: k in Laid(m, names, out) ==> Laid(m, names, out)[k] == if k in names then m[k] else out[k]
    decreases |names|
  {
    if names != [] {
      LaidHolds(m, names[1..], out[names[0] := m[names[0]]]);
      assert names == [names[0]] + names[1..];
    }
  }

  lemma AllLaid<V>(m: map<Bytes, V>, names: seq<Bytes>)
    requires forall k :: k in names <==> k in m
    ensures Laid(m, names, map[]) == m
  {
    LaidHolds(m, names, map[]);
    assert Laid(m, names, map[]).Keys == m.Keys;
  }

  // ---- the id lock --------------------------------------------------------

  type Ids = map<Bytes, nat>

  function IdLine(name: Bytes, id: nat): Bytes { name + [SPACE] + Numeral(id) }

  function IdLines(ids: Ids, names: seq<Bytes>): seq<Bytes>
    requires forall k :: k in names ==> k in ids
  {
    if names == [] then [] else [IdLine(names[0], ids[names[0]])] + IdLines(ids, names[1..])
  }

  ghost function RenderLock(header: Header, ids: Ids): Bytes {
    Text(header + IdLines(ids, Sorting.SortedNames(ids.Keys)))
  }

  function ReadId(line: Bytes, out: Ids): Ids {
    if line == [] || line[0] == HASH then out
    else match Cut(line)
      case None => out
      case Some((name, v)) => match ParseUint(Trim(v)) case Some(id) => out[name := id] case None => out
  }

  function ReadIds(lines: seq<Bytes>, out: Ids): Ids
    decreases |lines|
  {
    if lines == [] then out else ReadIds(lines[1..], ReadId(lines[0], out))
  }

  function ParseLock(s: Bytes): Ids { ReadIds(Lines(s), map[]) }

  /** A name that a line can hold, and an id that is a uint32. */
  predicate IdFits(name: Bytes, id: nat) {
    NEWLINE !in name && SPACE !in name && (name != [] ==> name[0] != HASH) && id < 0x1_0000_0000
  }

  predicate AllIdsFit(ids: Ids) { forall k :: k in ids ==> IdFits(k, ids[k]) }

  lemma {:induction false} ReadsOnlyFitting(lines: seq<Bytes>, out: Ids)
    requires AllIdsFit(out) && forall i :: 0 <= i < |lines| ==> NEWLINE !in lines[i]
    ensures AllIdsFit(ReadIds(lines, out))
    decreases |lines|
  {
    if lines != [] { ReadsOnlyFitting(lines[1..], ReadId(lines[0], out)); }
  }

  lemma ReadOneId(name: Bytes, id: nat, out: Ids)
    requires IdFits(name, id)
    ensures ReadId(IdLine(name, id), out) == out[name := id]
    ensures NEWLINE !in IdLine(name, id)
  {
    CutJoined(name, Numeral(id));
    NumeralParses(id);
    var line := IdLine(name, id);
    assert line[0] == if name == [] then SPACE else name[0];
  }

  lemma Front(line: Bytes, lines: seq<Bytes>, more: seq<Bytes>)
    ensures ([line] + lines + more)[0] == line && ([line] + lines + more)[1..] == lines + more
  {
  }

  lemma {:induction false} IdLinesBreakNowhere(ids: Ids, names: seq<Bytes>)
    requires AllIdsFit(ids) && forall k :: k in names ==> k in ids
    ensures forall i :: 0 <= i < |IdLines(ids, names)| ==> NEWLINE !in IdLines(ids, names)[i]
  {
    if names != [] {
      ReadOneId(names[0], ids[names[0]], map[]);
      IdLinesBreakNowhere(ids, names[1..]);
    }
  }

  lemma {:induction false} ReadsIdLines(ids: Ids, names: seq<Bytes>, out: Ids)
    requires AllIdsFit(ids) && forall k :: k in names ==> k in ids
    ensures ReadIds(IdLines(ids, names) + [[]], out) == Laid(ids, names, out)
    decreases |names|
  {
    if names == [] {
      assert IdLines(ids, names) + [[]] == [[]];
      assert ReadIds([[]], out) == ReadIds([], out);
    } else {
      ReadOneId(names[0], ids[names[0]], out);
      ReadsIdLines(ids, names[1..], out[names[0] := ids[names[0]]]);
      Front(IdLine(names[0], ids[names[0]]), IdLines(ids, names[1..]), [[]]);
    }
  }

  lemma {:induction false} SkipsHeader(header: Header, lines: seq<Bytes>, out: Ids)
    ensures ReadIds(header + lines, out) == ReadIds(lines, out)
  {
    if header == [] {
      assert header + lines == lines;
    } else {
      assert (header + lines)[1..] == header[1..] + lines && (header + lines)[0] == header[0];
      SkipsHeader(header[1..], lines, out);
    }
  }

  lemma FittingIdsReturn(header: Header, ids: Ids)
    requires AllIdsFit(ids)
    ensures ParseLock(RenderLock(header, ids)) == ids
  {
    var names := Sorting.SortedNames(ids.Keys);
    var lines := IdLines(ids, names);
    IdLinesBreakNowhere(ids, names);
    LinesOfText(header + lines);
    SkipsHeader(header, lines + [[]], map[]);
    assert header + lines + [[]] == header + (lines + [[]]);
    ReadsIdLines(ids, names, map[]);
    AllLaid(ids, names);
  }

  /** Parsing a rendered lock gives the map back exactly when a line can hold each of its entries. */
  lemma IdLockRoundTrip(header: Header, ids: Ids)
    ensures ParseLock(RenderLock(header, ids)) == ids <==> AllIdsFit(ids)
  {
    if AllIdsFit(ids) { FittingIdsReturn(header, ids); }
    ReadsOnlyFitting(Lines(RenderLock(header, ids)), map[]);
  }

  // ---- a build ------------------------------------------------------------

  datatype LockError = ClaimedTwice(id: nat) | Mismatch

  predicate OneNameEach(ids: Ids) { forall j, k :: j in ids && k in ids && ids[j] == ids[k] ==> j == k }

  /** Everything the lock says is still so. */
  ghost predicate Keeps<V>(before: map<Bytes, V>, now: map<Bytes, V>) {
    forall k :: k in before ==> k in now && now[k] == before[k]
  }

  /** `checkLock`: the file afterwards, or the reason the build stops. No file is None. */
  ghost predicate LockChecked(header: Header, lock: Option<Bytes>, current: Ids, update: bool, after: Option<Bytes>,
                              r: Result<(), LockError>) {
    if !OneNameEach(current) then
      after == lock && r.Err? && r.error.ClaimedTwice?
      && exists j, k :: j in current && k in current && j != k && current[j] == r.error.id && current[k] == r.error.id
    else if lock.Some? && !Keeps(ParseLock(lock.value), current) && !update then
      after == lock && r == Err(Mismatch)
    else
      r == Ok(()) && after ==
        if lock.Some? && ParseLock(lock.value) == current then lock else Some(RenderLock(header, current))
  }

  method ParseLockText(s: Bytes) returns (out: Ids)
    ensures out == ParseLock(s)
  {
    var lines := Lines(s);
    out := map[];
    var i := 0;
    assert lines[0..] == lines;
    while i < |lines|
      invariant 0 <= i <= |lines|
      invariant ReadIds(lines[i..], out) == ParseLock(s)
    {
      var line := lines[i];
      assert lines[i..][1..] == lines[i + 1..];
      i := i + 1;
      if line == [] || line[0] == HASH { continue; }
      var parts := Cut(line);
      if parts.None? { continue; }
      var id := ParseUint(Trim(parts.value.1));
      if id.Some? { out := out[parts.value.0 := id.value]; }
    }
  }

  method RenderLockText(header: Header, ids: Ids) returns (b: Bytes)
    ensures b == RenderLock(header, ids)
  {
    var names: seq<Bytes> := Sorting.CollectSorted(ids.Keys);
    b := Text(header);
    var i := 0;
    assert names[0..] == names;
    TextAppend(header, IdLines(ids, names));
    while i < |names|
      invariant 0 <= i <= |names|
      invariant b + Text(IdLines(ids, names[i..])) == RenderLock(header, ids)
    {
      assert names[i..][1..] == names[i + 1..];
      var line := IdLine(names[i], ids[names[i]]);
      TextFront(b, line, IdLines(ids, names[i + 1..]));
      b := b + (line + [NEWLINE]);
      i := i + 1;
    }
    assert b + [] == b;
  }

  lemma TextFront(b: Bytes, line: Bytes, more: seq<Bytes>)
    ensures b + Text([line] + more) == b + (line + [NEWLINE]) + Text(more)
  {
    assert ([line] + more)[1..] == more;
    Assoc(b, line + [NEWLINE], Text(more));
  }

  lemma {:induction false} TextAppend(a: seq<Bytes>, b: seq<Bytes>)
    ensures Text(a + b) == Text(a) + Text(b)
  {
    if a == [] {
      assert a + b == b;
    } else {
      assert (a + b)[1..] == a[1..] + b;
      TextAppend(a[1..], b);
      Assoc(a[0] + [NEWLINE], Text(a[1..]), Text(b));
    }
  }

  /** The first loop: an id that two names claim. */
  method ClaimedByTwo(current: Ids) returns (r: Option<nat>)
    ensures r.None? <==> OneNameEach(current)
    ensures r.Some? ==> exists j, k ::
      j in current && k in current && j != k && current[j] == r.value && current[k] == r.value
  {
    var byId: map<nat, Bytes> := map[];
    var left := current.Keys;
    while left != {}
      invariant left <= current.Keys
      invariant forall id :: id in byId ==> byId[id] in current && byId[id] !in left && current[byId[id]] == id
      invariant forall k :: k in current && k !in left ==> current[k] in byId && byId[current[k]] == k
      decreases left
    {
      var name :| name in left;
      left := left - {name};
      var id := current[name];
      if id in byId {
        assert byId[id] != name && current[byId[id]] == id;
        return Some(id);
      }
      byId := byId[id := name];
    }
    return None;
  }

  /** The second pair of loops: what the lock says and the build does not. */
  method Disagree<V(==)>(before: map<Bytes, V>, current: map<Bytes, V>) returns (changed: set<Bytes>, removed: set<Bytes>)
    ensures changed == set k | k in before && k in current && current[k] != before[k]
    ensures removed == set k | k in before && k !in current
  {
    changed, removed := {}, {};
    var left := before.Keys;
    while left != {}
      invariant left <= before.Keys
      invariant changed == set k | k in before && k !in left && k in current && current[k] != before[k]
      invariant removed == set k | k in before && k !in left && k !in current
      decreases left
    {
      var k :| k in left;
      left := left - {k};
      if k !in current { removed := removed + {k}; }
      else if current[k] != before[k] { changed := changed + {k}; }
    }
  }

  lemma AgreeKeeps<V>(before: map<Bytes, V>, current: map<Bytes, V>, changed: set<Bytes>, removed: set<Bytes>)
    requires changed == set k | k in before && k in current && current[k] != before[k]
    requires removed == set k | k in before && k !in current
    ensures Keeps(before, current) <==> changed == {} && removed == {}
  {
    if changed == {} && removed == {} {
      forall k | k in before ensures k in current && current[k] == before[k] {
        assert k !in removed && k !in changed;
      }
    } else {
      var k :| k in changed + removed;
      assert k in before;
    }
  }

  lemma SameEntries<V>(before: map<Bytes, V>, current: map<Bytes, V>)
    requires Keeps(before, current) && current.Keys - before.Keys == {}
    ensures before == current
  {
    forall k ensures k in before <==> k in current {
      assert k in current ==> k in before || k in current.Keys - before.Keys;
    }
  }

  class LockFile {
    /** None when there is no such file. */
    var text: Option<Bytes>
    const header: Header

    constructor (t: Option<Bytes>, h: Header)
      ensures text == t && header == h
    {
      text := t;
      header := h;
    }

    method CheckIds(current: Ids, update: bool) returns (r: Result<(), LockError>)
      modifies this
      ensures LockChecked(header, old(text), current, update, text, r)
    {
      var twice := ClaimedByTwo(current);
      if twice.Some? { return Err(ClaimedTwice(twice.value)); }
      if text.None? {
        var first := RenderLockText(header, current);
        text := Some(first);
        return Ok(());
      }
      var before := ParseLockText(text.value);
      var changed, removed := Disagree(before, current);
      AgreeKeeps(before, current, changed, removed);
      var added := current.Keys - before.Keys;
      if changed == {} && removed == {} {
        if added != {} {
          var grown := RenderLockText(header, current);
          text := Some(grown);
        } else {
          SameEntries(before, current);
        }
        return Ok(());
      }
      if update {
        var blessed := RenderLockText(header, current);
        text := Some(blessed);
        return Ok(());
      }
      return Err(Mismatch);
    }

    method CheckTopics(current: Topics, update: bool) returns (r: Result<(), LockError>)
      modifies this
      ensures TopicsChecked(header, old(text), current, update, text, r)
    {
      if text.None? {
        if current == map[] { return Ok(()); }
        var first := RenderTopicText(header, current);
        text := Some(first);
        return Ok(());
      }
      var before := ParseTopicText(text.value);
      var changed, removed := Disagree(before, current);
      AgreeKeeps(before, current, changed, removed);
      if (changed != {} || removed != {}) && !update { return Err(Mismatch); }
      var grown := RenderTopicText(header, current);
      text := Some(grown);
      return Ok(());
    }
  }

  // ---- the topic lock -----------------------------------------------------

  type Topics = map<Bytes, Bytes>

  function TopicLine(name: Bytes, topic: Bytes): Bytes { name + [SPACE] + topic }

  function TopicLines(topics: Topics, names: seq<Bytes>): seq<Bytes>
    requires forall k :: k in names ==> k in topics
  {
    if names == [] then [] else [TopicLine(names[0], topics[names[0]])] + TopicLines(topics, names[1..])
  }

  ghost function RenderTopics(header: Header, topics: Topics): Bytes {
    Text(header + TopicLines(topics, Sorting.SortedNames(topics.Keys)))
  }

  function ReadTopic(line: Bytes, out: Topics): Topics {
    var t := Trim(line);
    if t == [] || t[0] == HASH then out
    else match Cut(t) case None => out case Some((name, topic)) => out[name := Trim(topic)]
  }

  function ReadTopics(lines: seq<Bytes>, out: Topics): Topics
    decreases |lines|
  {
    if lines == [] then out else ReadTopics(lines[1..], ReadTopic(lines[0], out))
  }

  function ParseTopics(s: Bytes): Topics { ReadTopics(Lines(s), map[]) }

  /** A name and a topic that survive the trimming and the cut. */
  predicate TopicFits(name: Bytes, topic: Bytes) {
    && NEWLINE !in name && SPACE !in name && name != [] && name[0] != HASH && SpaceAt(name) == 0
    && NEWLINE !in topic && Trimmed(topic)
  }

  predicate AllTopicsFit(topics: Topics) { forall k :: k in topics ==> TopicFits(k, topics[k]) }

  /** What is read from a line is something a line can hold. */
  lemma ReadTopicFits(line: Bytes, out: Topics)
    requires AllTopicsFit(out) && NEWLINE !in line
    ensures AllTopicsFit(ReadTopic(line, out))
  {
    var t := Trim(line);
    if t != [] && t[0] != HASH && Cut(t).Some? {
      assert TrimLeft(line) == t + TrimLeft(line)[|t|..];
      StartKept(t, TrimLeft(line)[|t|..]);
      assert NEWLINE !in t;
      CutFits(t);
    }
  }

  lemma CutFits(t: Bytes)
    requires Trimmed(t) && t[0] != HASH && NEWLINE !in t && Cut(t).Some?
    ensures TopicFits(Cut(t).value.0, Trim(Cut(t).value.1))
  {
    var i := IndexOf(t, SPACE);
    var name, topic := t[..i], t[i + 1..];
    assert t == name + t[i..] && t == t[..i + 1] + topic;
    StartKept(name, t[i..]);
    EndKept(t[..i + 1], topic);
    assert t[0] != SPACE && t[|t| - 1] != SPACE;
    assert 0 < i < |t| - 1 && name[0] == t[0];
    TrimKeepsEnd(topic);
    assert NEWLINE !in topic && NEWLINE !in Trim(topic);
  }

  lemma TrimKeepsEnd(s: Bytes)
    requires s != [] && SpaceEnds(s) == 0
    ensures Trimmed(Trim(s))
  {
    TrimLeftKeepsEnd(s);
    assert TrimRight(TrimLeft(s)) == TrimLeft(s);
  }

  lemma {:induction false} TrimLeftKeepsEnd(s: Bytes)
    requires s != [] && SpaceEnds(s) == 0
    ensures TrimLeft(s) != [] && SpaceEnds(TrimLeft(s)) == 0
    decreases |s|
  {
    var n := SpaceAt(s);
    if n > 0 {
      assert n < |s|;
      assert s == s[..n] + s[n..];
      EndKept(s[..n], s[n..]);
      TrimLeftKeepsEnd(s[n..]);
    }
  }

  lemma {:induction false} ReadsOnlyFittingTopics(lines: seq<Bytes>, out: Topics)
    requires AllTopicsFit(out) && forall i :: 0 <= i < |lines| ==> NEWLINE !in lines[i]
    ensures AllTopicsFit(ReadTopics(lines, out))
    decreases |lines|
  {
    if lines != [] {
      ReadTopicFits(lines[0], out);
      ReadsOnlyFittingTopics(lines[1..], ReadTopic(lines[0], out));
    }
  }

  lemma TrimmedStays(s: Bytes)
    requires Trimmed(s)
    ensures Trim(s) == s
  {
  }

  lemma ReadOneTopic(name: Bytes, topic: Bytes, out: Topics)
    requires TopicFits(name, topic)
    ensures ReadTopic(TopicLine(name, topic), out) == out[name := topic]
    ensures NEWLINE !in TopicLine(name, topic)
  {
    var line := TopicLine(name, topic);
    assert line[0] == name[0];
    SpaceBetween(name, topic);
    TrimmedStays(line);
    TrimmedStays(topic);
    CutJoined(name, topic);
  }

  lemma {:induction false} TopicLinesBreakNowhere(topics: Topics, names: seq<Bytes>)
    requires AllTopicsFit(topics) && forall k :: k in names ==> k in topics
    ensures forall i :: 0 <= i < |TopicLines(topics, names)| ==> NEWLINE !in TopicLines(topics, names)[i]
  {
    if names != [] {
      ReadOneTopic(names[0], topics[names[0]], map[]);
      TopicLinesBreakNowhere(topics, names[1..]);
    }
  }

  lemma {:induction false} ReadsTopicLines(topics: Topics, names: seq<Bytes>, out: Topics)
    requires AllTopicsFit(topics) && forall k :: k in names ==> k in topics
    ensures ReadTopics(TopicLines(topics, names) + [[]], out) == Laid(topics, names, out)
    decreases |names|
  {
    if names == [] {
      assert TopicLines(topics, names) + [[]] == [[]];
      assert ReadTopics([[]], out) == ReadTopics([], out);
    } else {
      ReadOneTopic(names[0], topics[names[0]], out);
      ReadsTopicLines(topics, names[1..], out[names[0] := topics[names[0]]]);
      Front(TopicLine(names[0], topics[names[0]]), TopicLines(topics, names[1..]), [[]]);
    }
  }

  lemma {:induction false} SkipsTopicHeader(header: Header, lines: seq<Bytes>, out: Topics)
    ensures ReadTopics(header + lines, out) == ReadTopics(lines, out)
  {
    if header == [] {
      assert header + lines == lines;
    } else {
      assert (header + lines)[1..] == header[1..] + lines && (header + lines)[0] == header[0];
      TrimmedStays(header[0]);
      SkipsTopicHeader(header[1..], lines, out);
    }
  }

  lemma FittingTopicsReturn(header: Header, topics: Topics)
    requires AllTopicsFit(topics)
    ensures ParseTopics(RenderTopics(header, topics)) == topics
  {
    var names := Sorting.SortedNames(topics.Keys);
    var lines := TopicLines(topics, names);
    TopicLinesBreakNowhere(topics, names);
    LinesOfText(header + lines);
    SkipsTopicHeader(header, lines + [[]], map[]);
    assert header + lines + [[]] == header + (lines + [[]]);
    ReadsTopicLines(topics, names, map[]);
    AllLaid(topics, names);
  }

  /** The same for topics: the map comes back exactly when trimming and cutting leave each entry alone. */
  lemma TopicLockRoundTrip(header: Header, topics: Topics)
    ensures ParseTopics(RenderTopics(header, topics)) == topics <==> AllTopicsFit(topics)
  {
    if AllTopicsFit(topics) { FittingTopicsReturn(header, topics); }
    ReadsOnlyFittingTopics(Lines(RenderTopics(header, topics)), map[]);
  }

  /** `checkTopicLock`: with no file and no topics, no file is made. */
  ghost predicate TopicsChecked(header: Header, lock: Option<Bytes>, current: Topics, update: bool, after: Option<Bytes>,
                                r: Result<(), LockError>) {
    if lock.None? && current == map[] then after == None && r == Ok(())
    else if lock.Some? && !Keeps(ParseTopics(lock.value), current) && !update then after == lock && r == Err(Mismatch)
    else r == Ok(()) && after == Some(RenderTopics(header, current))
  }

  method ParseTopicText(s: Bytes) returns (out: Topics)
    ensures out == ParseTopics(s)
  {
    var lines := Lines(s);
    out := map[];
    var i := 0;
    assert lines[0..] == lines;
    while i < |lines|
      invariant 0 <= i <= |lines|
      invariant ReadTopics(lines[i..], out) == ParseTopics(s)
    {
      var line := Trim(lines[i]);
      assert lines[i..][1..] == lines[i + 1..];
      i := i + 1;
      if line == [] || line[0] == HASH { continue; }
      var parts := Cut(line);
      if parts.None? { continue; }
      out := out[parts.value.0 := Trim(parts.value.1)];
    }
  }

  method RenderTopicText(header: Header, topics: Topics) returns (b: Bytes)
    ensures b == RenderTopics(header, topics)
  {
    var names: seq<Bytes> := Sorting.CollectSorted(topics.Keys);
    b := Text(header);
    var i := 0;
    assert names[0..] == names;
    TextAppend(header, TopicLines(topics, names));
    while i < |names|
      invariant 0 <= i <= |names|
      invariant b + Text(TopicLines(topics, names[i..])) == RenderTopics(header, topics)
    {
      assert names[i..][1..] == names[i + 1..];
      var line := TopicLine(names[i], topics[names[i]]);
      TextFront(b, line, TopicLines(topics, names[i + 1..]));
      b := b + (line + [NEWLINE]);
      i := i + 1;
    }
    assert b + [] == b;
  }

  // ---- every sequence of builds -------------------------------------------

  /** The lock before and after a build, what the build declared, and whether it carried the update flag. */
  datatype Build = Build(before: Option<Bytes>, current: Ids, update: bool, after: Option<Bytes>,
                         result: Result<(), LockError>)

  ghost predicate Happened(header: Header, b: Build) {
    AllIdsFit(b.current) && LockChecked(header, b.before, b.current, b.update, b.after, b.result)
  }

  ghost predicate History(header: Header, builds: seq<Build>) {
    && (forall i :: 0 <= i < |builds| ==> Happened(header, builds[i]))
    && forall i :: 0 <= i < |builds| - 1 ==> builds[i].after == builds[i + 1].before
  }

  function Locked(lock: Option<Bytes>): Ids { if lock.None? then map[] else ParseLock(lock.value) }

  /**
    One build: a success locks exactly what it declared, and without the flag keeps what was locked; a failure changes
    nothing.
  */
  lemma BuildLocks(header: Header, b: Build)
    requires Happened(header, b)
    ensures b.result.Ok? <==> OneNameEach(b.current) && (b.update || Keeps(Locked(b.before), b.current))
    ensures b.result.Ok? ==> Locked(b.after) == b.current
    ensures !b.result.Ok? ==> b.after == b.before
    ensures !b.update ==> Keeps(Locked(b.before), Locked(b.after))
  {
    FittingIdsReturn(header, b.current);
    if b.result.Ok? { assert Locked(b.after) == b.current; }
  }

  lemma {:induction false} HistoryKeeps(header: Header, builds: seq<Build>, i: nat, j: nat)
    requires History(header, builds) && i <= j < |builds| && forall k :: i < k <= j ==> !builds[k].update
    ensures Keeps(Locked(builds[i].after), Locked(builds[j].after))
    decreases j
  {
    if i < j {
      HistoryKeeps(header, builds, i, j - 1);
      BuildLocks(header, builds[j]);
      assert builds[j - 1].after == builds[j].before;
    }
  }

  /**
    Over any sequence of builds, failed ones among them: an id that a successful build gave a name is that name's id in
    every later successful build, and no other name's, up to the next build that carries the update flag.
  */
  lemma IdsArePermanent(header: Header, builds: seq<Build>, i: nat, j: nat, name: Bytes)
    requires History(header, builds) && i <= j < |builds| && forall k :: i < k <= j ==> !builds[k].update
    requires builds[i].result.Ok? && builds[j].result.Ok? && name in builds[i].current
    ensures name in builds[j].current && builds[j].current[name] == builds[i].current[name]
    ensures forall other :: other in builds[j].current && other != name ==>
      builds[j].current[other] != builds[i].current[name]
  {
    BuildLocks(header, builds[i]);
    BuildLocks(header, builds[j]);
    HistoryKeeps(header, builds, i, j);
  }

  datatype TopicBuild = TopicBuild(before: Option<Bytes>, current: Topics, update: bool, after: Option<Bytes>,
                                   result: Result<(), LockError>)

  ghost predicate TopicHappened(header: Header, b: TopicBuild) {
    AllTopicsFit(b.current) && TopicsChecked(header, b.before, b.current, b.update, b.after, b.result)
  }

  ghost predicate TopicHistory(header: Header, builds: seq<TopicBuild>) {
    && (forall i :: 0 <= i < |builds| ==> TopicHappened(header, builds[i]))
    && forall i :: 0 <= i < |builds| - 1 ==> builds[i].after == builds[i + 1].before
  }

  function LockedTopics(lock: Option<Bytes>): Topics { if lock.None? then map[] else ParseTopics(lock.value) }

  lemma TopicBuildLocks(header: Header, b: TopicBuild)
    requires TopicHappened(header, b)
    ensures b.result.Ok? <==> b.update || Keeps(LockedTopics(b.before), b.current)
    ensures b.result.Ok? ==> LockedTopics(b.after) == b.current
    ensures !b.result.Ok? ==> b.after == b.before
    ensures !b.update ==> Keeps(LockedTopics(b.before), LockedTopics(b.after))
  {
    FittingTopicsReturn(header, b.current);
    if b.result.Ok? { assert LockedTopics(b.after) == b.current; }
  }

  lemma {:induction false} TopicHistoryKeeps(header: Header, builds: seq<TopicBuild>, i: nat, j: nat)
    requires TopicHistory(header, builds) && i <= j < |builds| && forall k :: i < k <= j ==> !builds[k].update
    ensures Keeps(LockedTopics(builds[i].after), LockedTopics(builds[j].after))
    decreases j
  {
    if i < j {
      TopicHistoryKeeps(header, builds, i, j - 1);
      TopicBuildLocks(header, builds[j]);
      assert builds[j - 1].after == builds[j].before;
    }
  }

  /** A topic that a successful build locked is its message's in every later one, up to the next with the update flag. */
  lemma TopicsArePermanent(header: Header, builds: seq<TopicBuild>, i: nat, j: nat, name: Bytes)
    requires TopicHistory(header, builds) && i <= j < |builds| && forall k :: i < k <= j ==> !builds[k].update
    requires builds[i].result.Ok? && builds[j].result.Ok? && name in builds[i].current
    ensures name in builds[j].current && builds[j].current[name] == builds[i].current[name]
  {
    TopicBuildLocks(header, builds[i]);
    TopicBuildLocks(header, builds[j]);
    TopicHistoryKeeps(header, builds, i, j);
  }
}
