/**
  What a bundle may look like, whoever wrote it: JSON objects and strings (sections 2 and 4 of RFC 8259) with white
  space anywhere between the tokens and fields in any order, and what such a document means. The parser accepts exactly
  the documents that mean a tree, and gives that tree.
*/
module BundleGrammar {
  import opened Basics
  import opened Bundle
  import opened BundleStrings
  import opened BundleRoundTrip
  import Base64

  // ---- documents ----------------------------------------------------------

  datatype Json = Text(us: seq<Unit>) | Empty(gap: Bytes) | Object(ms: Members)
  datatype Members = Last(m: Member) | More(m: Member, rest: Members)

  /** White space, a key, white space, a colon, white space, a value, white space. */
  datatype Member = Member(before: Bytes, key: seq<Unit>, colon: Bytes, gap: Bytes, value: Json, after: Bytes)

  /** Space, tab, line feed and carriage return. */
  predicate Blank(w: Bytes) { forall i :: 0 <= i < |w| ==> w[i] in {0x20, 0x09, 0x0A, 0x0D} }

  predicate IsJson(j: Json) {
    match j case Text(us) => AreUnits(us) case Empty(gap) => Blank(gap) case Object(ms) => AreMembers(ms)
  }

  predicate AreMembers(ms: Members) { IsMember(ms.m) && (ms.More? ==> AreMembers(ms.rest)) }

  predicate IsMember(m: Member) {
    Blank(m.before) && AreUnits(m.key) && Blank(m.colon) && Blank(m.gap) && IsJson(m.value) && Blank(m.after)
  }

  /** A document as it is written in front of `rest`. */
  function Write(j: Json, rest: Bytes): Bytes {
    match j
    case Text(us) => [0x22] + (Spelled(us) + ([0x22] + rest))
    case Empty(gap) => [0x7B] + (gap + ([0x7D] + rest))
    case Object(ms) => [0x7B] + WriteMembers(ms, rest)
  }

  function WriteMembers(ms: Members, rest: Bytes): Bytes {
    WriteMember(ms.m, if ms.Last? then [0x7D] + rest else [0x2C] + WriteMembers(ms.rest, rest))
  }

  function WriteMember(m: Member, rest: Bytes): Bytes {
    m.before + ([0x22] + (Spelled(m.key) + ([0x22] + (m.colon + ([0x3A] + (m.gap + Write(m.value, m.after + rest)))))))
  }

  // ---- what they mean -----------------------------------------------------

  function Name(m: Member): Bytes { Meant(m.key) }

  function Names(ms: Members): set<Bytes> { {Name(ms.m)} + if ms.Last? then {} else Names(ms.rest) }

  /** The last string under a key. */
  function TextUnder(ms: Members, key: Bytes): Option<Bytes> {
    if ms.More? && TextUnder(ms.rest, key).Some? then TextUnder(ms.rest, key)
    else if Name(ms.m) == key && ms.m.value.Text? then Some(Meant(ms.m.value.us)) else None
  }

  /** The last value under the key `entries`. */
  function EntriesUnder(ms: Members): Option<Json>
    ensures EntriesUnder(ms).Some? ==> EntriesUnder(ms).value < ms
  {
    if ms.More? && EntriesUnder(ms.rest).Some? then EntriesUnder(ms.rest)
    else if Name(ms.m) == ENTRIES then Some(ms.m.value) else None
  }

  /** Under `entries` only nodes are allowed; any other object is passed over, but has to be one. */
  ghost predicate Sound(ms: Members)
    decreases ms, 1
  {
    && (if Name(ms.m) == ENTRIES then HoldsNodes(ms.m.value) else ms.m.value.Object? ==> Sound(ms.m.value.ms))
    && (ms.More? ==> Sound(ms.rest))
  }

  ghost predicate HoldsNodes(j: Json)
    decreases j, 0
  {
    match j case Text(_) => false case Empty(_) => true case Object(ms) => AllNodes(ms)
  }

  ghost predicate AllNodes(ms: Members)
    decreases ms, 0
  {
    NodeFor(ms.m.value).Some? && (ms.More? ==> AllNodes(ms.rest))
  }

  /** The node that a document means, if it means one. */
  ghost function NodeFor(j: Json): Option<Node> {
    if !j.Object? || !Sound(j.ms) then None
    else
      var kind, content := TextUnder(j.ms, TYPE), TextUnder(j.ms, CONTENT);
      if kind == Some(DIRECTORY) then
        match EntriesUnder(j.ms) case None => Some(Dir(map[])) case Some(e) => Some(Dir(Children(e)))
      else if content.None? then None
      else if kind == Some(TEXT) then Some(File(content.value))
      else if kind == Some(BINARY) && TextUnder(j.ms, ENCODING) == Some(BASE64) then
        match Base64.Decode(content.value) case None => None case Some(raw) => Some(File(raw))
      else None
  }

  /** A directory's entries: under each name, the last node. */
  ghost function Children(j: Json): map<Bytes, Node>
    decreases j, 1
  {
    if j.Object? then Nodes(j.ms) else map[]
  }

  ghost function Nodes(ms: Members): map<Bytes, Node>
    decreases ms, 1
  {
    map k | k in Names(ms) && ChildUnder(ms, k).Some? :: ChildUnder(ms, k).value
  }

  ghost function ChildUnder(ms: Members, name: Bytes): Option<Node>
    decreases ms, 0
  {
    if ms.More? && ChildUnder(ms.rest, name).Some? then ChildUnder(ms.rest, name)
    else if Name(ms.m) == name then NodeFor(ms.m.value) else None
  }

  // ---- tokens -------------------------------------------------------------

  lemma BlankIsWs(w: Bytes, rest: Bytes)
    requires Blank(w) && rest != [] && !IsWs(rest[0])
    ensures Ws(w + rest) == rest
  {
    SkipWs(w, rest);
    NoWs(rest);
  }

  lemma WriteStarts(j: Json, rest: Bytes)
    ensures var s := Write(j, rest); s != [] && s[0] == (if j.Text? then 0x22 else 0x7B)
  {
  }

  lemma ReadMemberKey(m: Member, rest: Bytes)
    requires IsMember(m)
    ensures ParseKey(WriteMember(m, rest)) == Done(Name(m), Write(m.value, m.after + rest))
  {
    var value := Write(m.value, m.after + rest);
    WriteStarts(m.value, m.after + rest);
    KeyThen(m.before, m.key, m.colon, m.gap, value);
  }

  lemma KeyThen(before: Bytes, key: seq<Unit>, colon: Bytes, gap: Bytes, value: Bytes)
    requires Blank(before) && AreUnits(key) && Blank(colon) && Blank(gap) && value != [] && !IsWs(value[0])
    ensures ParseKey(before + ([0x22] + (Spelled(key) + ([0x22] + (colon + ([0x3A] + (gap + value)))))))
      == Done(Meant(key), value)
  {
    var tail := [0x3A] + (gap + value);
    var quoted := [0x22] + (Spelled(key) + ([0x22] + (colon + tail)));
    BlankIsWs(before, quoted);
    assert quoted[1..] == Spelled(key) + ([0x22] + (colon + tail));
    ReadSpelled(key, colon + tail);
    BlankIsWs(colon, tail);
    assert tail[1..] == gap + value;
    BlankIsWs(gap, value);
  }

  lemma ReadText(us: seq<Unit>, rest: Bytes)
    requires AreUnits(us)
    ensures ParseString(Write(Text(us), rest)) == Done(Meant(us), rest)
  {
    assert Write(Text(us), rest)[1..] == Spelled(us) + ([0x22] + rest);
    ReadSpelled(us, rest);
  }

  /** What stands behind a member. */
  lemma Separated(m: Member, c: Byte, rest: Bytes)
    requires IsMember(m) && (c == 0x2C || c == 0x7D)
    ensures Ws(m.after + ([c] + rest)) == [c] + rest && ([c] + rest)[1..] == rest
  {
    BlankIsWs(m.after, [c] + rest);
  }

  lemma MembersStart(ms: Members, rest: Bytes)
    requires AreMembers(ms)
    ensures Peek(Ws(WriteMembers(ms, rest))) == 0x22
  {
    var tail := if ms.Last? then [0x7D] + rest else [0x2C] + WriteMembers(ms.rest, rest);
    var m := ms.m;
    var quoted :=
      [0x22] + (Spelled(m.key) + ([0x22] + (m.colon + ([0x3A] + (m.gap + Write(m.value, m.after + tail))))));
    BlankIsWs(m.before, quoted);
  }

  // ---- fields -------------------------------------------------------------

  function Texts(ms: Members): map<Bytes, Bytes> {
    map k | k in Names(ms) && TextUnder(ms, k).Some? :: TextUnder(ms, k).value
  }

  /** The fields read so far, and those of these members over them. */
  ghost function Over(f: Fields, ms: Members): Fields {
    Fields(f.strings + Texts(ms),
           match EntriesUnder(ms) case None => f.entries case Some(e) => Some(Children(e)))
  }

  lemma {:induction false} TextIsNamed(ms: Members, k: Bytes)
    ensures k in Texts(ms) <==> TextUnder(ms, k).Some?
  {
    if ms.More? { TextIsNamed(ms.rest, k); }
  }

  lemma TextAt(m: Member, ms: Members, k: Bytes)
    ensures var a, b := Texts(More(m, ms)), Texts(Last(m)) + Texts(ms); (k in a <==> k in b) && (k in a ==> a[k] == b[k])
  {
    TextIsNamed(More(m, ms), k);
    TextIsNamed(Last(m), k);
    TextIsNamed(ms, k);
    assert TextUnder(More(m, ms), k) == if TextUnder(ms, k).Some? then TextUnder(ms, k) else TextUnder(Last(m), k);
  }

  lemma TextsMore(m: Member, ms: Members)
    ensures Texts(More(m, ms)) == Texts(Last(m)) + Texts(ms)
  {
    var a, b := Texts(More(m, ms)), Texts(Last(m)) + Texts(ms);
    forall k ensures (k in a <==> k in b) && (k in a ==> a[k] == b[k]) { TextAt(m, ms, k); }
    assert a == b;
  }

  lemma OverMore(f: Fields, m: Member, ms: Members)
    ensures Over(Over(f, Last(m)), ms) == Over(f, More(m, ms))
  {
    TextsMore(m, ms);
    MapAssoc(f.strings, Texts(Last(m)), Texts(ms));
  }

  lemma OverOne(f: Fields, m: Member)
    ensures Over(f, Last(m)) ==
      if Name(m) == ENTRIES && !m.value.Text? then f.(entries := Some(Children(m.value)))
      else if Name(m) == ENTRIES then Over(f, Last(m))
      else if m.value.Text? then f.(strings := f.strings[Name(m) := Meant(m.value.us)]) else f
  {
    OneText(m);
    if !m.value.Text? { assert f.strings + map[] == f.strings; }
  }

  lemma OneText(m: Member)
    ensures Texts(Last(m)) == if m.value.Text? then map[Name(m) := Meant(m.value.us)] else map[]
  {
  }

  lemma {:induction false} ChildIsNamed(ms: Members, k: Bytes)
    ensures k in Nodes(ms) <==> ChildUnder(ms, k).Some?
  {
    if ms.More? { ChildIsNamed(ms.rest, k); }
  }

  lemma NodeAt(m: Member, ms: Members, k: Bytes)
    ensures var a, b := Nodes(More(m, ms)), Nodes(Last(m)) + Nodes(ms); (k in a <==> k in b) && (k in a ==> a[k] == b[k])
  {
    ChildIsNamed(More(m, ms), k);
    ChildIsNamed(Last(m), k);
    ChildIsNamed(ms, k);
    assert ChildUnder(More(m, ms), k) == if ChildUnder(ms, k).Some? then ChildUnder(ms, k) else ChildUnder(Last(m), k);
  }

  lemma NodesMore(out: map<Bytes, Node>, m: Member, ms: Members)
    ensures out + Nodes(Last(m)) + Nodes(ms) == out + Nodes(More(m, ms))
  {
    var a, b := Nodes(More(m, ms)), Nodes(Last(m)) + Nodes(ms);
    forall k ensures (k in a <==> k in b) && (k in a ==> a[k] == b[k]) { NodeAt(m, ms, k); }
    assert a == b;
    MapAssoc(out, Nodes(Last(m)), Nodes(ms));
  }

  lemma MapAssoc<T>(a: map<Bytes, T>, b: map<Bytes, T>, c: map<Bytes, T>)
    ensures a + b + c == a + (b + c)
  {
  }

  lemma NodesOne(out: map<Bytes, Node>, m: Member)
    requires NodeFor(m.value).Some?
    ensures out + Nodes(Last(m)) == out[Name(m) := NodeFor(m.value).value]
  {
    assert Nodes(Last(m)) == map[Name(m) := NodeFor(m.value).value];
  }

  lemma FieldsMean(ms: Members)
    requires Sound(ms)
    ensures NodeOf(Over(NO_FIELDS, ms)) == NodeFor(Object(ms))
  {
    assert NO_FIELDS.strings + Texts(ms) == Texts(ms);
    TextsMean(ms, Over(NO_FIELDS, ms));
  }

  lemma TextsMean(ms: Members, f: Fields)
    requires Sound(ms) && f.strings == Texts(ms)
    requires f.entries == match EntriesUnder(ms) case None => None case Some(e) => Some(Children(e))
    ensures NodeOf(f) == NodeFor(Object(ms))
  {
    TextIsNamed(ms, TYPE);
    TextIsNamed(ms, CONTENT);
    TextIsNamed(ms, ENCODING);
  }

  // ---- reading what is written --------------------------------------------

  ghost function Result<T>(good: bool, value: T, rest: Bytes): Parse<T> { if good then Done(value, rest) else Fail }

  lemma {:induction false} ReadObject(j: Json, rest: Bytes)
    requires IsJson(j) && !j.Text?
    ensures ParseObject(Write(j, rest)) ==
      if j.Empty? then Done(NO_FIELDS, rest) else Result(Sound(j.ms), Over(NO_FIELDS, j.ms), rest)
    decreases j, 2
  {
    var s := Write(j, rest);
    if j.Empty? {
      assert s[1..] == j.gap + ([0x7D] + rest);
      BlankIsWs(j.gap, [0x7D] + rest);
      assert ([0x7D] + rest)[1..] == rest;
    } else {
      assert s[1..] == WriteMembers(j.ms, rest);
      MembersStart(j.ms, rest);
      ReadMembers(j.ms, rest, NO_FIELDS);
      SameFirstField(Ws(WriteMembers(j.ms, rest)), WriteMembers(j.ms, rest), NO_FIELDS);
    }
  }

  lemma SameFirstField(s: Bytes, t: Bytes, f: Fields)
    requires Ws(s) == Ws(t)
    ensures ObjectFrom(s, f) == ObjectFrom(t, f)
  {
    assert ParseKey(s) == ParseKey(t);
    assert ParseField(s, f) == ParseField(t, f);
  }

  lemma {:induction false} ReadMembers(ms: Members, rest: Bytes, f: Fields)
    requires AreMembers(ms)
    ensures ObjectFrom(WriteMembers(ms, rest), f) == Result(Sound(ms), Over(f, ms), rest)
    decreases ms, 0
  {
    var m := ms.m;
    var tail := if ms.Last? then [0x7D] + rest else [0x2C] + WriteMembers(ms.rest, rest);
    ReadMemberKey(m, tail);
    ReadValue(m, tail, f);
    if ms.Last? {
      Separated(m, 0x7D, rest);
    } else {
      Separated(m, 0x2C, WriteMembers(ms.rest, rest));
      ReadMembers(ms.rest, rest, Over(f, Last(m)));
      OverMore(f, m, ms.rest);
    }
  }

  /** One member's value, and the fields with it. */
  lemma {:induction false} ReadValue(m: Member, tail: Bytes, f: Fields)
    requires IsMember(m)
    ensures FieldValue(Name(m), Write(m.value, m.after + tail), f) == Result(Sound(Last(m)), Over(f, Last(m)), m.after + tail)
    decreases m, 1
  {
    var rest := m.after + tail;
    WriteStarts(m.value, rest);
    OverOne(f, m);
    if Name(m) == ENTRIES {
      ReadChildren(m.value, rest);
    } else if m.value.Text? {
      ReadText(m.value.us, rest);
    } else {
      ReadObject(m.value, rest);
    }
  }

  lemma {:induction false} ReadChildren(j: Json, rest: Bytes)
    requires IsJson(j)
    ensures ParseEntries(Write(j, rest)) == Result(HoldsNodes(j), Children(j), rest)
    decreases j, 2
  {
    var s := Write(j, rest);
    WriteStarts(j, rest);
    if j.Empty? {
      assert s[1..] == j.gap + ([0x7D] + rest);
      BlankIsWs(j.gap, [0x7D] + rest);
      assert ([0x7D] + rest)[1..] == rest;
    } else if j.Object? {
      assert s[1..] == WriteMembers(j.ms, rest);
      MembersStart(j.ms, rest);
      ReadEntryMembers(j.ms, rest, map[]);
      SameFirstKey(Ws(WriteMembers(j.ms, rest)), WriteMembers(j.ms, rest), map[]);
      assert map[] + Nodes(j.ms) == Children(j);
    }
  }

  lemma {:induction false} ReadEntryMembers(ms: Members, rest: Bytes, out: map<Bytes, Node>)
    requires AreMembers(ms)
    ensures EntriesFrom(WriteMembers(ms, rest), out) == Result(AllNodes(ms), out + Nodes(ms), rest)
    decreases ms, 0
  {
    var m := ms.m;
    var tail := if ms.Last? then [0x7D] + rest else [0x2C] + WriteMembers(ms.rest, rest);
    ReadMemberKey(m, tail);
    ReadOneNode(m.value, m.after + tail);
    if NodeFor(m.value).Some? {
      NextChild(WriteMembers(ms, rest), Name(m), Write(m.value, m.after + tail), NodeFor(m.value).value,
                m.after + tail, out);
      NodesOne(out, m);
      if ms.Last? {
        Separated(m, 0x7D, rest);
      } else {
        Separated(m, 0x2C, WriteMembers(ms.rest, rest));
        ReadEntryMembers(ms.rest, rest, out + Nodes(Last(m)));
        NodesMore(out, m, ms.rest);
      }
    }
  }

  /** A document is read as the node it means, and refused when it means none. */
  lemma {:induction false} ReadOneNode(j: Json, rest: Bytes)
    requires IsJson(j)
    ensures ParseNode(Write(j, rest)) ==
      match NodeFor(j) case None => Fail case Some(n) => Done(n, rest)
    decreases j, 3
  {
    WriteStarts(j, rest);
    if !j.Text? { ReadObject(j, rest); }
    if j.Object? && Sound(j.ms) { FieldsMean(j.ms); }
  }

  // ---- nothing else is read -----------------------------------------------

  /** The white space in front of what `Ws` leaves. */
  function Gap(s: Bytes): Bytes { s[..|s| - |Ws(s)|] }

  lemma {:induction false} GapIsBlank(s: Bytes)
    ensures Blank(Gap(s)) && s == Gap(s) + Ws(s)
  {
    if s != [] && IsWs(s[0]) {
      GapIsBlank(s[1..]);
      assert Gap(s) == [s[0]] + Gap(s[1..]);
    }
  }

  /** A key that is read, taken apart. */
  lemma KeyOf(s: Bytes) returns (m: Member)
    requires ParseKey(s).Done?
    ensures IsMember(m) && m.value == Empty([]) && m.after == [] && Name(m) == ParseKey(s).value
    ensures s == m.before + ([0x22] + (Spelled(m.key) + ([0x22] + (m.colon + ([0x3A] + (m.gap + ParseKey(s).rest))))))
  {
    var quoted := Ws(s);
    var key := UnitsOf(quoted[1..]);
    var rest := StringBody(quoted[1..]).rest;
    var colon := Ws(rest);
    GapIsBlank(s);
    GapIsBlank(rest);
    GapIsBlank(colon[1..]);
    m := Member(Gap(s), key, Gap(rest), Gap(colon[1..]), Empty([]), []);
    HeadAndTail(quoted);
    HeadAndTail(colon);
    Composed(m, quoted[1..], rest, colon[1..], ParseKey(s).rest);
  }

  lemma HeadAndTail(s: Bytes)
    requires s != []
    ensures s == [s[0]] + s[1..]
  {
  }

  lemma Composed(m: Member, inner: Bytes, rest: Bytes, tail: Bytes, v: Bytes)
    requires inner == Spelled(m.key) + ([0x22] + rest) && rest == m.colon + ([0x3A] + tail) && tail == m.gap + v
    ensures m.before + ([0x22] + inner)
      == m.before + ([0x22] + (Spelled(m.key) + ([0x22] + (m.colon + ([0x3A] + (m.gap + v))))))
  {
  }

  /** The member whose key was taken apart, with its value and what stands behind it. */
  lemma MemberOf(s: Bytes, value: Json, behind: Bytes) returns (m: Member)
    requires ParseKey(s).Done? && IsJson(value) && ParseKey(s).rest == Write(value, behind)
    ensures IsMember(m) && m.value == value && s == WriteMember(m, Ws(behind))
  {
    var k := KeyOf(s);
    GapIsBlank(behind);
    m := k.(value := value, after := Gap(behind));
  }

  lemma {:induction false} ObjectOf(s: Bytes) returns (j: Json)
    requires ParseObject(s).Done?
    ensures IsJson(j) && !j.Text? && s == Write(j, ParseObject(s).rest)
    decreases |s|, 0
  {
    var inside := Ws(s[1..]);
    assert s == [0x7B] + s[1..];
    GapIsBlank(s[1..]);
    if Peek(inside) == 0x7D {
      j := Empty(Gap(s[1..]));
      assert inside == [0x7D] + inside[1..];
    } else {
      WsAgain(s[1..]);
      SameFirstField(inside, s[1..], NO_FIELDS);
      var ms := MembersOf(s[1..], NO_FIELDS);
      j := Object(ms);
    }
  }

  lemma WsAgain(s: Bytes)
    ensures Ws(Ws(s)) == Ws(s)
  {
    if Ws(s) != [] { NoWs(Ws(s)); }
  }

  lemma {:induction false} MembersOf(s: Bytes, f: Fields) returns (ms: Members)
    requires ObjectFrom(s, f).Done?
    ensures AreMembers(ms) && s == WriteMembers(ms, ObjectFrom(s, f).rest)
    decreases |s|, 3
  {
    var key, v := ParseKey(s).value, ParseKey(s).rest;
    var behind := FieldValue(key, v, f).rest;
    var value := ValueOf(key, v, f);
    var m := MemberOf(s, value, behind);
    var after := Ws(behind);
    assert after == [after[0]] + after[1..];
    if after[0] == 0x2C {
      var more := MembersOf(after[1..], FieldValue(key, v, f).value);
      ms := More(m, more);
    } else {
      ms := Last(m);
    }
  }

  lemma {:induction false} ValueOf(key: Bytes, v: Bytes, f: Fields) returns (j: Json)
    requires FieldValue(key, v, f).Done?
    ensures IsJson(j) && v == Write(j, FieldValue(key, v, f).rest)
    decreases |v|, 1
  {
    if key == ENTRIES {
      j := EntriesOf(v);
    } else if Peek(v) == 0x7B {
      j := ObjectOf(v);
    } else {
      var us := UnitsOf(v[1..]);
      assert v == [0x22] + v[1..];
      j := Text(us);
    }
  }

  lemma {:induction false} EntriesOf(s: Bytes) returns (j: Json)
    requires ParseEntries(s).Done?
    ensures IsJson(j) && s == Write(j, ParseEntries(s).rest)
    decreases |s|, 0
  {
    var inside := Ws(s[1..]);
    assert s == [0x7B] + s[1..];
    GapIsBlank(s[1..]);
    if Peek(inside) == 0x7D {
      j := Empty(Gap(s[1..]));
      assert inside == [0x7D] + inside[1..];
    } else {
      WsAgain(s[1..]);
      SameFirstKey(inside, s[1..], map[]);
      var ms := EntryMembersOf(s[1..], map[]);
      j := Object(ms);
    }
  }

  lemma {:induction false} EntryMembersOf(s: Bytes, out: map<Bytes, Node>) returns (ms: Members)
    requires EntriesFrom(s, out).Done?
    ensures AreMembers(ms) && s == WriteMembers(ms, EntriesFrom(s, out).rest)
    decreases |s|, 3
  {
    var name, v := ParseKey(s).value, ParseKey(s).rest;
    var behind := ParseNode(v).rest;
    var value := ObjectOf(v);
    var m := MemberOf(s, value, behind);
    var after := Ws(behind);
    assert after == [after[0]] + after[1..];
    if after[0] == 0x2C {
      var more := EntryMembersOf(after[1..], out[name := ParseNode(v).value]);
      ms := More(m, more);
    } else {
      ms := Last(m);
    }
  }

  // ---- whole bundles ------------------------------------------------------

  /** The bytes are a document that means this tree, with white space around it. */
  ghost predicate IsBundle(src: Bytes, j: Json, n: Node) {
    && IsJson(j) && NodeFor(j) == Some(n)
    && exists front: Bytes, back: Bytes :: Blank(front) && Blank(back) && src == front + Write(j, back)
  }

  /** A bundle decodes to a tree exactly when it is a document that means the tree, however it is written. */
  lemma DecodesExactly(src: Bytes, n: Node)
    ensures Decode(src) == Some(n) <==> exists j :: IsBundle(src, j, n)
  {
    if Decode(src) == Some(n) { var j := BundleOf(src, n); }
    if j :| IsBundle(src, j, n) {
      var front: Bytes, back: Bytes :| Blank(front) && Blank(back) && src == front + Write(j, back);
      WriteStarts(j, back);
      BlankIsWs(front, Write(j, back));
      ReadOneNode(j, back);
      SkipWs(back, []);
      assert back + [] == back;
    }
  }

  lemma BundleOf(src: Bytes, n: Node) returns (j: Json)
    requires Decode(src) == Some(n)
    ensures IsBundle(src, j, n)
  {
    var s := Ws(src);
    var back := ParseNode(s).rest;
    GapIsBlank(src);
    GapIsBlank(back);
    assert Gap(back) == back;
    j := ObjectOf(s);
    ReadOneNode(j, back);
    assert src == Gap(src) + Write(j, back);
  }
}
