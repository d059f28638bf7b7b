/**
  Decoding an encoded bundle. It always succeeds and gives the tree with every name rewritten rune by rune; that is
  the tree itself exactly when all its names are valid UTF-8. File contents survive whatever bytes they hold.
*/
module BundleRoundTrip {
  import opened Basics
  import opened Bundle
  import Base64
  import Sorting
  import Utf8

  // ---- white space --------------------------------------------------------

  lemma {:induction false} SkipWs(w: Bytes, rest: Bytes)
    requires forall i :: 0 <= i < |w| ==> IsWs(w[i])
    ensures Ws(w + rest) == Ws(rest)
  {
    if w == [] {
      assert w + rest == rest;
    } else {
      assert (w + rest)[1..] == w[1..] + rest;
      SkipWs(w[1..], rest);
    }
  }

  lemma NoWs(s: Bytes)
    requires s != [] && !IsWs(s[0])
    ensures Ws(s) == s
  {
  }

  // ---- strings ------------------------------------------------------------

  lemma HexRoundTrip(r: int)
    requires 0 <= r < 0x20
    ensures Hex4(0x30, 0x30, HexDigit(r / 16), HexDigit(r % 16)) == Some(r)
  {
    assert HexValue(HexDigit(r / 16)) == Some(r / 16);
    assert HexValue(HexDigit(r % 16)) == Some(r % 16);
  }

  /** Bytes that are neither quote nor backslash stand for themselves. */
  lemma {:induction false} ReadPlain(b: Bytes, rest: Bytes)
    requires forall i :: 0 <= i < |b| ==> b[i] != QUOTE && b[i] != BACKSLASH
    ensures StringBody(b + rest) == Prefixed(b, StringBody(rest))
  {
    if b == [] {
      assert b + rest == rest;
      PrefixedTwice([], [], StringBody(rest));
    } else {
      assert (b + rest)[1..] == b[1..] + rest && (b + rest)[0] == b[0];
      ReadPlain(b[1..], rest);
      PrefixedTwice([b[0]], b[1..], StringBody(rest));
      assert [b[0]] + b[1..] == b;
    }
  }

  lemma MultibytePlain(r: int)
    requires Utf8.IsScalar(r) && r >= 0x20 && r != QUOTE && r != BACKSLASH
    ensures forall i :: 0 <= i < |Utf8.EncodeRune(r)| ==>
      Utf8.EncodeRune(r)[i] != QUOTE && Utf8.EncodeRune(r)[i] != BACKSLASH
  {
  }

  lemma ReadEscape(r: int, letter: Byte, rest: Bytes)
    requires 0 <= r < 0x80 && Unescape(letter) == Some(r) && letter != 0x75
    ensures StringBody([BACKSLASH, letter] + rest) == Prefixed(Utf8.EncodeRune(r), StringBody(rest))
  {
    var s := [BACKSLASH, letter] + rest;
    assert s[0] == BACKSLASH && s[1] == letter && s[2..] == rest;
  }

  lemma ReadControl(r: int, rest: Bytes)
    requires 0 <= r < 0x20
    ensures StringBody([BACKSLASH, 0x75, 0x30, 0x30, HexDigit(r / 16), HexDigit(r % 16)] + rest)
      == Prefixed(Utf8.EncodeRune(r), StringBody(rest))
  {
    var e: Bytes := [BACKSLASH, 0x75, 0x30, 0x30, HexDigit(r / 16), HexDigit(r % 16)];
    var s := e + rest;
    assert s[0] == BACKSLASH && s[1] == 0x75 && s[2] == 0x30 && s[3] == 0x30;
    assert s[4] == HexDigit(r / 16) && s[5] == HexDigit(r % 16) && s[6..] == rest;
    HexRoundTrip(r);
  }

  lemma ReadRune(r: int, rest: Bytes)
    requires Utf8.IsScalar(r)
    ensures StringBody(WriteRune(r) + rest) == Prefixed(Utf8.EncodeRune(r), StringBody(rest))
  {
    if r == QUOTE { ReadEscape(r, QUOTE, rest); }
    else if r == BACKSLASH { ReadEscape(r, BACKSLASH, rest); }
    else if r == 0x0A { ReadEscape(r, 0x6E, rest); }
    else if r == 0x0D { ReadEscape(r, 0x72, rest); }
    else if r == 0x09 { ReadEscape(r, 0x74, rest); }
    else if r < 0x20 { ReadControl(r, rest); }
    else {
      MultibytePlain(r);
      ReadPlain(Utf8.EncodeRune(r), rest);
    }
  }

  lemma {:induction false} ReadRunes(s: Bytes, rest: Bytes)
    ensures StringBody(WriteRunes(s) + ([QUOTE] + rest)) == Done(Utf8.Sanitize(s), rest)
  {
    var tail := [QUOTE] + rest;
    if s == [] {
      assert WriteRunes(s) + tail == tail && tail[1..] == rest;
    } else {
      var (r, n) := Utf8.DecodeRune(s);
      ReadRunes(s[n..], rest);
      ReadRune(r, WriteRunes(s[n..]) + tail);
      Assoc(WriteRune(r), WriteRunes(s[n..]), tail);
    }
  }

  /** A written string reads back as its runes, re-encoded. */
  lemma StringRoundTrip(s: Bytes, rest: Bytes)
    ensures ParseString(WriteString(s) + rest) == Done(Utf8.Sanitize(s), rest)
  {
    var t := WriteString(s) + rest;
    assert t[0] == QUOTE && t[1..] == WriteRunes(s) + ([QUOTE] + rest);
    ReadRunes(s, rest);
  }

  lemma WordRoundTrip(w: Bytes, rest: Bytes)
    requires forall i :: 0 <= i < |w| ==> w[i] != QUOTE && w[i] != BACKSLASH
    ensures ParseString([QUOTE] + w + [QUOTE] + rest) == Done(w, rest)
  {
    var t := [QUOTE] + w + [QUOTE] + rest;
    assert t[0] == QUOTE && t[1..] == w + ([QUOTE] + rest);
    ReadPlain(w, [QUOTE] + rest);
    assert ([QUOTE] + rest)[1..] == rest;
    assert w + [] == w;
  }

  // ---- fields -------------------------------------------------------------

  predicate IsPlain(w: Bytes) { w != [] && forall i :: 0 <= i < |w| ==> 0x30 <= w[i] <= 0x7A && w[i] != BACKSLASH }

  lemma AfterColon(v: Bytes)
    requires v != [] && !IsWs(v[0])
    ensures Peek(Ws([COLON, SPACE] + v)) == COLON && Ws(Ws([COLON, SPACE] + v)[1..]) == v
  {
    var t := [COLON, SPACE] + v;
    NoWs(t);
    assert t[1..] == Spaces(1) + v;
    SkipWs(Spaces(1), v);
    NoWs(v);
  }

  lemma ReadKey(w: Bytes, key: Bytes, v: Bytes)
    requires IsPlain(key) && v != [] && !IsWs(v[0])
    requires forall i :: 0 <= i < |w| ==> IsWs(w[i])
    ensures ParseKey(w + (Key(key) + v)) == Done(key, v)
  {
    var quoted := [QUOTE] + key + [QUOTE] + ([COLON, SPACE] + v);
    assert Key(key) + v == quoted;
    SkipWs(w, quoted);
    NoWs(quoted);
    WordRoundTrip(key, [COLON, SPACE] + v);
    AfterColon(v);
  }

  lemma ReadName(name: Bytes, depth: nat, v: Bytes)
    requires v != [] && !IsWs(v[0])
    ensures ParseKey(EntryHead(name, depth) + v) == Done(Utf8.Sanitize(name), v)
  {
    var w := Spaces(2 * depth + 4);
    Assoc(w, WriteString(name) + [COLON, SPACE], v);
    Assoc(WriteString(name), [COLON, SPACE], v);
    var quoted := WriteString(name) + ([COLON, SPACE] + v);
    SkipWs(w, quoted);
    NoWs(quoted);
    StringRoundTrip(name, [COLON, SPACE] + v);
    AfterColon(v);
  }

  /** A `"key": "word",` line, behind white space, records the field. */
  lemma ReadField(w: Bytes, key: Bytes, word: Bytes, rest: Bytes, fields: Fields)
    requires IsPlain(key) && key != ENTRIES && IsPlain(word)
    requires forall i :: 0 <= i < |w| ==> IsWs(w[i])
    ensures ObjectFrom(w + (Field(key, word) + rest), fields)
      == ObjectFrom([NEWLINE] + rest, fields.(strings := fields.strings[key := word]))
  {
    var tail := [COMMA] + ([NEWLINE] + rest);
    var v := [QUOTE] + word + [QUOTE] + tail;
    FieldText(key, word, rest);
    ReadKey(w, key, v);
    ReadWord(key, word, [NEWLINE] + rest, fields);
    NextField(w + (Key(key) + v), key, v, tail, fields, fields.(strings := fields.strings[key := word]));
    NoWs(tail);
    assert tail[1..] == [NEWLINE] + rest;
  }

  lemma FieldText(key: Bytes, word: Bytes, rest: Bytes)
    ensures Field(key, word) + rest == Key(key) + ([QUOTE] + word + [QUOTE] + ([COMMA] + ([NEWLINE] + rest)))
  {
    Assoc(Key(key), [QUOTE] + word + [QUOTE, COMMA, NEWLINE], rest);
    var quoted: Bytes := [QUOTE] + word;
    assert quoted + [QUOTE, COMMA, NEWLINE] + rest == quoted + [QUOTE] + ([COMMA] + ([NEWLINE] + rest));
  }

  lemma ReadWord(key: Bytes, word: Bytes, rest: Bytes, fields: Fields)
    requires key != ENTRIES && IsPlain(word)
    ensures FieldValue(key, [QUOTE] + word + [QUOTE] + ([COMMA] + rest), fields)
      == Done(fields.(strings := fields.strings[key := word]), [COMMA] + rest)
  {
    WordRoundTrip(word, [COMMA] + rest);
  }

  /** One turn of the object's loop. */
  lemma NextField(s: Bytes, key: Bytes, v: Bytes, rest: Bytes, fields: Fields, next: Fields)
    requires ParseKey(s) == Done(key, v) && FieldValue(key, v, fields) == Done(next, rest)
    ensures ObjectFrom(s, fields) ==
      var after := Ws(rest);
      if Peek(after) == COMMA then ObjectFrom(after[1..], next)
      else if Peek(after) == CLOSE then Done(next, after[1..]) else Fail
  {
  }

  /** One turn of the entries' loop. */
  lemma NextChild(s: Bytes, name: Bytes, v: Bytes, child: Node, rest: Bytes, out: map<Bytes, Node>)
    requires ParseKey(s) == Done(name, v) && ParseNode(v) == Done(child, rest)
    ensures EntriesFrom(s, out) ==
      var after := Ws(rest);
      if Peek(after) == COMMA then EntriesFrom(after[1..], out[name := child])
      else if Peek(after) == CLOSE then Done(out[name := child], after[1..]) else Fail
  {
  }

  /** A line of a node, as it stands behind the line break that the field in front of it leaves. */
  lemma NextLine(depth: nat, line: Bytes, rest: Bytes)
    ensures [NEWLINE] + (Line(depth, line) + rest) == ([NEWLINE] + Spaces(2 * depth + 2)) + (line + rest)
  {
    Assoc(Spaces(2 * depth + 2), line, rest);
    Assoc([NEWLINE], Spaces(2 * depth + 2), line + rest);
  }

  lemma AtFoot(depth: nat, rest: Bytes)
    ensures var after := Ws(Foot(depth) + rest); Peek(after) == CLOSE && after[1..] == rest
  {
    var w := [NEWLINE] + Spaces(2 * depth);
    Assoc(w, [CLOSE], rest);
    SkipWs(w, [CLOSE] + rest);
    NoWs([CLOSE] + rest);
  }

  /** A file's content line and the closing brace below it. */
  lemma ReadContent(content: Bytes, depth: nat, rest: Bytes, fields: Fields)
    ensures ObjectFrom([NEWLINE] + (ContentLine(content, depth) + rest), fields)
      == Done(fields.(strings := fields.strings[CONTENT := Utf8.Sanitize(content)]), rest)
  {
    var v := WriteString(content) + (Foot(depth) + rest);
    Assoc(Line(depth, Key(CONTENT)), WriteString(content) + Foot(depth), rest);
    Assoc(WriteString(content), Foot(depth), rest);
    NextLine(depth, Key(CONTENT), v);
    ReadKey([NEWLINE] + Spaces(2 * depth + 2), CONTENT, v);
    StringRoundTrip(content, Foot(depth) + rest);
    NextField([NEWLINE] + (ContentLine(content, depth) + rest), CONTENT, v, Foot(depth) + rest, fields,
              fields.(strings := fields.strings[CONTENT := Utf8.Sanitize(content)]));
    AtFoot(depth, rest);
  }

  function Kind(kind: Bytes): Fields { Fields(map[TYPE := kind], None) }

  lemma ReadHead(kind: Bytes, depth: nat, rest: Bytes)
    requires IsPlain(kind)
    ensures ParseObject(Head(kind, depth) + rest) == ObjectFrom([NEWLINE] + rest, Kind(kind))
  {
    var w := [NEWLINE] + Spaces(2 * depth + 2);
    var body := Field(TYPE, kind) + rest;
    var s := Head(kind, depth) + rest;
    assert s[0] == OPEN;
    assert s == [OPEN] + (w + body);
    assert s[1..] == w + body;
    SkipWs(w, body);
    assert body[0] == QUOTE;
    NoWs(body);
    assert [] + body == body;
    ReadField([], TYPE, kind, rest, NO_FIELDS);
    assert NO_FIELDS.(strings := NO_FIELDS.strings[TYPE := kind]) == Kind(kind);
  }

  // ---- files --------------------------------------------------------------

  lemma TextFile(content: Bytes, depth: nat, rest: Bytes)
    requires IsText(content)
    ensures ParseNode(WriteNode(File(content), depth) + rest) == Done(File(content), rest)
  {
    TextFields(content, depth, rest);
  }

  lemma TextFields(content: Bytes, depth: nat, rest: Bytes)
    requires IsText(content)
    ensures ParseObject(WriteNode(File(content), depth) + rest)
      == Done(Fields(map[TYPE := TEXT, CONTENT := content], None), rest)
  {
    Assoc(Head(TEXT, depth), ContentLine(content, depth), rest);
    ReadHead(TEXT, depth, ContentLine(content, depth) + rest);
    ReadContent(content, depth, rest, Kind(TEXT));
    Utf8.SanitizeExact(content);
  }

  lemma {:induction false} AsciiKept(s: Bytes)
    requires forall i :: 0 <= i < |s| ==> s[i] < 0x80
    ensures Utf8.Sanitize(s) == s
  {
    if s != [] {
      AsciiKept(s[1..]);
      assert s == [s[0]] + s[1..];
    }
  }

  lemma BinaryText(content: Bytes, depth: nat, rest: Bytes)
    requires !IsText(content)
    ensures WriteNode(File(content), depth) + rest == Head(BINARY, depth)
      + (Line(depth, Field(ENCODING, BASE64)) + (ContentLine(Base64.Encode(content), depth) + rest))
  {
    var coding, last := Line(depth, Field(ENCODING, BASE64)), ContentLine(Base64.Encode(content), depth);
    Assoc(Head(BINARY, depth), coding + last, rest);
    Assoc(coding, last, rest);
  }

  lemma BinaryFile(content: Bytes, depth: nat, rest: Bytes)
    requires !IsText(content)
    ensures ParseNode(WriteNode(File(content), depth) + rest) == Done(File(content), rest)
  {
    BinaryFields(content, depth, rest);
    Base64.RoundTrip(content);
    BinaryNode(Base64.Encode(content), content);
  }

  lemma BinaryNode(coded: Bytes, content: Bytes)
    requires Base64.Decode(coded) == Some(content)
    ensures NodeOf(Fields(map[TYPE := BINARY, ENCODING := BASE64, CONTENT := coded], None)) == Some(File(content))
  {
  }

  lemma BinaryFields(content: Bytes, depth: nat, rest: Bytes)
    requires !IsText(content)
    ensures ParseObject(WriteNode(File(content), depth) + rest)
      == Done(Fields(map[TYPE := BINARY, ENCODING := BASE64, CONTENT := Base64.Encode(content)], None), rest)
  {
    var coded := Base64.Encode(content);
    var last := ContentLine(coded, depth) + rest;
    BinaryText(content, depth, rest);
    ReadHead(BINARY, depth, Line(depth, Field(ENCODING, BASE64)) + last);
    ReadCoding(depth, last);
    ReadContent(coded, depth, rest, Fields(map[TYPE := BINARY, ENCODING := BASE64], None));
    Base64.EncodeIsText(content);
    AsciiKept(coded);
  }

  lemma ReadCoding(depth: nat, last: Bytes)
    ensures ObjectFrom([NEWLINE] + (Line(depth, Field(ENCODING, BASE64)) + last), Kind(BINARY))
      == ObjectFrom([NEWLINE] + last, Fields(map[TYPE := BINARY, ENCODING := BASE64], None))
  {
    NextLine(depth, Field(ENCODING, BASE64), last);
    ReadField([NEWLINE] + Spaces(2 * depth + 2), ENCODING, BASE64, last, Kind(BINARY));
    assert Kind(BINARY).(strings := Kind(BINARY).strings[ENCODING := BASE64])
      == Fields(map[TYPE := BINARY, ENCODING := BASE64], None);
  }

  /**
    A file goes out as the text it is exactly when it is valid UTF-8 with no control character but tab, line feed and
    carriage return, and in base64 otherwise.
  */
  lemma FileKind(content: Bytes, depth: nat, rest: Bytes)
    ensures var r := ParseObject(WriteNode(File(content), depth) + rest);
      && r.Done? && r.rest == rest
      && r.value.strings ==
        if Utf8.Valid(content) && forall c :: c in content && c < 0x20 ==> c == 0x09 || c == 0x0A || c == 0x0D
        then map[TYPE := TEXT, CONTENT := content]
        else map[TYPE := BINARY, ENCODING := BASE64, CONTENT := Base64.Encode(content)]
  {
    if IsText(content) {
      TextFields(content, depth, rest);
    } else {
      BinaryFields(content, depth, rest);
      if Utf8.Valid(content) {
        var i :| 0 <= i < |content| && !(content[i] >= 0x20 || content[i] in [0x09, 0x0A, 0x0D]);
        assert content[i] in content;
      }
    }
  }

  // ---- directories --------------------------------------------------------

  /** What decoding makes of a tree: names rewritten, and on a clash the later name in order wins. */
  ghost function Lossy(n: Node): Node
    decreases n, 1, 0
  {
    match n
    case File(_) => n
    case Dir(entries) => Dir(LossyFrom(n, Sorting.SortedNames(entries.Keys), map[]))
  }

  ghost function LossyFrom(n: Node, names: seq<Bytes>, out: map<Bytes, Node>): map<Bytes, Node>
    requires n.Dir? && forall k :: k in names ==> k in n.entries
    decreases n, 0, |names|
  {
    if names == [] then out
    else LossyFrom(n, names[1..], out[Utf8.Sanitize(names[0]) := Lossy(n.entries[names[0]])])
  }

  lemma NodeStarts(n: Node, depth: nat, rest: Bytes)
    ensures var s := WriteNode(n, depth) + rest; s != [] && s[0] == OPEN
  {
  }

  lemma {:induction false} ReadNode(n: Node, depth: nat, rest: Bytes)
    ensures ParseNode(WriteNode(n, depth) + rest) == Done(Lossy(n), rest)
    decreases n, 1, 0
  {
    match n
    case File(content) =>
      if IsText(content) { TextFile(content, depth, rest); } else { BinaryFile(content, depth, rest); }
    case Dir(entries) =>
      var names := Sorting.SortedNames(entries.Keys);
      if names != [] {
        ReadEntries(n, names, depth, map[], Foot(depth) + rest);
        ReadFullDir(n, names, depth, rest);
      } else {
        ReadEmptyDir(n, depth, rest);
      }
  }

  /** How a directory's object goes on behind its entries. */
  function AfterEntries(r: Parse<map<Bytes, Node>>): Parse<Fields> {
    match r
    case Fail => Fail
    case Done(es, rest) =>
      var after := Ws(rest);
      var next := Kind(DIRECTORY).(entries := Some(es));
      if Peek(after) == COMMA then ObjectFrom(after[1..], next)
      else if Peek(after) == CLOSE then Done(next, after[1..]) else Fail
  }

  lemma ReadEntriesKey(depth: nat, key: Bytes, v: Bytes)
    requires IsPlain(key) && v != [] && !IsWs(v[0])
    ensures ParseKey([NEWLINE] + (Line(depth, Key(key)) + v)) == Done(key, v)
  {
    NextLine(depth, Key(key), v);
    ReadKey([NEWLINE] + Spaces(2 * depth + 2), key, v);
  }

  /** Up to its entries, every directory looks the same. */
  lemma ReadDirHead(depth: nat, v: Bytes)
    requires v != [] && !IsWs(v[0])
    ensures ParseObject(Head(DIRECTORY, depth) + (Line(depth, Key(ENTRIES)) + v)) == AfterEntries(ParseEntries(v))
  {
    ReadHead(DIRECTORY, depth, Line(depth, Key(ENTRIES)) + v);
    ReadEntriesLine(depth, v);
  }

  lemma ReadEntriesLine(depth: nat, v: Bytes)
    requires v != [] && !IsWs(v[0])
    ensures ObjectFrom([NEWLINE] + (Line(depth, Key(ENTRIES)) + v), Kind(DIRECTORY)) == AfterEntries(ParseEntries(v))
  {
    ReadEntriesKey(depth, ENTRIES, v);
    EntriesField([NEWLINE] + (Line(depth, Key(ENTRIES)) + v), v);
  }

  lemma EntriesField(s: Bytes, v: Bytes)
    requires ParseKey(s) == Done(ENTRIES, v)
    ensures ObjectFrom(s, Kind(DIRECTORY)) == AfterEntries(ParseEntries(v))
  {
    assert ParseField(s, Kind(DIRECTORY)) == FieldValue(ENTRIES, v, Kind(DIRECTORY));
  }

  lemma CloseDir(depth: nat, es: map<Bytes, Node>, rest: Bytes)
    ensures AfterEntries(Done(es, Foot(depth) + rest)) == Done(Kind(DIRECTORY).(entries := Some(es)), rest)
  {
    AtFoot(depth, rest);
  }

  lemma ReadEmptyDir(n: Node, depth: nat, rest: Bytes)
    requires n.Dir? && Sorting.SortedNames(n.entries.Keys) == []
    ensures ParseNode(WriteNode(n, depth) + rest) == Done(Lossy(n), rest)
  {
    var v := [OPEN, CLOSE] + (Foot(depth) + rest);
    var line := Line(depth, Key(ENTRIES));
    Assoc(Head(DIRECTORY, depth), line + ([OPEN, CLOSE] + Foot(depth)), rest);
    Assoc(line, [OPEN, CLOSE] + Foot(depth), rest);
    Assoc([OPEN, CLOSE], Foot(depth), rest);
    ReadDirHead(depth, v);
    var closing := [CLOSE] + (Foot(depth) + rest);
    assert v[1..] == closing && closing[1..] == Foot(depth) + rest;
    NoWs(closing);
    CloseDir(depth, map[], rest);
  }

  lemma ReadFullDir(n: Node, names: seq<Bytes>, depth: nat, rest: Bytes)
    requires n.Dir? && names == Sorting.SortedNames(n.entries.Keys) && names != []
    requires EntriesFrom(WriteEntries(n, names, depth) + (Line(depth, [CLOSE]) + (Foot(depth) + rest)), map[])
      == Done(LossyFrom(n, names, map[]), Foot(depth) + rest)
    ensures ParseNode(WriteNode(n, depth) + rest) == Done(Lossy(n), rest)
  {
    var tail := Foot(depth) + rest;
    var list := WriteEntries(n, names, depth) + (Line(depth, [CLOSE]) + tail);
    var v := [OPEN, NEWLINE] + list;
    var line := Line(depth, Key(ENTRIES));
    var block := WriteEntries(n, names, depth) + (Line(depth, [CLOSE]) + Foot(depth));
    Assoc(Head(DIRECTORY, depth), line + ([OPEN, NEWLINE] + block), rest);
    Assoc(line, [OPEN, NEWLINE] + block, rest);
    Assoc([OPEN, NEWLINE], block, rest);
    Assoc(WriteEntries(n, names, depth), Line(depth, [CLOSE]) + Foot(depth), rest);
    Assoc(Line(depth, [CLOSE]), Foot(depth), rest);
    ReadDirHead(depth, v);
    EntriesStart(n, names, depth, Line(depth, [CLOSE]) + tail);
    OpenEntries(list);
    CloseDir(depth, LossyFrom(n, names, map[]), rest);
  }

  lemma OpenEntries(list: Bytes)
    requires Peek(Ws(list)) == QUOTE
    ensures ParseEntries([OPEN, NEWLINE] + list) == EntriesFrom(list, map[])
  {
    BehindBrace(list);
    Opened([OPEN, NEWLINE] + list, Ws(list));
    NoWs(Ws(list));
    SameFirstKey(Ws(list), list, map[]);
  }

  lemma BehindBrace(list: Bytes)
    ensures Ws(([OPEN, NEWLINE] + list)[1..]) == Ws(list)
  {
    assert ([OPEN, NEWLINE] + list)[1..] == [NEWLINE] + list;
    SkipWs([NEWLINE], list);
  }

  lemma Opened(v: Bytes, inside: Bytes)
    requires Peek(v) == OPEN && Ws(v[1..]) == inside && Peek(inside) == QUOTE
    ensures ParseEntries(v) == EntriesFrom(inside, map[])
  {
  }

  lemma SameFirstKey(s: Bytes, t: Bytes, out: map<Bytes, Node>)
    requires Ws(s) == Ws(t)
    ensures EntriesFrom(s, out) == EntriesFrom(t, out)
  {
    assert ParseKey(s) == ParseKey(t);
    assert ParseEntry(s) == ParseEntry(t);
  }

  /** Entries begin, behind their indentation, with the quote of a name. */
  lemma EntriesStart(n: Node, names: seq<Bytes>, depth: nat, rest: Bytes)
    requires n.Dir? && names != [] && forall k :: k in names ==> k in n.entries
    ensures Peek(Ws(WriteEntries(n, names, depth) + rest)) == QUOTE
  {
    var behind := WriteNode(n.entries[names[0]], depth + 2)
      + (EntryEnd(|names| == 1) + WriteEntries(n, names[1..], depth));
    Assoc(EntryHead(names[0], depth), behind, rest);
    var named := WriteString(names[0]) + [COLON, SPACE];
    Assoc(Spaces(2 * depth + 4), named, behind + rest);
    SkipWs(Spaces(2 * depth + 4), named + (behind + rest));
    NoWs(named + (behind + rest));
  }

  lemma {:induction false} ReadEntries(n: Node, names: seq<Bytes>, depth: nat, out: map<Bytes, Node>, tail: Bytes)
    requires n.Dir? && names != [] && forall k :: k in names ==> k in n.entries
    ensures EntriesFrom(WriteEntries(n, names, depth) + (Line(depth, [CLOSE]) + tail), out)
      == Done(LossyFrom(n, names, out), tail)
    decreases n, 0, |names|
  {
    var child, more := n.entries[names[0]], names[1..];
    var end := EntryEnd(|names| == 1);
    var list := WriteEntries(n, more, depth) + (Line(depth, [CLOSE]) + tail);
    var behind := end + list;
    ReadNode(child, depth + 2, behind);
    OneEntry(n, names, depth, Line(depth, [CLOSE]) + tail);
    NodeStarts(child, depth + 2, behind);
    ReadName(names[0], depth, WriteNode(child, depth + 2) + behind);
    var next := out[Utf8.Sanitize(names[0]) := Lossy(child)];
    NextChild(WriteEntries(n, names, depth) + (Line(depth, [CLOSE]) + tail), Utf8.Sanitize(names[0]),
              WriteNode(child, depth + 2) + behind, Lossy(child), behind, out);
    if more == [] {
      LastEntry(depth, tail);
      assert list == Line(depth, [CLOSE]) + tail;
    } else {
      ReadEntries(n, more, depth, next, tail);
      NextEntry(list, next);
    }
  }

  lemma OneEntry(n: Node, names: seq<Bytes>, depth: nat, tail: Bytes)
    requires n.Dir? && names != [] && forall k :: k in names ==> k in n.entries
    ensures WriteEntries(n, names, depth) + tail
      == EntryHead(names[0], depth) + (WriteNode(n.entries[names[0]], depth + 2)
           + (EntryEnd(|names| == 1) + (WriteEntries(n, names[1..], depth) + tail)))
  {
    var node, end, more :=
      WriteNode(n.entries[names[0]], depth + 2), EntryEnd(|names| == 1), WriteEntries(n, names[1..], depth);
    Assoc(EntryHead(names[0], depth), node + (end + more), tail);
    Assoc(node, end + more, tail);
    Assoc(end, more, tail);
  }

  lemma LastEntry(depth: nat, tail: Bytes)
    ensures var after := Ws([NEWLINE] + (Line(depth, [CLOSE]) + tail)); Peek(after) == CLOSE && after[1..] == tail
  {
    NextLine(depth, [CLOSE], tail);
    SkipWs([NEWLINE] + Spaces(2 * depth + 2), [CLOSE] + tail);
    NoWs([CLOSE] + tail);
  }

  lemma NextEntry(list: Bytes, out: map<Bytes, Node>)
    ensures var after := Ws([COMMA, NEWLINE] + list);
      Peek(after) == COMMA && EntriesFrom(after[1..], out) == EntriesFrom(list, out)
  {
    var t := [COMMA, NEWLINE] + list;
    NoWs(t);
    assert t[1..] == [NEWLINE] + list;
    SkipWs([NEWLINE], list);
    SameFirstKey([NEWLINE] + list, list, out);
  }

  // ---- what is lost -------------------------------------------------------

  ghost predicate NamesValid(n: Node) {
    n.Dir? ==> forall k :: k in n.entries ==> Utf8.Valid(k) && NamesValid(n.entries[k])
  }

  lemma {:induction false} LossyNamesValid(n: Node)
    ensures NamesValid(Lossy(n))
    decreases n, 1, 0
  {
    if n.Dir? {
      var names := Sorting.SortedNames(n.entries.Keys);
      forall k | k in names ensures NamesValid(Lossy(n.entries[k])) {
        LossyNamesValid(n.entries[k]);
      }
      LossyFromValid(n, names, map[]);
    }
  }

  lemma {:induction false} LossyFromValid(n: Node, names: seq<Bytes>, out: map<Bytes, Node>)
    requires n.Dir? && forall k :: k in names ==> k in n.entries && NamesValid(Lossy(n.entries[k]))
    requires NamesValid(Dir(out))
    ensures NamesValid(Dir(LossyFrom(n, names, out)))
    decreases |names|
  {
    if names != [] {
      Utf8.SanitizeIsValid(names[0]);
      assert names[0] in names;
      LossyFromValid(n, names[1..], out[Utf8.Sanitize(names[0]) := Lossy(n.entries[names[0]])]);
    }
  }

  lemma {:induction false} ValidNamesKept(n: Node)
    requires NamesValid(n)
    ensures Lossy(n) == n
    decreases n
  {
    if n.Dir? {
      var names := Sorting.SortedNames(n.entries.Keys);
      forall k | k in n.entries ensures Lossy(n.entries[k]) == n.entries[k] && Utf8.Sanitize(k) == k {
        ValidNamesKept(n.entries[k]);
        Utf8.SanitizeExact(k);
      }
      LossyFromKeeps(n, names, map[]);
      SameEntries(LossyFrom(n, names, map[]), n.entries);
    }
  }

  lemma SameEntries(a: map<Bytes, Node>, b: map<Bytes, Node>)
    requires a.Keys == b.Keys && forall k :: k in a ==> a[k] == b[k]
    ensures a == b
  {
  }

  lemma {:induction false} LossyFromKeeps(n: Node, names: seq<Bytes>, out: map<Bytes, Node>)
    requires n.Dir? && forall k :: k in names ==>
      k in n.entries && Lossy(n.entries[k]) == n.entries[k] && Utf8.Sanitize(k) == k
    ensures var r := LossyFrom(n, names, out);
      && r.Keys == out.Keys + (set k | k in names)
      && (forall k :: k in r ==> r[k] == if k in names then n.entries[k] else out[k])
    decreases |names|
  {
    if names != [] {
      assert names == [names[0]] + names[1..];
      LossyFromKeeps(n, names[1..], out[names[0] := n.entries[names[0]]]);
    }
  }

  /** Encoding then decoding succeeds on every tree, and loses nothing exactly when every name is valid UTF-8. */
  lemma BundleRoundTrips(n: Node)
    ensures Decode(Encode(n)) == Some(Lossy(n))
    ensures Lossy(n) == n <==> NamesValid(n)
  {
    ReadNode(n, 0, [NEWLINE]);
    NodeStarts(n, 0, [NEWLINE]);
    NoWs(Encode(n));
    assert Ws([NEWLINE]) == [] by { SkipWs([NEWLINE], []); assert [NEWLINE] + [] == [NEWLINE]; }
    LossyNamesValid(n);
    if NamesValid(n) { ValidNamesKept(n); }
  }

  /** Different trees with valid names have different bundles. */
  lemma BundlesAreFaithful(a: Node, b: Node)
    requires NamesValid(a) && NamesValid(b) && Encode(a) == Encode(b)
    ensures a == b
  {
    BundleRoundTrips(a);
    BundleRoundTrips(b);
  }
}
