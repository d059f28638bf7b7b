/**
  BFT bundles: a directory tree as one JSON document. The printer and the grammar the parser reads, as functions on
  what is left of the input. Names and contents are byte strings, as Go's are.
*/
module Bundle {
  import opened Basics
  import Base64
  import Sorting
  import Utf8

  datatype Node = Dir(entries: map<Bytes, Node>) | File(content: Bytes)

  // ---- characters ---------------------------------------------------------

  const QUOTE: Byte := 0x22
  const BACKSLASH: Byte := 0x5C
  const OPEN: Byte := 0x7B
  const CLOSE: Byte := 0x7D
  const COLON: Byte := 0x3A
  const COMMA: Byte := 0x2C
  const SPACE: Byte := 0x20
  const NEWLINE: Byte := 0x0A

  const TYPE: Bytes := [0x74, 0x79, 0x70, 0x65]                                        // type
  const ENTRIES: Bytes := [0x65, 0x6E, 0x74, 0x72, 0x69, 0x65, 0x73]                   // entries
  const CONTENT: Bytes := [0x63, 0x6F, 0x6E, 0x74, 0x65, 0x6E, 0x74]                   // content
  const ENCODING: Bytes := [0x65, 0x6E, 0x63, 0x6F, 0x64, 0x69, 0x6E, 0x67]            // encoding
  const DIRECTORY: Bytes := [0x64, 0x69, 0x72, 0x65, 0x63, 0x74, 0x6F, 0x72, 0x79]     // directory
  const TEXT: Bytes := [0x74, 0x65, 0x78, 0x74]                                        // text
  const BINARY: Bytes := [0x62, 0x69, 0x6E, 0x61, 0x72, 0x79]                          // binary
  const BASE64: Bytes := [0x62, 0x61, 0x73, 0x65, 0x36, 0x34]                          // base64

  // ---- printing -----------------------------------------------------------

  function HexDigit(n: nat): Byte
    requires n < 16
  {
    if n < 10 then 0x30 + n else 0x61 + (n - 10)
  }

  function WriteRune(r: int): Bytes
    requires Utf8.IsScalar(r)
  {
    if r == QUOTE then [BACKSLASH, QUOTE]
    else if r == BACKSLASH then [BACKSLASH, BACKSLASH]
    else if r == 0x0A then [BACKSLASH, 0x6E]
    else if r == 0x0D then [BACKSLASH, 0x72]
    else if r == 0x09 then [BACKSLASH, 0x74]
    else if r < 0x20 then [BACKSLASH, 0x75, 0x30, 0x30, HexDigit(r / 16), HexDigit(r % 16)]
    else Utf8.EncodeRune(r)
  }

  function WriteRunes(s: Bytes): Bytes {
    if s == [] then [] else WriteRune(Utf8.DecodeRune(s).0) + WriteRunes(s[Utf8.DecodeRune(s).1..])
  }

  /** `writeJSONString`: it ranges over runes, so a byte that is no UTF-8 goes out as U+FFFD. */
  function WriteString(s: Bytes): Bytes { [QUOTE] + WriteRunes(s) + [QUOTE] }

  /** Valid UTF-8 without control characters other than tab, newline and carriage return. */
  predicate IsText(content: Bytes) {
    && Utf8.Valid(content)
    && forall i :: 0 <= i < |content| ==> content[i] >= 0x20 || content[i] in [0x09, 0x0A, 0x0D]
  }

  function Spaces(n: nat): (s: Bytes)
    ensures |s| == n && forall i :: 0 <= i < n ==> s[i] == SPACE
  {
    seq(n, _ => SPACE)
  }

  /** `"key": ` */
  function Key(key: Bytes): Bytes { [QUOTE] + key + [QUOTE, COLON, SPACE] }

  /** `"key": "word",` and a line break, for words that need no escapes. */
  function Field(key: Bytes, word: Bytes): Bytes { Key(key) + ([QUOTE] + word + [QUOTE, COMMA, NEWLINE]) }

  /** A node's first two lines, its content line, and the two lines that close it. */
  function Head(kind: Bytes, depth: nat): Bytes { [OPEN, NEWLINE] + Spaces(2 * depth + 2) + Field(TYPE, kind) }

  function Line(depth: nat, line: Bytes): Bytes { Spaces(2 * depth + 2) + line }

  function Foot(depth: nat): Bytes { [NEWLINE] + Spaces(2 * depth) + [CLOSE] }

  function ContentLine(content: Bytes, depth: nat): Bytes {
    Line(depth, Key(CONTENT)) + (WriteString(content) + Foot(depth))
  }

  /** An entry's line up to its node. */
  function EntryHead(name: Bytes, depth: nat): Bytes { Spaces(2 * depth + 4) + (WriteString(name) + [COLON, SPACE]) }

  function EntryEnd(last: bool): Bytes { if last then [NEWLINE] else [COMMA, NEWLINE] }

  ghost function WriteNode(n: Node, depth: nat): Bytes
    decreases n, 1, 0
  {
    match n
    case Dir(entries) =>
      var names := Sorting.SortedNames(entries.Keys);
      Head(DIRECTORY, depth) + (Line(depth, Key(ENTRIES)) + (
        if names == [] then [OPEN, CLOSE] + Foot(depth)
        else [OPEN, NEWLINE] + (WriteEntries(n, names, depth) + (Line(depth, [CLOSE]) + Foot(depth)))))
    case File(content) =>
      if IsText(content) then Head(TEXT, depth) + ContentLine(content, depth)
      else Head(BINARY, depth) + (Line(depth, Field(ENCODING, BASE64)) + ContentLine(Base64.Encode(content), depth))
  }

  ghost function WriteEntries(n: Node, names: seq<Bytes>, depth: nat): Bytes
    requires n.Dir? && forall k :: k in names ==> k in n.entries
    decreases n, 0, |names|
  {
    if names == [] then []
    else
      EntryHead(names[0], depth) + (WriteNode(n.entries[names[0]], depth + 2)
        + (EntryEnd(|names| == 1) + WriteEntries(n, names[1..], depth)))
  }

  /** `encodeBFT` */
  ghost function Encode(root: Node): Bytes { WriteNode(root, 0) + [NEWLINE] }

  // ---- parsing ------------------------------------------------------------

  /** A parse that failed, or what was read and the input behind it. */
  datatype Parse<+T> = Fail | Done(value: T, rest: Bytes)

  predicate IsWs(c: Byte) { c == SPACE || c == 0x09 || c == NEWLINE || c == 0x0D }

  function Ws(s: Bytes): (r: Bytes)
    ensures |r| <= |s|
    ensures r != [] ==> !IsWs(r[0])
  {
    if s != [] && IsWs(s[0]) then Ws(s[1..]) else s
  }

  /** The byte at the cursor; 0 at the end, which no token starts with. */
  function Peek(s: Bytes): Byte { if s == [] then 0 else s[0] }

  function HexValue(c: Byte): (v: Option<nat>)
    ensures v.Some? ==> v.value < 16
  {
    if 0x30 <= c <= 0x39 then Some(c - 0x30)
    else if 0x61 <= c <= 0x66 then Some(c - 0x61 + 10)
    else if 0x41 <= c <= 0x46 then Some(c - 0x41 + 10) else None
  }

  /** Four hex digits, as `ParseUint(_, 16, 32)` reads them. */
  function Hex4(a: Byte, b: Byte, c: Byte, d: Byte): Option<nat> {
    match (HexValue(a), HexValue(b), HexValue(c), HexValue(d))
    case (Some(w), Some(x), Some(y), Some(z)) => Some(((w * 16 + x) * 16 + y) * 16 + z)
    case _ => None
  }

  /** The single-letter escapes. */
  function Unescape(c: Byte): Option<Byte> {
    if c == QUOTE || c == BACKSLASH || c == 0x2F then Some(c)
    else if c == 0x6E then Some(0x0A) else if c == 0x72 then Some(0x0D) else if c == 0x74 then Some(0x09)
    else if c == 0x62 then Some(0x08) else if c == 0x66 then Some(0x0C) else None
  }

  function Prefixed(b: Bytes, r: Parse<Bytes>): (p: Parse<Bytes>)
    ensures p.Done? <==> r.Done?
    ensures p.Done? ==> p.rest == r.rest
  {
    match r case Fail => Fail case Done(v, rest) => Done(b + v, rest)
  }

  lemma PrefixedTwice(a: Bytes, b: Bytes, r: Parse<Bytes>)
    ensures Prefixed(a, Prefixed(b, r)) == Prefixed(a + b, r)
    ensures Prefixed([], r) == r
  {
    if r.Done? { assert a + (b + r.value) == a + b + r.value && [] + r.value == r.value; }
  }

  /** A string's inside, up to and with the closing quote. */
  function StringBody(s: Bytes): (r: Parse<Bytes>)
    ensures r.Done? ==> |r.rest| < |s|
  {
    if s == [] then Fail
    else if s[0] == QUOTE then Done([], s[1..])
    else if s[0] == BACKSLASH then
      if |s| == 1 then Fail
      else if s[1] == 0x75 then
        if |s| <= 5 then Fail
        else match Hex4(s[2], s[3], s[4], s[5])
          case None => Fail
          case Some(code) => Prefixed(Utf8.EncodeRune(code), StringBody(s[6..]))
      else match Unescape(s[1])
        case None => Fail
        case Some(c) => Prefixed([c], StringBody(s[2..]))
    else Prefixed([s[0]], StringBody(s[1..]))
  }

  function ParseString(s: Bytes): (r: Parse<Bytes>)
    ensures r.Done? ==> |r.rest| < |s|
  {
    if Peek(s) != QUOTE then Fail else StringBody(s[1..])
  }

  /** A string key, the colon behind it, and the white space around them. */
  function ParseKey(s: Bytes): (r: Parse<Bytes>)
    ensures r.Done? ==> |r.rest| < |s|
  {
    match ParseString(Ws(s))
    case Fail => Fail
    case Done(key, rest) => if Peek(Ws(rest)) != COLON then Fail else Done(key, Ws(Ws(rest)[1..]))
  }

  datatype Fields = Fields(strings: map<Bytes, Bytes>, entries: Option<map<Bytes, Node>>)

  const NO_FIELDS := Fields(map[], None)

  function ParseObject(s: Bytes): (r: Parse<Fields>)
    ensures r.Done? ==> |r.rest| < |s|
    decreases |s|, 0
  {
    if Peek(s) != OPEN then Fail
    else
      var inside := Ws(s[1..]);
      if Peek(inside) == CLOSE then Done(NO_FIELDS, inside[1..]) else ObjectFrom(inside, NO_FIELDS)
  }

  /** Key by key to the closing brace. Unknown object-valued fields are read and dropped. */
  function ObjectFrom(s: Bytes, fields: Fields): (r: Parse<Fields>)
    ensures r.Done? ==> |r.rest| < |s|
    decreases |s|, 3
  {
    match ParseField(s, fields)
    case Fail => Fail
    case Done(next, rest) =>
      var after := Ws(rest);
      if Peek(after) == COMMA then ObjectFrom(after[1..], next)
      else if Peek(after) == CLOSE then Done(next, after[1..]) else Fail
  }

  function ParseField(s: Bytes, fields: Fields): (r: Parse<Fields>)
    ensures r.Done? ==> |r.rest| < |s|
    decreases |s|, 2
  {
    match ParseKey(s) case Fail => Fail case Done(key, v) => FieldValue(key, v, fields)
  }

  /** One field's value, added to the fields read so far. */
  function FieldValue(key: Bytes, v: Bytes, fields: Fields): (r: Parse<Fields>)
    ensures r.Done? ==> |r.rest| < |v|
    decreases |v|, 1
  {
    if key == ENTRIES then
      match ParseEntries(v)
      case Fail => Fail
      case Done(es, rest) => Done(fields.(entries := Some(es)), rest)
    else if Peek(v) == OPEN then
      match ParseObject(v)
      case Fail => Fail
      case Done(_, rest) => Done(fields, rest)
    else
      match ParseString(v)
      case Fail => Fail
      case Done(str, rest) => Done(fields.(strings := fields.strings[key := str]), rest)
  }

  function ParseEntries(s: Bytes): (r: Parse<map<Bytes, Node>>)
    ensures r.Done? ==> |r.rest| < |s|
    decreases |s|, 0
  {
    if Peek(s) != OPEN then Fail
    else
      var inside := Ws(s[1..]);
      if Peek(inside) == CLOSE then Done(map[], inside[1..]) else EntriesFrom(inside, map[])
  }

  function EntriesFrom(s: Bytes, out: map<Bytes, Node>): (r: Parse<map<Bytes, Node>>)
    ensures r.Done? ==> |r.rest| < |s|
    decreases |s|, 3
  {
    match ParseEntry(s)
    case Fail => Fail
    case Done((name, child), rest) =>
      var after := Ws(rest);
      if Peek(after) == COMMA then EntriesFrom(after[1..], out[name := child])
      else if Peek(after) == CLOSE then Done(out[name := child], after[1..]) else Fail
  }

  function ParseEntry(s: Bytes): (r: Parse<(Bytes, Node)>)
    ensures r.Done? ==> |r.rest| < |s|
    decreases |s|, 2
  {
    match ParseKey(s)
    case Fail => Fail
    case Done(name, v) => match ParseNode(v) case Fail => Fail case Done(child, rest) => Done((name, child), rest)
  }

  /** What a node's fields say it is. */
  function NodeOf(f: Fields): Option<Node> {
    if TYPE !in f.strings then None
    else if f.strings[TYPE] == DIRECTORY then Some(Dir(if f.entries.Some? then f.entries.value else map[]))
    else if f.strings[TYPE] == TEXT then
      if CONTENT in f.strings then Some(File(f.strings[CONTENT])) else None
    else if f.strings[TYPE] == BINARY then
      if ENCODING !in f.strings || f.strings[ENCODING] != BASE64 || CONTENT !in f.strings then None
      else match Base64.Decode(f.strings[CONTENT]) case None => None case Some(raw) => Some(File(raw))
    else None
  }

  function ParseNode(s: Bytes): (r: Parse<Node>)
    ensures r.Done? ==> |r.rest| < |s|
    decreases |s|, 1
  {
    match ParseObject(s)
    case Fail => Fail
    case Done(fields, rest) => match NodeOf(fields) case None => Fail case Some(n) => Done(n, rest)
  }

  /** `decodeBFT`: one node, with nothing but white space around it. */
  function Decode(src: Bytes): Option<Node> {
    match ParseNode(Ws(src))
    case Fail => None
    case Done(n, rest) => if Ws(rest) == [] then Some(n) else None
  }
}
