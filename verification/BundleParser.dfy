/**
  The bundle parser as the program has it: a source, a cursor that only moves forward, and one method for each
  construct. Every method reads what the grammar in Bundle says stands at the cursor.
*/
module BundleParser {
  import opened Basics
  import opened Bundle
  import Base64
  import Utf8

  /** The parse the grammar describes, as a result and the input left at the cursor. */
  ghost predicate Reads<T(!new)>(spec: Parse<T>, r: Option<T>, left: Bytes) {
    match spec case Fail => r.None? case Done(v, rest) => r == Some(v) && left == rest
  }

  class Parser {
    const src: Bytes
    var pos: nat

    ghost predicate Valid() reads this { pos <= |src| }

    ghost function Left(): Bytes
      reads this
      requires Valid()
    {
      src[pos..]
    }

    constructor (s: Bytes)
      ensures src == s && pos == 0 && Valid() && Left() == s
    {
      src := s;
      pos := 0;
    }

    method SkipWs()
      requires Valid()
      modifies `pos
      ensures Valid() && pos >= old(pos)
      ensures Left() == Ws(old(Left()))
    {
      while pos < |src| && IsWs(src[pos])
        invariant Valid() && pos >= old(pos)
        invariant Ws(Left()) == Ws(old(Left()))
      {
        assert src[pos..][1..] == src[pos + 1..];
        pos := pos + 1;
      }
    }

    function Look(): (c: Byte)
      reads this
      requires Valid()
      ensures c == Peek(Left())
    {
      if pos >= |src| then 0 else src[pos]
    }

    method Expect(c: Byte) returns (ok: bool)
      requires Valid() && c != 0
      modifies `pos
      ensures Valid() && ok == (Peek(old(Left())) == c)
      ensures if ok then pos == old(pos) + 1 && old(Left()) != [] && Left() == old(Left())[1..] else pos == old(pos)
    {
      ok := Look() == c;
      if ok {
        assert src[pos..][1..] == src[pos + 1..];
        pos := pos + 1;
      }
    }

    /** One escape, with the cursor on its backslash. */
    method ReadEscape() returns (e: Option<Bytes>)
      requires Valid() && Peek(Left()) == BACKSLASH
      modifies `pos
      ensures Valid() && pos > old(pos)
      ensures StringBody(old(Left())) == if e.None? then Fail else Prefixed(e.value, StringBody(Left()))
    {
      ghost var s := Left();
      pos := pos + 1;
      if pos >= |src| { return None; }
      assert s[1] == src[pos];
      if src[pos] == 0x75 {
        if pos + 4 >= |src| { return None; }
        var code := Hex4(src[pos + 1], src[pos + 2], src[pos + 3], src[pos + 4]);
        assert s[6..] == src[pos + 5..];
        pos := pos + 5;
        return if code.Some? then Some(Utf8.EncodeRune(code.value)) else None;
      }
      var plain := Unescape(src[pos]);
      assert s[2..] == src[pos + 1..];
      pos := pos + 1;
      return if plain.Some? then Some([plain.value]) else None;
    }

    /** A string; the loop copies bytes and resolves escapes into `b`. */
    method ReadString() returns (r: Option<Bytes>)
      requires Valid()
      modifies `pos
      ensures Valid() && pos >= old(pos) && (r.Some? ==> pos > old(pos))
      ensures Reads(ParseString(old(Left())), r, Left())
    {
      var ok := Expect(QUOTE);
      if !ok { return None; }
      var b: Bytes := [];
      ghost var body := StringBody(Left());
      PrefixedTwice([], [], body);
      while pos < |src|
        invariant Valid() && pos > old(pos)
        invariant body == Prefixed(b, StringBody(Left()))
      {
        var c := src[pos];
        assert src[pos..][1..] == src[pos + 1..];
        if c == QUOTE {
          pos := pos + 1;
          assert b + [] == b;
          return Some(b);
        } else if c == BACKSLASH {
          var e := ReadEscape();
          if e.None? { return None; }
          PrefixedTwice(b, e.value, StringBody(Left()));
          b := b + e.value;
        } else {
          PrefixedTwice(b, [c], StringBody(src[pos + 1..]));
          b := b + [c];
          pos := pos + 1;
        }
      }
      return None;
    }

    /** A key and the colon behind it, with the white space the loops skip around them. */
    method ReadKey() returns (r: Option<Bytes>)
      requires Valid()
      modifies `pos
      ensures Valid() && pos >= old(pos) && (r.Some? ==> pos > old(pos))
      ensures Reads(ParseKey(old(Left())), r, Left())
    {
      SkipWs();
      var key := ReadString();
      if key.None? { return None; }
      SkipWs();
      var colon := Expect(COLON);
      if !colon { return None; }
      SkipWs();
      return key;
    }

    /** What follows an item: a comma and more, or the closing brace. */
    method ReadSeparator() returns (more: Option<bool>)
      requires Valid()
      modifies `pos
      ensures Valid() && pos >= old(pos)
      ensures var after := Ws(old(Left()));
        if more.None? then Peek(after) != COMMA && Peek(after) != CLOSE
        else after != [] && after[0] == (if more.value then COMMA else CLOSE) && Left() == after[1..]
      ensures more.Some? ==> pos > old(pos)
    {
      SkipWs();
      var comma := Expect(COMMA);
      if comma { return Some(true); }
      var close := Expect(CLOSE);
      return if close then Some(false) else None;
    }

    method ReadObject() returns (r: Option<Fields>)
      requires Valid()
      modifies `pos
      ensures Valid() && pos >= old(pos) && (r.Some? ==> pos > old(pos))
      ensures Reads(ParseObject(old(Left())), r, Left())
      decreases |src| - pos, 0
    {
      var ok := Expect(OPEN);
      if !ok { return None; }
      SkipWs();
      if Look() == CLOSE {
        assert src[pos..][1..] == src[pos + 1..];
        pos := pos + 1;
        return Some(NO_FIELDS);
      }
      var fields := NO_FIELDS;
      ghost var whole := ObjectFrom(Left(), fields);
      while true
        invariant Valid() && pos > old(pos)
        invariant whole == ObjectFrom(Left(), fields)
        decreases |src| - pos
      {
        var next := ReadField(fields);
        if next.None? { return None; }
        fields := next.value;
        var more := ReadSeparator();
        if more == Some(true) { continue; }
        return if more.Some? then Some(fields) else None;
      }
    }

    method ReadField(fields: Fields) returns (r: Option<Fields>)
      requires Valid()
      modifies `pos
      ensures Valid() && pos >= old(pos) && (r.Some? ==> pos > old(pos))
      ensures Reads(ParseField(old(Left()), fields), r, Left())
      decreases |src| - pos, 2
    {
      var key := ReadKey();
      if key.None? { return None; }
      r := ReadFieldValue(key.value, fields);
    }

    method ReadFieldValue(key: Bytes, fields: Fields) returns (r: Option<Fields>)
      requires Valid()
      modifies `pos
      ensures Valid() && pos >= old(pos) && (r.Some? ==> pos > old(pos))
      ensures Reads(FieldValue(key, old(Left()), fields), r, Left())
      decreases |src| - pos, 1
    {
      if key == ENTRIES {
        var es := ReadEntries();
        return if es.Some? then Some(fields.(entries := Some(es.value))) else None;
      } else if Look() == OPEN {
        var skipped := ReadObject();
        return if skipped.Some? then Some(fields) else None;
      } else {
        var str := ReadString();
        return if str.Some? then Some(fields.(strings := fields.strings[key := str.value])) else None;
      }
    }

    method ReadEntries() returns (r: Option<map<Bytes, Node>>)
      requires Valid()
      modifies `pos
      ensures Valid() && pos >= old(pos) && (r.Some? ==> pos > old(pos))
      ensures Reads(ParseEntries(old(Left())), r, Left())
      decreases |src| - pos, 0
    {
      var ok := Expect(OPEN);
      if !ok { return None; }
      var out: map<Bytes, Node> := map[];
      SkipWs();
      if Look() == CLOSE {
        assert src[pos..][1..] == src[pos + 1..];
        pos := pos + 1;
        return Some(out);
      }
      ghost var whole := EntriesFrom(Left(), out);
      while true
        invariant Valid() && pos > old(pos)
        invariant whole == EntriesFrom(Left(), out)
        decreases |src| - pos
      {
        var entry := ReadEntry();
        if entry.None? { return None; }
        out := out[entry.value.0 := entry.value.1];
        var more := ReadSeparator();
        if more == Some(true) { continue; }
        return if more.Some? then Some(out) else None;
      }
    }

    method ReadEntry() returns (r: Option<(Bytes, Node)>)
      requires Valid()
      modifies `pos
      ensures Valid() && pos >= old(pos) && (r.Some? ==> pos > old(pos))
      ensures Reads(ParseEntry(old(Left())), r, Left())
      decreases |src| - pos, 2
    {
      var name := ReadKey();
      if name.None? { return None; }
      var child := ReadNode();
      return if child.Some? then Some((name.value, child.value)) else None;
    }

    method ReadNode() returns (r: Option<Node>)
      requires Valid()
      modifies `pos
      ensures Valid() && pos >= old(pos) && (r.Some? ==> pos > old(pos))
      ensures Reads(ParseNode(old(Left())), r, Left())
      decreases |src| - pos, 1
    {
      var fields := ReadObject();
      if fields.None? { return None; }
      return NodeOf(fields.value);
    }
  }

  /** `decodeBFT`: terminates on every input, with a tree only when the whole input was one node. */
  method DecodeBundle(src: Bytes) returns (r: Option<Node>)
    ensures r == Decode(src)
  {
    var p := new Parser(src);
    p.SkipWs();
    var n := p.ReadNode();
    if n.None? { return None; }
    p.SkipWs();
    return if p.pos == |p.src| then n else None;
  }
}
