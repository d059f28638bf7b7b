/** The bundle printer as the program has it: names collected and sorted, output appended to a buffer. */
module BundlePrinter {
  import opened Basics
  import opened Bundle
  import Base64
  import Sorting
  import Utf8

  /** `writeJSONString`, rune by rune. */
  method AppendString(b: Bytes, s: Bytes) returns (out: Bytes)
    ensures out == b + WriteString(s)
  {
    out := b + [QUOTE];
    ghost var front := out;
    var i := 0;
    assert s[0..] == s;
    while i < |s|
      invariant 0 <= i <= |s|
      invariant out + WriteRunes(s[i..]) == front + WriteRunes(s)
    {
      var (r, n) := Utf8.DecodeRune(s[i..]);
      assert s[i..][n..] == s[i + n..];
      Assoc(out, WriteRune(r), WriteRunes(s[i + n..]));
      out := out + WriteRune(r);
      i := i + n;
    }
    assert out + [] == out;
    out := out + [QUOTE];
    assert b + [QUOTE] + WriteRunes(s) + [QUOTE] == b + ([QUOTE] + WriteRunes(s) + [QUOTE]);
  }

  /** A file's content line, and the brace below it. */
  method AppendContent(b: Bytes, content: Bytes, depth: nat) returns (out: Bytes)
    ensures out == b + ContentLine(content, depth)
  {
    var line := Line(depth, Key(CONTENT));
    out := AppendString(b + line, content);
    Assoc(b + line, WriteString(content), Foot(depth));
    Assoc(b, line, WriteString(content) + Foot(depth));
    out := out + Foot(depth);
  }

  /** `writeNode` */
  method AppendNode(b: Bytes, n: Node, depth: nat) returns (out: Bytes)
    ensures out == b + WriteNode(n, depth)
    decreases n, 1, 0
  {
    match n {
      case Dir(entries) =>
        out := AppendDir(b, n, depth);
      case File(content) =>
        if IsText(content) {
          out := AppendContent(b + Head(TEXT, depth), content, depth);
          Assoc(b, Head(TEXT, depth), ContentLine(content, depth));
        } else {
          var coding, coded := Line(depth, Field(ENCODING, BASE64)), Base64.Encode(content);
          out := AppendContent(b + Head(BINARY, depth) + coding, coded, depth);
          Assoc(b + Head(BINARY, depth), coding, ContentLine(coded, depth));
          Assoc(b, Head(BINARY, depth), coding + ContentLine(coded, depth));
        }
    }
  }

  method AppendDir(b: Bytes, n: Node, depth: nat) returns (out: Bytes)
    requires n.Dir?
    ensures out == b + WriteNode(n, depth)
    decreases n, 0, 2
  {
    var names: seq<Bytes> := Sorting.CollectSorted(n.entries.Keys);
    var line := Line(depth, Key(ENTRIES));
    ghost var block;
    if names == [] {
      out := b + Head(DIRECTORY, depth) + line + ([OPEN, CLOSE] + Foot(depth));
      block := [OPEN, CLOSE] + Foot(depth);
    } else {
      var end := Line(depth, [CLOSE]) + Foot(depth);
      ghost var list := WriteEntries(n, names, depth);
      out := AppendEntries(b + Head(DIRECTORY, depth) + line + [OPEN, NEWLINE], n, names, depth);
      out := out + end;
      Assoc(b + Head(DIRECTORY, depth) + line + [OPEN, NEWLINE], list, end);
      Assoc(b + Head(DIRECTORY, depth) + line, [OPEN, NEWLINE], list + end);
      block := [OPEN, NEWLINE] + (list + end);
    }
    Assoc(b + Head(DIRECTORY, depth), line, block);
    Assoc(b, Head(DIRECTORY, depth), line + block);
  }

  /** The loop over a directory's names; a comma follows every entry but the last. */
  method AppendEntries(b: Bytes, n: Node, names: seq<Bytes>, depth: nat) returns (out: Bytes)
    requires n.Dir? && forall k :: k in names ==> k in n.entries
    ensures out == b + WriteEntries(n, names, depth)
    decreases n, 0, 1
  {
    out := b;
    var i := 0;
    assert names[0..] == names;
    while i < |names|
      invariant 0 <= i <= |names|
      invariant out + WriteEntries(n, names[i..], depth) == b + WriteEntries(n, names, depth)
    {
      ghost var node, end := WriteNode(n.entries[names[i]], depth + 2), EntryEnd(i == |names| - 1);
      ghost var more := WriteEntries(n, names[i + 1..], depth);
      EntryGroup(out, names[i], depth, node, end, more);
      assert names[i..][1..] == names[i + 1..] && names[i..][0] == names[i];
      out := AppendEntry(out, n, names[i], depth, i == |names| - 1);
      i := i + 1;
    }
    assert names[i..] == [] && out + [] == out;
  }

  method AppendEntry(b: Bytes, n: Node, name: Bytes, depth: nat, last: bool) returns (out: Bytes)
    requires n.Dir? && name in n.entries
    ensures out == b + Spaces(2 * depth + 4) + WriteString(name) + [COLON, SPACE]
                     + WriteNode(n.entries[name], depth + 2) + EntryEnd(last)
    decreases n, 0, 0
  {
    out := AppendString(b + Spaces(2 * depth + 4), name);
    out := AppendNode(out + [COLON, SPACE], n.entries[name], depth + 2);
    out := out + EntryEnd(last);
  }

  lemma EntryGroup(b: Bytes, name: Bytes, depth: nat, node: Bytes, end: Bytes, more: Bytes)
    ensures b + (EntryHead(name, depth) + (node + (end + more)))
      == b + Spaces(2 * depth + 4) + WriteString(name) + [COLON, SPACE] + node + end + more
  {
    var pad, quoted := Spaces(2 * depth + 4), WriteString(name);
    Assoc(b, pad, quoted + [COLON, SPACE]);
    Assoc(b + pad, quoted, [COLON, SPACE]);
    var front := b + pad + quoted + [COLON, SPACE];
    assert front == b + EntryHead(name, depth);
    Assoc(b, EntryHead(name, depth), node + (end + more));
    Assoc(front, node, end + more);
    Assoc(front + node, end, more);
  }

  /** `encodeBFT` */
  method EncodeBundle(root: Node) returns (out: Bytes)
    ensures out == Encode(root)
  {
    out := AppendNode([], root, 0);
    assert [] + WriteNode(root, 0) == WriteNode(root, 0);
    out := out + [NEWLINE];
  }
}
