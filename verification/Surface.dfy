/**
  The web host's side of two messages: the manifest it sends to the engine, and the surface it reads back. Both are
  hand-written over single bytes; each is held against the wire format in Varint.
*/
module Surface {
  import opened Basics
  import opened Bits
  import opened Varint
  import Encoding

  const GET_SURFACE: nat := 4
  const MODULUS: nat := 0x1_0000_0000

  // ---- reading a varint ---------------------------------------------------

  datatype Read = Bad | Read(value: Word, len: nat)

  /** `result |= (b & 0x7f) << shift`, on 32 bits and read unsigned. */
  function WithBits(result: Word, b: Byte, shift: nat): Word { Or(result, Shifted(b % 128, shift) % MODULUS) % MODULUS }

  function ReadFrom(buf: Bytes, i: nat, result: Word, shift: nat, len: nat): (r: Read)
    ensures r.Read? ==> len < r.len && i + r.len <= |buf| + len
    decreases |buf| - i
  {
    if i >= |buf| then Bad
    else
      var next := WithBits(result, buf[i], shift);
      if buf[i] < 128 then Read(next, len + 1)
      else if shift + 7 > 28 then Bad
      else ReadFrom(buf, i + 1, next, shift + 7, len + 1)
  }

  function VarintAt(buf: Bytes, start: nat): Read { ReadFrom(buf, start, 0, 0, 0) }

  /** `readVarint` */
  method ReadVarint(buf: Bytes, start: nat) returns (r: Read)
    ensures r == VarintAt(buf, start)
  {
    var result: Word := 0;
    var shift := 0;
    var i := start;
    while i < |buf|
      invariant i >= start && shift <= 28
      invariant ReadFrom(buf, i, result, shift, i - start) == VarintAt(buf, start)
    {
      var b := buf[i];
      result := WithBits(result, b, shift);
      if b < 128 { return Read(result, i - start + 1); }
      shift := shift + 7;
      if shift > 28 { return Bad; }
      i := i + 1;
    }
    return Bad;
  }

  /** The five shifts of a varint read into 32 bits, and the room above each. */
  predicate IsShift(shift: nat) { shift in {0, 7, 14, 21, 28} }

  function Unit(shift: nat): nat
    requires IsShift(shift)
  {
    if shift == 0 then 1 else if shift == 7 then 0x80 else if shift == 14 then 0x4000
    else if shift == 21 then 0x20_0000 else 0x1000_0000
  }

  function Up(n: nat, shift: nat): nat
    requires IsShift(shift)
  {
    if shift == 0 then n else if shift == 7 then 0x80 * n else if shift == 14 then 0x4000 * n
    else if shift == 21 then 0x20_0000 * n else 0x1000_0000 * n
  }

  /** Numbers from here on do not fit behind the bits already read: 2^(35 - shift). */
  function Room(shift: nat): nat
    requires IsShift(shift)
  {
    if shift == 0 then 0x8_0000_0000 else if shift == 7 then 0x1000_0000 else if shift == 14 then 0x20_0000
    else if shift == 21 then 0x4000 else 0x80
  }

  lemma ShiftedUp(n: nat, shift: nat)
    requires IsShift(shift)
    ensures Shifted(n, shift) == Up(n, shift) && Pow2(shift) == Unit(shift)
  {
    assert Pow2(4) == 0x10 && Pow2(7) == 0x80;
    assert Pow2(10) == 0x400 && Pow2(14) == 0x4000;
    assert Pow2(17) == 0x2_0000 && Pow2(21) == 0x20_0000;
    assert Pow2(24) == 0x100_0000 && Pow2(28) == 0x1000_0000;
    ShiftedIs(n, shift);
    if shift == 0 {} else if shift == 7 {} else if shift == 14 {} else if shift == 21 {} else {}
  }

  /** What a shift leaves of seven bits in a 32-bit word: all of them, or four at the top. */
  function Kept(c: nat, shift: nat): nat { if shift == 28 then c % 16 else c }

  lemma Wraps(c: nat, shift: nat)
    requires IsShift(shift) && c < 128
    ensures Up(c, shift) % MODULUS == Up(Kept(c, shift), shift)
    ensures Up(Kept(c, shift), shift) + Unit(shift) <= MODULUS
  {
    if shift == 28 { assert c * 0x1000_0000 == (c / 16) * MODULUS + (c % 16) * 0x1000_0000; }
  }

  lemma OrUp(result: Word, kept: nat, shift: nat)
    requires IsShift(shift) && result < Unit(shift)
    ensures Or(result, Up(kept, shift)) == result + Up(kept, shift)
  {
    ShiftedUp(kept, shift);
    OrAdds(result, kept, shift);
  }

  lemma WithBitsIs(result: Word, b: Byte, shift: nat, x: nat, sum: Word)
    requires Shifted(b % 128, shift) % MODULUS == x && Or(result, x) == sum
    ensures WithBits(result, b, shift) == sum
  {
  }

  /** Seven more bits are added above those already there. */
  lemma BitsAdd(result: Word, b: Byte, shift: nat)
    requires IsShift(shift) && result < Unit(shift)
    ensures WithBits(result, b, shift) == result + Up(Kept(b % 128, shift), shift)
  {
    ShiftedWraps(b % 128, shift);
    OrUp(result, Kept(b % 128, shift), shift);
    var x := Up(Kept(b % 128, shift), shift);
    WithBitsIs(result, b, shift, x, result + x);
  }

  lemma ShiftedWraps(c: nat, shift: nat)
    requires IsShift(shift) && c < 128
    ensures Shifted(c, shift) % MODULUS == Up(Kept(c, shift), shift)
    ensures Up(Kept(c, shift), shift) + Unit(shift) <= MODULUS
  {
    ShiftedUp(c, shift);
    Wraps(c, shift);
  }

  lemma Carry(result: Word, n: nat, shift: nat)
    requires IsShift(shift) && shift < 28 && result < Unit(shift)
    ensures IsShift(shift + 7)
    ensures var next := result + Up(n % 128, shift);
      next < Unit(shift + 7) && next < MODULUS && next + Up(n / 128, shift + 7) == result + Up(n, shift)
    ensures n < Room(shift) <==> n / 128 < Room(shift + 7)
  {
    assert n == n / 128 * 128 + n % 128;
    if shift == 0 {} else if shift == 7 {} else if shift == 14 {} else {}
  }

  lemma {:induction false} ReadsEncoded(buf: Bytes, i: nat, n: nat, result: Word, shift: nat, len: nat)
    requires IsShift(shift) && result < Unit(shift)
    requires i + |EncodeVarint(n)| <= |buf| && buf[i..i + |EncodeVarint(n)|] == EncodeVarint(n)
    ensures ReadFrom(buf, i, result, shift, len) ==
      if n < Room(shift) then Read((result + Up(n, shift)) % MODULUS, len + |EncodeVarint(n)|) else Bad
    decreases n
  {
    FirstByte(buf, i, n);
    if n < 128 {
      LastByte(buf, i, n, result, shift, len);
    } else if shift < 28 {
      SevenMore(result, buf[i], n, shift);
      ReadsEncoded(buf, i + 1, n / 128, WithBits(result, buf[i], shift), shift + 7, len + 1);
    }
  }

  lemma SevenMore(result: Word, b: Byte, n: nat, shift: nat)
    requires IsShift(shift) && shift < 28 && result < Unit(shift) && b % 128 == n % 128
    ensures IsShift(shift + 7) && (n < Room(shift) <==> n / 128 < Room(shift + 7))
    ensures var next := WithBits(result, b, shift);
      next < Unit(shift + 7) && next + Up(n / 128, shift + 7) == result + Up(n, shift)
  {
    BitsAdd(result, b, shift);
    Carry(result, n, shift);
  }

  lemma LastBits(result: Word, b: Byte, shift: nat)
    requires IsShift(shift) && result < Unit(shift) && b < 128
    ensures WithBits(result, b, shift) == (result + Up(b, shift)) % MODULUS
  {
    assert b % 128 == b;
    BitsAdd(result, b, shift);
    Wraps(b, shift);
    SumFits(result, Up(b, shift), Up(Kept(b, shift), shift));
  }

  lemma SumFits(a: nat, x: nat, kept: nat)
    requires x % MODULUS == kept && a + kept < MODULUS
    ensures (a + x) % MODULUS == a + kept
  {
  }

  lemma LastByte(buf: Bytes, i: nat, n: nat, result: Word, shift: nat, len: nat)
    requires IsShift(shift) && result < Unit(shift) && i < |buf| && buf[i] == n < 128
    ensures n < Room(shift)
    ensures ReadFrom(buf, i, result, shift, len) == Read((result + Up(n, shift)) % MODULUS, len + 1)
  {
    LastBits(result, buf[i], shift);
  }

  lemma FirstByte(buf: Bytes, i: nat, n: nat)
    requires i + |EncodeVarint(n)| <= |buf| && buf[i..i + |EncodeVarint(n)|] == EncodeVarint(n)
    ensures buf[i] % 128 == n % 128 && (buf[i] < 128 <==> n < 128)
    ensures n < 128 ==> |EncodeVarint(n)| == 1
    ensures n >= 128 ==> |EncodeVarint(n)| == |EncodeVarint(n / 128)| + 1
    ensures n >= 128 ==> buf[i + 1..i + 1 + |EncodeVarint(n / 128)|] == EncodeVarint(n / 128)
  {
    var e := EncodeVarint(n);
    assert buf[i] == buf[i..i + |e|][0] == e[0];
    assert buf[i + 1..i + |e|] == buf[i..i + |e|][1..];
    assert n >= 128 ==> e[1..] == EncodeVarint(n / 128);
  }

  /**
    Reading back an encoded number, at any place in a buffer: exact below 2^32, the low 32 bits of it below 2^35, and
    refused from there on.
  */
  lemma ReadsWhatWasWritten(front: Bytes, n: nat, rest: Bytes)
    ensures VarintAt(front + EncodeVarint(n) + rest, |front|) ==
      if n < 0x8_0000_0000 then Read(n % MODULUS, |EncodeVarint(n)|) else Bad
  {
    var buf := front + EncodeVarint(n) + rest;
    assert buf[|front|..|front| + |EncodeVarint(n)|] == EncodeVarint(n);
    ReadsEncoded(buf, |front|, n, 0, 0, 0);
  }

  // ---- reading the surface ------------------------------------------------

  function PackedFrom(buf: Bytes, i: nat, end: nat, ids: set<nat>): (r: Option<(set<nat>, nat)>)
    ensures r.Some? ==> i <= r.value.1
    decreases |buf| - i
  {
    if i >= end then Some((ids, i))
    else match VarintAt(buf, i) case Bad => None case Read(v, n) => PackedFrom(buf, i + n, end, ids + {v})
  }

  /** One record: the ids with its own, and where it ends. */
  function RecordAt(buf: Bytes, i: nat, ids: set<nat>): (r: Option<(set<nat>, nat)>)
    ensures r.Some? ==> i < r.value.1
  {
    match VarintAt(buf, i)
    case Bad => None
    case Read(tag, tagLen) =>
      if tag / 8 == 1 && tag % 8 == 2 then
        match VarintAt(buf, i + tagLen)
        case Bad => None
        case Read(len, lenLen) => PackedFrom(buf, i + tagLen + lenLen, i + tagLen + lenLen + len, ids)
      else if tag / 8 == 1 && tag % 8 == 0 then
        match VarintAt(buf, i + tagLen)
        case Bad => None
        case Read(v, n) => Some((ids + {v}, i + tagLen + n))
      else None
  }

  function SurfaceFrom(buf: Bytes, i: nat, ids: set<nat>): Option<set<nat>>
    decreases |buf| - i
  {
    if i >= |buf| then Some(ids)
    else match RecordAt(buf, i, ids) case None => None case Some((more, next)) => SurfaceFrom(buf, next, more)
  }

  /** A surface that does not hold the id that answered is no answer. */
  function Surface(buf: Bytes): Option<set<nat>> {
    match SurfaceFrom(buf, 0, {})
    case None => None
    case Some(ids) => if GET_SURFACE in ids then Some(ids) else None
  }

  datatype Reply = Failed | Succeeded(output: Bytes)

  /** `liveSurface`, given what the engine replied. */
  method LiveSurface(reply: Reply) returns (r: Option<set<nat>>)
    ensures r == match reply case Failed => None case Succeeded(output) => Surface(output)
  {
    if reply.Failed? { return None; }
    var buf := reply.output;
    var ids: set<nat> := {};
    var i := 0;
    while i < |buf|
      invariant i >= 0
      invariant SurfaceFrom(buf, i, ids) == SurfaceFrom(buf, 0, {})
      decreases |buf| - i
    {
      var record := ReadOneRecord(buf, i, ids);
      if record.None? { return None; }
      ids, i := record.value.0, record.value.1;
    }
    return if GET_SURFACE in ids then Some(ids) else None;
  }

  /** A record of the surface: ids packed together, or one on its own. */
  method ReadOneRecord(buf: Bytes, start: nat, given: set<nat>) returns (r: Option<(set<nat>, nat)>)
    ensures r == RecordAt(buf, start, given)
  {
    var tag := ReadVarint(buf, start);
    if tag.Bad? { return None; }
    var i := start + tag.len;
    var field, wire := tag.value / 8, tag.value % 8;
    if field == 1 && wire == 2 {
      var len := ReadVarint(buf, i);
      if len.Bad? { return None; }
      i := i + len.len;
      r := ReadPacked(buf, i, i + len.value, given);
    } else if field == 1 && wire == 0 {
      var v := ReadVarint(buf, i);
      return if v.Bad? then None else Some((given + {v.value}, i + v.len));
    } else {
      return None;
    }
  }

  method ReadPacked(buf: Bytes, start: nat, end: nat, given: set<nat>) returns (r: Option<(set<nat>, nat)>)
    ensures r == PackedFrom(buf, start, end, given)
  {
    var ids: set<nat> := given;
    var i := start;
    while i < end
      invariant i >= start
      invariant PackedFrom(buf, i, end, ids) == PackedFrom(buf, start, end, given)
      decreases |buf| - i
    {
      var v := ReadVarint(buf, i);
      if v.Bad? { return None; }
      ids := ids + {v.value};
      i := i + v.len;
    }
    return Some((ids, i));
  }

  // ---- what a protobuf encoder writes -------------------------------------

  function Packed(ids: seq<nat>): Bytes { if ids == [] then [] else EncodeVarint(ids[0]) + Packed(ids[1..]) }

  /** `repeated uint32`: a conforming encoder may pack any number of them, or send each alone. */
  datatype Chunk = One(id: nat) | Many(ids: seq<nat>)

  function AsRecord(c: Chunk): Record {
    Record(1, match c case One(id) => Number(id) case Many(ids) => Body(Packed(ids)))
  }

  function AsRecords(cs: seq<Chunk>): seq<Record> { if cs == [] then [] else [AsRecord(cs[0])] + AsRecords(cs[1..]) }

  function SetOf(ids: seq<nat>): set<nat> { if ids == [] then {} else {ids[0]} + SetOf(ids[1..]) }

  function IdsOf(c: Chunk): set<nat> { match c case One(id) => {id} case Many(ids) => SetOf(ids) }

  function AllIds(cs: seq<Chunk>): set<nat> { if cs == [] then {} else IdsOf(cs[0]) + AllIds(cs[1..]) }

  /** Ids are uint32, and so is a length on the wire. */
  predicate Fits(c: Chunk) {
    match c
    case One(id) => id < MODULUS
    case Many(ids) => |Packed(ids)| < MODULUS && forall i :: 0 <= i < |ids| ==> ids[i] < MODULUS
  }

  lemma ReadsSmall(buf: Bytes, front: Bytes, n: nat, rest: Bytes)
    requires buf == front + (EncodeVarint(n) + rest) && n < MODULUS
    ensures VarintAt(buf, |front|) == Read(n, |EncodeVarint(n)|)
    ensures buf == front + EncodeVarint(n) + rest
  {
    Assoc(front, EncodeVarint(n), rest);
    ReadsWhatWasWritten(front, n, rest);
  }

  lemma {:induction false} ReadsPacked(buf: Bytes, front: Bytes, list: seq<nat>, rest: Bytes, ids: set<nat>)
    requires buf == front + (Packed(list) + rest) && forall i :: 0 <= i < |list| ==> list[i] < MODULUS
    ensures PackedFrom(buf, |front|, |front| + |Packed(list)|, ids)
      == Some((ids + SetOf(list), |front| + |Packed(list)|))
    decreases |list|
  {
    if list == [] {
      assert ids + SetOf(list) == ids;
    } else {
      var first, more := EncodeVarint(list[0]), Packed(list[1..]);
      Assoc(first, more, rest);
      ReadsSmall(buf, front, list[0], more + rest);
      ReadsPacked(buf, front + first, list[1..], rest, ids + {list[0]});
      assert ids + {list[0]} + SetOf(list[1..]) == ids + SetOf(list);
    }
  }

  lemma ReadsTag(buf: Bytes, front: Bytes, r: Record, rest: Bytes)
    requires buf == front + (EncodeRecord(r) + rest) && r.field * 8 + WireType(r.payload) < MODULUS
    ensures var tag := EncodeTag(r.field, WireType(r.payload));
      && VarintAt(buf, |front|) == Read(r.field * 8 + WireType(r.payload), |tag|)
      && buf == front + tag + (EncodePayload(r.payload) + rest)
      && |EncodeRecord(r)| == |tag| + |EncodePayload(r.payload)|
  {
    Assoc(EncodeTag(r.field, WireType(r.payload)), EncodePayload(r.payload), rest);
    ReadsSmall(buf, front, r.field * 8 + WireType(r.payload), EncodePayload(r.payload) + rest);
  }

  lemma ReadsOne(buf: Bytes, front: Bytes, r: Record, id: nat, rest: Bytes, ids: set<nat>)
    requires r == Record(1, Number(id)) && id < MODULUS && buf == front + (EncodeRecord(r) + rest)
    ensures RecordAt(buf, |front|, ids) == Some((ids + {id}, |front| + |EncodeRecord(r)|))
  {
    ReadsTag(buf, front, r, rest);
    ReadsSmall(buf, front + EncodeTag(r.field, WireType(r.payload)), id, rest);
  }

  lemma ReadsMany(buf: Bytes, front: Bytes, r: Record, list: seq<nat>, rest: Bytes, ids: set<nat>)
    requires r == Record(1, Body(Packed(list))) && Fits(Many(list)) && buf == front + (EncodeRecord(r) + rest)
    ensures RecordAt(buf, |front|, ids) == Some((ids + SetOf(list), |front| + |EncodeRecord(r)|))
  {
    var tag, len := EncodeTag(r.field, WireType(r.payload)), EncodeVarint(|Packed(list)|);
    ReadsTag(buf, front, r, rest);
    Assoc(len, Packed(list), rest);
    ReadsSmall(buf, front + tag, |Packed(list)|, Packed(list) + rest);
    ReadsPacked(buf, front + tag + len, list, rest, ids);
    PackedAt(buf, |front|, |tag|, |Packed(list)|, |len|, ids);
  }

  lemma PackedAt(buf: Bytes, i: nat, tagLen: nat, len: Word, lenLen: nat, ids: set<nat>)
    requires VarintAt(buf, i) == Read(10, tagLen) && VarintAt(buf, i + tagLen) == Read(len, lenLen)
    ensures RecordAt(buf, i, ids) == PackedFrom(buf, i + tagLen + lenLen, i + tagLen + lenLen + len, ids)
  {
  }

  lemma ReadsChunk(buf: Bytes, front: Bytes, c: Chunk, rest: Bytes, ids: set<nat>)
    requires buf == front + (EncodeRecord(AsRecord(c)) + rest) && Fits(c)
    ensures RecordAt(buf, |front|, ids) == Some((ids + IdsOf(c), |front| + |EncodeRecord(AsRecord(c))|))
  {
    match c
    case One(id) => ReadsOne(buf, front, AsRecord(c), id, rest, ids);
    case Many(list) => ReadsMany(buf, front, AsRecord(c), list, rest, ids);
  }

  lemma FirstChunk(cs: seq<Chunk>)
    requires cs != []
    ensures EncodeRecords(AsRecords(cs)) == EncodeRecord(AsRecord(cs[0])) + EncodeRecords(AsRecords(cs[1..]))
  {
    assert AsRecords(cs)[1..] == AsRecords(cs[1..]);
  }

  lemma RecordOn(buf: Bytes, i: nat, ids: set<nat>, more: set<nat>, next: nat)
    requires i < |buf| && RecordAt(buf, i, ids) == Some((more, next))
    ensures SurfaceFrom(buf, i, ids) == SurfaceFrom(buf, next, more)
  {
  }

  lemma {:induction false} ReadsChunks(buf: Bytes, front: Bytes, cs: seq<Chunk>, ids: set<nat>)
    requires buf == front + EncodeRecords(AsRecords(cs)) && forall i :: 0 <= i < |cs| ==> Fits(cs[i])
    ensures SurfaceFrom(buf, |front|, ids) == Some(ids + AllIds(cs))
    decreases |cs|
  {
    if cs == [] {
      assert ids + AllIds(cs) == ids;
    } else {
      var first, more := EncodeRecord(AsRecord(cs[0])), EncodeRecords(AsRecords(cs[1..]));
      FirstChunk(cs);
      ReadsChunk(buf, front, cs[0], more, ids);
      RecordOn(buf, |front|, ids, ids + IdsOf(cs[0]), |front + first|);
      Assoc(front, first, more);
      ReadsChunks(buf, front + first, cs[1..], ids + IdsOf(cs[0]));
      assert ids + IdsOf(cs[0]) + AllIds(cs[1..]) == ids + AllIds(cs);
    }
  }

  /** However the ids are packed, the surface read back is the set that was sent, exactly when it holds its own id. */
  lemma SurfaceIsWhatWasSent(cs: seq<Chunk>)
    requires forall i :: 0 <= i < |cs| ==> Fits(cs[i])
    ensures Surface(EncodeRecords(AsRecords(cs))) ==
      if GET_SURFACE in AllIds(cs) then Some(AllIds(cs)) else None
  {
    var buf := EncodeRecords(AsRecords(cs));
    assert [] + buf == buf;
    ReadsChunks(buf, [], cs, {});
    assert {} + AllIds(cs) == AllIds(cs);
  }

  // ---- the manifest -------------------------------------------------------

  datatype Manifest = Manifest(revision: int, available: bool, kind: Option<nat>, ephemeral: bool, isolation: Option<nat>)

  /** The `Filesystem` message: what is there is stated, and no kind of what is not. */
  function Facts(m: Manifest): seq<Record> {
    [Record(1, Number(if m.available then 2 else 1))]
    + (if m.available && m.kind.Some? then [Record(2, Number(m.kind.value))] else [])
    + (if m.ephemeral then [Record(3, Number(1))] else [])
    + (if m.isolation.Some? then [Record(4, Number(m.isolation.value))] else [])
  }

  method AppendNumber(out: seq<int>, field: nat, n: nat) returns (r: seq<int>)
    requires 0 < field < 16
    ensures r == out + EncodeRecord(Record(field, Number(n)))
  {
    r := Encoding.AppendVarint(out, field * 8);
    r := Encoding.AppendVarint(r, n);
    Encoding.PushesAreVarint(field * 8);
    Encoding.PushesAreVarint(n);
    assert r == out + (EncodeVarint(field * 8) + EncodeVarint(n));
  }

  method AppendBody(out: seq<int>, field: nat, body: Bytes) returns (r: seq<int>)
    requires 0 < field < 16
    ensures r == out + EncodeRecord(Record(field, Body(body)))
  {
    r := Encoding.AppendVarint(out, field * 8 + 2);
    r := Encoding.AppendVarint(r, |body|);
    r := r + body;
    Encoding.PushesAreVarint(field * 8 + 2);
    Encoding.PushesAreVarint(|body|);
    assert r == out + (EncodeVarint(field * 8 + 2) + (EncodeVarint(|body|) + body));
  }

  method AppendFacts(m: Manifest) returns (fs: seq<int>)
    ensures fs == EncodeRecords(Facts(m))
  {
    fs := AppendNumber([], 1, if m.available then 2 else 1);
    ghost var rs := [Record(1, Number(if m.available then 2 else 1))];
    OneRecord(rs[0]);
    assert [] + EncodeRecord(rs[0]) == EncodeRecord(rs[0]);
    if m.available && m.kind.Some? {
      fs := AppendNumber(fs, 2, m.kind.value);
      EncodeRecordsAppend(rs, [Record(2, Number(m.kind.value))]);
      OneRecord(Record(2, Number(m.kind.value)));
      rs := rs + [Record(2, Number(m.kind.value))];
    }
    if m.ephemeral {
      fs := AppendNumber(fs, 3, 1);
      EncodeRecordsAppend(rs, [Record(3, Number(1))]);
      OneRecord(Record(3, Number(1)));
      rs := rs + [Record(3, Number(1))];
    }
    if m.isolation.Some? {
      fs := AppendNumber(fs, 4, m.isolation.value);
      EncodeRecordsAppend(rs, [Record(4, Number(m.isolation.value))]);
      OneRecord(Record(4, Number(m.isolation.value)));
      rs := rs + [Record(4, Number(m.isolation.value))];
    }
    assert rs == Facts(m);
  }

  lemma OneRecord(r: Record)
    ensures EncodeRecords([r]) == EncodeRecord(r)
  {
    assert [r][1..] == [];
    assert EncodeRecord(r) + [] == EncodeRecord(r);
  }

  function Environment(m: Manifest): seq<Record>
    requires m.revision > 0
  {
    [Record(1, Number(m.revision)), Record(2, Body(EncodeRecords(Facts(m))))]
  }

  function Request(m: Manifest): seq<Record>
    requires m.revision > 0
  {
    [Record(1, Body(EncodeRecords(Environment(m))))]
  }

  /** `encodeSetEnvironment`; a revision that is not positive is thrown back. */
  method EncodeSetEnvironment(m: Manifest) returns (r: Option<Bytes>)
    ensures r.None? <==> m.revision <= 0
    ensures r.Some? ==> r.value == EncodeRecords(Request(m))
  {
    if m.revision <= 0 { return None; }
    var fs := AppendFacts(m);
    var env := AppendNumber([], 1, m.revision);
    env := AppendBody(env, 2, Encoding.Uint8Array(fs));
    Encoding.Uint8ArrayOfBytes(EncodeRecords(Facts(m)));
    TwoRecords(Environment(m)[0], Environment(m)[1]);
    assert [] + EncodeRecord(Environment(m)[0]) == EncodeRecord(Environment(m)[0]);
    var req := AppendBody([], 1, Encoding.Uint8Array(env));
    Encoding.Uint8ArrayOfBytes(EncodeRecords(Environment(m)));
    OneRecord(Request(m)[0]);
    assert [] + EncodeRecord(Request(m)[0]) == EncodeRecord(Request(m)[0]);
    Encoding.Uint8ArrayOfBytes(EncodeRecords(Request(m)));
    return Some(Encoding.Uint8Array(req));
  }

  lemma TwoRecords(a: Record, b: Record)
    ensures EncodeRecords([a, b]) == EncodeRecord(a) + EncodeRecord(b)
  {
    assert [a, b][1..] == [b];
    OneRecord(b);
  }

  /** What a decoder of the wire format makes of a request: the revision, a uint32, and the facts beneath it. */
  function Understood(bytes: Bytes): Option<(nat, Filesystem)> {
    var request := DecodeRecords(bytes);
    if request.None? || |request.value| != 1 || !IsBody(request.value[0], 1) then None
    else
      var environment := DecodeRecords(request.value[0].payload.b);
      if environment.None? || |environment.value| != 2 || !IsBody(environment.value[1], 2)
        || environment.value[0].field != 1 || !environment.value[0].payload.Number? then None
      else
        match DecodeRecords(environment.value[1].payload.b)
        case None => None
        case Some(facts) => Some((environment.value[0].payload.n % MODULUS, ReadFacts(facts)))
  }

  /** The engine's `Filesystem` message: 1 is absent, 2 is present, and a field not stated is not known, or false. */
  datatype Filesystem = Filesystem(availability: nat, kind: Option<nat>, ephemeral: bool, isolation: Option<nat>)

  /** The last number stated for a field. */
  function Stated(rs: seq<Record>, field: nat): Option<nat> {
    if rs == [] then None
    else
      var last := rs[|rs| - 1];
      if last.field == field && last.payload.Number? then Some(last.payload.n) else Stated(rs[..|rs| - 1], field)
  }

  function ReadFacts(rs: seq<Record>): Filesystem {
    var availability, ephemeral := Stated(rs, 1), Stated(rs, 3);
    Filesystem(if availability.Some? then availability.value else 0, Stated(rs, 2),
               ephemeral.Some? && ephemeral.value != 0, Stated(rs, 4))
  }

  /** What the host means by its manifest. */
  function Meant(m: Manifest): Filesystem {
    Filesystem(if m.available then 2 else 1, if m.available then m.kind else None, m.ephemeral, m.isolation)
  }

  lemma StatedNext(rs: seq<Record>, r: Record, field: nat)
    ensures Stated(rs + [r], field) ==
      if r.field == field && r.payload.Number? then Some(r.payload.n) else Stated(rs, field)
  {
    assert (rs + [r])[..|rs|] == rs;
  }

  lemma StatedIf(rs: seq<Record>, here: bool, r: Record, field: nat)
    ensures Stated(rs + (if here then [r] else []), field) ==
      if here && r.field == field && r.payload.Number? then Some(r.payload.n) else Stated(rs, field)
  {
    if here { StatedNext(rs, r, field); } else { assert rs + [] == rs; }
  }

  lemma FactsStated(m: Manifest, field: nat)
    ensures Stated(Facts(m), field) ==
      if field == 1 then Some(if m.available then 2 else 1)
      else if field == 2 then (if m.available then m.kind else None)
      else if field == 3 then (if m.ephemeral then Some(1) else None)
      else if field == 4 then m.isolation else None
  {
    var one := [Record(1, Number(if m.available then 2 else 1))];
    var kind, isolation := if m.kind.Some? then m.kind.value else 0, if m.isolation.Some? then m.isolation.value else 0;
    var two := one + (if m.available && m.kind.Some? then [Record(2, Number(kind))] else []);
    var three := two + (if m.ephemeral then [Record(3, Number(1))] else []);
    StatedNext([], one[0], field);
    assert [] + one == one;
    StatedIf(one, m.available && m.kind.Some?, Record(2, Number(kind)), field);
    StatedIf(two, m.ephemeral, Record(3, Number(1)), field);
    StatedIf(three, m.isolation.Some?, Record(4, Number(isolation)), field);
  }

  lemma FactsAreMeant(m: Manifest)
    ensures ReadFacts(Facts(m)) == Meant(m)
  {
    FactsStated(m, 1);
    FactsStated(m, 2);
    FactsStated(m, 3);
    FactsStated(m, 4);
  }

  predicate IsBody(r: Record, field: nat) { r.field == field && r.payload.Body? }

  /** The engine is told the facts the host meant, whatever they are, and the revision up to its 32 bits. */
  lemma ManifestIsUnderstood(m: Manifest)
    requires m.revision > 0
    ensures Understood(EncodeRecords(Request(m))) == Some((m.revision % MODULUS, Meant(m)))
    ensures Understood(EncodeRecords(Request(m))) == Some((m.revision, Meant(m))) <==> m.revision < MODULUS
  {
    NestedRoundTrips(m);
    FactsAreMeant(m);
  }

  lemma NestedRoundTrips(m: Manifest)
    requires m.revision > 0
    ensures Understood(EncodeRecords(Request(m))) == Some((m.revision % MODULUS, ReadFacts(Facts(m))))
  {
    RecordsRoundTrip(Request(m));
    RecordsRoundTrip(Environment(m));
    RecordsRoundTrip(Facts(m));
    Unwrapped(EncodeRecords(Request(m)), EncodeRecords(Environment(m)), EncodeRecords(Facts(m)), m.revision, Facts(m));
  }

  lemma Unwrapped(request: Bytes, environment: Bytes, filesystem: Bytes, revision: nat, facts: seq<Record>)
    requires DecodeRecords(request) == Some([Record(1, Body(environment))])
    requires DecodeRecords(environment) == Some([Record(1, Number(revision)), Record(2, Body(filesystem))])
    requires DecodeRecords(filesystem) == Some(facts)
    ensures Understood(request) == Some((revision % MODULUS, ReadFacts(facts)))
  {
  }
}
