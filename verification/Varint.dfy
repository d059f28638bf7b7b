/**
  The Protocol Buffers wire format, as far as flat requests need it: the "Base 128 Varints" and "Message
  Structure" sections of the Protocol Buffers Encoding specification.
*/
module Varint {
  import opened Basics

  /** A number in groups of seven bits, least significant first, the high bit marking continuation. */
  function EncodeVarint(n: nat): (e: Bytes)
    ensures e != []
  {
    if n < 128 then [n] else [n % 128 + 128] + EncodeVarint(n / 128)
  }

  /** The number at the front of `s` and what follows it. */
  function DecodeVarint(s: Bytes): (d: Option<(nat, Bytes)>)
    ensures d.Some? ==> |d.value.1| < |s|
  {
    if s == [] then None
    else if s[0] < 128 then Some((s[0], s[1..]))
    else match DecodeVarint(s[1..])
      case None => None
      case Some((n, rest)) => Some((s[0] - 128 + 128 * n, rest))
  }

  lemma {:induction false} VarintRoundTrip(n: nat, rest: Bytes)
    ensures DecodeVarint(EncodeVarint(n) + rest) == Some((n, rest))
  {
    var s := EncodeVarint(n) + rest;
    if n < 128 {
      assert s[1..] == rest;
    } else {
      VarintRoundTrip(n / 128, rest);
      assert s[1..] == EncodeVarint(n / 128) + rest;
    }
  }

  function Pow128(k: nat): (p: nat)
    ensures p > 0
  {
    if k == 0 then 1 else 128 * Pow128(k - 1)
  }

  /** Numbers below 128^k need at most k bytes; in particular every uint64 fits in ten. */
  lemma {:induction false} VarintLength(n: nat, k: nat)
    requires k > 0 && n < Pow128(k)
    ensures |EncodeVarint(n)| <= k
  {
    if n >= 128 {
      assert k > 1;
      assert n / 128 < Pow128(k - 1);
      VarintLength(n / 128, k - 1);
    }
  }

  /** One field of a flat message: a number (wire type 0) or a run of bytes (wire type 2). */
  datatype Payload = Number(n: nat) | Body(b: Bytes)
  datatype Record = Record(field: nat, payload: Payload)

  function WireType(p: Payload): nat { if p.Number? then 0 else 2 }

  function EncodePayload(p: Payload): Bytes {
    match p
    case Number(n) => EncodeVarint(n)
    case Body(b) => EncodeVarint(|b|) + b
  }

  function EncodeTag(field: nat, wire: nat): Bytes { EncodeVarint(field * 8 + wire) }

  function EncodeRecord(r: Record): (e: Bytes)
    ensures e != []
  {
    EncodeTag(r.field, WireType(r.payload)) + EncodePayload(r.payload)
  }

  function EncodeRecords(rs: seq<Record>): Bytes {
    if rs == [] then [] else EncodeRecord(rs[0]) + EncodeRecords(rs[1..])
  }

  function DecodePayload(wire: nat, s: Bytes): (d: Option<(Payload, Bytes)>)
    ensures d.Some? ==> |d.value.1| < |s|
  {
    match DecodeVarint(s)
    case None => None
    case Some((n, rest)) =>
      if wire == 0 then Some((Number(n), rest))
      else if wire == 2 && n <= |rest| then Some((Body(rest[..n]), rest[n..]))
      else None
  }

  /** A decoder of flat messages, independent of any encoder. */
  function DecodeRecords(s: Bytes): Option<seq<Record>>
    decreases |s|
  {
    if s == [] then Some([])
    else match DecodeVarint(s)
      case None => None
      case Some((tag, afterTag)) =>
        match DecodePayload(tag % 8, afterTag)
        case None => None
        case Some((p, rest)) =>
          match DecodeRecords(rest)
          case None => None
          case Some(rs) => Some([Record(tag / 8, p)] + rs)
  }

  lemma PayloadRoundTrip(p: Payload, rest: Bytes)
    ensures DecodePayload(WireType(p), EncodePayload(p) + rest) == Some((p, rest))
  {
    match p
    case Number(n) => VarintRoundTrip(n, rest);
    case Body(b) =>
      VarintRoundTrip(|b|, b + rest);
      assert EncodePayload(p) + rest == EncodeVarint(|b|) + (b + rest);
  }

  /** Decoding an encoded message returns its fields, in order, each once. */
  lemma {:induction false} RecordsRoundTrip(rs: seq<Record>)
    ensures DecodeRecords(EncodeRecords(rs)) == Some(rs)
  {
    if rs != [] {
      var r := rs[0];
      var tail := EncodeRecords(rs[1..]);
      var tag := r.field * 8 + WireType(r.payload);
      VarintRoundTrip(tag, EncodePayload(r.payload) + tail);
      assert EncodeRecords(rs) == EncodeVarint(tag) + (EncodePayload(r.payload) + tail);
      PayloadRoundTrip(r.payload, tail);
      RecordsRoundTrip(rs[1..]);
      assert tag / 8 == r.field && tag % 8 == WireType(r.payload);
      assert rs == [Record(r.field, r.payload)] + rs[1..];
    }
  }

  lemma {:induction false} EncodeRecordsAppend(a: seq<Record>, b: seq<Record>)
    ensures EncodeRecords(a + b) == EncodeRecords(a) + EncodeRecords(b)
  {
    if a == [] {
      assert a + b == b;
    } else {
      assert (a + b)[1..] == a[1..] + b;
      EncodeRecordsAppend(a[1..], b);
    }
  }
}
