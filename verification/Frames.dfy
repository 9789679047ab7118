/** CRYPTO frame extraction from a decrypted Initial payload (internal/quic/frames.go), against a frame encoder. */
module Frames {
  import opened Bytes
  import opened Varint

  /** One run of handshake bytes at a stream offset. */
  datatype CryptoFrame = CryptoFrame(offset: nat, data: bytes)

  const PADDING := 0x00
  const PING := 0x01
  const ACK := 0x02
  const ACK_ECN := 0x03
  const CRYPTO := 0x06
  const CONNECTION_CLOSE := 0x1c
  const CONNECTION_CLOSE_APP := 0x1d

  // ---------------------------------------------------------------- decoder

  /** The cursor after `count` varints from `p`, however large `count` is. */
  function SkipVarints(b: bytes, p: nat, count: nat): (r: Option<nat>)
    requires p <= |b|
    ensures r.Some? ==> p + count <= r.value <= |b|
    decreases count
  {
    if count == 0 then Some(p)
    else match ReadVarint(b[p..])
      case NoVarint => None
      case Varint(_, n) => SkipVarints(b, p + n, count - 1)
  }

  /** The cursor after the fields of an ACK frame: two, the range count, one, the ranges, and three ECN counts. */
  function SkipAck(b: bytes, p: nat, ecn: bool): (r: Option<nat>)
    requires p <= |b|
    ensures r.Some? ==> p < r.value <= |b|
  {
    match SkipVarints(b, p, 2)
    case None => None
    case Some(p2) =>
      match ReadVarint(b[p2..])
      case NoVarint => None
      case Varint(ranges, n) =>
        match SkipVarints(b, p2 + n, 1)
        case None => None
        case Some(p4) =>
          match SkipVarints(b, p4, 2 * ranges)
          case None => None
          case Some(p5) => if ecn then SkipVarints(b, p5, 3) else Some(p5)
  }

  /** The CRYPTO frame whose type has just been read, and the cursor after it: offset, length, that many bytes. */
  function ReadCrypto(b: bytes, p: nat): (r: Option<(CryptoFrame, nat)>)
    requires p <= |b|
    ensures r.Some? ==>
              var (f, q) := r.value; p < q - |f.data| <= q <= |b| && f.data == b[q - |f.data|..q]
  {
    match ReadVarint(b[p..])
    case NoVarint => None
    case Varint(offset, n) =>
      match ReadVarint(b[p + n..])
      case NoVarint => None
      case Varint(length, m) =>
        var q := p + n + m;
        if length > |b| - q then None else Some((CryptoFrame(offset, b[q..q + length]), q + length))
  }

  /** Every CRYPTO frame readable from position `p`; the first thing that is not a permitted frame ends it. */
  function Extract(b: bytes, p: nat): seq<CryptoFrame>
    requires p <= |b|
    decreases |b| - p
  {
    match ReadVarint(b[p..])
    case NoVarint => []
    case Varint(typ, n) =>
      if typ == PADDING || typ == PING then Extract(b, p + n)
      else if typ == ACK || typ == ACK_ECN then
        match SkipAck(b, p + n, typ == ACK_ECN)
        case None => []
        case Some(q) => Extract(b, q)
      else if typ == CRYPTO then
        match ReadCrypto(b, p + n)
        case None => []
        case Some((f, q)) => [f] + Extract(b, q)
      else []
  }

  /** Nothing is taken from a frame that has no place in an Initial, nor from anything after it. */
  lemma OtherFramesStop(b: bytes, p: nat)
    requires p <= |b|
    requires var t := ReadVarint(b[p..]);
             t.NoVarint? || (t.value != 0 && t.value != 1 && t.value != 2 && t.value != 3 && t.value != 6)
    ensures Extract(b, p) == []
  {
    hide ReadVarint, SkipAck, ReadCrypto;
  }

  /** Nor from a CRYPTO frame that the payload cuts short: in its offset, its length, or its data. */
  lemma CutCryptoStops(b: bytes, p: nat)
    requires p < |b| && b[p] == 6
    requires var o := ReadVarint(b[p + 1..]);
             || o.NoVarint?
             || var l := ReadVarint(b[p + 1 + o.n..]);
                l.NoVarint? || p + 1 + o.n + l.n + l.value > |b|
    ensures Extract(b, p) == []
  {
    OneByte(b, p);
    hide ReadVarint;
  }

  /** Nor from an ACK frame that is cut short, nor from anything after it. */
  lemma CutAckStops(b: bytes, p: nat)
    requires p < |b| && (b[p] == 2 || b[p] == 3) && SkipAck(b, p + 1, b[p] == 3).None?
    ensures Extract(b, p) == []
  {
    OneByte(b, p);
    hide ReadVarint, SkipAck;
  }

  lemma OneByte(b: bytes, p: nat)
    requires p < |b| && b[p] < 64
    ensures ReadVarint(b[p..]) == Varint(b[p], 1)
  {
    assert b[p..][1..1] == [];
    ValueOne(b[p]);
    assert [b[p] % 64] + [] == [b[p]];
  }

  /** Reads `count` varints from position `p`; `calls` counts the calls to `readVarint`. */
  method Skip(payload: bytes, p: nat, count: nat) returns (q: nat, calls: nat, ok: bool)
    requires p <= |payload|
    ensures p <= q <= |payload| && calls <= q - p + 1 && (ok ==> calls <= q - p)
    ensures SkipVarints(payload, p, count) == if ok then Some(q) else None
  {
    hide ReadVarint;
    q, calls := p, 0;
    var i := 0;
    while i < count
      invariant i <= count && p <= q <= |payload| && calls <= q - p
      invariant SkipVarints(payload, p, count) == SkipVarints(payload, q, count - i)
    {
      var _, n, got := Decode(payload[q..]);
      calls := calls + 1;
      if !got {
        return q, calls, false;
      }
      q, i := q + n, i + 1;
    }
    ok := true;
  }

  /** Reads the fields of an ACK frame from position `p`. */
  method ReadAck(payload: bytes, p: nat, ecn: bool) returns (q: nat, calls: nat, ok: bool)
    requires p <= |payload|
    ensures p <= q <= |payload| && calls <= q - p + 1 && (ok ==> calls <= q - p)
    ensures SkipAck(payload, p, ecn) == if ok then Some(q) else None
  {
    hide ReadVarint, SkipVarints;
    var more;
    q, calls, ok := Skip(payload, p, 2);
    if !ok { return; }
    var ranges, n, got := Decode(payload[q..]);
    calls := calls + 1;
    if !got { return q, calls, false; }
    q, more, ok := Skip(payload, q + n, 1);
    calls := calls + more;
    if !ok { return; }
    q, more, ok := Skip(payload, q, 2 * ranges);
    calls := calls + more;
    if !ok || !ecn { return; }
    q, more, ok := Skip(payload, q, 3);
    calls := calls + more;
  }

  /** Reads the offset, length and data of a CRYPTO frame from position `p`. */
  method ReadCryptoFrame(payload: bytes, p: nat) returns (frame: CryptoFrame, q: nat, calls: nat, ok: bool)
    requires p <= |payload|
    ensures p <= q <= |payload| && calls <= q - p + 1 && (ok ==> calls <= q - p)
    ensures ReadCrypto(payload, p) == if ok then Some((frame, q)) else None
  {
    hide ReadVarint;
    frame, q := CryptoFrame(0, []), p;
    var offset, n, ok1 := Decode(payload[q..]);
    if !ok1 { return frame, q, 1, false; }
    q := q + n;
    var length, m, ok2 := Decode(payload[q..]);
    if !ok2 { return frame, q, 2, false; }
    q := q + m;
    if length > |payload| - q { return frame, q, 2, false; }
    frame := CryptoFrame(offset, payload[q..q + length]);
    return frame, q + length, 2, true;
  }

  /**
   * `CryptoFrames`. An ACK frame may declare 2^62 ranges, yet the number of calls to `readVarint` is bounded by
   * the payload: every call but the last advances the cursor.
   */
  method CryptoFrames(payload: bytes) returns (out: seq<CryptoFrame>, calls: nat)
    ensures out == Extract(payload, 0)
    ensures calls <= |payload| + 1
  {
    hide ReadVarint, SkipAck, ReadCrypto;
    out, calls := [], 0;
    var p := 0;
    while p < |payload|
      invariant p <= |payload| && calls <= p
      invariant out + Extract(payload, p) == Extract(payload, 0)
    {
      var typ, n, ok := Decode(payload[p..]);
      calls := calls + 1;
      if !ok { return; }
      p := p + n;
      if typ == PADDING || typ == PING {
      } else if typ == ACK || typ == ACK_ECN {
        var q, more, got := ReadAck(payload, p, typ == ACK_ECN);
        calls := calls + more;
        if !got { return; }
        p := q;
      } else if typ == CRYPTO {
        var frame, q, more, got := ReadCryptoFrame(payload, p);
        calls := calls + more;
        if !got { return; }
        assert out + ([frame] + Extract(payload, q)) == (out + [frame]) + Extract(payload, q);
        out, p := out + [frame], q;
      } else if typ == CONNECTION_CLOSE || typ == CONNECTION_CLOSE_APP {
        var _, more, _ := Skip(payload, p, if typ == CONNECTION_CLOSE then 3 else 2);
        calls := calls + more;
        return;
      } else {
        // A frame type not permitted in an Initial.
        return;
      }
    }
  }

  /** Frame `f` is the slice of the payload that starts at `start`, somewhere after `p`. */
  predicate PlacedAt(b: bytes, p: nat, f: CryptoFrame, start: nat) {
    p < start <= start + |f.data| <= |b| && f.data == b[start..start + |f.data|]
  }

  /** Frames placed after `p`, in order, none overlapping another. */
  ghost predicate Placed(b: bytes, p: nat, fs: seq<CryptoFrame>, starts: seq<nat>) {
    && |starts| == |fs|
    && (forall i :: 0 <= i < |fs| ==> PlacedAt(b, p, fs[i], starts[i]))
    && (forall i, j :: 0 <= i < j < |fs| ==> starts[i] + |fs[i].data| < starts[j])
  }

  lemma PlaceOneMore(b: bytes, p: nat, q: nat, f: CryptoFrame, fs: seq<CryptoFrame>, starts: seq<nat>)
    requires |f.data| <= q && PlacedAt(b, p, f, q - |f.data|) && Placed(b, q, fs, starts)
    ensures Placed(b, p, [f] + fs, [q - |f.data|] + starts)
  {
    forall i | 0 <= i < |fs|
      ensures PlacedAt(b, p, fs[i], starts[i])
    {
      assert PlacedAt(b, q, fs[i], starts[i]);
    }
  }

  lemma PlacedEarlier(b: bytes, p: nat, q: nat, fs: seq<CryptoFrame>, starts: seq<nat>)
    requires p <= q && Placed(b, q, fs, starts)
    ensures Placed(b, p, fs, starts)
  {
    forall i | 0 <= i < |fs|
      ensures PlacedAt(b, p, fs[i], starts[i])
    {
      assert PlacedAt(b, q, fs[i], starts[i]);
    }
  }

  /** Extracted frames are disjoint in-bounds slices of the payload, in order. */
  lemma {:induction false} FramesAreDisjointSlices(b: bytes, p: nat) returns (starts: seq<nat>)
    requires p <= |b|
    ensures Placed(b, p, Extract(b, p), starts)
    decreases |b| - p
  {
    hide ReadVarint, SkipAck, ReadCrypto, Placed;
    starts := [];
    var t := ReadVarint(b[p..]);
    if t.Varint? && (t.value == PADDING || t.value == PING) {
      starts := FramesAreDisjointSlices(b, p + t.n);
      PlacedEarlier(b, p, p + t.n, Extract(b, p + t.n), starts);
    } else if t.Varint? && (t.value == ACK || t.value == ACK_ECN) && SkipAck(b, p + t.n, t.value == ACK_ECN).Some? {
      var q := SkipAck(b, p + t.n, t.value == ACK_ECN).value;
      starts := FramesAreDisjointSlices(b, q);
      PlacedEarlier(b, p, q, Extract(b, q), starts);
    } else if t.Varint? && t.value == CRYPTO && ReadCrypto(b, p + t.n).Some? {
      var (f, q) := ReadCrypto(b, p + t.n).value;
      var later := FramesAreDisjointSlices(b, q);
      PlaceOneMore(b, p, q, f, Extract(b, q), later);
      starts := [q - |f.data|] + later;
    } else {
      PlacedNone(b, p);
    }
  }

  lemma PlacedNone(b: bytes, p: nat)
    ensures Placed(b, p, [], [])
  {
  }

  // ---------------------------------------------------------------- encoder

  /** Frames an endpoint may put in an Initial (section 17.2.2 of RFC 9000), other than CONNECTION_CLOSE. */
  datatype Item =
    | Padding
    | Ping
    | Ack(largest: nat, delay: nat, first: nat, ranges: seq<nat>, ecn: Option<(nat, nat, nat)>)
    | Crypto(offset: nat, data: bytes)

  predicate AllVarints(vs: seq<nat>) {
    forall i :: 0 <= i < |vs| ==> vs[i] < MAX_VARINT
  }

  /** The counts that close an ACK frame of type 0x03. */
  function EcnCounts(e: Option<(nat, nat, nat)>): seq<nat> {
    if e.None? then [] else [e.value.0, e.value.1, e.value.2]
  }

  /** Every field fits a varint, and ACK ranges come as gap/length pairs. */
  predicate Encodable(item: Item) {
    match item
    case Padding => true
    case Ping => true
    case Ack(l, d, f, rs, e) =>
      AllVarints([l, d]) && AllVarints([f]) && AllVarints(rs) && AllVarints(EcnCounts(e)) && |rs| < MAX_VARINT
        && |rs| % 2 == 0
    case Crypto(o, data) => o < MAX_VARINT && |data| < MAX_VARINT
  }

  function EncodeAll(vs: seq<nat>): bytes
    requires AllVarints(vs)
  {
    if vs == [] then [] else Encode(vs[0]) + EncodeAll(vs[1..])
  }

  /** `CryptoFrame`: type 0x06, offset, length, data. */
  function EncodeCrypto(offset: nat, data: bytes): bytes
    requires offset < MAX_VARINT && |data| < MAX_VARINT
  {
    [CRYPTO] + (Encode(offset) + (Encode(|data|) + data))
  }

  function EncodeItem(item: Item): bytes
    requires Encodable(item)
  {
    match item
    case Padding => [PADDING]
    case Ping => [PING]
    case Ack(l, d, f, rs, e) =>
      [if e.None? then ACK else ACK_ECN]
      + (EncodeAll([l, d]) + (Encode(|rs| / 2) + (EncodeAll([f]) + (EncodeAll(rs) + EncodeAll(EcnCounts(e))))))
    case Crypto(o, data) => EncodeCrypto(o, data)
  }

  function TypeOf(item: Item): byte {
    match item
    case Padding => PADDING
    case Ping => PING
    case Ack(_, _, _, _, e) => if e.None? then ACK else ACK_ECN
    case Crypto(_, _) => CRYPTO
  }

  ghost predicate AllEncodable(items: seq<Item>) {
    forall i :: 0 <= i < |items| ==> Encodable(items[i])
  }

  ghost function EncodeItems(items: seq<Item>): bytes
    requires AllEncodable(items)
  {
    if items == [] then [] else EncodeItem(items[0]) + EncodeItems(items[1..])
  }

  /** The CRYPTO frames of a list, in order. */
  function CryptoOf(items: seq<Item>): seq<CryptoFrame> {
    if items == [] then []
    else if items[0].Crypto? then [CryptoFrame(items[0].offset, items[0].data)] + CryptoOf(items[1..])
    else CryptoOf(items[1..])
  }

  /** If what remains at `p` is `front` then `back`, then `back` is what remains after it. */
  lemma Advance(b: bytes, p: nat, front: bytes, back: bytes)
    requires p <= |b| && b[p..] == front + back
    ensures p + |front| <= |b| && b[p + |front|..] == back
  {
    assert b[p..][|front|..] == back;
    assert b[p..][|front|..] == b[p + |front|..];
  }

  lemma ReadEncoded(b: bytes, p: nat, v: nat, back: bytes)
    requires p <= |b| && v < MAX_VARINT && b[p..] == Encode(v) + back
    ensures ReadVarint(b[p..]) == Varint(v, |Encode(v)|)
    ensures p + |Encode(v)| <= |b| && b[p + |Encode(v)|..] == back
  {
    RoundTrip(v, back);
    Advance(b, p, Encode(v), back);
  }

  lemma {:induction false} SkipEncoded(b: bytes, p: nat, vs: seq<nat>, back: bytes) returns (q: nat)
    requires p <= |b| && AllVarints(vs) && b[p..] == EncodeAll(vs) + back
    ensures SkipVarints(b, p, |vs|) == Some(q) && q <= |b| && b[q..] == back
    ensures vs == [] ==> q == p
    decreases |vs|
  {
    hide Encode, ReadVarint;
    q := p;
    if vs != [] {
      assert EncodeAll(vs) + back == Encode(vs[0]) + (EncodeAll(vs[1..]) + back);
      ReadEncoded(b, p, vs[0], EncodeAll(vs[1..]) + back);
      q := SkipEncoded(b, p + |Encode(vs[0])|, vs[1..], back);
    }
  }

  lemma SkipEncodedAck(b: bytes, p: nat, l: nat, d: nat, f: nat, rs: seq<nat>, ecn: seq<nat>, back: bytes)
    returns (q: nat)
    requires p <= |b| && AllVarints([l, d]) && AllVarints([f]) && AllVarints(rs) && AllVarints(ecn)
    requires |rs| / 2 < MAX_VARINT && |rs| % 2 == 0 && (ecn == [] || |ecn| == 3)
    requires b[p..] ==
      EncodeAll([l, d]) + (Encode(|rs| / 2) + (EncodeAll([f]) + (EncodeAll(rs) + (EncodeAll(ecn) + back))))
    ensures SkipAck(b, p, ecn != []) == Some(q) && b[q..] == back
  {
    hide Encode, EncodeAll, ReadVarint, SkipVarints;
    var t5 := EncodeAll(ecn) + back;
    var t4 := EncodeAll(rs) + t5;
    var t3 := EncodeAll([f]) + t4;
    var p2 := SkipEncoded(b, p, [l, d], Encode(|rs| / 2) + t3);
    ReadEncoded(b, p2, |rs| / 2, t3);
    var p4 := SkipEncoded(b, p2 + |Encode(|rs| / 2)|, [f], t4);
    var p5 := SkipEncoded(b, p4, rs, t5);
    q := SkipEncoded(b, p5, ecn, back);
  }

  lemma ReadEncodedCrypto(b: bytes, p: nat, offset: nat, data: bytes, back: bytes) returns (q: nat)
    requires offset < MAX_VARINT && |data| < MAX_VARINT
    requires p <= |b| && b[p..] == Encode(offset) + (Encode(|data|) + (data + back))
    ensures ReadCrypto(b, p) == Some((CryptoFrame(offset, data), q)) && b[q..] == back
  {
    hide Encode, ReadVarint;
    ReadEncoded(b, p, offset, Encode(|data|) + (data + back));
    var p1 := p + |Encode(offset)|;
    ReadEncoded(b, p1, |data|, data + back);
    var p2 := p1 + |Encode(|data|)|;
    Advance(b, p2, data, back);
    q := p2 + |data|;
    assert b[p2..q] == b[p2..][..|data|] == data;
  }

  /** The type of an encoded frame is one byte, and the rest of the frame follows it. */
  lemma ReadType(b: bytes, p: nat, item: Item, back: bytes)
    requires p <= |b| && Encodable(item) && b[p..] == EncodeItem(item) + back
    ensures ReadVarint(b[p..]) == Varint(TypeOf(item), 1)
    ensures p + 1 <= |b| && b[p + 1..] == EncodeItem(item)[1..] + back
  {
    hide EncodeAll, ReadVarint, EncodeCrypto;
    var e := EncodeItem(item);
    TypeFirst(item);
    hide EncodeItem;
    assert Encode(e[0]) == [e[0]];
    assert b[p..] == [e[0]] + (e[1..] + back);
    ReadEncoded(b, p, e[0], e[1..] + back);
  }

  lemma TypeFirst(item: Item)
    requires Encodable(item)
    ensures |EncodeItem(item)| >= 1 && EncodeItem(item)[0] == TypeOf(item)
  {
    hide EncodeAll, Encode;
  }

  /** One encoded frame in front of anything contributes its CRYPTO content and is consumed exactly. */
  lemma ExtractItem(b: bytes, p: nat, item: Item, back: bytes) returns (q: nat)
    requires p <= |b| && Encodable(item) && b[p..] == EncodeItem(item) + back
    ensures q <= |b| && b[q..] == back
    ensures Extract(b, p) == CryptoOf([item]) + Extract(b, q)
  {
    ReadType(b, p, item, back);
    match item {
      case Padding =>
        q := p + 1;
        assert EncodeItem(item)[1..] + back == back;
      case Ping =>
        q := p + 1;
        assert EncodeItem(item)[1..] + back == back;
      case Ack(_, _, _, _, _) => q := ExtractAck(b, p, item, back);
      case Crypto(_, _) => q := ExtractCrypto(b, p, item, back);
    }
    NoCrypto(item);
  }

  lemma NoCrypto(item: Item)
    ensures CryptoOf([item]) == if item.Crypto? then [CryptoFrame(item.offset, item.data)] else []
  {
    assert [item][1..] == [];
  }

  lemma ExtractAck(b: bytes, p: nat, item: Item, back: bytes) returns (q: nat)
    requires item.Ack? && Encodable(item) && p + 1 <= |b| && ReadVarint(b[p..]) == Varint(TypeOf(item), 1)
    requires b[p + 1..] == EncodeItem(item)[1..] + back
    ensures q <= |b| && b[q..] == back && Extract(b, p) == Extract(b, q)
  {
    hide EncodeAll, EncodeItem, Encode, ReadVarint, SkipAck;
    AckAssoc(item, back);
    q := SkipEncodedAck(b, p + 1, item.largest, item.delay, item.first, item.ranges, EcnCounts(item.ecn), back);
  }

  lemma ExtractCrypto(b: bytes, p: nat, item: Item, back: bytes) returns (q: nat)
    requires item.Crypto? && Encodable(item) && p + 1 <= |b| && ReadVarint(b[p..]) == Varint(TypeOf(item), 1)
    requires b[p + 1..] == EncodeItem(item)[1..] + back
    ensures q <= |b| && b[q..] == back && Extract(b, p) == [CryptoFrame(item.offset, item.data)] + Extract(b, q)
  {
    hide EncodeItem, Encode, ReadVarint, ReadCrypto;
    CryptoAssoc(item.offset, item.data, back);
    q := ReadEncodedCrypto(b, p + 1, item.offset, item.data, back);
  }

  lemma AckAssoc(a: Item, back: bytes)
    requires a.Ack? && Encodable(a)
    ensures EncodeItem(a)[1..] + back ==
      EncodeAll([a.largest, a.delay]) + (Encode(|a.ranges| / 2) + (EncodeAll([a.first])
      + (EncodeAll(a.ranges) + (EncodeAll(EcnCounts(a.ecn)) + back))))
  {
    hide EncodeAll, Encode;
  }

  lemma CryptoAssoc(offset: nat, data: bytes, back: bytes)
    requires offset < MAX_VARINT && |data| < MAX_VARINT
    ensures EncodeItem(Crypto(offset, data))[1..] + back == Encode(offset) + (Encode(|data|) + (data + back))
  {
    hide Encode;
  }

  /** The decoder inverts the encoder on every list of permitted frames, and goes on with whatever follows. */
  lemma {:induction false} ExtractAfter(b: bytes, p: nat, items: seq<Item>, back: bytes) returns (q: nat)
    requires p <= |b| && AllEncodable(items) && b[p..] == EncodeItems(items) + back
    ensures q <= |b| && b[q..] == back
    ensures Extract(b, p) == CryptoOf(items) + Extract(b, q)
    decreases |items|
  {
    hide EncodeItem, Extract;
    q := p;
    if items != [] {
      var rest := EncodeItems(items[1..]) + back;
      assert b[p..] == EncodeItem(items[0]) + rest;
      var p1 := ExtractItem(b, p, items[0], rest);
      q := ExtractAfter(b, p1, items[1..], back);
      assert CryptoOf(items) == CryptoOf([items[0]]) + CryptoOf(items[1..]);
    }
  }

  lemma ExtractInvertsEncode(items: seq<Item>)
    requires AllEncodable(items)
    ensures Extract(EncodeItems(items), 0) == CryptoOf(items)
  {
    var b := EncodeItems(items);
    assert b[0..] == b + [];
    var q := ExtractAfter(b, 0, items, []);
  }

  /** Zero bytes are PADDING frames, so padding a payload leaves its CRYPTO frames as they were. */
  lemma {:induction false} ExtractZeros(b: bytes, p: nat)
    requires p <= |b| && forall i :: p <= i < |b| ==> b[i] == 0
    ensures Extract(b, p) == []
    decreases |b| - p
  {
    if p < |b| {
      assert EncodeItem(Padding) == [0] && b[p..] == [0] + b[p + 1..];
      var q := ExtractItem(b, p, Padding, b[p + 1..]);
      assert |b[q..]| == |b[p + 1..]|;
      ExtractZeros(b, q);
    }
  }

  lemma ExtractIgnoresPadding(items: seq<Item>, n: nat)
    requires AllEncodable(items)
    ensures Extract(EncodeItems(items) + Zeros(n), 0) == CryptoOf(items)
  {
    var b := EncodeItems(items) + Zeros(n);
    assert b[0..] == b;
    var q := ExtractAfter(b, 0, items, Zeros(n));
    forall i | q <= i < |b|
      ensures b[i] == 0
    {
      assert b[i] == b[q..][i - q];
    }
    ExtractZeros(b, q);
  }
}
