/**
 * QUIC Initial packets: the passive decoder (internal/quic/packet.go and the nonce and mask of keys.go) against the
 * independent generator (internal/tlssynth/quic.go). The AEAD and the header-protection cipher are parameters.
 */
module Packet {
  import opened Bytes
  import Varint

  // ---------------------------------------------------------------- exclusive or

  /** Bitwise exclusive or. */
  function Xor(a: nat, b: nat): nat
    decreases a + b
  {
    if a == 0 && b == 0 then 0 else 2 * Xor(a / 2, b / 2) + (if a % 2 != b % 2 then 1 else 0)
  }

  /** Exclusive or works on the low bit and on the rest separately. */
  lemma XorBits(a: nat, b: nat)
    ensures Xor(a, b) / 2 == Xor(a / 2, b / 2)
    ensures Xor(a, b) % 2 == if a % 2 != b % 2 then 1 else 0
  {
  }

  lemma {:induction false} XorUndo(a: nat, b: nat)
    ensures Xor(Xor(a, b), b) == a
    decreases a + b
  {
    if a == 0 && b == 0 {
      assert Xor(0, 0) == 0;
    } else {
      XorUndo(a / 2, b / 2);
      XorBits(a, b);
      XorBits(Xor(a, b), b);
      hide Xor;
    }
  }

  lemma {:induction false} XorZero(a: nat)
    ensures Xor(a, 0) == a
  {
    if a != 0 {
      XorZero(a / 2);
    }
  }

  lemma {:induction false} XorBelow(a: nat, b: nat, k: nat)
    requires a < Pow2(k) && b < Pow2(k)
    ensures Xor(a, b) < Pow2(k)
    decreases k
  {
    if k > 0 {
      XorBelow(a / 2, b / 2, k - 1);
      XorBits(a, b);
    }
  }

  function Pow2(k: nat): (p: nat)
    ensures p > 0
  {
    if k == 0 then 1 else 2 * Pow2(k - 1)
  }

  lemma Pow2Of8()
    ensures Pow2(8) == 256
  {
    assert Pow2(4) == 2 * Pow2(3) == 4 * Pow2(2);
    assert Pow2(8) == 2 * Pow2(7) == 4 * Pow2(6);
    assert Pow2(6) == 2 * Pow2(5) == 4 * Pow2(4);
  }

  function XorByte(a: byte, b: byte): byte {
    Pow2Of8();
    XorBelow(a, b, 8);
    Xor(a, b)
  }

  /** A number halved `k` times: its bits from position `k` on. */
  function Half(x: nat, k: nat): nat {
    if k == 0 then x else Half(x / 2, k - 1)
  }

  /** Every bit of the result tells whether the two bits differ. */
  lemma XorByteBit(a: byte, b: byte, k: nat)
    ensures Half(XorByte(a, b), k) % 2 == if Half(a, k) % 2 != Half(b, k) % 2 then 1 else 0
  {
    XorTail(a, b, k);
    XorBits(Half(a, k), Half(b, k));
  }

  lemma XorByteZero(a: byte)
    ensures XorByte(a, 0) == a
  {
    XorZero(a);
  }

  lemma {:induction false} XorZeroLeft(b: nat)
    ensures Xor(0, b) == b
  {
    if b != 0 {
      XorZeroLeft(b / 2);
    }
  }

  lemma XorByteUndo(a: byte, b: byte)
    ensures XorByte(XorByte(a, b), b) == a
  {
    XorUndo(a, b);
  }

  /** A mask below 16 leaves the high nibble alone. */
  lemma XorLowNibble(a: byte, m: byte)
    requires m < 16
    ensures XorByte(a, m) / 16 == a / 16
  {
    hide Xor;
    Quarter(a, m);
    Quarter(a / 4, m / 4);
    XorZero(a / 4 / 4);
    Sixteenth(a);
    Sixteenth(XorByte(a, m));
  }

  lemma Quarter(a: nat, m: nat)
    ensures Xor(a, m) / 4 == Xor(a / 4, m / 4)
  {
    hide Xor;
    XorBits(a, m);
    XorBits(a / 2, m / 2);
    assert a / 2 / 2 == a / 4 && m / 2 / 2 == m / 4 && Xor(a, m) / 2 / 2 == Xor(a, m) / 4;
  }

  lemma Sixteenth(x: nat)
    ensures x / 4 / 4 == x / 16
  {
  }

  // ---------------------------------------------------------------- keys

  /** Initial keys of one direction. `seal(nonce, plaintext, ad)`, `open(nonce, ciphertext, ad)`, `hp(sample)`. */
  datatype Keys = Keys(
    seal: (bytes, bytes, bytes) -> bytes,
    open: (bytes, bytes, bytes) -> Option<bytes>,
    hp: bytes -> bytes,
    iv: bytes)

  /** What AES-128-GCM and the AES block give: a 16-byte tag, opening undoes sealing, a 16-byte mask, a 12-byte IV. */
  ghost predicate Lawful(k: Keys) {
    && |k.iv| == 12
    && (forall n, p, a :: |k.seal(n, p, a)| == |p| + 16)
    && (forall n, p, a :: k.open(n, k.seal(n, p, a), a) == Some(p))
    && (forall s :: |k.hp(s)| == 16)
  }

  /** Some cipher is lawful: one that only appends a tag. */
  lemma LawfulKeysExist()
    ensures exists k :: Lawful(k)
  {
    var open := (n: bytes, c: bytes, a: bytes) => if |c| < 16 then None else Some(c[..|c| - 16]);
    var k := Keys((n, p, a) => p + Zeros(16), open, s => Zeros(16), Zeros(12));
    forall n, p, a
      ensures k.open(n, k.seal(n, p, a), a) == Some(p)
    {
      assert (p + Zeros(16))[..|p|] == p;
    }
    assert Lawful(k);
  }

  /** The IV with the packet number folded into its last eight bytes (section 5.3 of RFC 9001). */
  function Nonce(iv: bytes, packetNumber: nat): bytes
    requires |iv| >= 8
  {
    iv[..|iv| - 8] + BigEndian(8, Xor(Value(iv[|iv| - 8..]), packetNumber))
  }

  // ---------------------------------------------------------------- decoder

  const INITIAL := 0
  const RETRY := 3
  const MAX_CONN_ID := 20
  const SAMPLE_OFFSET := 4
  const SAMPLE_LEN := 16

  datatype Error = NotQuic | Truncated | UnsupportedVersion | Unauthentic
  datatype Result<+T> = Ok(value: T) | Err(error: Error)

  datatype LongHeader = LongHeader(
    typ: nat, version: nat, dcid: bytes, scid: bytes, token: bytes, pnOffset: nat, length: nat, end: nat)

  predicate IsLongHeader(b: bytes) {
    |b| > 0 && b[0] >= 0xc0
  }

  /** A length byte and that many bytes, at most 20; the cursor moves past them. */
  function ReadConnId(b: bytes, p: nat): (r: Option<(bytes, nat)>)
    ensures r.Some? ==> p < r.value.1 <= |b|
  {
    if p >= |b| || b[p] > MAX_CONN_ID || p + 1 + b[p] > |b| then None
    else Some((b[p + 1..p + 1 + b[p]], p + 1 + b[p]))
  }

  /** A varint and, for a token, the bytes it counts. */
  function ReadToken(b: bytes, p: nat): (r: Option<(bytes, nat)>)
    requires p <= |b|
    ensures r.Some? ==> p < r.value.1 <= |b|
  {
    match Varint.ReadVarint(b[p..])
    case NoVarint => None
    case Varint(n, size) =>
      var q := p + size;
      if n > |b| - q then None else Some((b[q..q + n], q + n))
  }

  /** The length field, the last before the packet number. */
  function ReadLength(b: bytes, p: nat, h: LongHeader): (r: Result<LongHeader>)
    requires p <= |b|
    ensures r.Ok? ==> p < r.value.pnOffset <= r.value.end <= |b| && r.value.typ == h.typ
  {
    match Varint.ReadVarint(b[p..])
    case NoVarint => Err(Truncated)
    case Varint(length, size) =>
      var q := p + size;
      if q + length > |b| then Err(Truncated) else Ok(h.(pnOffset := q, length := length, end := q + length))
  }

  /** What follows the connection IDs depends on the packet type: Retry has neither length nor packet number. */
  function AfterConnIds(b: bytes, p: nat, typ: nat, version: nat, dcid: bytes, scid: bytes): (r: Result<LongHeader>)
    requires p <= |b|
    ensures r.Ok? ==> r.value.end <= |b| && (r.value.typ != RETRY ==> 0 < r.value.pnOffset <= r.value.end)
  {
    if typ == RETRY then Ok(LongHeader(typ, version, dcid, scid, [], 0, 0, |b|))
    else if typ == INITIAL then
      match ReadToken(b, p)
      case None => Err(Truncated)
      case Some((token, q)) => ReadLength(b, q, LongHeader(typ, version, dcid, scid, token, 0, 0, 0))
    else ReadLength(b, p, LongHeader(typ, version, dcid, scid, [], 0, 0, 0))
  }

  function ParseLongHeader(b: bytes): (r: Result<LongHeader>)
    ensures r.Ok? ==> r.value.end <= |b| && (r.value.typ != RETRY ==> 0 < r.value.pnOffset <= r.value.end)
  {
    if !IsLongHeader(b) then Err(NotQuic)
    else if |b| < 7 then Err(Truncated)
    else if Value(b[1..5]) == 0 then Err(UnsupportedVersion)
    else
      match ReadConnId(b, 5)
      case None => Err(Truncated)
      case Some((dcid, p)) =>
        match ReadConnId(b, p)
        case None => Err(Truncated)
        case Some((scid, q)) => AfterConnIds(b, q, b[0] / 16 % 4, Value(b[1..5]), dcid, scid)
  }

  /** Header protection, applied or removed: the low nibble of the first byte, and the packet number bytes. */
  function Masked(pkt: bytes, pnOffset: nat, pnLen: nat, mask: bytes): (m: bytes)
    requires 0 < pnOffset && pnLen <= 4 && |mask| >= 5
    ensures |m| == |pkt|
  {
    seq(|pkt|, i requires 0 <= i < |pkt| =>
      if i == 0 then XorByte(pkt[0], mask[0] % 16)
      else if pnOffset <= i < pnOffset + pnLen then XorByte(pkt[i], mask[1 + i - pnOffset])
      else pkt[i])
  }

  /** `Open`, for a header of this datagram that has a packet number. */
  function Opened(d: bytes, h: LongHeader, k: Keys): Result<(nat, bytes)>
    requires 0 < h.pnOffset && h.end <= |d| && |k.iv| >= 8 && forall s :: |k.hp(s)| == 16
  {
    if h.pnOffset + SAMPLE_OFFSET + SAMPLE_LEN > |d| then Err(Truncated)
    else
      var mask := k.hp(d[h.pnOffset + SAMPLE_OFFSET..h.pnOffset + SAMPLE_OFFSET + SAMPLE_LEN]);
      var pnLen := XorByte(d[0], mask[0] % 16) % 4 + 1;
      if h.pnOffset + pnLen > h.end then Err(Truncated)
      else
        var header := Masked(d[..h.pnOffset + pnLen], h.pnOffset, pnLen, mask);
        Finish(k, Value(header[h.pnOffset..]), d[h.pnOffset + pnLen..h.end], header)
  }

  /** Decryption proper: the packet number selects the nonce, the unprotected header is the associated data. */
  function Finish(k: Keys, packetNumber: nat, ciphertext: bytes, header: bytes): Result<(nat, bytes)>
    requires |k.iv| >= 8
  {
    var plaintext := k.open(Nonce(k.iv, packetNumber), ciphertext, header);
    if plaintext.None? then Err(Unauthentic) else Ok((packetNumber, plaintext.value))
  }

  /**
   * A packet too short for the mask sample, or for its own packet number, is truncated; one the AEAD refuses, forged.
   */
  lemma OpenRefuses(d: bytes, h: LongHeader, k: Keys)
    requires 0 < h.pnOffset && h.end <= |d| && |k.iv| >= 8 && forall s :: |k.hp(s)| == 16
    ensures h.pnOffset + 20 > |d| || h.pnOffset + 1 > h.end ==> Opened(d, h, k) == Err(Truncated)
    ensures Opened(d, h, k).Err? ==> Opened(d, h, k).error == Truncated || Opened(d, h, k).error == Unauthentic
  {
    hide XorByte, Masked, Nonce, Value;
  }

  /** The loop of `Open`: unmasks the packet number bytes of a header copy and accumulates the number. */
  method Unmask(copied: bytes, pnOffset: nat, mask: bytes) returns (header: bytes, packetNumber: nat)
    requires 0 < pnOffset <= |copied| <= pnOffset + 4 && |mask| >= 5
    ensures header == Masked(copied, pnOffset, |copied| - pnOffset, mask)
    ensures packetNumber == Value(header[pnOffset..])
  {
    hide XorByte, Value;
    ghost var goal := Masked(copied, pnOffset, |copied| - pnOffset, mask);
    header, packetNumber := copied[0 := XorByte(copied[0], mask[0] % 16)], 0;
    ValueNone();
    assert goal[pnOffset..pnOffset] == [];
    for i := pnOffset to |copied|
      invariant |header| == |copied|
      invariant forall j :: 0 <= j < |copied| ==> header[j] == if j < i then goal[j] else copied[j]
      invariant packetNumber == Value(goal[pnOffset..i])
    {
      var x := XorByte(header[i], mask[1 + i - pnOffset]);
      assert goal[pnOffset..i + 1] == goal[pnOffset..i] + [x];
      ValueSnoc(goal[pnOffset..i], x);
      header, packetNumber := header[i := x], packetNumber * 256 + x;
    }
    assert header == goal;
    assert goal[pnOffset..|copied|] == goal[pnOffset..];
  }

  method Open(d: bytes, h: LongHeader, k: Keys) returns (r: Result<(nat, bytes)>)
    requires 0 < h.pnOffset && h.end <= |d| && |k.iv| >= 8 && forall s :: |k.hp(s)| == 16
    ensures r == Opened(d, h, k)
  {
    hide XorByte, Value, Nonce, Masked;
    if h.pnOffset + SAMPLE_OFFSET + SAMPLE_LEN > |d| {
      return Err(Truncated);
    }
    var mask := k.hp(d[h.pnOffset + SAMPLE_OFFSET..h.pnOffset + SAMPLE_OFFSET + SAMPLE_LEN]);
    var first := XorByte(d[0], mask[0] % 16);
    var pnLen := first % 4 + 1;
    if h.pnOffset + pnLen > h.end {
      return Err(Truncated);
    }
    var header, packetNumber := Unmask(d[..h.pnOffset + pnLen], h.pnOffset, mask);
    var plaintext := k.open(Nonce(k.iv, packetNumber), d[h.pnOffset + pnLen..h.end], header);
    if plaintext.None? {
      return Err(Unauthentic);
    }
    return Ok((packetNumber, plaintext.value));
  }

  lemma ValueNone()
    ensures Value([]) == 0
  {
  }

  // ---------------------------------------------------------------- packets on the wire

  /** What an Initial says in the clear besides its length: version, connection IDs, token. */
  datatype Wire = Wire(version: nat, dcid: bytes, scid: bytes, token: bytes)

  predicate WireOk(w: Wire) {
    && 0 < w.version < 0x1_0000_0000 && |w.dcid| <= 20 && |w.scid| <= 20 && |w.token| < Varint.MAX_VARINT
  }

  /** The version and both connection IDs, each behind its length, and then the rest. */
  function AfterFirst(version: nat, dcid: bytes, scid: bytes, rest: bytes): (f: bytes)
    ensures |f| == 6 + |dcid| + |scid| + |rest|
  {
    BigEndian(4, version) + ([|dcid| % 256] + (dcid + ([|scid| % 256] + (scid + rest))))
  }

  /** The cleartext fields after the first byte of an Initial. */
  function Fields(w: Wire, length: nat): (f: bytes)
    requires |w.token| < Varint.MAX_VARINT && length < Varint.MAX_VARINT
    ensures |f| == 6 + |w.dcid| + |w.scid| + |Varint.Encode(|w.token|)| + |w.token| + |Varint.Encode(length)|
  {
    AfterFirst(w.version, w.dcid, w.scid, Varint.Encode(|w.token|) + (w.token + Varint.Encode(length)))
  }

  /** The unprotected header of an Initial whose packet number takes `n` bytes. */
  function Header(w: Wire, n: nat, packetNumber: nat, length: nat): bytes
    requires |w.token| < Varint.MAX_VARINT && length < Varint.MAX_VARINT && 1 <= n <= 4
  {
    [0xc0 + (n - 1)] + Fields(w, length) + BigEndian(n, packetNumber)
  }

  function PnOffset(w: Wire, length: nat): nat
    requires |w.token| < Varint.MAX_VARINT && length < Varint.MAX_VARINT
  {
    1 + |Fields(w, length)|
  }

  /** The length field counts the packet number, the payload and the tag, and the mask sample must be there. */
  predicate Sizes(w: Wire, n: nat, payload: bytes) {
    && |w.token| < Varint.MAX_VARINT && 1 <= n <= 4 && n + |payload| >= 4 && n + |payload| + 16 < Varint.MAX_VARINT
  }

  /** The packet before masking, and what the mask is sampled from. */
  function Sealed(k: Keys, w: Wire, n: nat, pn: nat, payload: bytes): (pkt: bytes)
    requires |k.iv| >= 8 && Sizes(w, n, payload) && forall n, p, a :: |k.seal(n, p, a)| == |p| + 16
    ensures |pkt| == PnOffset(w, n + |payload| + 16) + n + |payload| + 16
  {
    var header := Header(w, n, pn, n + |payload| + 16);
    header + k.seal(Nonce(k.iv, pn), payload, header)
  }

  /** A protected Initial: the mask is taken from the sealed packet and applied in place (section 5.4 of RFC 9001). */
  function Protected(k: Keys, w: Wire, n: nat, packetNumber: nat, payload: bytes): bytes
    requires |k.iv| >= 8 && Sizes(w, n, payload)
    requires (forall n, p, a :: |k.seal(n, p, a)| == |p| + 16) && forall s :: |k.hp(s)| == 16
  {
    var pkt := Sealed(k, w, n, packetNumber, payload);
    var pnOffset := PnOffset(w, n + |payload| + 16);
    Masked(pkt, pnOffset, n, k.hp(pkt[pnOffset + 4..pnOffset + 20]))
  }

  // ---------------------------------------------------------------- generator

  const PN_LEN := 2

  /** The packet number, the payload and the tag are counted by one varint. */
  const MAX_PAYLOAD := Varint.MAX_VARINT - 18

  /** Version 1 and no token: all that the generator writes. */
  function Plain(dcid: bytes, scid: bytes): Wire {
    Wire(1, dcid, scid, [])
  }

  /** `QUICInitial` once the payload is padded: a two-byte packet number. */
  function Initial(k: Keys, dcid: bytes, scid: bytes, packetNumber: nat, payload: bytes): bytes
    requires |k.iv| >= 8 && 2 <= |payload| < MAX_PAYLOAD
    requires (forall n, p, a :: |k.seal(n, p, a)| == |p| + 16) && forall s :: |k.hp(s)| == 16
  {
    Protected(k, Plain(dcid, scid), PN_LEN, packetNumber, payload)
  }

  /** What the generator counts around the frames: it takes the length field to be two bytes long. */
  function Overhead(dcid: bytes, scid: bytes): nat {
    1 + 4 + 1 + |dcid| + 1 + |scid| + 1 + 2 + PN_LEN + 16
  }

  /** The frames, followed by the PADDING that should bring the finished packet to `padTo`. */
  function Padded(dcid: bytes, scid: bytes, frames: bytes, padTo: int): bytes {
    var n := padTo - Overhead(dcid, scid) - |frames|;
    if padTo > 0 && n > 0 then frames + Zeros(n) else frames
  }

  /**
   * Padding reaches its target except where the length field is a single byte: then a packet that was to be `padTo`
   * bytes long is one byte short. The 1200 bytes of a client's first Initial are always reached.
   */
  lemma PaddingReaches(k: Keys, dcid: bytes, scid: bytes, pn: nat, frames: bytes, padTo: int)
    requires Lawful(k) && 2 <= |Padded(dcid, scid, frames, padTo)| < MAX_PAYLOAD
    ensures var size := |Initial(k, dcid, scid, pn, Padded(dcid, scid, frames, padTo))|;
            var wanted := padTo - Overhead(dcid, scid);
            && (size >= padTo <==> wanted < |frames| || wanted >= 46)
            && (size < padTo ==> size == padTo - 1)
            && (padTo == 1200 && |dcid| <= MAX_CONN_ID && |scid| <= MAX_CONN_ID ==> size >= 1200)
  {
    hide Nonce, Header, BigEndian, Fields, AfterFirst;
    assert Varint.Encode(0) == [0];
  }

  /** The two statements that mask a finished packet in place. */
  method Protect(pkt: array<byte>, pnOffset: nat, mask: bytes)
    requires 0 < pnOffset && pnOffset + PN_LEN <= pkt.Length && |mask| >= 5
    modifies pkt
    ensures pkt[..] == Masked(old(pkt[..]), pnOffset, PN_LEN, mask)
  {
    hide Xor;
    pkt[0] := XorByte(pkt[0], mask[0] % 16);
    for i := 0 to PN_LEN
      invariant pkt[0] == XorByte(old(pkt[0]), mask[0] % 16)
      invariant forall j :: 0 < j < pkt.Length ==>
                  pkt[j] == if pnOffset <= j < pnOffset + i then XorByte(old(pkt[j]), mask[1 + j - pnOffset])
                            else old(pkt[j])
    {
      pkt[pnOffset + i] := XorByte(pkt[pnOffset + i], mask[1 + i]);
    }
  }

  // ---------------------------------------------------------------- reading headers

  lemma ReadsConnId(b: bytes, p: nat, cid: bytes, back: bytes)
    requires |cid| <= 20 && p <= |b| && b[p..] == [|cid| % 256] + (cid + back)
    ensures ReadConnId(b, p) == Some((cid, p + 1 + |cid|)) && b[p + 1 + |cid|..] == back
  {
    assert b[p] == b[p..][0] == |cid|;
    assert b[p + 1..] == b[p..][1..] == cid + back;
    assert b[p + 1..p + 1 + |cid|] == b[p + 1..][..|cid|] == cid;
    assert b[p + 1 + |cid|..] == b[p + 1..][|cid|..] == back;
  }

  lemma ReadsToken(b: bytes, p: nat, token: bytes, back: bytes)
    requires |token| < Varint.MAX_VARINT && p <= |b| && b[p..] == Varint.Encode(|token|) + (token + back)
    ensures var q := p + |Varint.Encode(|token|)| + |token|;
            q <= |b| && ReadToken(b, p) == Some((token, q)) && b[q..] == back
  {
    hide Varint.Encode, Varint.ReadVarint;
    var e := Varint.Encode(|token|);
    Varint.RoundTrip(|token|, token + back);
    assert b[p + |e|..] == b[p..][|e|..] == token + back;
    assert b[p + |e|..p + |e| + |token|] == b[p + |e|..][..|token|] == token;
    assert b[p + |e| + |token|..] == b[p + |e|..][|token|..] == back;
  }

  lemma ReadsLength(b: bytes, p: nat, length: nat, back: bytes, h: LongHeader)
    requires length < Varint.MAX_VARINT && p <= |b| && b[p..] == Varint.Encode(length) + back && length <= |back|
    ensures var q := p + |Varint.Encode(length)|;
            ReadLength(b, p, h) == Ok(h.(pnOffset := q, length := length, end := q + length))
  {
    hide Varint.Encode, Varint.ReadVarint;
    Varint.RoundTrip(length, back);
  }

  lemma FirstFive(first: byte, version: nat, rest: bytes, b: bytes)
    requires b == [first] + (BigEndian(4, version) + rest)
    ensures b[0] == first && b[1..5] == BigEndian(4, version) && b[5..] == rest
  {
    hide BigEndian;
  }

  lemma VersionReads(version: nat)
    requires version < 0x1_0000_0000
    ensures Value(BigEndian(4, version)) == version
  {
    assert Pow256(1) == 256 && Pow256(2) == 0x10000;
    assert Pow256(4) == 256 * Pow256(3) == 0x10000 * Pow256(2);
    ValueBigEndian(4, version);
  }

  /** Up to the connection IDs every long header is read alike; what follows depends on the type bits. */
  lemma ReadsFront(first: byte, version: nat, dcid: bytes, scid: bytes, rest: bytes)
    requires first >= 0xc0 && 0 < version < 0x1_0000_0000 && |dcid| <= 20 && |scid| <= 20
    ensures var b := [first] + AfterFirst(version, dcid, scid, rest);
            var p := 7 + |dcid| + |scid|;
            && p <= |b| && b[p..] == rest
            && ParseLongHeader(b) == AfterConnIds(b, p, first / 16 % 4, version, dcid, scid)
  {
    hide Value, ReadConnId, AfterConnIds, BigEndian;
    var l2 := [|scid| % 256] + (scid + rest);
    var l3 := [|dcid| % 256] + (dcid + l2);
    var b := [first] + AfterFirst(version, dcid, scid, rest);
    FirstFive(first, version, l3, b);
    VersionReads(version);
    ReadsConnId(b, 5, dcid, l2);
    ReadsConnId(b, 6 + |dcid|, scid, rest);
  }

  /** What the parser must report about an Initial of this length field. */
  function WireHeader(w: Wire, length: nat): LongHeader
    requires |w.token| < Varint.MAX_VARINT && length < Varint.MAX_VARINT
  {
    var o := PnOffset(w, length);
    LongHeader(INITIAL, w.version, w.dcid, w.scid, w.token, o, length, o + length)
  }

  /** An Initial of any version, with any token, in front of anything: the cursor passes every field. */
  lemma ParsesInitial(first: byte, w: Wire, length: nat, back: bytes)
    requires first / 16 == 0xc && WireOk(w) && length < Varint.MAX_VARINT && length <= |back|
    ensures ParseLongHeader([first] + Fields(w, length) + back) == Ok(WireHeader(w, length))
  {
    hide Varint.Encode, ParseLongHeader, AfterFirst, ReadToken, ReadLength;
    var tail := Varint.Encode(length) + back;
    var rest := Varint.Encode(|w.token|) + (w.token + tail);
    FieldsThen(w, length, back);
    var b := [first] + AfterFirst(w.version, w.dcid, w.scid, rest);
    assert [first] + Fields(w, length) + back == b;
    ReadsFront(first, w.version, w.dcid, w.scid, rest);
    var p := 7 + |w.dcid| + |w.scid|;
    ReadsToken(b, p, w.token, tail);
    var q := p + |Varint.Encode(|w.token|)| + |w.token|;
    ReadsLength(b, q, length, back, LongHeader(INITIAL, w.version, w.dcid, w.scid, w.token, 0, 0, 0));
  }

  lemma FieldsThen(w: Wire, length: nat, back: bytes)
    requires |w.token| < Varint.MAX_VARINT && length < Varint.MAX_VARINT
    ensures Fields(w, length) + back
         == AfterFirst(w.version, w.dcid, w.scid,
                       Varint.Encode(|w.token|) + (w.token + (Varint.Encode(length) + back)))
  {
    hide Varint.Encode, BigEndian;
  }

  /** 0-RTT and Handshake packets have no token: the length follows the connection IDs. */
  lemma ParsesOther(first: byte, version: nat, dcid: bytes, scid: bytes, length: nat, back: bytes)
    requires first / 16 == 0xd || first / 16 == 0xe
    requires 0 < version < 0x1_0000_0000 && |dcid| <= 20 && |scid| <= 20
    requires length < Varint.MAX_VARINT && length <= |back|
    ensures var o := 7 + |dcid| + |scid| + |Varint.Encode(length)|;
            ParseLongHeader([first] + AfterFirst(version, dcid, scid, Varint.Encode(length) + back))
            == Ok(LongHeader(first / 16 - 0xc, version, dcid, scid, [], o, length, o + length))
  {
    hide Varint.Encode, ParseLongHeader, AfterFirst, ReadToken, ReadLength;
    var rest := Varint.Encode(length) + back;
    var b := [first] + AfterFirst(version, dcid, scid, rest);
    ReadsFront(first, version, dcid, scid, rest);
    ReadsLength(b, 7 + |dcid| + |scid|, length, back, LongHeader(first / 16 - 0xc, version, dcid, scid, [], 0, 0, 0));
  }

  /** A Retry takes the rest of the datagram and has neither length nor packet number. */
  lemma ParsesRetry(first: byte, version: nat, dcid: bytes, scid: bytes, rest: bytes)
    requires first >= 0xf0 && 0 < version < 0x1_0000_0000 && |dcid| <= 20 && |scid| <= 20
    ensures var b := [first] + AfterFirst(version, dcid, scid, rest);
            ParseLongHeader(b) == Ok(LongHeader(3, version, dcid, scid, [], 0, 0, |b|))
  {
    hide ParseLongHeader, AfterFirst;
    ReadsFront(first, version, dcid, scid, rest);
  }

  /** What is no packet of any version, and why: no long header, too short for one, or Version Negotiation. */
  lemma Refuses(b: bytes)
    ensures |b| == 0 || b[0] < 0xc0 ==> ParseLongHeader(b) == Err(NotQuic)
    ensures 0 < |b| < 7 && b[0] >= 0xc0 ==> ParseLongHeader(b) == Err(Truncated)
    ensures |b| >= 7 && b[0] >= 0xc0 && b[1..5] == [0, 0, 0, 0] ==> ParseLongHeader(b) == Err(UnsupportedVersion)
  {
    hide AfterConnIds, Value;
    if |b| >= 7 {
      VersionZero(b[1], b[2], b[3], b[4]);
      assert b[1..5] == [b[1], b[2], b[3], b[4]];
    }
  }

  /** A connection ID of at most twenty bytes with its length in front. */
  predicate ConnIdAt(b: bytes, p: nat) {
    p < |b| && b[p] <= 20 && p + 1 + b[p] as int <= |b|
  }

  /** A varint, in any of its forms, and as many bytes as it counts. */
  predicate Counted(rest: bytes) {
    Varint.ReadVarint(rest).Varint? && Varint.ReadVarint(rest).value <= |rest| - Varint.ReadVarint(rest).n
  }

  /** The bytes it counts, and what is behind them. */
  function CountedBytes(rest: bytes): bytes
    requires Counted(rest)
  {
    rest[Varint.ReadVarint(rest).n..][..Varint.ReadVarint(rest).value]
  }

  function BehindCounted(rest: bytes): bytes
    requires Counted(rest)
  {
    rest[Varint.ReadVarint(rest).n..][Varint.ReadVarint(rest).value..]
  }

  /** A long header up to its connection IDs. */
  predicate FrontFits(b: bytes) {
    && |b| >= 7 && b[0] >= 0xc0 && b[1..5] != [0, 0, 0, 0] && ConnIdAt(b, 5) && ConnIdAt(b, 6 + b[5] as int)
  }

  /** Where the connection IDs end. */
  function FrontEnd(b: bytes): (p: nat)
    requires FrontFits(b)
    ensures p <= |b|
  {
    var q := 6 + b[5] as int;
    q + 1 + b[q] as int
  }

  lemma FrontRead(b: bytes)
    requires FrontFits(b)
    ensures var q := 6 + b[5] as int;
            ParseLongHeader(b)
            == AfterConnIds(b, FrontEnd(b), b[0] as int / 16 - 0xc, Value(b[1..5]), b[6..q], b[q + 1..FrontEnd(b)])
  {
    hide AfterConnIds, Value;
    VersionZero(b[1], b[2], b[3], b[4]);
    assert b[1..5] == [b[1], b[2], b[3], b[4]];
  }

  lemma FrontRefused(b: bytes)
    requires |b| >= 7 && b[0] >= 0xc0 && b[1..5] != [0, 0, 0, 0] && !FrontFits(b)
    ensures ParseLongHeader(b) == Err(Truncated)
  {
    hide AfterConnIds, Value;
    VersionZero(b[1], b[2], b[3], b[4]);
    assert b[1..5] == [b[1], b[2], b[3], b[4]];
  }

  lemma LengthRead(b: bytes, p: nat, h: LongHeader)
    requires p <= |b|
    ensures if Counted(b[p..])
            then var v := Varint.ReadVarint(b[p..]);
                 ReadLength(b, p, h) == Ok(h.(pnOffset := p + v.n, length := v.value, end := p + v.n + v.value))
            else ReadLength(b, p, h) == Err(Truncated)
  {
    hide Varint.ReadVarint;
  }

  lemma TokenRead(b: bytes, p: nat)
    requires p <= |b|
    ensures if Counted(b[p..])
            then var q := |b| - |BehindCounted(b[p..])|;
                 ReadToken(b, p) == Some((CountedBytes(b[p..]), q)) && q <= |b| && b[q..] == BehindCounted(b[p..])
            else ReadToken(b, p) == None
  {
    hide Varint.ReadVarint;
    if Counted(b[p..]) {
      var v := Varint.ReadVarint(b[p..]);
      assert b[p..][v.n..] == b[p + v.n..];
      assert b[p + v.n..][..v.value] == b[p + v.n..p + v.n + v.value];
      assert b[p + v.n..][v.value..] == b[p + v.n + v.value..];
    }
  }

  /**
   * On any bytes with a long header of a version: it is accepted if and only if its connection IDs fit, then for an
   * Initial a token and a counted rest, for 0-RTT and Handshake a counted rest, for Retry anything; otherwise it is
   * truncated. The token is what its varint counts, and the packet ends where its length says.
   */
  lemma AcceptedIff(b: bytes)
    requires |b| >= 7 && b[0] >= 0xc0 && b[1..5] != [0, 0, 0, 0]
    ensures ParseLongHeader(b).Err? ==> ParseLongHeader(b).error == Truncated
    ensures ParseLongHeader(b).Ok? <==>
              && FrontFits(b)
              && var rest := b[FrontEnd(b)..];
                 b[0] >= 0xf0 || (Counted(rest) && (b[0] >= 0xd0 || Counted(BehindCounted(rest))))
    ensures ParseLongHeader(b).Ok? ==>
              var h, rest := ParseLongHeader(b).value, b[FrontEnd(b)..];
              && (b[0] < 0xd0 ==> h.token == CountedBytes(rest))
              && (b[0] >= 0xd0 ==> h.token == [])
              && h.end == |b| - (if b[0] >= 0xf0 then 0
                                 else if b[0] >= 0xd0 then |BehindCounted(rest)|
                                 else |BehindCounted(BehindCounted(rest))|)
  {
    hide ParseLongHeader, ReadToken, ReadLength, Value, Counted, CountedBytes;
    if !FrontFits(b) {
      FrontRefused(b);
    } else {
      FrontRead(b);
      var p, rest := FrontEnd(b), b[FrontEnd(b)..];
      TokenRead(b, p);
      var q := 6 + b[5] as int;
      var h := LongHeader(b[0] as int / 16 - 0xc, Value(b[1..5]), b[6..q], b[q + 1..p], [], 0, 0, 0);
      if b[0] >= 0xd0 {
        LengthRead(b, p, h);
      } else if Counted(rest) {
        LengthRead(b, |b| - |BehindCounted(rest)|, h.(token := CountedBytes(rest)));
      }
    }
  }

  lemma VersionZero(a: byte, b: byte, c: byte, d: byte)
    ensures Value([a, b, c, d]) == 0 <==> [a, b, c, d] == [0, 0, 0, 0]
  {
    assert [a] + [b] == [a, b] && [a, b] + [c] == [a, b, c] && [a, b, c] + [d] == [a, b, c, d];
    ValueOne(a);
    ValueSnoc([a], b);
    ValueSnoc([a, b], c);
    ValueSnoc([a, b, c], d);
  }

  // ---------------------------------------------------------------- masking

  /** Masking twice with the same mask restores a packet. */
  lemma MaskTwice(pkt: bytes, pnOffset: nat, pnLen: nat, mask: bytes)
    requires 0 < pnOffset && pnLen <= 4 && |mask| >= 5
    ensures Masked(Masked(pkt, pnOffset, pnLen, mask), pnOffset, pnLen, mask) == pkt
  {
    hide XorByte;
    var m := Masked(pkt, pnOffset, pnLen, mask);
    forall i | 0 <= i < |pkt|
      ensures Masked(m, pnOffset, pnLen, mask)[i] == pkt[i]
    {
      if i == 0 {
        XorByteUndo(pkt[0], mask[0] % 16);
      } else if pnOffset <= i < pnOffset + pnLen {
        XorByteUndo(pkt[i], mask[1 + i - pnOffset]);
      }
    }
  }

  /** Masking works byte by byte, so it commutes with cutting a packet short and leaves the rest of it alone. */
  lemma MaskPrefix(pkt: bytes, n: nat, pnOffset: nat, pnLen: nat, mask: bytes)
    requires 0 < pnOffset && pnLen <= 4 && |mask| >= 5 && pnOffset + pnLen <= n <= |pkt|
    ensures Masked(pkt, pnOffset, pnLen, mask)[..n] == Masked(pkt[..n], pnOffset, pnLen, mask)
    ensures Masked(pkt, pnOffset, pnLen, mask)[n..] == pkt[n..]
  {
    hide XorByte;
  }

  /** A masked packet: its first byte changes in the low nibble only, and nothing changes before the packet number. */
  lemma MaskedFront(pkt: bytes, o: nat, n: nat, mask: bytes)
    requires 0 < o && o + n <= |pkt| && |mask| >= 5 && n <= 4
    ensures var m := Masked(pkt, o, n, mask); m == [m[0]] + pkt[1..o] + m[o..] && m[0] / 16 == pkt[0] / 16
  {
    hide XorByte;
    XorLowNibble(pkt[0], mask[0] % 16);
  }

  /** The header of the sample packet in section A.2 of RFC 9001, before its protection. */
  const SAMPLE_HEADER: bytes :=
    [0xc3, 0, 0, 0, 1, 8, 0x83, 0x94, 0xc8, 0xf0, 0x3e, 0x51, 0x57, 8, 0, 0, 0x44, 0x9e, 0, 0, 0, 2]

  /** With the mask given there it is protected to what is given there. */
  lemma SampleOfRfc9001()
    ensures Masked(SAMPLE_HEADER, 18, 4, [0x43, 0x7b, 0x9a, 0xec, 0x36])
         == [0xc0] + SAMPLE_HEADER[1..18] + [0x7b, 0x9a, 0xec, 0x34]
  {
    hide XorByte;
    SampleBytes();
    var header := SAMPLE_HEADER;
    var mask := [0x43, 0x7b, 0x9a, 0xec, 0x36];
    var m := Masked(header, 18, 4, mask);
    assert header[18..22] == [0, 0, 0, 2] && |header| == 22;
    hide SAMPLE_HEADER;
    assert m[18] == XorByte(header[18..22][0], mask[1]) && m[19] == XorByte(header[18..22][1], mask[2]);
    assert m[20] == XorByte(header[18..22][2], mask[3]) && m[21] == XorByte(header[18..22][3], mask[4]);
    assert m[18..] == [0x7b, 0x9a, 0xec, 0x34];
    assert m[1..18] == header[1..18];
    assert m == [m[0]] + m[1..18] + m[18..];
  }

  lemma SampleBytes()
    ensures XorByte(0xc3, 3) == 0xc0 && XorByte(0, 0x7b) == 0x7b && XorByte(0, 0x9a) == 0x9a
    ensures XorByte(0, 0xec) == 0xec && XorByte(2, 0x36) == 0x34
  {
    XorZeroLeft(0x7b);
    XorZeroLeft(0x9a);
    XorZeroLeft(0xec);
    XorZero(0x30);
    XorZeroLeft(0xd);
    XorStep(0x61, 1);
    XorStep(0xc3, 3);
    XorStep(1, 0x1b);
    XorStep(2, 0x36);
    hide Xor;
  }

  lemma XorStep(a: nat, b: nat)
    ensures Xor(a, b) == 2 * Xor(a / 2, b / 2) + (if a % 2 != b % 2 then 1 else 0)
  {
    assert Xor(0, 0) == 0;
  }

  // ---------------------------------------------------------------- the nonce

  /** The low `k` bits of a number. */
  function Low(x: nat, k: nat): nat {
    if k == 0 then 0 else 2 * Low(x / 2, k - 1) + x % 2
  }

  /** Exclusive or works on the low bits and on the others separately. */
  lemma {:induction false} XorTail(a: nat, b: nat, k: nat)
    ensures Half(Xor(a, b), k) == Xor(Half(a, k), Half(b, k)) && Low(Xor(a, b), k) == Xor(Low(a, k), Low(b, k))
    decreases k
  {
    if k > 0 {
      XorBits(a, b);
      XorTail(a / 2, b / 2, k - 1);
      XorStep(Low(a, k), Low(b, k));
      hide Xor;
      assert Low(a, k) / 2 == Low(a / 2, k - 1) && Low(a, k) % 2 == a % 2;
      assert Low(b, k) / 2 == Low(b / 2, k - 1) && Low(b, k) % 2 == b % 2;
    } else {
      assert Xor(0, 0) == 0;
    }
  }

  /** Two bits at a time. */
  lemma TwoBits(x: nat, k: nat)
    ensures Half(x, k + 2) == Half(x / 4, k) && Low(x, k + 2) == 4 * Low(x / 4, k) + x % 4
  {
    assert Half(x, k + 2) == Half(x / 2, k + 1) == Half(x / 2 / 2, k) && x / 2 / 2 == x / 4;
    assert Low(x, k + 2) == 2 * Low(x / 2, k + 1) + x % 2;
    assert Low(x / 2, k + 1) == 2 * Low(x / 2 / 2, k) + x / 2 % 2;
    hide Half, Low;
    assert x % 4 == 2 * (x / 2 % 2) + x % 2;
  }

  lemma Eighth(x: nat)
    ensures Half(x, 8) == x / 256 && Low(x, 8) == x % 256
  {
    hide Half, Low;
    var y, z, u := x / 4, x / 16, x / 64;
    assert y / 4 == z && z / 4 == u && u / 4 == x / 256;
    TwoBits(x, 6);
    TwoBits(y, 4);
    TwoBits(z, 2);
    TwoBits(u, 0);
    NoBits(u / 4);
    assert x % 16 == 4 * (y % 4) + x % 4;
    assert x % 64 == 16 * (z % 4) + x % 16;
    assert x % 256 == 64 * (u % 4) + x % 64;
  }

  lemma NoBits(x: nat)
    ensures Half(x, 0) == x && Low(x, 0) == 0
  {
  }

  /** One byte of an exclusive or, and the rest of it. */
  lemma XorLastByte(a: nat, b: nat)
    ensures Xor(a, b) / 256 == Xor(a / 256, b / 256) && Xor(a, b) % 256 == Xor(a % 256, b % 256)
  {
    hide Xor, Half, Low;
    XorTail(a, b, 8);
    Eighth(a);
    Eighth(b);
    Eighth(Xor(a, b));
  }

  /** The bytes of an exclusive or are the exclusive ors of the bytes. */
  lemma {:induction false} XorBigEndian(n: nat, a: bytes, v: nat)
    requires |a| == n
    ensures forall i :: 0 <= i < n ==> BigEndian(n, Xor(Value(a), v))[i] == XorByte(a[i], BigEndian(n, v)[i])
  {
    if n > 0 {
      var front, last := a[..n - 1], a[n - 1];
      XorBigEndian(n - 1, front, v / 256);
      XorLastByte(Value(a), v);
      assert Value(a) == Value(front) * 256 + last;
      hide Xor, Value;
    }
  }

  /** The nonce is the IV exclusive-or the packet number, padded on the left to the IV's length. */
  lemma NonceIsXor(iv: bytes, pn: nat)
    requires |iv| >= 8
    ensures |Nonce(iv, pn)| == |iv|
    ensures forall i :: 0 <= i < |iv| ==>
              Nonce(iv, pn)[i] == XorByte(iv[i], (Zeros(|iv| - 8) + BigEndian(8, pn))[i])
  {
    hide Xor, Value, BigEndian;
    var k := |iv| - 8;
    XorBigEndian(8, iv[k..], pn);
    forall i | 0 <= i < |iv|
      ensures Nonce(iv, pn)[i] == XorByte(iv[i], (Zeros(k) + BigEndian(8, pn))[i])
    {
      if i < k {
        XorByteZero(iv[i]);
      } else {
        assert iv[k..][i - k] == iv[i];
      }
    }
  }

  // ---------------------------------------------------------------- opening undoes protecting

  lemma SealedFront(k: Keys, w: Wire, n: nat, pn: nat, payload: bytes)
    requires |k.iv| >= 8 && Sizes(w, n, payload) && forall n, p, a :: |k.seal(n, p, a)| == |p| + 16
    ensures var pkt := Sealed(k, w, n, pn, payload);
            pkt[0] == 0xc0 + (n - 1) && pkt[1..PnOffset(w, n + |payload| + 16)] == Fields(w, n + |payload| + 16)
  {
    hide Fields, Nonce, BigEndian;
  }

  /** A protected packet in front of anything: where it ends, and what its header says. */
  lemma ProtectedParses(k: Keys, w: Wire, n: nat, pn: nat, payload: bytes, tail: bytes)
    requires Lawful(k) && WireOk(w) && Sizes(w, n, payload)
    ensures |Protected(k, w, n, pn, payload)| == WireHeader(w, n + |payload| + 16).end
    ensures ParseLongHeader(Protected(k, w, n, pn, payload) + tail) == Ok(WireHeader(w, n + |payload| + 16))
  {
    hide Fields, ParseLongHeader, Sealed, Masked, PnOffset, Nonce, Varint.Encode, WireHeader;
    var length := n + |payload| + 16;
    var o := PnOffset(w, length);
    var clear := Sealed(k, w, n, pn, payload);
    SealedFront(k, w, n, pn, payload);
    HeaderEnds(w, length);
    MaskedParses(clear, w, n, length, k.hp(clear[o + 4..o + 20]), tail);
  }

  lemma HeaderEnds(w: Wire, length: nat)
    requires |w.token| < Varint.MAX_VARINT && length < Varint.MAX_VARINT
    ensures WireHeader(w, length).pnOffset == PnOffset(w, length) > 0
    ensures WireHeader(w, length).end == PnOffset(w, length) + length && WireHeader(w, length).typ == INITIAL
  {
  }

  lemma MaskedParses(clear: bytes, w: Wire, n: nat, length: nat, mask: bytes, tail: bytes)
    requires WireOk(w) && 1 <= n <= 4 && n <= length < Varint.MAX_VARINT && |mask| >= 5
    requires |clear| == PnOffset(w, length) + length && clear[0] == 0xc0 + (n - 1)
    requires clear[1..PnOffset(w, length)] == Fields(w, length)
    ensures ParseLongHeader(Masked(clear, PnOffset(w, length), n, mask) + tail) == Ok(WireHeader(w, length))
  {
    hide Fields, ParseLongHeader, Masked, WireHeader;
    var o := PnOffset(w, length);
    MaskedFront(clear, o, n, mask);
    ParsesFront(Masked(clear, o, n, mask), w, length, tail);
  }

  lemma ParsesFront(pkt: bytes, w: Wire, length: nat, tail: bytes)
    requires WireOk(w) && length < Varint.MAX_VARINT
    requires |pkt| == PnOffset(w, length) + length && pkt[0] / 16 == 12
    requires pkt == [pkt[0]] + Fields(w, length) + pkt[PnOffset(w, length)..]
    ensures ParseLongHeader(pkt + tail) == Ok(WireHeader(w, length))
  {
    hide Fields, ParseLongHeader, WireHeader;
    var back := pkt[PnOffset(w, length)..] + tail;
    assert pkt + tail == [pkt[0]] + Fields(w, length) + back;
    ParsesInitial(pkt[0], w, length, back);
  }

  /**
   * What `Open` sees of a protected packet: the length of the packet number from the two bits that carry it, the
   * associated data and the ciphertext exactly as sealed, and the packet number truncated to the bytes on the wire.
   * The mask sample never overlaps a masked byte.
   */
  lemma OpenSees(k: Keys, w: Wire, n: nat, pn: nat, payload: bytes, tail: bytes)
    requires Lawful(k) && WireOk(w) && Sizes(w, n, payload)
    ensures |Protected(k, w, n, pn, payload)| == WireHeader(w, n + |payload| + 16).end
    ensures 0 < WireHeader(w, n + |payload| + 16).pnOffset
    ensures var header := Header(w, n, pn, n + |payload| + 16);
            Opened(Protected(k, w, n, pn, payload) + tail, WireHeader(w, n + |payload| + 16), k)
            == Finish(k, Value(BigEndian(n, pn)), k.seal(Nonce(k.iv, pn), payload, header), header)
  {
    hide XorByte, Fields, Nonce, Value, Masked, Finish, BigEndian, Opened, WireHeader;
    var length := n + |payload| + 16;
    var o := PnOffset(w, length);
    var header := Header(w, n, pn, length);
    var sealed := k.seal(Nonce(k.iv, pn), payload, header);
    var mask := k.hp((header + sealed)[o + 4..o + 20]);
    HeaderEnds(w, length);
    OnTheWire(header, sealed, o, n, mask, tail);
    assert header[o..] == BigEndian(n, pn);
    OpenedFrom(k, Protected(k, w, n, pn, payload) + tail, WireHeader(w, length), n, header, sealed, mask);
  }

  /** Opening a packet of which these are the masked header, the mask and the ciphertext. */
  lemma OpenedFrom(k: Keys, d: bytes, h: LongHeader, n: nat, header: bytes, sealed: bytes, mask: bytes)
    requires Lawful(k) && 1 <= n <= 4 && 0 < h.pnOffset && |header| == h.pnOffset + n && |mask| == 16
    requires h.end == h.pnOffset + n + |sealed| <= |d| && h.pnOffset + 20 <= |d|
    requires mask == k.hp(d[h.pnOffset + 4..h.pnOffset + 20]) && XorByte(d[0], mask[0] % 16) == 0xc0 + (n - 1)
    requires d[..h.pnOffset + n] == Masked(header, h.pnOffset, n, mask) && d[h.pnOffset + n..h.end] == sealed
    ensures Opened(d, h, k) == Finish(k, Value(header[h.pnOffset..]), sealed, header)
  {
    hide XorByte, Value, Masked, Finish;
    MaskTwice(header, h.pnOffset, n, mask);
  }

  /** A masked packet as an observer holds it: the header masked, the sample and the ciphertext as they were sealed. */
  lemma OnTheWire(header: bytes, sealed: bytes, o: nat, n: nat, mask: bytes, tail: bytes)
    requires 0 < o && 1 <= n <= 4 && |header| == o + n && n + |sealed| >= 20 && |mask| >= 5
             && header[0] == 0xc0 + (n - 1)
    ensures var clear := header + sealed;
            var d := Masked(clear, o, n, mask) + tail;
            && d[..o + n] == Masked(header, o, n, mask)
            && d[o + 4..o + 20] == clear[o + 4..o + 20]
            && d[o + n..o + n + |sealed|] == sealed
            && XorByte(d[0], mask[0] % 16) == 0xc0 + (n - 1)
  {
    hide XorByte, Masked;
    var clear := header + sealed;
    var pkt := Masked(clear, o, n, mask);
    var d := pkt + tail;
    MaskPrefix(clear, o + n, o, n, mask);
    assert clear[..o + n] == header && clear[o + n..] == sealed;
    assert d[o + 4..o + 20] == pkt[o + n..][4 - n..20 - n];
    assert clear[o + 4..o + 20] == clear[o + n..][4 - n..20 - n];
    assert d[..o + n] == pkt[..o + n];
    FirstByte(header, o, n, mask);
    assert d[0] == d[..o + n][0];
  }

  /** Unmasking the first byte of a protected header gives back the length bits of the packet number. */
  lemma FirstByte(header: bytes, o: nat, n: nat, mask: bytes)
    requires 0 < o && |mask| >= 5 && 1 <= n <= 4 && |header| > 0 && header[0] == 0xc0 + (n - 1)
    ensures XorByte(Masked(header, o, n, mask)[0], mask[0] % 16) == 0xc0 + (n - 1)
  {
    hide XorByte;
    XorByteUndo(header[0], mask[0] % 16);
  }

  /**
   * Opening undoes protecting, for packet numbers of one to four bytes, any version, any token and whatever follows in
   * the datagram: the header, the exact end, the number modulo what its bytes can carry, and the payload.
   */
  lemma OpenUndoesProtected(k: Keys, w: Wire, n: nat, pn: nat, payload: bytes, tail: bytes)
    requires Lawful(k) && WireOk(w) && Sizes(w, n, payload) && pn < Pow256(n)
    ensures ReadInitial(Protected(k, w, n, pn, payload) + tail, k)
         == Ok((WireHeader(w, n + |payload| + 16), pn, payload))
    ensures |Protected(k, w, n, pn, payload)| == WireHeader(w, n + |payload| + 16).end
  {
    hide ParseLongHeader, Opened, Protected, Nonce, Header, WireHeader, BigEndian, Value;
    ProtectedParses(k, w, n, pn, payload, tail);
    OpenSees(k, w, n, pn, payload, tail);
    HeaderEnds(w, n + |payload| + 16);
    ValueBigEndian(n, pn);
  }

  /** In particular `Open` undoes `QUICInitial`, for every packet number its two bytes can carry. */
  lemma OpenUndoesInitial(k: Keys, dcid: bytes, scid: bytes, pn: nat, payload: bytes, tail: bytes)
    requires Lawful(k) && |dcid| <= MAX_CONN_ID && |scid| <= MAX_CONN_ID && pn < 0x10000
    requires 2 <= |payload| < MAX_PAYLOAD
    ensures ReadInitial(Initial(k, dcid, scid, pn, payload) + tail, k)
         == Ok((WireHeader(Plain(dcid, scid), |payload| + 18), pn, payload))
    ensures |Initial(k, dcid, scid, pn, payload)| == WireHeader(Plain(dcid, scid), |payload| + 18).end
  {
    hide Protected, WireHeader, ReadInitial;
    assert Pow256(2) == 256 * Pow256(1) == 0x10000;
    OpenUndoesProtected(k, Plain(dcid, scid), 2, pn, payload, tail);
  }

  /** Parsing a datagram and opening its first packet, as long as it is an Initial. */
  function ReadInitial(d: bytes, k: Keys): Result<(LongHeader, nat, bytes)>
    requires |k.iv| >= 8 && forall s :: |k.hp(s)| == 16
  {
    match ParseLongHeader(d)
    case Err(e) => Err(e)
    case Ok(h) =>
      if h.typ != INITIAL then Err(NotQuic)
      else match Opened(d, h, k)
        case Err(e) => Err(e)
        case Ok((pn, payload)) => Ok((h, pn, payload))
  }
}
