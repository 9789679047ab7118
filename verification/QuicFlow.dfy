/** QUIC flows: how a datagram is routed, decrypted, reassembled and parsed (internal/assemble/quic.go). */
module QuicFlow {
  import opened Bytes
  import opened Flows
  import opened Find
  import Frames
  import CryptoStream
  import Packet

  const VERSION_1 := 0x0000_0001
  const VERSION_2 := 0x6b33_43cf

  predicate Supported(version: nat) {
    version == VERSION_1 || version == VERSION_2
  }

  // ---------------------------------------------------------------- routing

  /** A four-tuple with the lower endpoint first. */
  datatype Key = Key(loAddr: Addr, hiAddr: Addr, loPort: u16, hiPort: u16)

  function MakeKey(a: Addr, ap: u16, b: Addr, bp: u16): Key {
    if a > b || (a == b && ap > bp) then Key(b, a, bp, ap) else Key(a, b, ap, bp)
  }

  /** Both directions of a connection, and nothing else, share a key. */
  lemma KeyIsUnorderedPair(a: Addr, ap: u16, b: Addr, bp: u16, c: Addr, cp: u16, d: Addr, dp: u16)
    ensures MakeKey(a, ap, b, bp) == MakeKey(c, cp, d, dp)
      <==> (a == c && ap == cp && b == d && bp == dp) || (a == d && ap == dp && b == c && bp == cp)
  {
  }

  // ---------------------------------------------------------------- one flow

  /** The fields of a `quicFlow`; `id` stands for the object's identity. */
  datatype State = State(
    id: nat, flow: Flow, version: nat, origDcid: bytes,
    client: CryptoStream.Pieces, server: CryptoStream.Pieces,
    clientAddr: Addr, clientPort: u16,
    haveCH: bool, haveSH: bool, emitted: bool, rejected: bool)

  /** A received datagram. */
  datatype Datagram = Datagram(src: Addr, sport: u16, dst: Addr, dport: u16, payload: bytes, ts: int)

  /** The key a datagram is routed by. */
  function KeyOf(g: Datagram): Key {
    MakeKey(g.src, g.sport, g.dst, g.dport)
  }

  /**
   * The first Initial of a connection fixes the client and the connection ID that both directions' keys derive from.
   */
  function Opened(id: nat, g: Datagram, h: Packet.LongHeader): State {
    State(id, Flow(true, g.src, g.sport, g.dst, g.dport, g.ts, g.ts, None, None, false), h.version, h.dcid,
          CryptoStream.EMPTY, CryptoStream.EMPTY, g.src, g.sport, false, false, false, false)
  }

  function Emit(f: State, e: Shared): (State, Shared) {
    if f.emitted || f.flow.client.None? then (f, e)
    else (f.(emitted := true), Emitted(e, f.id, f.flow))
  }

  function LatchClient(f: State): State {
    if f.haveCH then f
    else match FindClientHelloRaw(CryptoStream.Contiguous(f.client))
      case Hit(ch) => f.(haveCH := true, flow := f.flow.(client := Some(ch)))
      case _ => f
  }

  function LatchServer(f: State, e: Shared): (State, Shared) {
    if !f.haveCH || f.haveSH then (f, e)
    else match FindServerHelloRaw(CryptoStream.Contiguous(f.server))
      case Hit(sh) =>
        var f' := f.(haveSH := true, flow := f.flow.(server := Some(sh)));
        if sh.flightComplete then Emit(f', e) else (f', e)
      case _ => (f, e)
  }

  function Parse(f: State, e: Shared): (State, Shared) {
    LatchServer(LatchClient(f), e)
  }

  predicate FromClient(f: State, g: Datagram) {
    g.src == f.clientAddr && g.sport == f.clientPort
  }

  /** Frames go to the stream of the side that sent them. */
  function AddFrames(f: State, fromClient: bool, frames: seq<Frames.CryptoFrame>): State {
    if fromClient then f.(client := CryptoStream.AddedAll(f.client, frames))
    else f.(server := CryptoStream.AddedAll(f.server, frames))
  }

  /** Initial key derivation: version, original connection ID, and whether the server's keys are wanted. */
  type Derive = (nat, bytes, bool) -> Option<Packet.Keys>

  ghost predicate LawfulDerive(derive: Derive) {
    forall v, d, s :: derive(v, d, s).Some? ==> Packet.Lawful(derive(v, d, s).value)
  }

  /** An Initial for a flow that is tracked: decrypt, collect frames, parse again. */
  ghost function Receive(derive: Derive, f: State, e: Shared, g: Datagram, h: Packet.LongHeader): (State, Shared)
    requires LawfulDerive(derive) && 0 < h.pnOffset && h.end <= |g.payload|
  {
    if f.rejected || f.emitted then (f, e)
    else
      var f1 := f.(flow := f.flow.SeenAt(g.ts));
      match derive(f.version, f.origDcid, !FromClient(f, g))
      case None => (f1.(rejected := true), e)
      case Some(k) =>
        match Packet.Opened(g.payload, h, k)
        case Err(_) => (f1, e)
        case Ok((_, plaintext)) => Parse(AddFrames(f1, FromClient(f, g), Frames.Extract(plaintext, 0)), e)
  }

  /** A datagram is worth tracking exactly when it opens with an Initial of one of the two versions with known keys. */
  lemma TrackedIff(payload: bytes, h: Packet.LongHeader)
    ensures Initial(payload) == Some(h)
      <==> Packet.ParseLongHeader(payload) == Packet.Ok(h) && h.typ == 0 && (h.version == 1 || h.version == 0x6b3343cf)
  {
    hide Packet.ParseLongHeader;
  }

  /** The header of a datagram worth tracking: a long-header Initial of a version whose keys are known. */
  function Initial(payload: bytes): (h: Option<Packet.LongHeader>)
    ensures h.Some? ==> 0 < h.value.pnOffset && h.value.end <= |payload|
  {
    match Packet.ParseLongHeader(payload)
    case Err(_) => None
    case Ok(h) => if h.typ == Packet.INITIAL && Supported(h.version) then Some(h) else None
  }
}
