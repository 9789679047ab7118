/**
 * From a ClientHello specification to the flow that reports it, through every layer in between: the generators of
 * internal/tlssynth print it, the network cuts, repeats and reorders it, and the assembler must read it back.
 */
module EndToEnd {
  import opened Bytes
  import opened Flows
  import opened Find
  import Records
  import ClientHello
  import ServerHello
  import Synth
  import ServerSynth
  import TcpStream
  import TcpRuns
  import Frames
  import Varint
  import CryptoStream
  import Packet
  import QuicFlow
  import Assembler
  import AssemblerRuns
  import AssemblerReports
  import Isolation
  import Settling

  /** The handshake message of a spec. */
  function MessageOf(s: Synth.Spec): Records.Message
    requires Synth.Build(s).Some?
  {
    Records.Message(CLIENT_HELLO, Synth.Build(s).value)
  }

  /** Its bytes, as they travel in CRYPTO frames or inside records. */
  function WireOf(s: Synth.Spec): bytes
    requires Synth.Build(s).Some?
  {
    Records.HandshakeMsg(MessageOf(s))
  }

  lemma OneMessage(s: Synth.Spec)
    requires Synth.Build(s).Some? && |Synth.Build(s).value| < 0x100_0000
    ensures Records.Split(WireOf(s)) == [MessageOf(s)]
    ensures FirstClientHello([MessageOf(s)]) == Hit(Synth.Expected(s))
  {
    hide Synth.Build, Synth.Expected, Records.Split, Records.HandshakeMsg, ClientHello.ParseClientHello;
    var m := MessageOf(s);
    assert Records.HandshakeMsg(m) + [] == Records.HandshakeMsg(m);
    Records.SplitMessage(m, []);
    Records.SplitNothing();
    assert [m] + [] == [m];
    Synth.RoundTrip(s);
  }

  // ---------------------------------------------------------------- TCP

  /**
   * A ClientHello printed from any spec, wrapped in records of any size, and cut into TCP segments in any way, with
   * anything interleaved from the other side, is latched as the spec says; its sender is the client.
   */
  lemma TcpEndToEnd(s: Synth.Spec, chunk: nat, max: nat, id: nat, created: Flow, e: Shared,
                    events: seq<TcpRuns.Event>, d: TcpStream.Dir)
    requires Synth.Build(s).Some? && |Synth.Build(s).value| < 0x100_0000 && 0 < chunk <= Records.MAX_PAYLOAD
    requires created.client.None?
    requires Records.PrintRecords(Records.HANDSHAKE, WireOf(s), chunk) <= TcpRuns.Retained(max, events, d)
    requires FindClientHello(TcpRuns.Retained(max, events, d)) != NotTls
    requires TcpRuns.NeverHits(TcpRuns.Retained(max, events, TcpStream.Other(d)))
    ensures var st := TcpRuns.Run(max, TcpStream.Fresh(id, false, created), e, events).0;
            && st.haveCH && st.client == d && st.flow.client == Some(Synth.Expected(s))
            && TcpRuns.Faces(st.flow, created, d == TcpStream.Backward)
  {
    hide Synth.Build, Synth.Expected, Records.PrintRecords, TcpRuns.Run, TcpRuns.Retained, TcpRuns.NeverHits,
      FindClientHello, WireOf;
    ClientReads(s, chunk, TcpRuns.Retained(max, events, d));
    TcpRuns.SegmentationIrrelevant(max, id, created, e, events, d);
  }

  /** An application-data header of 65535 bytes, as no TLS peer sends it. */
  const OVERSIZED: bytes := [23, 3, 3, 255, 255]

  /**
   * Where segmentation does matter: any printed ClientHello followed by an oversized header. In one segment with it the
   * stream is rejected and the ClientHello lost; cut in front of the header, it is latched.
   */
  lemma OversizedHeaderLosesClient(s: Synth.Spec, chunk: nat, max: nat, id: nat, created: Flow, e: Shared, junk: bytes)
    requires Synth.Build(s).Some? && |Synth.Build(s).value| < 0x100_0000 && 0 < chunk <= Records.MAX_PAYLOAD
    requires created.client.None? && FindClientHello(junk) == NotTls && TcpStream.MIN_BEFORE_REJECT <= |junk| <= max
    requires |Records.PrintRecords(Records.HANDSHAKE, WireOf(s), chunk)| + 5 <= max
    ensures var a, b := Records.PrintRecords(Records.HANDSHAKE, WireOf(s), chunk), OVERSIZED;
            var st := TcpStream.Fresh(id, false, created);
            var whole := TcpRuns.Run(max, st, e, Settling.JunkThen(junk, [a + b])).0;
            var cut := TcpRuns.Run(max, st, e, Settling.JunkThen(junk, [a, b])).0;
            && whole.rejected && whole.flow.client.None?
            && !cut.rejected && cut.flow.client == Some(Synth.Expected(s))
  {
    hide Synth.Build, Synth.Expected, FindClientHello, Records.PrintRecords, TcpRuns.Run, WireOf;
    PrintedReads(s, chunk);
    PrintedThenOversized(s, chunk);
    Settling.CutDecidesRejection(max, id, created, e, junk,
                                 Records.PrintRecords(Records.HANDSHAKE, WireOf(s), chunk), OVERSIZED);
  }

  lemma PrintedThenOversized(s: Synth.Spec, chunk: nat)
    requires Synth.Build(s).Some? && |Synth.Build(s).value| < 0x100_0000 && 0 < chunk <= Records.MAX_PAYLOAD
    ensures var a := Records.PrintRecords(Records.HANDSHAKE, WireOf(s), chunk);
            FindClientHello(a + OVERSIZED) == NotTls && |a| >= TcpStream.MIN_BEFORE_REJECT
  {
    hide Synth.Build, Records.Coalesce, Records.PrintRecords, Records.PrintAll, Records.Chunks, FirstClientHello;
    var wire := WireOf(s);
    Records.ChunksPrint(wire, chunk);
    var rs := Records.Chunks(wire, chunk);
    ChunksOpen(wire, chunk);
    Records.CoalesceRecords(rs, OVERSIZED, true);
    Settling.BadCoalesces(OVERSIZED, false);
    Records.PrintRecordsSize(Records.HANDSHAKE, wire, chunk);
    BuildSize(s);
  }

  lemma ChunksOpen(payload: bytes, chunk: nat)
    requires payload != [] && chunk > 0
    ensures Records.Chunks(payload, chunk) != [] && Records.Opens(Records.Chunks(payload, chunk)[0])
  {
  }

  lemma BuildSize(s: Synth.Spec)
    requires Synth.Build(s).Some?
    ensures |Synth.Build(s).value| >= 34
  {
    hide Synth.Items, Synth.Block;
  }

  // ---------------------------------------------------------------- TCP, both sides

  /** Nothing after these bytes belongs to the handshake: application data, or only ChangeCipherSpec and alerts. */
  predicate Silent(tail: bytes) {
    Records.Coalesce(tail, false) == Some([])
  }

  /** One message in records of any size, and then nothing of the handshake. */
  lemma OneMessageStream(m: Records.Message, chunk: nat, tail: bytes)
    requires |m.body| < 0x100_0000 && 0 < chunk <= Records.MAX_PAYLOAD && Silent(tail)
    ensures Records.Coalesce(Records.PrintRecords(Records.HANDSHAKE, Records.HandshakeMsg(m), chunk) + tail, true)
         == Some(Records.HandshakeMsg(m))
  {
    var wire := Records.HandshakeMsg(m);
    Records.ChunksPrint(wire, chunk);
    hide Records.Coalesce, Records.HandshakeMsg, Records.PrintRecords, Records.PrintAll;
    var rs := Records.Chunks(wire, chunk);
    Records.CoalesceRecords(rs, tail, true);
    assert wire + [] == wire;
  }

  /** However much of such a stream has arrived, it reads as no message or as that message. */
  lemma PrefixMessages(m: Records.Message, sent: bytes, n: nat)
    requires |m.body| < 0x100_0000 && n <= |sent| && Records.Coalesce(sent, true) == Some(Records.HandshakeMsg(m))
    ensures Records.HandshakeMessages(sent[..n]) == Some([]) || Records.HandshakeMessages(sent[..n]) == Some([m])
    ensures n == |sent| ==> Records.HandshakeMessages(sent[..n]) == Some([m])
  {
    hide Records.Coalesce, Records.HandshakeMsg, Records.Split;
    assert sent[..n] + sent[n..] == sent;
    Records.CoalesceExtends(sent[..n], sent[n..], true);
    var got := Records.Coalesce(sent[..n], true).value;
    Records.SplitExtends(got, Records.HandshakeMsg(m));
    assert Records.HandshakeMsg(m) + [] == Records.HandshakeMsg(m);
    Records.SplitMessage(m, []);
    Records.SplitNothing();
    assert [m] + [] == [m];
    var ms := Records.Split(got);
    assert ms <= [m] && ms == [m][..|ms|];
    assert ms == [] || ms == [m];
    if n == |sent| {
      assert sent[..n] == sent;
    }
  }

  /** A ServerHello on its own settles on one answer, and never looks like a ClientHello. */
  lemma HelloSettles(m: Records.Message, sent: bytes, reply: ServerHello.Reply)
    requires |m.body| < 0x100_0000 && Records.Coalesce(sent, true) == Some(Records.HandshakeMsg(m))
    requires m.typ != CLIENT_HELLO && FirstServerHello([m]) == Hit(reply)
    ensures TcpRuns.Settles(sent, reply) && TcpRuns.NeverHits(sent)
  {
    hide Records.Coalesce, Records.HandshakeMsg, Records.Split, Records.HandshakeMessages, FirstServerHello;
    NothingInNoMessages(m);
    forall n: nat | n <= |sent|
      ensures FindServerHello(sent[..n]) == Nothing || FindServerHello(sent[..n]) == Hit(reply)
      ensures FindClientHello(sent[..n]) == Nothing
    {
      PrefixMessages(m, sent, n);
    }
    PrefixMessages(m, sent, |sent|);
    assert sent[..|sent|] == sent;
  }

  lemma NothingInNoMessages(m: Records.Message)
    requires m.typ != CLIENT_HELLO
    ensures FirstServerHello([]) == Nothing && FirstClientHello([]) == Nothing && FirstClientHello([m]) == Nothing
  {
    assert [m][1..] == [];
  }

  /** The reply a TLS 1.3 ServerHello is reported as: the spec read back, and the end of what is visible. */
  function VisibleReply(r: ServerSynth.Spec): ServerHello.Reply {
    ServerSynth.Expected(r).(flightComplete := true)
  }

  lemma ReplyAlone(r: ServerSynth.Spec)
    requires ServerSynth.Build(r).Some? && !r.retry && ServerHello.Tls13(ServerSynth.Expected(r))
    ensures FirstServerHello([Records.Message(SERVER_HELLO, ServerSynth.Build(r).value)]) == Hit(VisibleReply(r))
  {
    hide ServerSynth.Build, FirstServerHello, ServerSynth.Random;
    var m := Records.Message(SERVER_HELLO, ServerSynth.Build(r).value);
    assert [m][1..] == [];
    ServerSynth.HelloThen([m], r);
  }

  /** Both hellos of a TLS 1.3 handshake, as printed from their specs and as the two directions delivered them. */
  ghost predicate OnTheWire(s: Synth.Spec, chunk: nat, r: ServerSynth.Spec, serverChunk: nat, tail: bytes,
                            max: nat, events: seq<TcpRuns.Event>, d: TcpStream.Dir) {
    && Synth.Build(s).Some? && |Synth.Build(s).value| < 0x100_0000 && 0 < chunk <= Records.MAX_PAYLOAD
    && ServerSynth.Build(r).Some? && |ServerSynth.Build(r).value| < 0x100_0000 && 0 < serverChunk <= Records.MAX_PAYLOAD
    && !r.retry && ServerHello.Tls13(ServerSynth.Expected(r)) && Silent(tail)
    && Records.PrintRecords(Records.HANDSHAKE, WireOf(s), chunk) <= TcpRuns.Retained(max, events, d)
    && FindClientHello(TcpRuns.Retained(max, events, d)) != NotTls
    && TcpRuns.Retained(max, events, TcpStream.Other(d)) == ServerRecords(r, serverChunk) + tail
  }

  function ServerRecords(r: ServerSynth.Spec, chunk: nat): bytes
    requires ServerSynth.Build(r).Some?
  {
    Records.PrintRecords(Records.HANDSHAKE,
      Records.HandshakeMsg(Records.Message(SERVER_HELLO, ServerSynth.Build(r).value)), chunk)
  }

  /**
   * A TLS 1.3 handshake, both hellos printed from any specs and wrapped in records of any size, the two directions cut
   * into segments and interleaved in any way: the handler is called exactly once, by the time the bytes are in, with
   * both hellos as specified and the endpoints the right way round, and the close that follows adds nothing.
   */
  lemma HandshakeEndToEnd(s: Synth.Spec, chunk: nat, r: ServerSynth.Spec, serverChunk: nat, tail: bytes,
                          max: nat, id: nat, created: Flow, e: Shared, events: seq<TcpRuns.Event>, d: TcpStream.Dir)
    requires OnTheWire(s, chunk, r, serverChunk, tail, max, events, d) && created.client.None? && created.server.None?
    ensures var (st, e') := TcpRuns.Run(max, TcpStream.Fresh(id, false, created), e, events);
            && st.flow.client == Some(Synth.Expected(s)) && st.flow.server == Some(VisibleReply(r))
            && TcpRuns.Faces(st.flow, created, d == TcpStream.Backward)
            && e'.log == e.log + [Emission(st.id, st.flow)]
            && TcpStream.Complete(st, e').1.log == e'.log
  {
    hide Synth.Build, Synth.Expected, Records.PrintRecords, TcpRuns.Run, TcpRuns.Retained, TcpRuns.NeverHits,
      FindClientHello, WireOf, TcpRuns.Settles, ServerSynth.Build, ServerSynth.Expected, Silent, Records.Coalesce,
      Records.HandshakeMsg, FirstServerHello;
    var m := Records.Message(SERVER_HELLO, ServerSynth.Build(r).value);
    OneMessageStream(m, serverChunk, tail);
    ReplyAlone(r);
    HelloSettles(m, TcpRuns.Retained(max, events, TcpStream.Other(d)), VisibleReply(r));
    ClientReads(s, chunk, TcpRuns.Retained(max, events, d));
    TcpRuns.BothSidesSettle(max, id, created, e, events, d, VisibleReply(r));
    TcpRuns.RunTells(max, id, created, e, events);
  }

  /**
   * Any two specs can be on the wire: the client's records in one segment, the server's in another, the server first.
   */
  lemma HandshakeOccurs(s: Synth.Spec, chunk: nat, r: ServerSynth.Spec, serverChunk: nat)
    returns (max: nat, events: seq<TcpRuns.Event>)
    requires Synth.Build(s).Some? && |Synth.Build(s).value| < 0x100_0000 && 0 < chunk <= Records.MAX_PAYLOAD
    requires ServerSynth.Build(r).Some? && |ServerSynth.Build(r).value| < 0x100_0000
             && 0 < serverChunk <= Records.MAX_PAYLOAD
    requires !r.retry && ServerHello.Tls13(ServerSynth.Expected(r))
    ensures OnTheWire(s, chunk, r, serverChunk, [], max, events, TcpStream.Backward)
  {
    hide Synth.Build, Records.PrintRecords, FindClientHello, WireOf, ServerSynth.Build, ServerSynth.Expected,
      Records.HandshakeMsg, Records.HandshakeMessages, TcpRuns.Retained, ServerRecords, Synth.Expected,
      ServerHello.Version, Silent;
    Quiet();
    var client := Records.PrintRecords(Records.HANDSHAKE, WireOf(s), chunk);
    var server := ServerRecords(r, serverChunk);
    max := |client| + |server|;
    events := [TcpRuns.Event(TcpStream.Forward, server, 0), TcpRuns.Event(TcpStream.Backward, client, 0)];
    TwoSegments(max, server, client);
    PrintedReads(s, chunk);
    assert server + [] == server;
  }

  lemma Quiet()
    ensures Silent([])
  {
  }

  lemma TwoSegments(max: nat, a: bytes, b: bytes)
    requires |a| <= max && |b| <= max
    ensures var events := [TcpRuns.Event(TcpStream.Forward, a, 0), TcpRuns.Event(TcpStream.Backward, b, 0)];
            && TcpRuns.Retained(max, events, TcpStream.Forward) == a
            && TcpRuns.Retained(max, events, TcpStream.Backward) == b
  {
    var events := [TcpRuns.Event(TcpStream.Forward, a, 0), TcpRuns.Event(TcpStream.Backward, b, 0)];
    assert events[..1][..0] == [] && [] + a == a && [] + b == b;
    assert TcpRuns.Delivered(events[..1]) == TcpStream.Two(a, []);
    assert TcpRuns.Delivered(events) == TcpStream.Two(a, b);
  }

  /** Printed records on their own read as the hello. */
  lemma PrintedReads(s: Synth.Spec, chunk: nat)
    requires Synth.Build(s).Some? && |Synth.Build(s).value| < 0x100_0000 && 0 < chunk <= Records.MAX_PAYLOAD
    ensures FindClientHello(Records.PrintRecords(Records.HANDSHAKE, WireOf(s), chunk)) == Hit(Synth.Expected(s))
  {
    hide Synth.Build, Synth.Expected, Records.Split, Records.PrintRecords, FirstClientHello, WireOf,
      Records.HandshakeMessages;
    Records.RecordsRoundTrip(WireOf(s), chunk);
    OneMessage(s);
  }

  lemma ClientReads(s: Synth.Spec, chunk: nat, sent: bytes)
    requires Synth.Build(s).Some? && |Synth.Build(s).value| < 0x100_0000 && 0 < chunk <= Records.MAX_PAYLOAD
    requires Records.PrintRecords(Records.HANDSHAKE, WireOf(s), chunk) <= sent && FindClientHello(sent) != NotTls
    ensures FindClientHello(sent) == Hit(Synth.Expected(s))
  {
    hide Synth.Build, Synth.Expected, Records.PrintRecords, FindClientHello, WireOf;
    PrintedReads(s, chunk);
    TcpRuns.FindGrows(Records.PrintRecords(Records.HANDSHAKE, WireOf(s), chunk), sent);
  }

  // ---------------------------------------------------------------- TCP, among all other traffic

  /** The handler was called with this flow, and never again about it. */
  ghost predicate ReportedOnce(log: seq<Emission>, id: nat, flow: Flow) {
    exists n :: 0 <= n < |log| && log[n] == Emission(id, flow)
      && (forall m :: 0 <= m < |log| && log[m].id == id ==> m == n)
  }

  lemma OnceInLog(log: seq<Emission>, id: nat, flow: Flow)
    requires LogHas(log, id) && forall i, j :: 0 <= i < j < |log| ==> log[i].id != log[j].id
    requires forall n :: 0 <= n < |log| && log[n].id == id ==> log[n].flow == flow
    ensures ReportedOnce(log, id, flow)
  {
    var n :| 0 <= n < |log| && log[n].id == id;
    assert log[n] == Emission(id, flow);
  }

  lemma TcpReportedOnce(c: Assembler.Config, events: seq<Assembler.Event>, id: nat)
    requires Assembler.LawfulConfig(c)
    requires id in Assembler.Run(c, events).tcp && Assembler.Run(c, events).tcp[id].emitted
    ensures ReportedOnce(Assembler.Run(c, events).shared.log, id, Assembler.Run(c, events).tcp[id].flow)
  {
    Assembler.RunKeepsInv(c, events);
    AssemblerRuns.ReportsAreFinal(c, events);
    hide Assembler.Run, Assembler.StreamOk;
    var w := Assembler.Run(c, events);
    OnceInLog(w.shared.log, id, w.tcp[id].flow);
  }

  /** `TcpEndToEnd` in any run of the assembler, about the segments one stream heard; a close reports it. */
  lemma TcpInRuns(s: Synth.Spec, chunk: nat, c: Assembler.Config, events: seq<Assembler.Event>, id: nat,
                  d: TcpStream.Dir)
    requires Synth.Build(s).Some? && |Synth.Build(s).value| < 0x100_0000 && 0 < chunk <= Records.MAX_PAYLOAD
    requires Assembler.LawfulConfig(c) && id in Assembler.Run(c, events).tcp && !Assembler.Run(c, events).tcp[id].over
    requires var heard := Isolation.Heard(c, events, id);
             && Records.PrintRecords(Records.HANDSHAKE, WireOf(s), chunk) <= TcpRuns.Retained(c.maxPrefix, heard, d)
             && FindClientHello(TcpRuns.Retained(c.maxPrefix, heard, d)) != NotTls
             && TcpRuns.NeverHits(TcpRuns.Retained(c.maxPrefix, heard, TcpStream.Other(d)))
    ensures var w, created := Assembler.Run(c, events), Isolation.CreatedAs(c, events, id);
            var flow := w.tcp[id].flow;
            && flow.client == Some(Synth.Expected(s))
            && TcpRuns.Faces(flow, created, d == TcpStream.Backward)
            && (id in w.closed ==> ReportedOnce(w.shared.log, id, flow))
  {
    hide Synth.Build, Synth.Expected, Records.PrintRecords, TcpRuns.Run, TcpRuns.Retained, TcpRuns.NeverHits,
      FindClientHello, WireOf, Assembler.Run, Isolation.Heard, Isolation.CreatedAs, ReportedOnce;
    Isolation.StreamsDoNotInterfere(c, events, id);
    var heard, created := Isolation.Heard(c, events, id), Isolation.CreatedAs(c, events, id);
    TcpEndToEnd(s, chunk, c.maxPrefix, id, created, NOTHING_YET, heard, d);
    if id in Assembler.Run(c, events).closed {
      TcpReportedOnce(c, events, id);
    }
  }

  /**
   * `HandshakeEndToEnd` in any run of the assembler: whatever other streams and datagrams come in between, the stream
   * that heard a TLS 1.3 handshake is reported, once, with both hellos and the right endpoints.
   */
  lemma HandshakeInRuns(s: Synth.Spec, chunk: nat, r: ServerSynth.Spec, serverChunk: nat, tail: bytes,
                        c: Assembler.Config, events: seq<Assembler.Event>, id: nat, d: TcpStream.Dir)
    requires Assembler.LawfulConfig(c) && id in Assembler.Run(c, events).tcp && !Assembler.Run(c, events).tcp[id].over
    requires OnTheWire(s, chunk, r, serverChunk, tail, c.maxPrefix, Isolation.Heard(c, events, id), d)
    ensures var w, created := Assembler.Run(c, events), Isolation.CreatedAs(c, events, id);
            var flow := w.tcp[id].flow;
            && flow.client == Some(Synth.Expected(s)) && flow.server == Some(VisibleReply(r))
            && TcpRuns.Faces(flow, created, d == TcpStream.Backward)
            && ReportedOnce(w.shared.log, id, flow)
  {
    hide OnTheWire, Synth.Expected, VisibleReply, TcpRuns.Run, Assembler.Run, Isolation.Heard, Isolation.CreatedAs,
      ReportedOnce;
    Isolation.StreamsDoNotInterfere(c, events, id);
    var heard, created := Isolation.Heard(c, events, id), Isolation.CreatedAs(c, events, id);
    HandshakeEndToEnd(s, chunk, r, serverChunk, tail, c.maxPrefix, id, created, NOTHING_YET, heard, d);
    TcpRuns.RunTells(c.maxPrefix, id, created, NOTHING_YET, heard);
    TcpReportedOnce(c, events, id);
  }

  // ---------------------------------------------------------------- QUIC

  /**
   * One Initial of a connection: who sends it, its number in `n` bytes, its token, its frames, what follows it in the
   * datagram, and when it is seen.
   */
  datatype Sent = Sent(
    fromServer: bool, n: nat, pn: nat, token: bytes, items: seq<Frames.Item>, tail: bytes, ts: int)

  /** Both ends of a connection and the connection IDs they chose; `dcid` is the one the client made up. */
  datatype Peer = Peer(src: Addr, sport: u16, dst: Addr, dport: u16, dcid: bytes, scid: bytes, serverCid: bytes)

  /** The Initial keys of both directions. */
  datatype Pair = Pair(client: Packet.Keys, server: Packet.Keys)

  ghost predicate Sendable(p: Sent) {
    && Frames.AllEncodable(p.items) && Packet.Sizes(Packet.Wire(1, [], [], p.token), p.n, Frames.EncodeItems(p.items))
    && p.pn < Pow256(p.n)
  }

  ghost predicate PeerOk(ks: Pair, peer: Peer) {
    && Packet.Lawful(ks.client) && Packet.Lawful(ks.server) && |peer.dcid| <= Packet.MAX_CONN_ID
    && |peer.scid| <= Packet.MAX_CONN_ID && |peer.serverCid| <= Packet.MAX_CONN_ID
    && (peer.src, peer.sport) != (peer.dst, peer.dport)
  }

  function SenderKeys(ks: Pair, p: Sent): Packet.Keys {
    if p.fromServer then ks.server else ks.client
  }

  function Dcid(peer: Peer, p: Sent): bytes {
    if p.fromServer then peer.scid else peer.dcid
  }

  function Scid(peer: Peer, p: Sent): bytes {
    if p.fromServer then peer.serverCid else peer.scid
  }

  /** What the packet says in the clear: version 1, both connection IDs, its token. */
  function Cleartext(peer: Peer, p: Sent): Packet.Wire {
    Packet.Wire(1, Dcid(peer, p), Scid(peer, p), p.token)
  }

  ghost function PayloadOf(ks: Pair, peer: Peer, p: Sent): bytes
    requires PeerOk(ks, peer) && Sendable(p)
  {
    Packet.Protected(SenderKeys(ks, p), Cleartext(peer, p), p.n, p.pn, Frames.EncodeItems(p.items)) + p.tail
  }

  ghost function DatagramOf(ks: Pair, peer: Peer, p: Sent): QuicFlow.Datagram
    requires PeerOk(ks, peer) && Sendable(p)
  {
    if p.fromServer then QuicFlow.Datagram(peer.dst, peer.dport, peer.src, peer.sport, PayloadOf(ks, peer, p), p.ts)
    else QuicFlow.Datagram(peer.src, peer.sport, peer.dst, peer.dport, PayloadOf(ks, peer, p), p.ts)
  }

  ghost function HeaderOf(peer: Peer, p: Sent): Packet.LongHeader
    requires Sendable(p)
  {
    Packet.WireHeader(Cleartext(peer, p), p.n + |Frames.EncodeItems(p.items)| + 16)
  }

  ghost predicate AllSendable(ps: seq<Sent>) {
    forall i :: 0 <= i < |ps| ==> Sendable(ps[i])
  }

  ghost function DatagramsOf(ks: Pair, peer: Peer, ps: seq<Sent>): (gs: seq<QuicFlow.Datagram>)
    requires PeerOk(ks, peer) && AllSendable(ps)
    ensures |gs| == |ps|
  {
    if ps == [] then []
    else DatagramsOf(ks, peer, ps[..|ps| - 1]) + [DatagramOf(ks, peer, ps[|ps| - 1])]
  }

  /** The CRYPTO frames one side sent, in the order they arrive. */
  function FramesOf(ps: seq<Sent>, fromServer: bool): seq<Frames.CryptoFrame> {
    if ps == [] then []
    else
      var before, last := FramesOf(ps[..|ps| - 1], fromServer), ps[|ps| - 1];
      if last.fromServer == fromServer then before + Frames.CryptoOf(last.items) else before
  }

  function KeyOf(peer: Peer): QuicFlow.Key {
    QuicFlow.MakeKey(peer.src, peer.sport, peer.dst, peer.dport)
  }

  /** The flow is recorded as this client talking to this server. */
  predicate Between(flow: Flow, peer: Peer) {
    && flow.quic && flow.clientIP == peer.src && flow.clientPort == peer.sport
    && flow.serverIP == peer.dst && flow.serverPort == peer.dport
  }

  /** A generated datagram is recognised, opened, and yields exactly the frames that were put into it. */
  lemma DatagramOpens(ks: Pair, peer: Peer, p: Sent)
    requires PeerOk(ks, peer) && Sendable(p)
    ensures var g := DatagramOf(ks, peer, p);
            var h := HeaderOf(peer, p);
            && QuicFlow.Initial(g.payload) == Some(h) && h.version == QuicFlow.VERSION_1 && h.dcid == Dcid(peer, p)
            && 0 < h.pnOffset && h.end <= |g.payload|
            && Packet.Opened(g.payload, h, SenderKeys(ks, p)) == Packet.Ok((p.pn, Frames.EncodeItems(p.items)))
            && Frames.Extract(Frames.EncodeItems(p.items), 0) == Frames.CryptoOf(p.items)
            && QuicFlow.KeyOf(g) == KeyOf(peer)
  {
    hide Packet.ParseLongHeader, Packet.Opened, Packet.Protected, Frames.Extract, Frames.EncodeItems, Packet.PnOffset;
    var payload, k, w := Frames.EncodeItems(p.items), SenderKeys(ks, p), Cleartext(peer, p);
    Packet.OpenUndoesProtected(k, w, p.n, p.pn, payload, p.tail);
    Packet.ProtectedParses(k, w, p.n, p.pn, payload, p.tail);
    Frames.ExtractInvertsEncode(p.items);
    QuicFlow.KeyIsUnorderedPair(peer.dst, peer.dport, peer.src, peer.sport, peer.src, peer.sport, peer.dst, peer.dport);
  }

  /** A packet that the generator pads to a target size opens to the same frames. */
  lemma PaddedDatagramOpens(k: Packet.Keys, dcid: bytes, scid: bytes, pn: nat, items: seq<Frames.Item>, padTo: int,
                            tail: bytes)
    requires Packet.Lawful(k) && |dcid| <= Packet.MAX_CONN_ID && |scid| <= Packet.MAX_CONN_ID
    requires pn < 0x10000 && Frames.AllEncodable(items)
    requires 2 <= |Packet.Padded(dcid, scid, Frames.EncodeItems(items), padTo)| < Packet.MAX_PAYLOAD
    ensures var payload := Packet.Padded(dcid, scid, Frames.EncodeItems(items), padTo);
            var r := Packet.ReadInitial(Packet.Initial(k, dcid, scid, pn, payload) + tail, k);
            r.Ok? && r.value.1 == pn && Frames.Extract(r.value.2, 0) == Frames.CryptoOf(items)
  {
    hide Packet.ReadInitial, Packet.Initial, Frames.Extract, Frames.EncodeItems, Packet.Overhead;
    var frames := Frames.EncodeItems(items);
    var payload := Packet.Padded(dcid, scid, frames, padTo);
    Packet.OpenUndoesInitial(k, dcid, scid, pn, payload, tail);
    Frames.ExtractIgnoresPadding(items, |payload| - |frames|);
    assert payload == frames + Zeros(|payload| - |frames|);
  }

  // ---------------------------------------------------------------- what the pieces read as

  function ServerWire(r: ServerSynth.Spec): bytes
    requires ServerSynth.Build(r).Some?
  {
    Records.HandshakeMsg(Records.Message(SERVER_HELLO, ServerSynth.Build(r).value))
  }

  /** What all the lemmas below assume of both hellos: they can be built, and they fit a CRYPTO stream. */
  ghost predicate Hellos(s: Synth.Spec, r: ServerSynth.Spec) {
    && Synth.Build(s).Some? && |WireOf(s)| <= CryptoStream.MAX_BYTES
    && ServerSynth.Build(r).Some? && |ServerWire(r)| <= CryptoStream.MAX_BYTES
    && !r.retry && ServerHello.Tls13(ServerSynth.Expected(r))
  }

  /** Pieces of the ClientHello read as nothing yet, or as the hello. */
  lemma ClientPiecesRead(s: Synth.Spec, piece: bytes)
    requires Synth.Build(s).Some? && |WireOf(s)| <= CryptoStream.MAX_BYTES && piece <= WireOf(s)
    ensures var read := FindClientHelloRaw(piece);
            && (read == Nothing || read == Hit(Synth.Expected(s)))
            && (piece == WireOf(s) ==> read == Hit(Synth.Expected(s)))
  {
    hide Synth.Build, Synth.Expected, Records.Split, FirstClientHello;
    OneMessage(s);
    Records.SplitExtends(piece, WireOf(s));
    FirstClientHelloStable(Records.Split(piece), Records.Split(WireOf(s)));
  }

  /** Pieces of a TLS 1.3 ServerHello read as nothing yet, or as the whole visible reply. */
  lemma ServerPiecesRead(r: ServerSynth.Spec, piece: bytes)
    requires ServerSynth.Build(r).Some? && |ServerWire(r)| <= CryptoStream.MAX_BYTES && piece <= ServerWire(r)
    requires !r.retry && ServerHello.Tls13(ServerSynth.Expected(r))
    ensures var read := FindServerHelloRaw(piece);
            && (read == Nothing || read == Hit(VisibleReply(r)))
            && (piece == ServerWire(r) ==> read == Hit(VisibleReply(r)))
  {
    hide ServerSynth.Build, ServerSynth.Expected, VisibleReply, Records.Split, FirstServerHello;
    var m := Records.Message(SERVER_HELLO, ServerSynth.Build(r).value);
    ReplyAlone(r);
    NothingInNoMessages(m);
    assert Records.HandshakeMsg(m) + [] == Records.HandshakeMsg(m);
    Records.SplitMessage(m, []);
    Records.SplitNothing();
    assert [m] + [] == [m];
    Records.SplitExtends(piece, ServerWire(r));
    var ms := Records.Split(piece);
    assert ms == [m][..|ms|];
    assert ms == [] || ms == [m];
  }

  /** Pieces of a cutting, in any order so far, reassemble to a prefix of the stream. */
  lemma PartsReassemble(wire: bytes, parts: seq<Frames.CryptoFrame>, frames: seq<Frames.CryptoFrame>)
    requires |wire| <= CryptoStream.MAX_BYTES && CryptoStream.Cuts(wire, parts)
             && forall f :: f in frames ==> f in parts
    ensures CryptoStream.Contiguous(CryptoStream.AddedAll(CryptoStream.EMPTY, frames)) <= wire
  {
    hide CryptoStream.AddedAll, CryptoStream.Contiguous, CryptoStream.Cuts, CryptoStream.SumBelow;
    CryptoStream.EmptyValid();
    CryptoStream.AddAllRetains(wire, CryptoStream.EMPTY, parts, frames);
    var c := CryptoStream.AddedAll(CryptoStream.EMPTY, frames);
    CryptoStream.PartsAreDisjoint(wire, c.segments, parts);
    CryptoStream.PrefixOfStream(wire, c);
  }

  function Reassembled(frames: seq<Frames.CryptoFrame>): bytes {
    CryptoStream.Contiguous(CryptoStream.AddedAll(CryptoStream.EMPTY, frames))
  }

  // ---------------------------------------------------------------- one flow

  /** The flow belongs to this connection, whatever it has read so far. */
  predicate Belongs(f: QuicFlow.State, peer: Peer) {
    && f.version == QuicFlow.VERSION_1 && f.origDcid == peer.dcid
    && f.clientAddr == peer.src && f.clientPort == peer.sport && Between(f.flow, peer) && !f.rejected
  }

  /** A flow not yet reported holds exactly these frames, and has latched no more than the ClientHello. */
  predicate Collecting(f: QuicFlow.State, s: Synth.Spec, fromClient: seq<Frames.CryptoFrame>,
                       fromServer: seq<Frames.CryptoFrame>)
    requires Synth.Build(s).Some?
  {
    && !f.emitted && !f.haveSH && f.flow.server.None?
    && f.client == CryptoStream.AddedAll(CryptoStream.EMPTY, fromClient)
    && f.server == CryptoStream.AddedAll(CryptoStream.EMPTY, fromServer)
    && f.flow.client == (if f.haveCH then Some(Synth.Expected(s)) else None)
  }

  /** A flow that has received these frames: reported with both hellos, or waiting for what does not read yet. */
  ghost predicate Tracks(f: QuicFlow.State, peer: Peer, s: Synth.Spec, r: ServerSynth.Spec,
                         fromClient: seq<Frames.CryptoFrame>, fromServer: seq<Frames.CryptoFrame>)
    requires Synth.Build(s).Some?
  {
    && Belongs(f, peer)
    && if f.emitted then f.haveCH && f.flow.client == Some(Synth.Expected(s)) && f.flow.server == Some(VisibleReply(r))
       else
         && Collecting(f, s, fromClient, fromServer)
         && (if f.haveCH then FindServerHelloRaw(Reassembled(fromServer)) == Nothing
             else FindClientHelloRaw(Reassembled(fromClient)) == Nothing)
  }

  /** Parsing a flow whose pieces come from both wires latches nothing but the two hellos. */
  lemma ParseTracks(s: Synth.Spec, r: ServerSynth.Spec, f: QuicFlow.State, e: Shared, peer: Peer,
                    fromClient: seq<Frames.CryptoFrame>, fromServer: seq<Frames.CryptoFrame>)
    requires Hellos(s, r) && Belongs(f, peer) && Collecting(f, s, fromClient, fromServer)
    requires Reassembled(fromClient) <= WireOf(s) && Reassembled(fromServer) <= ServerWire(r)
    ensures Tracks(QuicFlow.Parse(f, e).0, peer, s, r, fromClient, fromServer)
  {
    hide Synth.Build, Synth.Expected, WireOf, ServerSynth.Build, ServerSynth.Expected, ServerWire,
      CryptoStream.Contiguous, CryptoStream.AddedAll, FindClientHelloRaw, FindServerHelloRaw;
    ClientPiecesRead(s, Reassembled(fromClient));
    ServerPiecesRead(r, Reassembled(fromServer));
  }

  /** One more packet for a tracked flow. */
  lemma ReceiveTracks(s: Synth.Spec, r: ServerSynth.Spec, derive: QuicFlow.Derive, ks: Pair, f: QuicFlow.State,
                      e: Shared, peer: Peer, ps: seq<Sent>, p: Sent)
    requires Hellos(s, r) && QuicFlow.LawfulDerive(derive) && Derives(derive, ks, peer) && Sendable(p)
    requires Tracks(f, peer, s, r, FramesOf(ps, false), FramesOf(ps, true))
    requires Reassembled(FramesOf(ps + [p], false)) <= WireOf(s)
             && Reassembled(FramesOf(ps + [p], true)) <= ServerWire(r)
    ensures 0 < HeaderOf(peer, p).pnOffset && HeaderOf(peer, p).end <= |DatagramOf(ks, peer, p).payload|
    ensures Tracks(QuicFlow.Receive(derive, f, e, DatagramOf(ks, peer, p), HeaderOf(peer, p)).0, peer, s, r,
                   FramesOf(ps + [p], false), FramesOf(ps + [p], true))
  {
    hide Synth.Build, Synth.Expected, WireOf, ServerSynth.Build, ServerSynth.Expected, ServerWire, VisibleReply,
      CryptoStream.AddedAll, CryptoStream.Contiguous, FindClientHelloRaw, FindServerHelloRaw, QuicFlow.Parse,
      Packet.Opened, Frames.Extract, Frames.CryptoOf, QuicFlow.Initial, PayloadOf, Sendable, HeaderOf, Packet.Lawful,
      Hellos, FramesOf, QuicFlow.KeyOf, QuicFlow.MakeKey, Reassembled;
    DatagramOpens(ks, peer, p);
    if !f.emitted {
      FramesSnoc(ps, p);
      var f1 := f.(flow := f.flow.SeenAt(p.ts));
      var f2 := QuicFlow.AddFrames(f1, !p.fromServer, Frames.CryptoOf(p.items));
      ParseTracks(s, r, f2, e, peer, FramesOf(ps + [p], false), FramesOf(ps + [p], true));
    }
  }

  lemma FramesSnoc(ps: seq<Sent>, p: Sent)
    ensures forall side :: CryptoStream.AddedAll(CryptoStream.EMPTY, FramesOf(ps + [p], side))
              == if p.fromServer != side then CryptoStream.AddedAll(CryptoStream.EMPTY, FramesOf(ps, side))
                 else CryptoStream.AddedAll(CryptoStream.AddedAll(CryptoStream.EMPTY, FramesOf(ps, side)),
                                            Frames.CryptoOf(p.items))
  {
    hide CryptoStream.AddedAll, Frames.CryptoOf;
    assert (ps + [p])[..|ps|] == ps;
    forall side: bool
      ensures CryptoStream.AddedAll(CryptoStream.EMPTY, FramesOf(ps, side) + Frames.CryptoOf(p.items))
           == CryptoStream.AddedAll(CryptoStream.AddedAll(CryptoStream.EMPTY, FramesOf(ps, side)),
                                    Frames.CryptoOf(p.items))
    {
      CryptoStream.AddedAllAppend(CryptoStream.EMPTY, FramesOf(ps, side), Frames.CryptoOf(p.items));
    }
  }

  /** Both directions' keys come from the connection ID the client made up. */
  ghost predicate Derives(derive: QuicFlow.Derive, ks: Pair, peer: Peer) {
    && PeerOk(ks, peer) && derive(QuicFlow.VERSION_1, peer.dcid, false) == Some(ks.client)
    && derive(QuicFlow.VERSION_1, peer.dcid, true) == Some(ks.server)
  }

  /** A flow just opened by the client has received nothing and reads as nothing. */
  lemma OpenedTracks(s: Synth.Spec, r: ServerSynth.Spec, id: nat, ks: Pair, peer: Peer, p: Sent)
    requires Synth.Build(s).Some? && PeerOk(ks, peer) && Sendable(p) && !p.fromServer
    ensures Tracks(QuicFlow.Opened(id, DatagramOf(ks, peer, p), HeaderOf(peer, p)), peer, s, r,
                   FramesOf([], false), FramesOf([], true))
  {
    hide Synth.Build, Synth.Expected, ServerSynth.Expected, PayloadOf;
    DatagramOpens(ks, peer, p);
    CryptoStream.RunSkips(map[], 0, CryptoStream.MAX_BYTES + 1, []);
    assert Reassembled([]) == [];
    assert Records.Split([]) == [];
  }

  // ---------------------------------------------------------------- a connection's packets

  /**
   * The packets of a connection, the client's first: they carry parts of cuttings of both hellos, in any order, any
   * number of times, and nothing else.
   */
  ghost predicate Exchange(s: Synth.Spec, r: ServerSynth.Spec, parts: seq<Frames.CryptoFrame>,
                           serverParts: seq<Frames.CryptoFrame>, ps: seq<Sent>) {
    && Hellos(s, r) && CryptoStream.Cuts(WireOf(s), parts) && CryptoStream.Cuts(ServerWire(r), serverParts)
    && ps != [] && !ps[0].fromServer && AllSendable(ps)
    && (forall x :: x in FramesOf(ps, false) ==> x in parts)
    && (forall x :: x in FramesOf(ps, true) ==> x in serverParts)
  }

  /** Every part has arrived. */
  ghost predicate Arrived(parts: seq<Frames.CryptoFrame>, frames: seq<Frames.CryptoFrame>) {
    forall x :: x in parts ==> x in frames
  }

  lemma ExchangePrefixes(s: Synth.Spec, r: ServerSynth.Spec, parts: seq<Frames.CryptoFrame>,
                         serverParts: seq<Frames.CryptoFrame>, ps: seq<Sent>)
    requires Exchange(s, r, parts, serverParts, ps)
    ensures Reassembled(FramesOf(ps, false)) <= WireOf(s) && Reassembled(FramesOf(ps, true)) <= ServerWire(r)
  {
    hide WireOf, ServerWire, FramesOf, CryptoStream.Cuts, CryptoStream.AddedAll, CryptoStream.Contiguous;
    PartsReassemble(WireOf(s), parts, FramesOf(ps, false));
    PartsReassemble(ServerWire(r), serverParts, FramesOf(ps, true));
  }

  lemma ExchangeShorter(s: Synth.Spec, r: ServerSynth.Spec, parts: seq<Frames.CryptoFrame>,
                        serverParts: seq<Frames.CryptoFrame>, ps: seq<Sent>)
    requires Exchange(s, r, parts, serverParts, ps) && |ps| > 1
    ensures Exchange(s, r, parts, serverParts, ps[..|ps| - 1])
  {
    hide WireOf, ServerWire, CryptoStream.Cuts, Hellos, Sendable;
  }

  /** The client's first packet opens a flow that tracks it. */
  lemma FirstTracks(s: Synth.Spec, r: ServerSynth.Spec, derive: QuicFlow.Derive, ks: Pair, peer: Peer, id: nat, p: Sent)
    requires Hellos(s, r) && QuicFlow.LawfulDerive(derive) && Derives(derive, ks, peer) && Sendable(p) && !p.fromServer
    requires Reassembled(FramesOf([p], false)) <= WireOf(s) && Reassembled(FramesOf([p], true)) <= ServerWire(r)
    ensures var gs := [DatagramOf(ks, peer, p)];
            && Isolation.AllInitials(gs)
            && Tracks(Isolation.FlowOnItsOwn(derive, id, gs), peer, s, r, FramesOf([p], false), FramesOf([p], true))
  {
    hide Tracks, WireOf, ServerWire, Synth.Build, ServerSynth.Build, FramesOf, QuicFlow.Initial, QuicFlow.Receive,
      QuicFlow.Opened, DatagramOf, Isolation.FlowOnItsOwn, Reassembled, Sendable, HeaderOf, Isolation.AllInitials,
      Hellos;
    var g := DatagramOf(ks, peer, p);
    HellosBuild(s, r);
    DatagramOpens(ks, peer, p);
    OpenedTracks(s, r, id, ks, peer, p);
    assert [] + [p] == [p] && [] + [g] == [g];
    ReceiveTracks(s, r, derive, ks, QuicFlow.Opened(id, g, HeaderOf(peer, p)), NOTHING_YET, peer, [], p);
    Isolation.NoInitials();
    Isolation.OneMoreInitial(derive, id, [], g);
  }

  /** A later packet, of either side, keeps it tracked. */
  lemma NextTracks(s: Synth.Spec, r: ServerSynth.Spec, derive: QuicFlow.Derive, ks: Pair, peer: Peer, id: nat,
                   gs: seq<QuicFlow.Datagram>, before: seq<Sent>, p: Sent)
    requires Hellos(s, r) && QuicFlow.LawfulDerive(derive) && Derives(derive, ks, peer) && Sendable(p)
    requires gs != [] && Isolation.AllInitials(gs)
    requires Tracks(Isolation.FlowOnItsOwn(derive, id, gs), peer, s, r, FramesOf(before, false), FramesOf(before, true))
    requires Reassembled(FramesOf(before + [p], false)) <= WireOf(s)
    requires Reassembled(FramesOf(before + [p], true)) <= ServerWire(r)
    ensures var gs' := gs + [DatagramOf(ks, peer, p)];
            && Isolation.AllInitials(gs')
            && Tracks(Isolation.FlowOnItsOwn(derive, id, gs'), peer, s, r,
                      FramesOf(before + [p], false), FramesOf(before + [p], true))
  {
    hide Tracks, WireOf, ServerWire, Synth.Build, ServerSynth.Build, FramesOf, QuicFlow.Initial, QuicFlow.Receive,
      QuicFlow.Opened, DatagramOf, Isolation.FlowOnItsOwn, Reassembled, Sendable, HeaderOf, Isolation.AllInitials,
      Hellos;
    HellosBuild(s, r);
    DatagramOpens(ks, peer, p);
    ReceiveTracks(s, r, derive, ks, Isolation.FlowOnItsOwn(derive, id, gs), NOTHING_YET, peer, before, p);
    Isolation.OneMoreInitial(derive, id, gs, DatagramOf(ks, peer, p));
  }

  lemma HellosBuild(s: Synth.Spec, r: ServerSynth.Spec)
    requires Hellos(s, r)
    ensures Synth.Build(s).Some? && ServerSynth.Build(r).Some?
  {
  }

  lemma ExchangeShape(s: Synth.Spec, r: ServerSynth.Spec, parts: seq<Frames.CryptoFrame>,
                      serverParts: seq<Frames.CryptoFrame>, ps: seq<Sent>)
    requires Exchange(s, r, parts, serverParts, ps)
    ensures ps != [] && !ps[0].fromServer && AllSendable(ps) && Hellos(s, r)
    ensures Synth.Build(s).Some? && ServerSynth.Build(r).Some?
  {
  }

  /** The datagrams of a list are those of all but the last packet, and then its own. */
  lemma DatagramsSnoc(ks: Pair, peer: Peer, ps: seq<Sent>)
    requires PeerOk(ks, peer) && AllSendable(ps) && ps != []
    ensures AllSendable(ps[..|ps| - 1]) && Sendable(ps[|ps| - 1])
    ensures DatagramsOf(ks, peer, ps) == DatagramsOf(ks, peer, ps[..|ps| - 1]) + [DatagramOf(ks, peer, ps[|ps| - 1])]
  {
    hide Sendable, DatagramOf;
  }

  lemma {:induction false} RunTracks(s: Synth.Spec, r: ServerSynth.Spec, derive: QuicFlow.Derive, ks: Pair, peer: Peer,
                                     id: nat, parts: seq<Frames.CryptoFrame>,
                                     serverParts: seq<Frames.CryptoFrame>, ps: seq<Sent>)
    requires Exchange(s, r, parts, serverParts, ps) && QuicFlow.LawfulDerive(derive) && Derives(derive, ks, peer)
    ensures Isolation.AllInitials(DatagramsOf(ks, peer, ps))
    ensures Tracks(Isolation.FlowOnItsOwn(derive, id, DatagramsOf(ks, peer, ps)), peer, s, r,
                   FramesOf(ps, false), FramesOf(ps, true))
    decreases |ps|
  {
    hide Tracks, WireOf, ServerWire, Synth.Build, ServerSynth.Build, FramesOf, DatagramOf, Isolation.FlowOnItsOwn,
      Reassembled, Sendable, Isolation.AllInitials, Hellos, Exchange, AllSendable, DatagramsOf, PeerOk,
      QuicFlow.LawfulDerive;
    ExchangeShape(s, r, parts, serverParts, ps);
    ExchangePrefixes(s, r, parts, serverParts, ps);
    var before, p := ps[..|ps| - 1], ps[|ps| - 1];
    DatagramsSnoc(ks, peer, ps);
    if |ps| == 1 {
      assert ps == [p] && before == [];
      NoDatagrams(ks, peer);
      assert [] + [DatagramOf(ks, peer, p)] == [DatagramOf(ks, peer, p)];
      FirstTracks(s, r, derive, ks, peer, id, p);
    } else {
      assert before + [p] == ps;
      ExchangeShorter(s, r, parts, serverParts, ps);
      RunTracks(s, r, derive, ks, peer, id, parts, serverParts, before);
      NextTracks(s, r, derive, ks, peer, id, DatagramsOf(ks, peer, before), before, p);
    }
  }

  lemma NoDatagrams(ks: Pair, peer: Peer)
    requires PeerOk(ks, peer)
    ensures AllSendable([]) && DatagramsOf(ks, peer, []) == []
  {
  }

  /** A tracked flow that has received every part of a hello has read it. */
  lemma CompleteTracks(s: Synth.Spec, r: ServerSynth.Spec, f: QuicFlow.State, peer: Peer,
                       parts: seq<Frames.CryptoFrame>, serverParts: seq<Frames.CryptoFrame>, ps: seq<Sent>)
    requires Exchange(s, r, parts, serverParts, ps) && Tracks(f, peer, s, r, FramesOf(ps, false), FramesOf(ps, true))
    requires Arrived(parts, FramesOf(ps, false))
    ensures f.flow.client == Some(Synth.Expected(s)) && Between(f.flow, peer)
    ensures Arrived(serverParts, FramesOf(ps, true)) ==> f.emitted && f.flow.server == Some(VisibleReply(r))
  {
    hide Synth.Expected, ServerSynth.Expected, Synth.Build, ServerSynth.Build, WireOf, ServerWire, FramesOf,
      CryptoStream.Cuts, CryptoStream.AddedAll, CryptoStream.Contiguous, CryptoStream.Valid, FindClientHelloRaw,
      FindServerHelloRaw, AllSendable;
    CryptoStream.AnyOrderReassembles(WireOf(s), parts, FramesOf(ps, false));
    ClientPiecesRead(s, WireOf(s));
    if Arrived(serverParts, FramesOf(ps, true)) {
      CryptoStream.AnyOrderReassembles(ServerWire(r), serverParts, FramesOf(ps, true));
      ServerPiecesRead(r, ServerWire(r));
    }
  }

  lemma QuicReportedOnce(c: Assembler.Config, events: seq<Assembler.Event>, key: QuicFlow.Key)
    requires Assembler.LawfulConfig(c)
    requires key in Assembler.Run(c, events).quic && Assembler.Run(c, events).quic[key].emitted
    ensures var w := Assembler.Run(c, events); ReportedOnce(w.shared.log, w.quic[key].id, w.quic[key].flow)
  {
    Assembler.RunKeepsInv(c, events);
    AssemblerReports.QuicReportsAreFinal(c, events);
    hide Assembler.Run, Assembler.StreamOk;
    var w := Assembler.Run(c, events);
    OnceInLog(w.shared.log, w.quic[key].id, w.quic[key].flow);
  }

  /**
   * A QUIC connection in any run of the assembler, among any other traffic and sweeps. Both hellos are printed from
   * any specs, cut into CRYPTO frames, and sealed into Initials that arrive in any order and any number of times, the
   * client's first. Once all of the ClientHello is in, it is latched as specified, with the right endpoints; once all
   * of a TLS 1.3 ServerHello is in too, the connection has been reported, once, with both.
   */
  lemma QuicEndToEnd(s: Synth.Spec, r: ServerSynth.Spec, c: Assembler.Config, ks: Pair, peer: Peer,
                     parts: seq<Frames.CryptoFrame>, serverParts: seq<Frames.CryptoFrame>, ps: seq<Sent>,
                     events: seq<Assembler.Event>)
    requires Assembler.LawfulConfig(c) && Derives(c.derive, ks, peer) && Exchange(s, r, parts, serverParts, ps)
    requires Isolation.HeardOn(c, events, KeyOf(peer)) == DatagramsOf(ks, peer, ps)
             && Arrived(parts, FramesOf(ps, false))
    ensures var w, key := Assembler.Run(c, events), KeyOf(peer);
            && key in w.quic && Between(w.quic[key].flow, peer) && w.quic[key].flow.client == Some(Synth.Expected(s))
            && (Arrived(serverParts, FramesOf(ps, true)) ==>
                  && w.quic[key].flow.server == Some(VisibleReply(r))
                  && ReportedOnce(w.shared.log, w.quic[key].id, w.quic[key].flow))
  {
    hide Assembler.Run, Exchange, Tracks, Between, Synth.Expected, VisibleReply, Isolation.HeardOn,
      Isolation.FlowOnItsOwn, Isolation.AllInitials, FramesOf, QuicFlow.MakeKey, ReportedOnce, Arrived, DatagramsOf;
    Isolation.FlowsDoNotInterfere(c, events, KeyOf(peer));
    ExchangeShape(s, r, parts, serverParts, ps);
    var w, key := Assembler.Run(c, events), KeyOf(peer);
    assert key in w.quic;
    RunTracks(s, r, c.derive, ks, peer, w.quic[key].id, parts, serverParts, ps);
    CompleteTracks(s, r, w.quic[key], peer, parts, serverParts, ps);
    if Arrived(serverParts, FramesOf(ps, true)) {
      QuicReportedOnce(c, events, key);
    }
  }

  /** Whatever happens to that connection next, even if its server was never seen, it is reported before it is gone. */
  lemma QuicIsReported(s: Synth.Spec, r: ServerSynth.Spec, c: Assembler.Config, ks: Pair, peer: Peer,
                       parts: seq<Frames.CryptoFrame>, serverParts: seq<Frames.CryptoFrame>, ps: seq<Sent>,
                       events: seq<Assembler.Event>, more: seq<Assembler.Event>)
    requires Assembler.LawfulConfig(c) && Derives(c.derive, ks, peer) && Exchange(s, r, parts, serverParts, ps)
    requires Isolation.HeardOn(c, events, KeyOf(peer)) == DatagramsOf(ks, peer, ps)
             && Arrived(parts, FramesOf(ps, false))
    ensures KeyOf(peer) in Assembler.Run(c, events).quic
    ensures AssemblerReports.Due(Assembler.Run(c, events + more), KeyOf(peer),
                                 Assembler.Run(c, events).quic[KeyOf(peer)].id)
  {
    hide Assembler.Run, Exchange, Synth.Expected, Isolation.HeardOn, FramesOf, QuicFlow.MakeKey, DatagramsOf, Arrived;
    QuicEndToEnd(s, r, c, ks, peer, parts, serverParts, ps, events);
    AssemblerReports.QuicFlowIsReported(c, events, more, KeyOf(peer));
  }

  // ---------------------------------------------------------------- such runs exist

  /** Any message of at most 16384 bytes in one packet. */
  function Whole(fromServer: bool, wire: bytes): Sent {
    Sent(fromServer, 4, 0, [], [Frames.Crypto(0, wire)], [], 0)
  }

  lemma WholeCarries(fromServer: bool, wire: bytes)
    requires 0 < |wire| <= CryptoStream.MAX_BYTES
    ensures Sendable(Whole(fromServer, wire)) && Whole(fromServer, wire).fromServer == fromServer
    ensures CryptoStream.Cuts(wire, [Frames.CryptoFrame(0, wire)])
    ensures Frames.CryptoOf(Whole(fromServer, wire).items) == [Frames.CryptoFrame(0, wire)]
  {
    hide Varint.Encode;
    var part, items := Frames.CryptoFrame(0, wire), [Frames.Crypto(0, wire)];
    assert items[1..] == [];
    assert Frames.EncodeItems(items) == Frames.EncodeItem(items[0]) + [];
    forall p | 0 <= p < |wire|
      ensures CryptoStream.Reached([part], p)
    {
      assert [part][0].offset <= p < [part][0].offset + |[part][0].data|;
    }
  }

  /** Any two hellos that fit can be exchanged, and all of both arrive. */
  lemma ExchangeOccurs(s: Synth.Spec, r: ServerSynth.Spec)
    returns (parts: seq<Frames.CryptoFrame>, serverParts: seq<Frames.CryptoFrame>, ps: seq<Sent>)
    requires Hellos(s, r)
    ensures Exchange(s, r, parts, serverParts, ps)
    ensures Arrived(parts, FramesOf(ps, false)) && Arrived(serverParts, FramesOf(ps, true))
  {
    hide WireOf, ServerWire, CryptoStream.Cuts, Sendable, Frames.CryptoOf, FramesOf, Whole, Hellos, Exchange, Arrived;
    HellosBuild(s, r);
    WireSizes(s, r);
    WholeCarries(false, WireOf(s));
    WholeCarries(true, ServerWire(r));
    parts, serverParts := [Frames.CryptoFrame(0, WireOf(s))], [Frames.CryptoFrame(0, ServerWire(r))];
    ps := [Whole(false, WireOf(s)), Whole(true, ServerWire(r))];
    TwoPackets(s, r, parts, serverParts, Whole(false, WireOf(s)), Whole(true, ServerWire(r)));
  }

  /** Two packets that carry a cutting of each hello exchange both of them. */
  lemma TwoPackets(s: Synth.Spec, r: ServerSynth.Spec, parts: seq<Frames.CryptoFrame>,
                   serverParts: seq<Frames.CryptoFrame>, p: Sent, q: Sent)
    requires Hellos(s, r) && Sendable(p) && Sendable(q) && !p.fromServer && q.fromServer
    requires Synth.Build(s).Some? && CryptoStream.Cuts(WireOf(s), parts) && Frames.CryptoOf(p.items) == parts
    requires ServerSynth.Build(r).Some? && CryptoStream.Cuts(ServerWire(r), serverParts)
    requires Frames.CryptoOf(q.items) == serverParts
    ensures Exchange(s, r, parts, serverParts, [p, q])
    ensures Arrived(parts, FramesOf([p, q], false)) && Arrived(serverParts, FramesOf([p, q], true))
  {
    hide WireOf, ServerWire, CryptoStream.Cuts, Sendable, Frames.CryptoOf, FramesOf, Hellos;
    FramesOfTwo(p, q);
  }

  /** What two packets carry, the client's and then the server's. */
  lemma FramesOfTwo(p: Sent, q: Sent)
    requires !p.fromServer && q.fromServer
    ensures FramesOf([p, q], false) == Frames.CryptoOf(p.items) && FramesOf([p, q], true) == Frames.CryptoOf(q.items)
  {
    hide Frames.CryptoOf;
    var ps := [p, q];
    assert ps[..1] == [p] && [p][..0] == [];
    assert FramesOf([p], false) == [] + Frames.CryptoOf(p.items) == Frames.CryptoOf(p.items);
    assert FramesOf([p], true) == [];
    assert FramesOf(ps, true) == [] + Frames.CryptoOf(q.items) == Frames.CryptoOf(q.items);
  }

  lemma WireSizes(s: Synth.Spec, r: ServerSynth.Spec)
    requires Hellos(s, r)
    ensures 0 < |WireOf(s)| <= CryptoStream.MAX_BYTES && 0 < |ServerWire(r)| <= CryptoStream.MAX_BYTES
  {
  }

  ghost function ReceiveEach(gs: seq<QuicFlow.Datagram>): seq<Assembler.Event> {
    seq(|gs|, i requires 0 <= i < |gs| => Assembler.Receive(gs[i]))
  }

  /** One more Initial of a connection is heard, if its flow is tracked or there is room for it. */
  lemma OneMoreHeard(c: Assembler.Config, events: seq<Assembler.Event>, key: QuicFlow.Key, g: QuicFlow.Datagram)
    requires Assembler.LawfulConfig(c) && QuicFlow.Initial(g.payload).Some? && QuicFlow.KeyOf(g) == key
    requires Assembler.Run(c, events).quic.Keys <= {key}
    ensures var more := events + [Assembler.Receive(g)];
            && Assembler.Run(c, more).quic.Keys == {key}
            && Isolation.HeardOn(c, more, key) == Isolation.HeardOn(c, events, key) + [g]
  {
    hide QuicFlow.Initial, QuicFlow.Receive, QuicFlow.Opened, QuicFlow.KeyOf, Assembler.ReceiveStep;
    var more := events + [Assembler.Receive(g)];
    assert more[..|events|] == events && more[|events|] == Assembler.Receive(g);
    FewFlows(Assembler.Run(c, events), key);
    ReceiveOpens(c, Assembler.Run(c, events), g);
  }

  lemma FewFlows(w: Assembler.World, key: QuicFlow.Key)
    requires w.quic.Keys <= {key}
    ensures key in w.quic || |w.quic| == 0
  {
    if key !in w.quic {
      assert w.quic.Keys == {};
    }
  }

  lemma ReceiveOpens(c: Assembler.Config, w: Assembler.World, g: QuicFlow.Datagram)
    requires Assembler.LawfulConfig(c) && QuicFlow.Initial(g.payload).Some?
    requires QuicFlow.KeyOf(g) in w.quic || |w.quic| == 0
    ensures Assembler.ReceiveStep(c, w, g).quic.Keys == w.quic.Keys + {QuicFlow.KeyOf(g)}
  {
    hide QuicFlow.Initial, QuicFlow.Receive, QuicFlow.Opened, QuicFlow.KeyOf;
  }

  /** A run of these packets alone is heard in full, so the hypotheses of `QuicEndToEnd` can be met. */
  lemma {:induction false} ExchangeIsHeard(c: Assembler.Config, ks: Pair, peer: Peer, ps: seq<Sent>)
    requires Assembler.LawfulConfig(c) && PeerOk(ks, peer) && AllSendable(ps)
    ensures Assembler.Run(c, ReceiveEach(DatagramsOf(ks, peer, ps))).quic.Keys == if ps == [] then {} else {KeyOf(peer)}
    ensures Isolation.HeardOn(c, ReceiveEach(DatagramsOf(ks, peer, ps)), KeyOf(peer)) == DatagramsOf(ks, peer, ps)
    decreases |ps|
  {
    if ps == [] {
      NoDatagrams(ks, peer);
      assert ReceiveEach([]) == [];
    } else {
      hide Assembler.Run, Isolation.HeardOn, QuicFlow.Initial, QuicFlow.KeyOf, QuicFlow.MakeKey, DatagramOf, Sendable,
        HeaderOf, AllSendable, DatagramsOf, PeerOk, ReceiveEach;
      var before, p := ps[..|ps| - 1], ps[|ps| - 1];
      DatagramsSnoc(ks, peer, ps);
      ExchangeIsHeard(c, ks, peer, before);
      DatagramOpens(ks, peer, p);
      var gs, g := DatagramsOf(ks, peer, before), DatagramOf(ks, peer, p);
      ReceiveOneMore(gs, g);
      OneMoreHeard(c, ReceiveEach(gs), KeyOf(peer), g);
    }
  }

  lemma ReceiveOneMore(gs: seq<QuicFlow.Datagram>, g: QuicFlow.Datagram)
    ensures ReceiveEach(gs + [g]) == ReceiveEach(gs) + [Assembler.Receive(g)]
  {
  }
}
