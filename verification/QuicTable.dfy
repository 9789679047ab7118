/** The QUIC half of the assembler as it runs: a map of flows updated packet by packet (internal/assemble/quic.go). */
module QuicTable {
  import opened Bytes
  import opened Flows
  import opened Find
  import opened QuicFlow
  import Assembler
  import CryptoStream
  import Frames
  import Packet
  import TcpStream

  /** The flow map, beside the counters and the handler it shares with the TCP streams. */
  class Table {
    const a: TcpStream.Counters
    const derive: Derive
    var quicFlows: map<Key, State>

    constructor (a: TcpStream.Counters, derive: Derive)
      ensures this.a == a && this.derive == derive && View() == Assembler.START.(shared := a.Value())
    {
      this.a, this.derive, quicFlows := a, derive, map[];
    }

    function Settings(): Assembler.Config {
      Assembler.Config(a.maxPrefix, a.maxStreams, derive)
    }

    /** The assembler's state without its TCP streams. */
    function View(): Assembler.World
      reads this, a
    {
      Assembler.World(map[], {}, quicFlows, a.Value())
    }

    method EmitFlow(f: State) returns (f': State)
      modifies a
      ensures (f', a.Value()) == Emit(f, old(a.Value()))
    {
      f' := f;
      if f.emitted || f.flow.client.None? {
        return;
      }
      f' := f'.(emitted := true);
      a.stats := a.stats.(tlsFlows := a.stats.tlsFlows + 1);
      a.log := a.log + [Emission(f.id, f.flow)];
    }

    method ParseFlow(f: State) returns (f': State)
      modifies a
      ensures (f', a.Value()) == Parse(f, old(a.Value()))
    {
      hide FindClientHelloRaw, FindServerHelloRaw, CryptoStream.Contiguous;
      f' := f;
      if !f'.haveCH {
        match FindClientHelloRaw(CryptoStream.Contiguous(f'.client)) {
          case Hit(ch) => f' := f'.(haveCH := true, flow := f'.flow.(client := Some(ch)));
          case _ =>
        }
      }
      if f'.haveCH && !f'.haveSH {
        match FindServerHelloRaw(CryptoStream.Contiguous(f'.server)) {
          case Hit(sh) =>
            f' := f'.(haveSH := true, flow := f'.flow.(server := Some(sh)));
            if sh.flightComplete {
              f' := EmitFlow(f');
            }
          case _ =>
        }
      }
    }

    method CollectFrames(f: State, fromClient: bool, plaintext: bytes) returns (f': State)
      ensures f' == AddFrames(f, fromClient, Frames.Extract(plaintext, 0))
    {
      hide Frames.Extract, CryptoStream.Added;
      var frames, _ := Frames.CryptoFrames(plaintext);
      var start := if fromClient then f.client else f.server;
      var pieces := start;
      assert frames[0..] == frames;
      for i := 0 to |frames|
        invariant CryptoStream.AddedAll(start, frames) == CryptoStream.AddedAll(pieces, frames[i..])
      {
        assert frames[i..][1..] == frames[i + 1..];
        pieces := CryptoStream.Added(pieces, frames[i].offset, frames[i].data);
      }
      f' := if fromClient then f.(client := pieces) else f.(server := pieces);
    }

    /** A packet of a flow that is tracked. */
    method Deliver(f: State, g: Datagram, h: Packet.LongHeader) returns (f': State)
      requires LawfulDerive(derive) && 0 < h.pnOffset && h.end <= |g.payload|
      modifies a
      ensures (f', a.Value()) == Receive(derive, f, old(a.Value()), g, h)
    {
      hide Parse, Packet.Opened, AddFrames;
      f' := f;
      if f.rejected || f.emitted {
        return;
      }
      if g.ts > f.flow.lastSeen {
        f' := f'.(flow := f'.flow.(lastSeen := g.ts));
      }
      var fromClient := g.src == f.clientAddr && g.sport == f.clientPort;
      var keys := derive(f.version, f.origDcid, !fromClient);
      if keys.None? {
        f' := f'.(rejected := true);
        return;
      }
      assert Packet.Lawful(keys.value);
      var plaintext := Packet.Open(g.payload, h, keys.value);
      if plaintext.Err? {
        return;
      }
      f' := CollectFrames(f', fromClient, plaintext.value.1);
      f' := ParseFlow(f');
    }

    /** `quicPacket`. */
    method QuicPacket(g: Datagram)
      requires LawfulDerive(derive) && a.maxStreams > 0
      modifies this, a
      ensures View() == Assembler.ReceiveStep(Settings(), old(View()), g)
    {
      hide Packet.ParseLongHeader, Receive;
      if !Packet.IsLongHeader(g.payload) {
        NotLongHeader(g.payload);
        return;
      }
      var parsed := Packet.ParseLongHeader(g.payload);
      if parsed.Err? || parsed.value.typ != Packet.INITIAL || !Supported(parsed.value.version) {
        return;
      }
      var h := parsed.value;
      var key := KeyOf(g);
      if key !in quicFlows {
        if |quicFlows| >= a.maxStreams {
          a.stats := a.stats.(streamsDropped := a.stats.streamsDropped + 1);
          return;
        }
        quicFlows := quicFlows[key := Opened(a.stats.streams, g, h)];
        a.stats := a.stats.(streams := a.stats.streams + 1, liveStreams := a.stats.liveStreams + 1);
      }
      var f := Deliver(quicFlows[key], g, h);
      quicFlows := quicFlows[key := f];
    }

    /** `flushQUIC`: the map is walked in an order the language does not fix. */
    method FlushQuic(t: int) returns (ghost order: seq<Key>)
      modifies this, a
      ensures View() == Assembler.FlushAll(old(View()), t, order)
      ensures forall k :: k in old(quicFlows) ==> k in order
      ensures forall k :: k in quicFlows <==> k in old(quicFlows) && old(quicFlows)[k].flow.lastSeen > t
    {
      hide Emit;
      order := [];
      var left := quicFlows.Keys;
      while left != {}
        invariant left <= old(quicFlows).Keys
        invariant View() == Assembler.FlushAll(old(View()), t, order)
        invariant forall k :: k in old(quicFlows) ==> k in left || k in order
        invariant forall k :: k in left ==> k in quicFlows && quicFlows[k] == old(quicFlows)[k]
        invariant forall k :: k in quicFlows <==>
                    k in old(quicFlows) && (k in left || old(quicFlows)[k].flow.lastSeen > t)
        decreases |left|
      {
        var key :| key in left;
        left := left - {key};
        FlushSnoc(old(View()), t, order, key);
        order := order + [key];
        var f := quicFlows[key];
        if f.flow.lastSeen > t {
          continue;
        }
        var _ := EmitFlow(f);
        quicFlows := quicFlows - {key};
        a.stats := a.stats.(liveStreams := a.stats.liveStreams - 1);
      }
    }
  }

  lemma NotLongHeader(payload: bytes)
    requires !Packet.IsLongHeader(payload)
    ensures Initial(payload).None?
  {
  }

  lemma {:induction false} FlushSnoc(w: Assembler.World, t: int, order: seq<Key>, key: Key)
    ensures Assembler.FlushAll(w, t, order + [key]) == Assembler.FlushOne(Assembler.FlushAll(w, t, order), t, key)
    decreases |order|
  {
    hide Assembler.FlushOne;
    if order == [] {
      assert order + [key] == [key] && [key][1..] == [];
      assert Assembler.FlushAll(Assembler.FlushOne(w, t, key), t, []) == Assembler.FlushOne(w, t, key);
    } else {
      assert (order + [key])[1..] == order[1..] + [key];
      FlushSnoc(Assembler.FlushOne(w, t, order[0]), t, order[1..], key);
    }
  }
}
