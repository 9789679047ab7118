/** What the TCP and QUIC halves of the assembler share: observations, counters and the handler's log. */
module Flows {
  import opened Bytes
  import ClientHello
  import ServerHello

  /** Addresses are only compared and copied. */
  type Addr = nat

  /** One observed connection. `quic` tells the transports apart; times are ticks of the capture clock. */
  datatype Flow = Flow(
    quic: bool,
    clientIP: Addr, clientPort: u16,
    serverIP: Addr, serverPort: u16,
    firstSeen: int, lastSeen: int,
    client: Option<ClientHello.Hello>,
    server: Option<ServerHello.Reply>,
    prefixTruncated: bool)
  {
    /** The same observation with the endpoints exchanged. */
    function Swapped(): Flow {
      this.(clientIP := serverIP, clientPort := serverPort, serverIP := clientIP, serverPort := clientPort)
    }

    /** `LastSeen` moved forward to `ts`, never back. */
    function SeenAt(ts: int): Flow {
      if ts > lastSeen then this.(lastSeen := ts) else this
    }
  }

  /** An observation of nothing. */
  const BLANK_FLOW := Flow(false, 0, 0, 0, 0, 0, 0, None, None, false)

  /** The observation a TCP stream begins with: the endpoints and the time of the packet that created it. */
  function Begun(seen: Flow): (f: Flow)
    ensures f.client.None? && f.server.None? && !f.quic && !f.prefixTruncated
    ensures f.firstSeen == f.lastSeen == seen.firstSeen && f.clientIP == seen.clientIP
            && f.clientPort == seen.clientPort
    ensures f.serverIP == seen.serverIP && f.serverPort == seen.serverPort
  {
    Flow(false, seen.clientIP, seen.clientPort, seen.serverIP, seen.serverPort, seen.firstSeen, seen.firstSeen,
         None, None, false)
  }

  datatype Stats = Stats(streams: nat, tlsFlows: nat, rejectedTcp: nat, streamsDropped: nat, liveStreams: int)

  /** One call of the handler. `id` is the identity of the flow object it was called with. */
  datatype Emission = Emission(id: nat, flow: Flow)

  /** The state that every stream callback reads and writes besides its own stream. */
  datatype Shared = Shared(stats: Stats, log: seq<Emission>)

  const NOTHING_YET := Shared(Stats(0, 0, 0, 0, 0), [])

  /** The handler is called: the counter moves and the call is logged. */
  function Emitted(e: Shared, id: nat, flow: Flow): Shared {
    Shared(e.stats.(tlsFlows := e.stats.tlsFlows + 1), e.log + [Emission(id, flow)])
  }

  predicate LogHas(log: seq<Emission>, id: nat) {
    exists i :: 0 <= i < |log| && log[i].id == id
  }
}
