/** One TCP connection under reassembly (the `stream` type of internal/assemble/assembler.go). */
module TcpStream {
  import opened Bytes
  import opened Flows
  import opened Find

  const MIN_BEFORE_REJECT := 16

  /** Index 0 is the direction of the packet that created the stream. */
  datatype Dir = Forward | Backward

  function Other(d: Dir): Dir {
    if d == Forward then Backward else Forward
  }

  /** A value per direction. */
  datatype Two<T> = Two(forward: T, backward: T) {
    function At(d: Dir): T {
      if d == Forward then forward else backward
    }
    function With(d: Dir, v: T): Two<T> {
      if d == Forward then this.(forward := v) else this.(backward := v)
    }
  }

  /**
   * The fields of a stream. `id` stands for the object's identity and `over` for the local of that name in
   * `factory.New`: the connection arrived over the cap.
   */
  datatype State = State(
    id: nat, over: bool,
    flow: Flow, buf: Two<bytes>, full: Two<bool>,
    client: Dir, haveCH: bool, haveSH: bool,
    rejected: bool, emitted: bool, counted: bool)

  function Fresh(id: nat, over: bool, flow: Flow): State {
    State(id, over, flow, Two([], []), Two(false, false), Forward, false, false, over, false, !over)
  }

  /** Bytes are retained until the flow is understood or ruled out. */
  predicate Retaining(s: State) {
    !s.rejected && !(s.haveCH && s.haveSH)
  }

  // ---------------------------------------------------------------- the callbacks as functions

  function Emit(s: State, e: Shared): (State, Shared) {
    if s.emitted || s.flow.client.None? then (s, e)
    else (s.(emitted := true), Emitted(e, s.id, s.flow))
  }

  function Reject(s: State, e: Shared): (State, Shared) {
    (s.(rejected := true, buf := Two([], [])), e.(stats := e.stats.(rejectedTcp := e.stats.rejectedTcp + 1)))
  }

  /** A direction that carries a ClientHello decides who the client is. */
  function LatchClient(s: State): State {
    if s.haveCH then s
    else
      match FindClientHello(s.buf.At(Forward))
      case Hit(ch) => s.(haveCH := true, client := Forward, flow := s.flow.(client := Some(ch)))
      case _ =>
        match FindClientHello(s.buf.At(Backward))
        case Hit(ch) => s.(haveCH := true, client := Backward, flow := s.flow.(client := Some(ch)).Swapped())
        case _ => s
  }

  function LatchServer(s: State, e: Shared): (State, Shared) {
    if !s.haveCH || s.haveSH then (s, e)
    else
      match FindServerHello(s.buf.At(Other(s.client)))
      case Hit(sh) =>
        var s' := s.(haveSH := true, flow := s.flow.(server := Some(sh)));
        if sh.flightComplete then Emit(s', e) else (s', e)
      case _ => (s, e)
  }

  /** Enough bytes both ways, and neither way can ever be TLS. */
  predicate NotTlsEitherWay(s: State) {
    && |s.buf.At(Forward)| >= MIN_BEFORE_REJECT && FindClientHello(s.buf.At(Forward)) == NotTls
    && |s.buf.At(Backward)| >= MIN_BEFORE_REJECT && FindClientHello(s.buf.At(Backward)) == NotTls
  }

  function Parse(s: State, e: Shared): (State, Shared) {
    var (s1, e1) := LatchServer(LatchClient(s), e);
    if s1.haveCH then (s1, e1)
    else if s1.full.At(Forward) && s1.full.At(Backward) then Reject(s1, e1)
    else if NotTlsEitherWay(s1) then Reject(s1, e1)
    else (s1, e1)
  }

  /** The buffers after `data` arrived one way: never more than `max` bytes, and marked full once something was cut. */
  function Append(max: nat, s: State, d: Dir, data: bytes): State {
    var room := max - |s.buf.At(d)|;
    if room > 0 && |data| <= room then s.(buf := s.buf.With(d, s.buf.At(d) + data))
    else
      s.(buf := if room > 0 then s.buf.With(d, s.buf.At(d) + data[..room]) else s.buf,
         full := s.full.With(d, true),
         flow := s.flow.(prefixTruncated := true))
  }

  function Reassembled(max: nat, s: State, e: Shared, d: Dir, data: bytes, ts: int): (State, Shared) {
    if data == [] || !Retaining(s) then (s, e)
    else Parse(Append(max, s.(flow := s.flow.SeenAt(ts)), d, data), e)
  }

  function Complete(s: State, e: Shared): (State, Shared) {
    var (s1, e1) := Emit(s, e);
    if s1.counted then
      (s1.(counted := false), e1.(stats := e1.stats.(liveStreams := e1.stats.liveStreams - 1)))
    else (s1, e1)
  }

  // ---------------------------------------------------------------- the object

  /** The part of the assembler that TCP streams and QUIC flows share: limits, counters and the handler's log. */
  class Counters {
    const maxPrefix: nat
    const maxStreams: nat
    var stats: Stats
    var log: seq<Emission>

    constructor (maxPrefix: nat, maxStreams: nat)
      ensures this.maxPrefix == maxPrefix && this.maxStreams == maxStreams && Value() == NOTHING_YET
    {
      this.maxPrefix, this.maxStreams, stats, log := maxPrefix, maxStreams, NOTHING_YET.stats, [];
    }

    /** `factory.New`: `null` declines to track a packet that neither opens a connection nor carries anything. */
    method New(syn: bool, payload: bool, flow: Flow) returns (s: Stream?)
      modifies this
      ensures s == null <==> !syn && !payload
      ensures s == null ==> Value() == old(Value())
      ensures s != null ==>
                var over := old(stats).liveStreams >= maxStreams;
                && fresh(s) && s.a == this && s.Value() == Fresh(old(stats).streams, over, Begun(flow))
                && log == old(log)
                && stats == old(stats).(streams := old(stats).streams + 1,
                                        streamsDropped := old(stats).streamsDropped + (if over then 1 else 0),
                                        liveStreams := old(stats).liveStreams + (if over then 0 else 1))
    {
      if !syn && !payload {
        return null;
      }
      var id := stats.streams;
      stats := stats.(streams := stats.streams + 1);
      var over := stats.liveStreams >= maxStreams;
      if over {
        stats := stats.(streamsDropped := stats.streamsDropped + 1);
      } else {
        stats := stats.(liveStreams := stats.liveStreams + 1);
      }
      s := new Stream(id, over, Begun(flow), this);
    }

    function Value(): Shared
      reads this
    {
      Shared(stats, log)
    }
  }

  class Stream {
    const id: nat
    const over: bool
    const a: Counters
    var flow: Flow
    var buf: Two<bytes>
    var full: Two<bool>
    var client: Dir
    var haveCH: bool
    var haveSH: bool
    var rejected: bool
    var emitted: bool
    var counted: bool

    constructor (id: nat, over: bool, flow: Flow, a: Counters)
      ensures this.a == a && Value() == Fresh(id, over, flow)
    {
      this.id, this.over, this.a, this.flow := id, over, a, flow;
      buf, full, client := Two([], []), Two(false, false), Forward;
      haveCH, haveSH, rejected, emitted, counted := false, false, over, false, !over;
    }

    function Value(): State
      reads this
    {
      State(id, over, flow, buf, full, client, haveCH, haveSH, rejected, emitted, counted)
    }

    method EmitFlow()
      modifies this, a
      ensures (Value(), a.Value()) == Emit(old(Value()), old(a.Value()))
    {
      if emitted || flow.client.None? {
        return;
      }
      emitted := true;
      a.stats := a.stats.(tlsFlows := a.stats.tlsFlows + 1);
      a.log := a.log + [Emission(id, flow)];
    }

    method RejectStream()
      modifies this, a
      ensures (Value(), a.Value()) == Reject(old(Value()), old(a.Value()))
    {
      rejected := true;
      buf := Two([], []);
      a.stats := a.stats.(rejectedTcp := a.stats.rejectedTcp + 1);
    }

    method FindClient()
      modifies this
      ensures Value() == LatchClient(old(Value()))
    {
      hide FindClientHello;
      if haveCH {
        return;
      }
      var i := 0;
      while i < 2
        invariant 0 <= i <= 2
        invariant Value() == old(Value())
        invariant forall d: Dir :: (if d == Forward then 0 else 1) < i ==> !FindClientHello(buf.At(d)).Hit?
      {
        var d := if i == 0 then Forward else Backward;
        match FindClientHello(buf.At(d)) {
          case Hit(ch) =>
            haveCH, client := true, d;
            flow := flow.(client := Some(ch));
            if i != 0 {
              flow := flow.Swapped();
            }
            return;
          case _ =>
        }
        i := i + 1;
      }
      assert !FindClientHello(buf.At(Forward)).Hit? && !FindClientHello(buf.At(Backward)).Hit?;
    }

    method ParseBuffers()
      modifies this, a
      ensures (Value(), a.Value()) == Parse(old(Value()), old(a.Value()))
    {
      hide FindClientHello, FindServerHello, LatchClient;
      FindClient();
      if haveCH && !haveSH {
        match FindServerHello(buf.At(Other(client))) {
          case Hit(sh) =>
            haveSH := true;
            flow := flow.(server := Some(sh));
            if sh.flightComplete {
              EmitFlow();
            }
          case _ =>
        }
      }
      if haveCH {
        return;
      }
      if full.At(Forward) && full.At(Backward) {
        RejectStream();
        return;
      }
      if |buf.At(Forward)| < MIN_BEFORE_REJECT || FindClientHello(buf.At(Forward)) != NotTls {
        return;
      }
      if |buf.At(Backward)| < MIN_BEFORE_REJECT || FindClientHello(buf.At(Backward)) != NotTls {
        return;
      }
      RejectStream();
    }

    method ReassembledSG(d: Dir, available: bytes, ts: int)
      modifies this, a
      ensures (Value(), a.Value()) == Reassembled(a.maxPrefix, old(Value()), old(a.Value()), d, available, ts)
    {
      hide Parse;
      if |available| == 0 || rejected || (haveCH && haveSH) {
        return;
      }
      if ts > flow.lastSeen {
        flow := flow.(lastSeen := ts);
      }
      var room := a.maxPrefix - |buf.At(d)|;
      if room > 0 {
        var data := available;
        if |data| > room {
          data := data[..room];
          full := full.With(d, true);
          flow := flow.(prefixTruncated := true);
        }
        buf := buf.With(d, buf.At(d) + data);
      } else {
        full := full.With(d, true);
        flow := flow.(prefixTruncated := true);
      }
      ParseBuffers();
    }

    method ReassemblyComplete()
      modifies this, a
      ensures (Value(), a.Value()) == Complete(old(Value()), old(a.Value()))
    {
      EmitFlow();
      if counted {
        counted := false;
        a.stats := a.stats.(liveStreams := a.stats.liveStreams - 1);
      }
    }
  }
}
