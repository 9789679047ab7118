/**
 * The assembler as a state machine: gopacket creates, feeds and closes TCP streams, datagrams and idle sweeps drive
 * QUIC flows, and all of them share the admission counters and the handler (internal/assemble/assembler.go, quic.go).
 */
module Assembler {
  import opened Bytes
  import opened Flows
  import TcpStream
  import QuicFlow
  import Packet
  import Find

  /** Options after `setDefaults`, and the key derivation. */
  datatype Config = Config(maxPrefix: nat, maxStreams: nat, derive: QuicFlow.Derive)

  /** `closed` holds the streams whose `ReassemblyComplete` has run; gopacket calls nothing on them afterwards. */
  datatype World = World(
    tcp: map<nat, TcpStream.State>, closed: set<nat>, quic: map<QuicFlow.Key, QuicFlow.State>, shared: Shared)

  const START := World(map[], {}, map[], NOTHING_YET)

  datatype Event =
    | NewTcp(syn: bool, payload: bool, flow: Flow)
    | Segment(id: nat, dir: TcpStream.Dir, data: bytes, ts: int)
    | Close(id: nat)
    | Receive(datagram: QuicFlow.Datagram)
    | Flush(t: int, order: seq<QuicFlow.Key>)

  ghost predicate LawfulConfig(c: Config) {
    c.maxStreams > 0 && QuicFlow.LawfulDerive(c.derive)
  }

  // ---------------------------------------------------------------- steps

  /** `factory.New`: a bare packet that is not a SYN is declined; over the cap a stream is counted but not tracked. */
  function NewTcpStep(c: Config, w: World, syn: bool, payload: bool, flow: Flow): World {
    if !syn && !payload then w
    else
      var st := w.shared.stats;
      var over := st.liveStreams >= c.maxStreams;
      var st' := if over then st.(streams := st.streams + 1, streamsDropped := st.streamsDropped + 1)
                 else st.(streams := st.streams + 1, liveStreams := st.liveStreams + 1);
      w.(tcp := w.tcp[st.streams := TcpStream.Fresh(st.streams, over, Begun(flow))],
         shared := w.shared.(stats := st'))
  }

  function SegmentStep(c: Config, w: World, id: nat, dir: TcpStream.Dir, data: bytes, ts: int): World {
    if id !in w.tcp || id in w.closed then w
    else
      var (s, e) := TcpStream.Reassembled(c.maxPrefix, w.tcp[id], w.shared, dir, data, ts);
      w.(tcp := w.tcp[id := s], shared := e)
  }

  function CloseStep(w: World, id: nat): World {
    if id !in w.tcp || id in w.closed then w
    else
      var (s, e) := TcpStream.Complete(w.tcp[id], w.shared);
      w.(tcp := w.tcp[id := s], closed := w.closed + {id}, shared := e)
  }

  /** A flow that is not tracked yet is admitted while the QUIC map alone has room. */
  function Admit(c: Config, w: World, g: QuicFlow.Datagram, h: Packet.LongHeader): World {
    var key := QuicFlow.KeyOf(g);
    var st := w.shared.stats;
    if key in w.quic then w
    else if |w.quic| >= c.maxStreams then
      w.(shared := w.shared.(stats := st.(streamsDropped := st.streamsDropped + 1)))
    else
      w.(quic := w.quic[key := QuicFlow.Opened(st.streams, g, h)],
         shared := w.shared.(stats := st.(streams := st.streams + 1, liveStreams := st.liveStreams + 1)))
  }

  ghost function ReceiveStep(c: Config, w: World, g: QuicFlow.Datagram): World
    requires LawfulConfig(c)
  {
    match QuicFlow.Initial(g.payload)
    case None => w
    case Some(h) =>
      var key := QuicFlow.KeyOf(g);
      var w1 := Admit(c, w, g, h);
      if key !in w1.quic then w1
      else
        var (f, e) := QuicFlow.Receive(c.derive, w1.quic[key], w1.shared, g, h);
        w1.(quic := w1.quic[key := f], shared := e)
  }

  /** One iteration of the sweep: an idle flow is reported, removed and released. */
  function FlushOne(w: World, t: int, key: QuicFlow.Key): World {
    if key !in w.quic || w.quic[key].flow.lastSeen > t then w
    else
      var e := QuicFlow.Emit(w.quic[key], w.shared).1;
      w.(quic := w.quic - {key}, shared := e.(stats := e.stats.(liveStreams := e.stats.liveStreams - 1)))
  }

  /** The sweep, in whatever order the map is iterated. */
  function FlushAll(w: World, t: int, order: seq<QuicFlow.Key>): World
    decreases |order|
  {
    if order == [] then w else FlushAll(FlushOne(w, t, order[0]), t, order[1..])
  }

  ghost function Step(c: Config, w: World, ev: Event): World
    requires LawfulConfig(c)
  {
    match ev
    case NewTcp(syn, payload, flow) => NewTcpStep(c, w, syn, payload, flow)
    case Segment(id, dir, data, ts) => SegmentStep(c, w, id, dir, data, ts)
    case Close(id) => CloseStep(w, id)
    case Receive(g) => ReceiveStep(c, w, g)
    case Flush(t, order) => FlushAll(w, t, order)
  }

  ghost function Run(c: Config, events: seq<Event>): World
    requires LawfulConfig(c)
  {
    if events == [] then START else Step(c, Run(c, events[..|events| - 1]), events[|events| - 1])
  }

  // ---------------------------------------------------------------- what every step keeps

  function Counted(tcp: map<nat, TcpStream.State>): set<nat> {
    set i | i in tcp && tcp[i].counted
  }

  /** Streams ruled out on their merits. */
  function Rejected(tcp: map<nat, TcpStream.State>): set<nat> {
    set i | i in tcp && tcp[i].rejected && !tcp[i].over
  }

  /** Streams that arrived over the cap. */
  function Over(tcp: map<nat, TcpStream.State>): set<nat> {
    set i | i in tcp && tcp[i].over
  }

  /** The flows the handler has been called with. */
  function Reported(log: seq<Emission>): set<nat> {
    set i | 0 <= i < |log| :: log[i].id
  }

  /** LiveStreams is the tracked TCP streams plus the QUIC flows, and each part keeps to the cap. */
  ghost predicate Accounted(c: Config, w: World) {
    && w.shared.stats.liveStreams == |Counted(w.tcp)| + |w.quic|
    && |Counted(w.tcp)| <= c.maxStreams && |w.quic| <= c.maxStreams
  }

  /** Identities are below the stream counter and never shared. */
  ghost predicate Identified(w: World) {
    && (forall i :: i in w.tcp ==> w.tcp[i].id == i && i < w.shared.stats.streams)
    && (forall k :: k in w.quic ==> w.quic[k].id < w.shared.stats.streams && w.quic[k].id !in w.tcp)
    && (forall k, l :: k in w.quic && l in w.quic && k != l ==> w.quic[k].id != w.quic[l].id)
    && w.closed <= w.tcp.Keys
  }

  /** A stream on its own: reported only with a ClientHello, ruled out only without one. */
  predicate StreamOk(s: TcpStream.State) {
    && (s.emitted ==> s.flow.client.Some?)
    && (s.rejected ==> s.flow.client.None? && !s.haveCH)
    && (s.flow.client.Some? <==> s.haveCH)
    && (s.over ==> s.rejected && !s.counted)
  }

  /** Every call of the handler is accounted for, was the only one for its flow, and carried a ClientHello. */
  ghost predicate Logged(w: World) {
    var log := w.shared.log;
    && w.shared.stats.tlsFlows == |log|
    && (forall i, j :: 0 <= i < j < |log| ==> log[i].id != log[j].id)
    && (forall i :: 0 <= i < |log| ==> log[i].flow.client.Some? && log[i].id < w.shared.stats.streams)
    && (forall i :: i in w.tcp ==> StreamOk(w.tcp[i]) && (w.tcp[i].emitted <==> LogHas(log, i)))
    && (forall k :: k in w.quic ==>
          (w.quic[k].emitted ==> w.quic[k].flow.client.Some?) && (w.quic[k].emitted <==> LogHas(log, w.quic[k].id)))
  }

  /** A closed stream gave its slot back and was reported if it had a ClientHello. */
  ghost predicate Settled(w: World) {
    forall i :: i in w.closed && i in w.tcp ==> !w.tcp[i].counted && (w.tcp[i].flow.client.Some? ==> w.tcp[i].emitted)
  }

  /** The rejection counters count exactly the streams they are about; QUIC drops count packets on top. */
  ghost predicate Ruled(w: World) {
    w.shared.stats.rejectedTcp == |Rejected(w.tcp)| && w.shared.stats.streamsDropped >= |Over(w.tcp)|
  }

  ghost predicate Inv(c: Config, w: World) {
    Accounted(c, w) && Identified(w) && Logged(w) && Settled(w) && Ruled(w)
  }

  // ---------------------------------------------------------------- what a TCP callback may do

  /** The effect of any callback on one stream and on what is shared. */
  predicate TcpEffect(s: TcpStream.State, e: Shared, s': TcpStream.State, e': Shared) {
    && s'.id == s.id && s'.over == s.over
    && (s'.counted ==> s.counted) && (s.emitted ==> s'.emitted) && (s.rejected ==> s'.rejected)
    && e'.stats.streams == e.stats.streams && e'.stats.streamsDropped == e.stats.streamsDropped
    && e'.stats.liveStreams == e.stats.liveStreams - (if s.counted && !s'.counted then 1 else 0)
    && e'.stats.rejectedTcp == e.stats.rejectedTcp + (if s'.rejected && !s.rejected then 1 else 0)
    && e'.stats.tlsFlows == e.stats.tlsFlows + (if s'.emitted && !s.emitted then 1 else 0)
    && e'.log == e.log + (if s'.emitted && !s.emitted then [Emission(s.id, s'.flow)] else [])
    && (StreamOk(s) ==> StreamOk(s'))
  }

  lemma LatchServerEffect(s: TcpStream.State, e: Shared)
    ensures TcpEffect(s, e, TcpStream.LatchServer(s, e).0, TcpStream.LatchServer(s, e).1)
    ensures TcpStream.LatchServer(s, e).0.haveCH == s.haveCH
  {
    hide Find.FindServerHello;
    assert e.log + [] == e.log;
  }

  lemma LatchClientEffect(s: TcpStream.State, e: Shared)
    requires TcpStream.Retaining(s)
    ensures TcpEffect(s, e, TcpStream.LatchClient(s), e) && !TcpStream.LatchClient(s).rejected
    ensures TcpStream.LatchClient(s).emitted == s.emitted && TcpStream.LatchClient(s).counted == s.counted
  {
    hide Find.FindClientHello;
    assert e.log + [] == e.log;
  }

  /** Effects chain, as long as a flow does not change after it was reported. */
  lemma EffectsChain(a: TcpStream.State, e: Shared, b: TcpStream.State, e1: Shared, d: TcpStream.State, e2: Shared)
    requires TcpEffect(a, e, b, e1) && TcpEffect(b, e1, d, e2)
    requires b.emitted && !a.emitted ==> d.flow == b.flow
    ensures TcpEffect(a, e, d, e2)
  {
    hide StreamOk;
    assert e.log + [] == e.log && e1.log + [] == e1.log;
  }

  lemma ParseEffect(s: TcpStream.State, e: Shared)
    requires TcpStream.Retaining(s)
    ensures TcpEffect(s, e, TcpStream.Parse(s, e).0, TcpStream.Parse(s, e).1)
  {
    var s1 := TcpStream.LatchClient(s);
    var (s2, e2) := TcpStream.LatchServer(s1, e);
    LatchClientEffect(s, e);
    LatchServerEffect(s1, e);
    EffectsChain(s, e, s1, e, s2, e2);
    if !s2.haveCH {
      LatchNothing(s, e);
      assert e.log + [] == e.log;
    }
  }

  /** While nothing is latched the stream and what is shared are as they were. */
  lemma LatchNothing(s: TcpStream.State, e: Shared)
    requires !TcpStream.LatchServer(TcpStream.LatchClient(s), e).0.haveCH
    ensures TcpStream.LatchServer(TcpStream.LatchClient(s), e) == (s, e) && !s.haveCH
  {
    hide Find.FindClientHello, Find.FindServerHello, TcpStream.Emit;
    var s1 := TcpStream.LatchClient(s);
    LatchServerEffect(s1, e);
    assert !s1.haveCH;
  }

  lemma AppendEffect(max: nat, s: TcpStream.State, e: Shared, d: TcpStream.Dir, data: bytes, ts: int)
    ensures TcpEffect(s, e, TcpStream.Append(max, s.(flow := s.flow.SeenAt(ts)), d, data), e)
  {
    assert e.log + [] == e.log;
  }

  lemma AppendRetains(max: nat, s: TcpStream.State, d: TcpStream.Dir, data: bytes, ts: int)
    requires TcpStream.Retaining(s)
    ensures var s1 := TcpStream.Append(max, s.(flow := s.flow.SeenAt(ts)), d, data);
            TcpStream.Retaining(s1) && s1.emitted == s.emitted
  {
  }

  lemma ReassembledEffect(max: nat, s: TcpStream.State, e: Shared, d: TcpStream.Dir, data: bytes, ts: int)
    ensures var r := TcpStream.Reassembled(max, s, e, d, data, ts); TcpEffect(s, e, r.0, r.1)
  {
    hide TcpStream.Parse;
    assert e.log + [] == e.log;
    if data != [] && TcpStream.Retaining(s) {
      var s1 := TcpStream.Append(max, s.(flow := s.flow.SeenAt(ts)), d, data);
      AppendEffect(max, s, e, d, data, ts);
      hide TcpEffect, TcpStream.Append;
      AppendRetains(max, s, d, data, ts);
      ParseEffect(s1, e);
      var (s2, e2) := TcpStream.Parse(s1, e);
      EffectsChain(s, e, s1, e, s2, e2);
    }
  }

  lemma CompleteEffect(s: TcpStream.State, e: Shared)
    ensures var r := TcpStream.Complete(s, e);
            TcpEffect(s, e, r.0, r.1) && !r.0.counted && (r.0.flow.client.Some? ==> r.0.emitted)
  {
    assert e.log + [] == e.log;
  }

  // ---------------------------------------------------------------- a TCP callback keeps the invariant

  function WithTcp(w: World, id: nat, s: TcpStream.State, e: Shared): World {
    w.(tcp := w.tcp[id := s], shared := e)
  }

  lemma LogHasSnoc(log: seq<Emission>, m: Emission, id: nat)
    ensures LogHas(log + [m], id) == (LogHas(log, id) || m.id == id)
  {
    var all := log + [m];
    if LogHas(log, id) {
      var i :| 0 <= i < |log| && log[i].id == id;
      assert all[i].id == id;
    }
    if m.id == id {
      assert all[|log|].id == id;
    }
  }

  lemma TcpKeepsAccounted(c: Config, w: World, id: nat, s: TcpStream.State, e: Shared)
    requires Accounted(c, w) && id in w.tcp && TcpEffect(w.tcp[id], w.shared, s, e)
    ensures Accounted(c, WithTcp(w, id, s, e))
  {
    hide StreamOk;
    var w' := WithTcp(w, id, s, e);
    if s.counted || !w.tcp[id].counted {
      assert Counted(w'.tcp) == Counted(w.tcp);
    } else {
      assert Counted(w'.tcp) == Counted(w.tcp) - {id};
    }
  }

  lemma TcpKeepsRuled(w: World, id: nat, s: TcpStream.State, e: Shared)
    requires Ruled(w) && id in w.tcp && TcpEffect(w.tcp[id], w.shared, s, e) && StreamOk(w.tcp[id])
    ensures Ruled(WithTcp(w, id, s, e))
    ensures Over(WithTcp(w, id, s, e).tcp) == Over(w.tcp)
  {
    var w' := WithTcp(w, id, s, e);
    assert Over(w'.tcp) == Over(w.tcp);
    if s.rejected && !w.tcp[id].rejected {
      assert Rejected(w'.tcp) == Rejected(w.tcp) + {id};
    } else {
      assert Rejected(w'.tcp) == Rejected(w.tcp);
    }
  }

  lemma TcpKeepsLogged(w: World, id: nat, s: TcpStream.State, e: Shared)
    requires Logged(w) && Identified(w) && id in w.tcp && TcpEffect(w.tcp[id], w.shared, s, e)
    ensures Logged(WithTcp(w, id, s, e))
  {
    hide StreamOk;
    var w' := WithTcp(w, id, s, e);
    if s.emitted && !w.tcp[id].emitted {
      var m := Emission(id, s.flow);
      assert s.flow.client.Some? by { StreamClient(s); }
      LogGrows(w.shared.log, m);
    } else {
      assert e.log == w.shared.log;
    }
  }

  lemma StreamClient(s: TcpStream.State)
    requires StreamOk(s) && s.emitted
    ensures s.flow.client.Some?
  {
  }

  /** One more entry in the log, about a flow not in it yet. */
  lemma LogGrows(log: seq<Emission>, m: Emission)
    requires !LogHas(log, m.id)
    ensures forall i :: LogHas(log + [m], i) == (LogHas(log, i) || i == m.id)
    ensures forall i :: 0 <= i < |log| ==> log[i].id != m.id
  {
    forall i
      ensures LogHas(log + [m], i) == (LogHas(log, i) || i == m.id)
    {
      LogHasSnoc(log, m, i);
    }
  }

  lemma TcpKeepsRest(w: World, id: nat, s: TcpStream.State, e: Shared, closed: set<nat>)
    requires Identified(w) && Settled(w) && id in w.tcp && TcpEffect(w.tcp[id], w.shared, s, e) && id !in w.closed
    requires closed == w.closed || (closed == w.closed + {id} && !s.counted && (s.flow.client.Some? ==> s.emitted))
    ensures Identified(WithTcp(w, id, s, e).(closed := closed)) && Settled(WithTcp(w, id, s, e).(closed := closed))
  {
    hide StreamOk;
  }

  lemma TcpKeepsInv(c: Config, w: World, id: nat, s: TcpStream.State, e: Shared, closed: set<nat>)
    requires Inv(c, w) && id in w.tcp && TcpEffect(w.tcp[id], w.shared, s, e) && id !in w.closed
    requires closed == w.closed || (closed == w.closed + {id} && !s.counted && (s.flow.client.Some? ==> s.emitted))
    ensures Inv(c, WithTcp(w, id, s, e).(closed := closed))
  {
    TcpKeepsAccounted(c, w, id, s, e);
    TcpKeepsRuled(w, id, s, e);
    TcpKeepsLogged(w, id, s, e);
    TcpKeepsRest(w, id, s, e, closed);
    hide TcpEffect, Identified, Settled, Accounted, Ruled, Logged;
    ClosedIrrelevant(c, WithTcp(w, id, s, e), closed);
  }

  lemma ClosedIrrelevant(c: Config, w: World, closed: set<nat>)
    requires Accounted(c, w) && Ruled(w) && Logged(w)
    ensures Accounted(c, w.(closed := closed)) && Ruled(w.(closed := closed)) && Logged(w.(closed := closed))
  {
    hide StreamOk, LogHas, Counted, Rejected, Over;
  }

  lemma SegmentKeepsInv(c: Config, w: World, id: nat, dir: TcpStream.Dir, data: bytes, ts: int)
    requires Inv(c, w)
    ensures Inv(c, SegmentStep(c, w, id, dir, data, ts))
  {
    if id in w.tcp && id !in w.closed {
      ReassembledEffect(c.maxPrefix, w.tcp[id], w.shared, dir, data, ts);
      hide Inv, TcpStream.Reassembled;
      var (s, e) := TcpStream.Reassembled(c.maxPrefix, w.tcp[id], w.shared, dir, data, ts);
      TcpKeepsInv(c, w, id, s, e, w.closed);
    }
  }

  lemma CloseKeepsInv(c: Config, w: World, id: nat)
    requires Inv(c, w)
    ensures Inv(c, CloseStep(w, id))
  {
    if id in w.tcp && id !in w.closed {
      CompleteEffect(w.tcp[id], w.shared);
      hide Inv, TcpStream.Complete;
      var (s, e) := TcpStream.Complete(w.tcp[id], w.shared);
      TcpKeepsInv(c, w, id, s, e, w.closed + {id});
    }
  }

  lemma NewCounted(tcp: map<nat, TcpStream.State>, id: nat, s: TcpStream.State)
    requires id !in tcp
    ensures |Counted(tcp[id := s])| == |Counted(tcp)| + (if s.counted then 1 else 0)
  {
    assert Counted(tcp[id := s]) == if s.counted then Counted(tcp) + {id} else Counted(tcp);
  }

  lemma NewRejected(tcp: map<nat, TcpStream.State>, id: nat, s: TcpStream.State)
    requires id !in tcp
    ensures |Rejected(tcp[id := s])| == |Rejected(tcp)| + (if s.rejected && !s.over then 1 else 0)
  {
    assert Rejected(tcp[id := s]) == if s.rejected && !s.over then Rejected(tcp) + {id} else Rejected(tcp);
  }

  lemma NewOver(tcp: map<nat, TcpStream.State>, id: nat, s: TcpStream.State)
    requires id !in tcp
    ensures |Over(tcp[id := s])| == |Over(tcp)| + (if s.over then 1 else 0)
  {
    assert Over(tcp[id := s]) == if s.over then Over(tcp) + {id} else Over(tcp);
  }

  lemma NewTcpKeepsCounts(c: Config, w: World, syn: bool, payload: bool, flow: Flow)
    requires Accounted(c, w) && Ruled(w) && Identified(w)
    ensures Accounted(c, NewTcpStep(c, w, syn, payload, flow)) && Ruled(NewTcpStep(c, w, syn, payload, flow))
    ensures var w' := NewTcpStep(c, w, syn, payload, flow);
            w'.shared.stats.streamsDropped - |Over(w'.tcp)| == w.shared.stats.streamsDropped - |Over(w.tcp)|
  {
    hide Counted, Rejected, Over;
    var id := w.shared.stats.streams;
    assert id !in w.tcp;
    hide Identified;
    var over := w.shared.stats.liveStreams >= c.maxStreams;
    var s := TcpStream.Fresh(id, over, Begun(flow));
    NewCounted(w.tcp, id, s);
    NewRejected(w.tcp, id, s);
    NewOver(w.tcp, id, s);
  }

  lemma NewTcpKeepsRest(c: Config, w: World, syn: bool, payload: bool, flow: Flow)
    requires Identified(w) && Settled(w)
    ensures var w' := NewTcpStep(c, w, syn, payload, flow); Identified(w') && Settled(w')
  {
    assert w.shared.stats.streams !in w.tcp;
  }

  lemma NewTcpKeepsLogged(c: Config, w: World, syn: bool, payload: bool, flow: Flow)
    requires Logged(w)
    ensures Logged(NewTcpStep(c, w, syn, payload, flow))
  {
    var id := w.shared.stats.streams;
    assert !LogHas(w.shared.log, id);
    assert forall over, f: Flow :: f.client.None? ==> StreamOk(TcpStream.Fresh(id, over, f));
    hide LogHas, StreamOk;
  }

  lemma NewTcpKeepsInv(c: Config, w: World, syn: bool, payload: bool, flow: Flow)
    requires Inv(c, w)
    ensures Inv(c, NewTcpStep(c, w, syn, payload, flow))
  {
    hide NewTcpStep, Accounted, Ruled, Identified, Settled, Logged;
    NewTcpKeepsCounts(c, w, syn, payload, flow);
    NewTcpKeepsRest(c, w, syn, payload, flow);
    NewTcpKeepsLogged(c, w, syn, payload, flow);
  }

  // ---------------------------------------------------------------- QUIC steps keep the invariant

  /** The effect of anything done to one QUIC flow. */
  predicate QuicEffect(f: QuicFlow.State, e: Shared, f': QuicFlow.State, e': Shared) {
    && f'.id == f.id && (f.emitted ==> f'.emitted)
    && e'.stats == e.stats.(tlsFlows := e.stats.tlsFlows + (if f'.emitted && !f.emitted then 1 else 0))
    && e'.log == e.log + (if f'.emitted && !f.emitted then [Emission(f.id, f'.flow)] else [])
    && ((f.emitted ==> f.flow.client.Some?) ==> (f'.emitted ==> f'.flow.client.Some?))
  }

  lemma QuicParseEffect(f: QuicFlow.State, e: Shared)
    requires !f.emitted
    ensures var r := QuicFlow.Parse(f, e); QuicEffect(f, e, r.0, r.1)
  {
    hide Find.FindClientHelloRaw, Find.FindServerHelloRaw;
    assert e.log + [] == e.log;
  }

  lemma QuicReceiveEffect(derive: QuicFlow.Derive, f: QuicFlow.State, e: Shared, g: QuicFlow.Datagram,
                          h: Packet.LongHeader)
    requires QuicFlow.LawfulDerive(derive) && 0 < h.pnOffset && h.end <= |g.payload|
    ensures var r := QuicFlow.Receive(derive, f, e, g, h); QuicEffect(f, e, r.0, r.1)
  {
    hide QuicFlow.Parse, Packet.Opened, QuicFlow.AddFrames;
    assert e.log + [] == e.log;
    if !f.rejected && !f.emitted {
      var f1 := f.(flow := f.flow.SeenAt(g.ts));
      var k := derive(f.version, f.origDcid, !QuicFlow.FromClient(f, g));
      if k.Some? {
        assert Packet.Lawful(k.value);
        var opn := Packet.Opened(g.payload, h, k.value);
        if opn.Ok? {
          var f2 := QuicFlow.AddFrames(f1, QuicFlow.FromClient(f, g), QuicFlow.Frames.Extract(opn.value.1, 0));
          AddFramesKeeps(f1, QuicFlow.FromClient(f, g), QuicFlow.Frames.Extract(opn.value.1, 0));
          QuicParseEffect(f2, e);
        }
      }
    }
  }

  lemma AddFramesKeeps(f: QuicFlow.State, fromClient: bool, frames: seq<QuicFlow.Frames.CryptoFrame>)
    ensures QuicFlow.AddFrames(f, fromClient, frames)
         == f.(client := QuicFlow.AddFrames(f, fromClient, frames).client,
               server := QuicFlow.AddFrames(f, fromClient, frames).server)
  {
  }

  lemma QuicKeepsLogged(w: World, key: QuicFlow.Key, f: QuicFlow.State, e: Shared)
    requires Logged(w) && Identified(w) && key in w.quic && QuicEffect(w.quic[key], w.shared, f, e)
    ensures Logged(w.(quic := w.quic[key := f], shared := e))
  {
    hide StreamOk;
    if f.emitted && !w.quic[key].emitted {
      LogGrows(w.shared.log, Emission(f.id, f.flow));
    } else {
      assert e.log == w.shared.log;
    }
  }

  /** Steps that touch only the QUIC map and the counters leave what is known of TCP streams alone. */
  lemma TcpUntouched(c: Config, w: World, w': World)
    requires Accounted(c, w) && Ruled(w) && Settled(w) && w'.tcp == w.tcp && w'.closed == w.closed
    requires w'.shared.stats.rejectedTcp == w.shared.stats.rejectedTcp
    requires w'.shared.stats.streamsDropped >= w.shared.stats.streamsDropped
    requires |w'.quic| <= c.maxStreams
    requires w'.shared.stats.liveStreams - |w'.quic| == w.shared.stats.liveStreams - |w.quic|
    ensures Accounted(c, w') && Ruled(w') && Settled(w')
  {
    hide Counted, Rejected, Over;
  }

  lemma QuicKeepsIdentified(w: World, key: QuicFlow.Key, f: QuicFlow.State, e: Shared)
    requires Identified(w) && key in w.quic && f.id == w.quic[key].id && e.stats.streams == w.shared.stats.streams
    ensures Identified(w.(quic := w.quic[key := f], shared := e))
  {
  }

  lemma QuicKeepsInv(c: Config, w: World, key: QuicFlow.Key, f: QuicFlow.State, e: Shared)
    requires Inv(c, w) && key in w.quic && QuicEffect(w.quic[key], w.shared, f, e)
    ensures Inv(c, w.(quic := w.quic[key := f], shared := e))
  {
    hide Counted, Rejected, Over, StreamOk, LogHas;
    var w' := w.(quic := w.quic[key := f], shared := e);
    QuicKeepsLogged(w, key, f, e);
    QuicKeepsIdentified(w, key, f, e);
    assert |w.quic| <= c.maxStreams;
    hide Logged, Identified, Accounted, Ruled, Settled;
    assert w'.quic.Keys == w.quic.Keys;
    TcpUntouched(c, w, w');
  }

  lemma AdmitKeepsIdentified(c: Config, w: World, g: QuicFlow.Datagram, h: Packet.LongHeader)
    requires Identified(w)
    ensures Identified(Admit(c, w, g, h))
  {
    assert w.shared.stats.streams !in w.tcp;
  }

  lemma AdmitKeepsLogged(c: Config, w: World, g: QuicFlow.Datagram, h: Packet.LongHeader)
    requires Logged(w)
    ensures Logged(Admit(c, w, g, h))
  {
    assert !LogHas(w.shared.log, w.shared.stats.streams);
    hide StreamOk, LogHas;
  }

  lemma MapSizeAdd<K, V>(m: map<K, V>, k: K, v: V)
    requires k !in m
    ensures |m[k := v]| == |m| + 1
  {
    assert m[k := v].Keys == m.Keys + {k};
  }

  lemma AdmitCounts(c: Config, w: World, g: QuicFlow.Datagram, h: Packet.LongHeader)
    requires |w.quic| <= c.maxStreams
    ensures var w' := Admit(c, w, g, h);
            && |w'.quic| <= c.maxStreams
            && w'.shared.stats.liveStreams - |w'.quic| == w.shared.stats.liveStreams - |w.quic|
  {
    hide QuicFlow.Opened, QuicFlow.KeyOf;
    var key := QuicFlow.KeyOf(g);
    if key !in w.quic {
      MapSizeAdd(w.quic, key, QuicFlow.Opened(w.shared.stats.streams, g, h));
    }
  }

  lemma AdmitKeepsInv(c: Config, w: World, g: QuicFlow.Datagram, h: Packet.LongHeader)
    requires Inv(c, w)
    ensures Inv(c, Admit(c, w, g, h))
  {
    AdmitKeepsIdentified(c, w, g, h);
    AdmitKeepsLogged(c, w, g, h);
    AdmitCounts(c, w, g, h);
    hide Identified, Logged, Accounted, Ruled, Settled, QuicFlow.Opened, QuicFlow.KeyOf;
    TcpUntouched(c, w, Admit(c, w, g, h));
  }

  lemma ReceiveKeepsInv(c: Config, w: World, g: QuicFlow.Datagram)
    requires LawfulConfig(c) && Inv(c, w)
    ensures Inv(c, ReceiveStep(c, w, g))
  {
    hide Inv, QuicFlow.Initial, QuicFlow.Receive, Admit;
    var h := QuicFlow.Initial(g.payload);
    if h.Some? {
      AdmitKeepsInv(c, w, g, h.value);
      var w1 := Admit(c, w, g, h.value);
      var key := QuicFlow.KeyOf(g);
      if key in w1.quic {
        QuicReceiveEffect(c.derive, w1.quic[key], w1.shared, g, h.value);
        var (f, e) := QuicFlow.Receive(c.derive, w1.quic[key], w1.shared, g, h.value);
        QuicKeepsInv(c, w1, key, f, e);
      }
    }
  }

  lemma QuicEmitEffect(f: QuicFlow.State, e: Shared)
    ensures var r := QuicFlow.Emit(f, e); QuicEffect(f, e, r.0, r.1) && (r.0.flow.client.Some? ==> r.0.emitted)
    ensures QuicFlow.Emit(f, e).0.flow == f.flow
  {
    assert e.log + [] == e.log;
  }

  function Released(w: World, key: QuicFlow.Key): World {
    w.(quic := w.quic - {key},
       shared := w.shared.(stats := w.shared.stats.(liveStreams := w.shared.stats.liveStreams - 1)))
  }

  lemma ReleaseKeepsRest(w: World, key: QuicFlow.Key)
    requires Identified(w) && Logged(w)
    ensures Identified(Released(w, key)) && Logged(Released(w, key))
  {
    hide StreamOk, LogHas;
  }

  /** Removing a flow gives its slot back and forgets nothing that was reported. */
  lemma ReleaseKeepsInv(c: Config, w: World, key: QuicFlow.Key)
    requires Inv(c, w) && key in w.quic
    ensures Inv(c, Released(w, key))
  {
    ReleaseKeepsRest(w, key);
    hide Identified, Logged;
    assert (w.quic - {key}).Keys == w.quic.Keys - {key};
    TcpUntouched(c, w, Released(w, key));
  }

  lemma FlushOneKeepsInv(c: Config, w: World, t: int, key: QuicFlow.Key)
    requires Inv(c, w)
    ensures Inv(c, FlushOne(w, t, key))
  {
    hide Inv, QuicFlow.Emit;
    if key in w.quic && w.quic[key].flow.lastSeen <= t {
      var (f, e) := QuicFlow.Emit(w.quic[key], w.shared);
      QuicEmitEffect(w.quic[key], w.shared);
      QuicKeepsInv(c, w, key, f, e);
      var w1 := w.(quic := w.quic[key := f], shared := e);
      ReleaseKeepsInv(c, w1, key);
      assert w1.quic - {key} == w.quic - {key};
    }
  }

  lemma {:induction false} FlushKeepsInv(c: Config, w: World, t: int, order: seq<QuicFlow.Key>)
    requires Inv(c, w)
    ensures Inv(c, FlushAll(w, t, order))
    decreases |order|
  {
    hide Inv, FlushOne;
    if order != [] {
      FlushOneKeepsInv(c, w, t, order[0]);
      FlushKeepsInv(c, FlushOne(w, t, order[0]), t, order[1..]);
    }
  }

  lemma StepKeepsInv(c: Config, w: World, ev: Event)
    requires LawfulConfig(c) && Inv(c, w)
    ensures Inv(c, Step(c, w, ev))
  {
    hide Inv, NewTcpStep, SegmentStep, CloseStep, ReceiveStep, FlushAll;
    match ev {
      case NewTcp(syn, payload, flow) => NewTcpKeepsInv(c, w, syn, payload, flow);
      case Segment(id, dir, data, ts) => SegmentKeepsInv(c, w, id, dir, data, ts);
      case Close(id) => CloseKeepsInv(c, w, id);
      case Receive(g) => ReceiveKeepsInv(c, w, g);
      case Flush(t, order) => FlushKeepsInv(c, w, t, order);
    }
  }

  lemma StartInv(c: Config)
    ensures Inv(c, START)
  {
    assert Counted(START.tcp) == {} && Rejected(START.tcp) == {} && Over(START.tcp) == {};
  }

  /** Every reachable state satisfies the invariant. */
  lemma {:induction false} RunKeepsInv(c: Config, events: seq<Event>)
    requires LawfulConfig(c)
    ensures Inv(c, Run(c, events))
  {
    hide Inv, Step;
    if events == [] {
      StartInv(c);
    } else {
      RunKeepsInv(c, events[..|events| - 1]);
      StepKeepsInv(c, Run(c, events[..|events| - 1]), events[|events| - 1]);
    }
  }
}
