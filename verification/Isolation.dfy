/**
 * Connections do not interfere: in every run of the assembler a TCP stream is what its own segments made of it, and a
 * QUIC flow what its own datagrams did, whatever else was captured in between.
 */
module Isolation {
  import opened Bytes
  import opened Flows
  import opened Assembler
  import TcpStream
  import TcpRuns
  import QuicFlow
  import Packet
  import Find

  // ---------------------------------------------------------------- TCP

  /** The observation a stream was created with. */
  ghost function CreatedAs(c: Config, events: seq<Event>, id: nat): Flow
    requires LawfulConfig(c)
  {
    if events == [] then BLANK_FLOW
    else
      var before, last := events[..|events| - 1], events[|events| - 1];
      if id in Run(c, before).tcp || !last.NewTcp? then CreatedAs(c, before, id)
      else Begun(last.flow)
  }

  /** The segments delivered to a stream while it was open. */
  ghost function Heard(c: Config, events: seq<Event>, id: nat): seq<TcpRuns.Event>
    requires LawfulConfig(c)
  {
    if events == [] then []
    else
      var before, last := events[..|events| - 1], events[|events| - 1];
      var heard := Heard(c, before, id);
      if last.Segment? && last.id == id && id in Run(c, before).tcp && id !in Run(c, before).closed
      then heard + [TcpRuns.Event(last.dir, last.data, last.ts)]
      else heard
  }

  /** A stream that has heard these segments and nothing else, and was then closed or not. */
  function OnItsOwn(c: Config, id: nat, over: bool, created: Flow, heard: seq<TcpRuns.Event>,
                    closed: bool): TcpStream.State {
    var s := TcpRuns.Run(c.maxPrefix, TcpStream.Fresh(id, over, created), NOTHING_YET, heard).0;
    if closed then TcpStream.Complete(s, NOTHING_YET).0 else s
  }

  /** What is shared does not flow back into a stream. */
  lemma StreamIgnoresShared(max: nat, s: TcpStream.State, e: Shared, e': Shared, d: TcpStream.Dir, data: bytes, ts: int)
    ensures TcpStream.Reassembled(max, s, e, d, data, ts).0 == TcpStream.Reassembled(max, s, e', d, data, ts).0
  {
    hide TcpStream.Parse, TcpStream.Append;
    if data != [] && TcpStream.Retaining(s) {
      ParseIgnoresShared(TcpStream.Append(max, s.(flow := s.flow.SeenAt(ts)), d, data), e, e');
    }
  }

  lemma ParseIgnoresShared(s: TcpStream.State, e: Shared, e': Shared)
    ensures TcpStream.Parse(s, e).0 == TcpStream.Parse(s, e').0
  {
    hide TcpStream.LatchClient, TcpStream.LatchServer, TcpStream.NotTlsEitherWay;
    LatchIgnoresShared(TcpStream.LatchClient(s), e, e');
  }

  lemma LatchIgnoresShared(s: TcpStream.State, e: Shared, e': Shared)
    ensures TcpStream.LatchServer(s, e).0 == TcpStream.LatchServer(s, e').0
  {
    hide Find.FindServerHello;
  }

  lemma CloseIgnoresShared(s: TcpStream.State, e: Shared, e': Shared)
    ensures TcpStream.Complete(s, e).0 == TcpStream.Complete(s, e').0
  {
  }

  /** One stream is unchanged by a step that is not about it. */
  lemma StepLeavesStream(c: Config, w: World, ev: Event, id: nat)
    requires LawfulConfig(c) && Inv(c, w) && id in w.tcp
    requires !(ev.Segment? && ev.id == id) && !(ev.Close? && ev.id == id)
    ensures var w' := Step(c, w, ev); id in w'.tcp && w'.tcp[id] == w.tcp[id] && (id in w'.closed <==> id in w.closed)
  {
    hide TcpStream.Reassembled, TcpStream.Complete, ReceiveStep, FlushAll, Inv;
    IdBelowStreams(c, w, id);
    match ev {
      case NewTcp(_, _, _) =>
      case Segment(_, _, _, _) =>
      case Close(_) =>
      case Receive(g) => ReceiveLeavesTcp(c, w, g);
      case Flush(t, order) => FlushLeavesTcp(w, t, order);
    }
  }

  lemma IdBelowStreams(c: Config, w: World, id: nat)
    requires Inv(c, w) && id in w.tcp
    ensures id < w.shared.stats.streams
  {
  }

  lemma ReceiveLeavesTcp(c: Config, w: World, g: QuicFlow.Datagram)
    requires LawfulConfig(c)
    ensures ReceiveStep(c, w, g).tcp == w.tcp && ReceiveStep(c, w, g).closed == w.closed
  {
    hide QuicFlow.Initial, QuicFlow.Receive, QuicFlow.KeyOf, QuicFlow.Opened;
  }

  lemma {:induction false} FlushLeavesTcp(w: World, t: int, order: seq<QuicFlow.Key>)
    ensures FlushAll(w, t, order).tcp == w.tcp && FlushAll(w, t, order).closed == w.closed
    decreases |order|
  {
    if order != [] {
      FlushLeavesTcp(FlushOne(w, t, order[0]), t, order[1..]);
    }
  }

  /** Only `NewTcp` creates a stream, and it starts afresh. */
  lemma StepCreates(c: Config, w: World, ev: Event, id: nat)
    requires LawfulConfig(c) && Inv(c, w) && id !in w.tcp && id in Step(c, w, ev).tcp
    ensures ev.NewTcp? && id !in Step(c, w, ev).closed
    ensures var s := Step(c, w, ev).tcp[id]; s == TcpStream.Fresh(id, s.over, Begun(ev.flow))
  {
    hide TcpStream.Reassembled, TcpStream.Complete, QuicFlow.Initial, QuicFlow.Receive, QuicFlow.KeyOf;
    if ev.Flush? {
      FlushLeavesTcp(w, ev.t, ev.order);
    }
  }

  /** A stream that does not exist has heard nothing. */
  lemma {:induction false} UnheardBefore(c: Config, events: seq<Event>, id: nat)
    requires LawfulConfig(c) && id !in Run(c, events).tcp
    ensures Heard(c, events, id) == []
  {
    hide Step;
    if events != [] {
      var before := events[..|events| - 1];
      RunKeepsInv(c, before);
      if id in Run(c, before).tcp {
        StepKeepsStream(c, Run(c, before), events[|events| - 1], id);
      }
      UnheardBefore(c, before, id);
    }
  }

  lemma StepKeepsStream(c: Config, w: World, ev: Event, id: nat)
    requires LawfulConfig(c) && id in w.tcp
    ensures id in Step(c, w, ev).tcp
  {
    hide TcpStream.Reassembled, TcpStream.Complete, ReceiveStep, FlushAll;
    match ev {
      case NewTcp(_, _, _) =>
      case Segment(_, _, _, _) =>
      case Close(_) =>
      case Receive(g) => ReceiveLeavesTcp(c, w, g);
      case Flush(t, order) => FlushLeavesTcp(w, t, order);
    }
  }

  /** What one step does to a stream, in terms of what the stream has heard. */
  ghost predicate Alone(c: Config, events: seq<Event>, id: nat)
    requires LawfulConfig(c)
  {
    var w := Run(c, events);
    id in w.tcp ==>
      && w.tcp[id] == OnItsOwn(c, id, w.tcp[id].over, CreatedAs(c, events, id), Heard(c, events, id), id in w.closed)
      && CreatedAs(c, events, id) == Begun(CreatedAs(c, events, id))
  }

  lemma OneMoreSegment(c: Config, id: nat, over: bool, created: Flow, heard: seq<TcpRuns.Event>, ev: TcpRuns.Event,
                       e: Shared)
    ensures OnItsOwn(c, id, over, created, heard + [ev], false)
         == TcpStream.Reassembled(c.maxPrefix, OnItsOwn(c, id, over, created, heard, false), e,
                                  ev.dir, ev.data, ev.ts).0
  {
    hide TcpStream.Reassembled;
    assert (heard + [ev])[..|heard|] == heard;
    var (s, e1) := TcpRuns.Run(c.maxPrefix, TcpStream.Fresh(id, over, created), NOTHING_YET, heard);
    StreamIgnoresShared(c.maxPrefix, s, e, e1, ev.dir, ev.data, ev.ts);
  }

  lemma ThenClosed(c: Config, id: nat, over: bool, created: Flow, heard: seq<TcpRuns.Event>, e: Shared)
    ensures OnItsOwn(c, id, over, created, heard, true)
         == TcpStream.Complete(OnItsOwn(c, id, over, created, heard, false), e).0
  {
    hide TcpStream.Reassembled, TcpRuns.Run;
    var s := TcpRuns.Run(c.maxPrefix, TcpStream.Fresh(id, over, created), NOTHING_YET, heard).0;
    CloseIgnoresShared(s, e, NOTHING_YET);
  }

  lemma ReassembledKeepsOver(max: nat, s: TcpStream.State, e: Shared, d: TcpStream.Dir, data: bytes, ts: int)
    ensures TcpStream.Reassembled(max, s, e, d, data, ts).0.over == s.over && TcpStream.Complete(s, e).0.over == s.over
  {
    ReassembledEffect(max, s, e, d, data, ts);
    CompleteEffect(s, e);
  }

  /** In every run, a TCP stream is what its own segments and its own close made of it. */
  lemma {:induction false} StreamsDoNotInterfere(c: Config, events: seq<Event>, id: nat)
    requires LawfulConfig(c)
    ensures Alone(c, events, id)
  {
    hide Step, OnItsOwn;
    if events != [] {
      var before, ev := events[..|events| - 1], events[|events| - 1];
      var w := Run(c, before);
      StreamsDoNotInterfere(c, before, id);
      RunKeepsInv(c, before);
      hide Run;
      if id !in w.tcp {
        BornAlone(c, events, id);
      } else if ev.Segment? && ev.id == id {
        SegmentAlone(c, events, id);
      } else if ev.Close? && ev.id == id {
        CloseAlone(c, events, id);
      } else {
        StepLeavesStream(c, w, ev, id);
        RunLast(c, events);
      }
    }
  }

  lemma RunLast(c: Config, events: seq<Event>)
    requires LawfulConfig(c) && events != []
    ensures Run(c, events) == Step(c, Run(c, events[..|events| - 1]), events[|events| - 1])
  {
  }

  lemma BornAlone(c: Config, events: seq<Event>, id: nat)
    requires LawfulConfig(c) && events != [] && id !in Run(c, events[..|events| - 1]).tcp
    ensures Alone(c, events, id)
  {
    hide Step, Run;
    RunLast(c, events);
    var before, ev := events[..|events| - 1], events[|events| - 1];
    RunKeepsInv(c, before);
    UnheardBefore(c, before, id);
    if id in Run(c, events).tcp {
      StepCreates(c, Run(c, before), ev, id);
    }
  }

  lemma SegmentAlone(c: Config, events: seq<Event>, id: nat)
    requires LawfulConfig(c) && events != [] && id in Run(c, events[..|events| - 1]).tcp
    requires events[|events| - 1].Segment? && events[|events| - 1].id == id && Alone(c, events[..|events| - 1], id)
    ensures Alone(c, events, id)
  {
    hide Run, OnItsOwn, TcpStream.Reassembled;
    RunLast(c, events);
    var before, ev := events[..|events| - 1], events[|events| - 1];
    var w := Run(c, before);
    if id !in w.closed {
      ReassembledKeepsOver(c.maxPrefix, w.tcp[id], w.shared, ev.dir, ev.data, ev.ts);
      OneMoreSegment(c, id, w.tcp[id].over, CreatedAs(c, before, id), Heard(c, before, id),
                     TcpRuns.Event(ev.dir, ev.data, ev.ts), w.shared);
    }
  }

  lemma CloseAlone(c: Config, events: seq<Event>, id: nat)
    requires LawfulConfig(c) && events != [] && id in Run(c, events[..|events| - 1]).tcp
    requires events[|events| - 1].Close? && events[|events| - 1].id == id && Alone(c, events[..|events| - 1], id)
    ensures Alone(c, events, id)
  {
    hide Run, OnItsOwn, TcpStream.Complete;
    RunLast(c, events);
    var before := events[..|events| - 1];
    var w := Run(c, before);
    if id !in w.closed {
      ReassembledKeepsOver(c.maxPrefix, w.tcp[id], w.shared, TcpStream.Forward, [], 0);
      ThenClosed(c, id, w.tcp[id].over, CreatedAs(c, before, id), Heard(c, before, id), w.shared);
    }
  }

  /** What rejection means in any run: `RejectionSound` of what a stream heard, whatever else was going on. */
  lemma RejectionSoundInRuns(c: Config, events: seq<Event>, id: nat)
    requires LawfulConfig(c) && id in Run(c, events).tcp && Run(c, events).tcp[id].rejected
             && !Run(c, events).tcp[id].over
    ensures var heard := Heard(c, events, id);
            && (forall d: TcpStream.Dir :: !Find.FindClientHello(TcpRuns.Retained(c.maxPrefix, heard, d)).Hit?)
            && (|| (forall d: TcpStream.Dir :: |TcpRuns.Delivered(heard).At(d)| > c.maxPrefix)
                || (forall d: TcpStream.Dir, more: bytes ::
                      Find.FindClientHello(TcpRuns.Retained(c.maxPrefix, heard, d) + more) == Find.NotTls))
            && (forall d: TcpStream.Dir ::
                  || Find.FindClientHello(TcpRuns.Retained(c.maxPrefix, heard, d)) == Find.NotTls
                  || TcpRuns.NeverHits(TcpRuns.Retained(c.maxPrefix, heard, d)))
  {
    hide Run, Find.FindClientHello, TcpRuns.Run, Heard, CreatedAs, TcpRuns.NeverHits;
    StreamsDoNotInterfere(c, events, id);
    var heard, created := Heard(c, events, id), CreatedAs(c, events, id);
    assert TcpRuns.Run(c.maxPrefix, TcpStream.Fresh(id, false, created), NOTHING_YET, heard).0.rejected;
    TcpRuns.RejectionSound(c.maxPrefix, id, created, NOTHING_YET, heard);
  }

  // ---------------------------------------------------------------- QUIC

  /** The Initials a tracked flow has received, from the one that opened it. */
  ghost function HeardOn(c: Config, events: seq<Event>, key: QuicFlow.Key): seq<QuicFlow.Datagram>
    requires LawfulConfig(c)
  {
    if events == [] then []
    else
      var before, last := events[..|events| - 1], events[|events| - 1];
      if key !in Run(c, events).quic then []
      else if last.Receive? && QuicFlow.Initial(last.datagram.payload).Some? && QuicFlow.KeyOf(last.datagram) == key
      then HeardOn(c, before, key) + [last.datagram]
      else HeardOn(c, before, key)
  }

  ghost predicate AllInitials(gs: seq<QuicFlow.Datagram>) {
    forall i :: 0 <= i < |gs| ==> QuicFlow.Initial(gs[i].payload).Some?
  }

  /** A flow opened by the first of these Initials that has received all of them and nothing else. */
  ghost function FlowOnItsOwn(derive: QuicFlow.Derive, id: nat, gs: seq<QuicFlow.Datagram>): QuicFlow.State
    requires QuicFlow.LawfulDerive(derive) && gs != [] && AllInitials(gs)
  {
    var last := gs[|gs| - 1];
    var h := QuicFlow.Initial(last.payload).value;
    var f := if |gs| == 1 then QuicFlow.Opened(id, last, h) else FlowOnItsOwn(derive, id, gs[..|gs| - 1]);
    QuicFlow.Receive(derive, f, NOTHING_YET, last, h).0
  }

  lemma FlowIgnoresShared(derive: QuicFlow.Derive, f: QuicFlow.State, e: Shared, e': Shared, g: QuicFlow.Datagram,
                          h: Packet.LongHeader)
    requires QuicFlow.LawfulDerive(derive) && 0 < h.pnOffset && h.end <= |g.payload|
    ensures QuicFlow.Receive(derive, f, e, g, h).0 == QuicFlow.Receive(derive, f, e', g, h).0
    ensures QuicFlow.Receive(derive, f, e, g, h).0.id == f.id
  {
    hide Packet.Opened, Find.FindClientHelloRaw, Find.FindServerHelloRaw;
    var k := derive(f.version, f.origDcid, !QuicFlow.FromClient(f, g));
    assert k.Some? ==> Packet.Lawful(k.value);
  }

  /** A sweep leaves the flows it does not remove alone. */
  lemma {:induction false} FlushLeavesFlow(w: World, t: int, order: seq<QuicFlow.Key>, key: QuicFlow.Key)
    ensures var w' := FlushAll(w, t, order); key in w'.quic ==> key in w.quic && w'.quic[key] == w.quic[key]
    decreases |order|
  {
    if order != [] {
      FlushLeavesFlow(FlushOne(w, t, order[0]), t, order[1..], key);
    }
  }

  /** A step that is not an Initial for this flow leaves it alone or removes it. */
  lemma StepLeavesFlow(c: Config, w: World, ev: Event, key: QuicFlow.Key)
    requires LawfulConfig(c)
    requires !(ev.Receive? && QuicFlow.Initial(ev.datagram.payload).Some? && QuicFlow.KeyOf(ev.datagram) == key)
    ensures var w' := Step(c, w, ev); key in w'.quic ==> key in w.quic && w'.quic[key] == w.quic[key]
  {
    hide TcpStream.Reassembled, TcpStream.Complete, QuicFlow.Initial, QuicFlow.Receive, QuicFlow.KeyOf;
    if ev.Flush? {
      FlushLeavesFlow(w, ev.t, ev.order, key);
    }
  }

  /** An Initial for this flow opens it, is refused, or is received by it. */
  lemma StepReceives(c: Config, w: World, g: QuicFlow.Datagram)
    requires LawfulConfig(c) && QuicFlow.Initial(g.payload).Some?
    requires QuicFlow.KeyOf(g) in ReceiveStep(c, w, g).quic
    ensures var key, h := QuicFlow.KeyOf(g), QuicFlow.Initial(g.payload).value;
            var f := if key in w.quic then w.quic[key] else QuicFlow.Opened(w.shared.stats.streams, g, h);
            ReceiveStep(c, w, g).quic[key] == QuicFlow.Receive(c.derive, f, NOTHING_YET, g, h).0
  {
    hide QuicFlow.Initial, QuicFlow.Receive, QuicFlow.KeyOf, QuicFlow.Opened;
    var key, h := QuicFlow.KeyOf(g), QuicFlow.Initial(g.payload).value;
    var w1 := Admit(c, w, g, h);
    FlowIgnoresShared(c.derive, w1.quic[key], w1.shared, NOTHING_YET, g, h);
  }

  ghost predicate FlowAlone(c: Config, events: seq<Event>, key: QuicFlow.Key)
    requires LawfulConfig(c)
  {
    var w, gs := Run(c, events), HeardOn(c, events, key);
    if key in w.quic then gs != [] && AllInitials(gs) && w.quic[key] == FlowOnItsOwn(c.derive, w.quic[key].id, gs)
    else gs == []
  }

  lemma OneMoreInitial(derive: QuicFlow.Derive, id: nat, gs: seq<QuicFlow.Datagram>, g: QuicFlow.Datagram)
    requires QuicFlow.LawfulDerive(derive) && AllInitials(gs) && QuicFlow.Initial(g.payload).Some?
    ensures AllInitials(gs + [g])
    ensures var h := QuicFlow.Initial(g.payload).value;
            FlowOnItsOwn(derive, id, gs + [g])
            == QuicFlow.Receive(derive, if gs == [] then QuicFlow.Opened(id, g, h) else FlowOnItsOwn(derive, id, gs),
                                NOTHING_YET, g, h).0
  {
    hide QuicFlow.Initial, QuicFlow.Receive, QuicFlow.Opened;
    assert (gs + [g])[..|gs|] == gs;
  }

  lemma ReceiveAlone(c: Config, events: seq<Event>)
    requires LawfulConfig(c) && events != [] && events[|events| - 1].Receive?
    requires QuicFlow.Initial(events[|events| - 1].datagram.payload).Some?
    requires FlowAlone(c, events[..|events| - 1], QuicFlow.KeyOf(events[|events| - 1].datagram))
    ensures FlowAlone(c, events, QuicFlow.KeyOf(events[|events| - 1].datagram))
  {
    hide Run, QuicFlow.Initial, QuicFlow.Receive, QuicFlow.KeyOf, QuicFlow.Opened, ReceiveStep, FlowOnItsOwn,
      AllInitials;
    RunLast(c, events);
    var before, g := events[..|events| - 1], events[|events| - 1].datagram;
    var w, key, gs := Run(c, before), QuicFlow.KeyOf(g), HeardOn(c, before, QuicFlow.KeyOf(g));
    var h := QuicFlow.Initial(g.payload).value;
    if key in Run(c, events).quic {
      StepReceives(c, w, g);
      var f := if key in w.quic then w.quic[key] else QuicFlow.Opened(w.shared.stats.streams, g, h);
      FlowIgnoresShared(c.derive, f, NOTHING_YET, NOTHING_YET, g, h);
      NoInitials();
      OpenedId(w.shared.stats.streams, g, h);
      OneMoreInitial(c.derive, f.id, gs, g);
    }
  }

  lemma NoInitials()
    ensures AllInitials([])
  {
  }

  lemma OpenedId(id: nat, g: QuicFlow.Datagram, h: Packet.LongHeader)
    ensures QuicFlow.Opened(id, g, h).id == id
  {
  }

  /** In every run, a tracked QUIC flow is what the Initials of its own key made of it since it was opened. */
  lemma {:induction false} FlowsDoNotInterfere(c: Config, events: seq<Event>, key: QuicFlow.Key)
    requires LawfulConfig(c)
    ensures FlowAlone(c, events, key)
  {
    hide Step, FlowOnItsOwn, QuicFlow.Initial, QuicFlow.KeyOf, AllInitials;
    if events != [] {
      var before, ev := events[..|events| - 1], events[|events| - 1];
      FlowsDoNotInterfere(c, before, key);
      hide Run;
      RunLast(c, events);
      if ev.Receive? && QuicFlow.Initial(ev.datagram.payload).Some? && QuicFlow.KeyOf(ev.datagram) == key {
        ReceiveAlone(c, events);
      } else {
        StepLeavesFlow(c, Run(c, before), ev, key);
      }
    }
  }
}
