/** What becomes of reports over whole runs: the log only grows, and nothing reported or due is lost. */
module AssemblerReports {
  import opened Bytes
  import opened Flows
  import opened Assembler
  import opened AssemblerRuns
  import TcpStream
  import QuicFlow
  import Packet
  import Find

  // ---------------------------------------------------------------- the log only grows

  lemma ReceiveGrowsLog(c: Config, w: World, g: QuicFlow.Datagram)
    requires LawfulConfig(c)
    ensures w.shared.log <= ReceiveStep(c, w, g).shared.log
  {
    hide QuicFlow.Initial, QuicFlow.Receive, QuicFlow.KeyOf;
    var h := QuicFlow.Initial(g.payload);
    if h.Some? {
      var w1 := Admit(c, w, g, h.value);
      if QuicFlow.KeyOf(g) in w1.quic {
        QuicReceiveEffect(c.derive, w1.quic[QuicFlow.KeyOf(g)], w1.shared, g, h.value);
      }
    }
  }

  lemma {:induction false} FlushGrowsLog(w: World, t: int, order: seq<QuicFlow.Key>)
    ensures w.shared.log <= FlushAll(w, t, order).shared.log
    decreases |order|
  {
    if order != [] {
      FlushGrowsLog(FlushOne(w, t, order[0]), t, order[1..]);
    }
  }

  lemma StepGrowsLog(c: Config, w: World, ev: Event)
    requires LawfulConfig(c)
    ensures w.shared.log <= Step(c, w, ev).shared.log
  {
    match ev {
      case NewTcp(_, _, _) =>
      case Segment(id, dir, data, ts) =>
        if id in w.tcp && id !in w.closed {
          ReassembledEffect(c.maxPrefix, w.tcp[id], w.shared, dir, data, ts);
          hide TcpStream.Reassembled;
        }
      case Close(id) =>
        if id in w.tcp && id !in w.closed {
          CompleteEffect(w.tcp[id], w.shared);
          hide TcpStream.Complete;
        }
      case Receive(g) => ReceiveGrowsLog(c, w, g);
      case Flush(t, order) => FlushGrowsLog(w, t, order);
    }
  }

  /** A report once made stays where it is, whatever happens next. */
  lemma {:induction false} LogOnlyGrows(c: Config, events: seq<Event>, more: seq<Event>)
    requires LawfulConfig(c)
    ensures Run(c, events).shared.log <= Run(c, events + more).shared.log
    decreases |more|
  {
    hide Run, Step;
    if more == [] {
      assert events + more == events;
    } else {
      LogOnlyGrows(c, events, more[..|more| - 1]);
      RunSnoc(c, events, more);
      StepGrowsLog(c, Run(c, events + more[..|more| - 1]), more[|more| - 1]);
    }
  }

  lemma RunSnoc(c: Config, events: seq<Event>, more: seq<Event>)
    requires LawfulConfig(c) && more != []
    ensures Run(c, events + more) == Step(c, Run(c, events + more[..|more| - 1]), more[|more| - 1])
  {
    hide Step;
    var all := events + more;
    assert all[..|all| - 1] == events + more[..|more| - 1] && all[|all| - 1] == more[|more| - 1];
  }

  lemma LogHasMore(a: seq<Emission>, b: seq<Emission>, id: nat)
    requires a <= b && LogHas(a, id)
    ensures LogHas(b, id)
  {
    var i :| 0 <= i < |a| && a[i].id == id;
    assert b[i].id == id;
  }

  // ---------------------------------------------------------------- a QUIC flow that is due is reported

  /** A flow has been reported, or is still tracked with its ClientHello. */
  ghost predicate Due(w: World, key: QuicFlow.Key, id: nat) {
    LogHas(w.shared.log, id) || (key in w.quic && w.quic[key].id == id && w.quic[key].flow.client.Some?)
  }

  lemma ReceiveKeepsClient(derive: QuicFlow.Derive, f: QuicFlow.State, e: Shared, g: QuicFlow.Datagram,
                           h: Packet.LongHeader)
    requires QuicFlow.LawfulDerive(derive) && 0 < h.pnOffset && h.end <= |g.payload| && f.flow.client.Some?
    ensures QuicFlow.Receive(derive, f, e, g, h).0.flow.client.Some?
  {
    hide Packet.Opened, QuicFlow.Parse, Packet.Lawful, QuicFlow.Frames.Extract, QuicFlow.AddFrames;
    var k := derive(f.version, f.origDcid, !QuicFlow.FromClient(f, g));
    if !f.rejected && !f.emitted && k.Some? {
      assert Packet.Lawful(k.value);
      OpenedNeeds(k.value);
      var opn := Packet.Opened(g.payload, h, k.value);
      if opn.Ok? {
        var frames := QuicFlow.Frames.Extract(opn.value.1, 0);
        var f1 := f.(flow := f.flow.SeenAt(g.ts));
        AddFramesKeeps(f1, QuicFlow.FromClient(f, g), frames);
        ParseKeepsClient(QuicFlow.AddFrames(f1, QuicFlow.FromClient(f, g), frames), e);
      }
    }
  }

  lemma OpenedNeeds(k: Packet.Keys)
    requires Packet.Lawful(k)
    ensures |k.iv| >= 8 && forall s :: |k.hp(s)| == 16
  {
  }

  lemma ParseKeepsClient(f: QuicFlow.State, e: Shared)
    requires f.flow.client.Some?
    ensures QuicFlow.Parse(f, e).0.flow.client.Some?
  {
    hide Find.FindClientHelloRaw, Find.FindServerHelloRaw;
  }

  lemma ReceiveKeepsDue(c: Config, w: World, g: QuicFlow.Datagram, key: QuicFlow.Key, id: nat)
    requires LawfulConfig(c) && Due(w, key, id)
    ensures Due(ReceiveStep(c, w, g), key, id)
  {
    hide QuicFlow.Initial, QuicFlow.Receive, QuicFlow.KeyOf, LogHas;
    ReceiveGrowsLog(c, w, g);
    if LogHas(w.shared.log, id) {
      LogHasMore(w.shared.log, ReceiveStep(c, w, g).shared.log, id);
    } else {
      var h := QuicFlow.Initial(g.payload);
      if h.Some? && QuicFlow.KeyOf(g) == key {
        assert Admit(c, w, g, h.value) == w;
        ReceiveKeepsClient(c.derive, w.quic[key], w.shared, g, h.value);
        QuicReceiveEffect(c.derive, w.quic[key], w.shared, g, h.value);
      }
    }
  }

  lemma {:induction false} FlushKeepsDue(c: Config, w: World, t: int, order: seq<QuicFlow.Key>, key: QuicFlow.Key,
                                         id: nat)
    requires Inv(c, w) && Due(w, key, id)
    ensures Due(FlushAll(w, t, order), key, id)
    decreases |order|
  {
    hide LogHas;
    if order != [] {
      var w1 := FlushOne(w, t, order[0]);
      FlushOneKeepsInv(c, w, t, order[0]);
      if LogHas(w.shared.log, id) {
        LogHasMore(w.shared.log, w1.shared.log, id);
      } else if order[0] == key && w.quic[key].flow.lastSeen <= t {
        FlushOneReports(c, w, t, key);
      }
      hide Inv, FlushOne;
      FlushKeepsDue(c, w1, t, order[1..], key, id);
    }
  }

  lemma StepKeepsDue(c: Config, w: World, ev: Event, key: QuicFlow.Key, id: nat)
    requires LawfulConfig(c) && Inv(c, w) && Due(w, key, id)
    ensures Due(Step(c, w, ev), key, id)
  {
    hide Inv, LogHas;
    StepGrowsLog(c, w, ev);
    if LogHas(w.shared.log, id) {
      LogHasMore(w.shared.log, Step(c, w, ev).shared.log, id);
    } else {
      match ev {
        case NewTcp(_, _, _) =>
        case Segment(_, _, _, _) => hide TcpStream.Reassembled;
        case Close(_) => hide TcpStream.Complete;
        case Receive(g) => ReceiveKeepsDue(c, w, g, key, id);
        case Flush(t, order) => FlushKeepsDue(c, w, t, order, key, id);
      }
    }
  }

  /**
   * Over every run: a QUIC flow that latched a ClientHello has, whatever happens next, either been reported or is still
   * tracked. So once it is swept it has been reported, whichever sweep reached it.
   */
  lemma {:induction false} QuicFlowIsReported(c: Config, events: seq<Event>, more: seq<Event>, key: QuicFlow.Key)
    requires LawfulConfig(c) && key in Run(c, events).quic && Run(c, events).quic[key].flow.client.Some?
    ensures Due(Run(c, events + more), key, Run(c, events).quic[key].id)
    decreases |more|
  {
    hide Run, Step;
    if more == [] {
      assert events + more == events;
    } else {
      var before := more[..|more| - 1];
      QuicFlowIsReported(c, events, before, key);
      RunSnoc(c, events, more);
      RunKeepsInv(c, events + before);
      StepKeepsDue(c, Run(c, events + before), more[|more| - 1], key, Run(c, events).quic[key].id);
    }
  }

  // ---------------------------------------------------------------- QUIC reports are final

  /** Every report about a tracked QUIC flow is still exactly what that flow holds. */
  ghost predicate QuicFinal(w: World) {
    forall n, k :: 0 <= n < |w.shared.log| && k in w.quic && w.shared.log[n].id == w.quic[k].id ==>
      w.shared.log[n].flow == w.quic[k].flow
  }

  /** New reports about other identities change nothing. */
  lemma OthersKeepQuicFinal(w: World, w': World)
    requires QuicFinal(w) && w'.quic == w.quic && w.shared.log <= w'.shared.log
    requires forall n, k :: |w.shared.log| <= n < |w'.shared.log| && k in w.quic ==> w'.shared.log[n].id != w.quic[k].id
    ensures QuicFinal(w')
  {
  }

  lemma EffectKeepsQuicFinal(c: Config, w: World, key: QuicFlow.Key, f: QuicFlow.State, e: Shared)
    requires Inv(c, w) && QuicFinal(w) && key in w.quic && QuicEffect(w.quic[key], w.shared, f, e)
    requires w.quic[key].emitted ==> f.flow == w.quic[key].flow
    ensures QuicFinal(w.(quic := w.quic[key := f], shared := e))
  {
    hide StreamOk;
    var w' := w.(quic := w.quic[key := f], shared := e);
    forall n, k | 0 <= n < |e.log| && k in w'.quic && e.log[n].id == w'.quic[k].id
      ensures e.log[n].flow == w'.quic[k].flow
    {
      if n < |w.shared.log| {
        assert e.log[n] == w.shared.log[n];
        if k == key {
          assert LogHas(w.shared.log, w.quic[key].id);
        }
      }
    }
  }

  lemma AdmitKeepsQuicFinal(c: Config, w: World, g: QuicFlow.Datagram, h: Packet.LongHeader)
    requires Inv(c, w) && QuicFinal(w)
    ensures QuicFinal(Admit(c, w, g, h))
  {
    assert forall n :: 0 <= n < |w.shared.log| ==> w.shared.log[n].id < w.shared.stats.streams;
    hide Inv, QuicFlow.KeyOf;
  }

  lemma ReceiveKeepsQuicFinal(c: Config, w: World, g: QuicFlow.Datagram)
    requires LawfulConfig(c) && Inv(c, w) && QuicFinal(w)
    ensures QuicFinal(ReceiveStep(c, w, g))
  {
    hide Inv, QuicFinal, QuicFlow.Initial, Admit, QuicFlow.KeyOf, QuicFlow.Parse, Packet.Opened;
    var h := QuicFlow.Initial(g.payload);
    if h.Some? {
      var w1 := Admit(c, w, g, h.value);
      AdmitKeepsInv(c, w, g, h.value);
      AdmitKeepsQuicFinal(c, w, g, h.value);
      var key := QuicFlow.KeyOf(g);
      if key in w1.quic {
        QuicReceiveEffect(c.derive, w1.quic[key], w1.shared, g, h.value);
        var (f, e) := QuicFlow.Receive(c.derive, w1.quic[key], w1.shared, g, h.value);
        assert w1.quic[key].emitted ==> f == w1.quic[key];
        hide QuicFlow.Receive, QuicEffect;
        EffectKeepsQuicFinal(c, w1, key, f, e);
      }
    }
  }

  lemma FlushOneKeepsQuicFinal(c: Config, w: World, t: int, key: QuicFlow.Key)
    requires Inv(c, w) && QuicFinal(w)
    ensures QuicFinal(FlushOne(w, t, key))
  {
    if key in w.quic && w.quic[key].flow.lastSeen <= t {
      QuicEmitEffect(w.quic[key], w.shared);
      var (f, e) := QuicFlow.Emit(w.quic[key], w.shared);
      hide QuicEffect, QuicFlow.Emit;
      EffectKeepsQuicFinal(c, w, key, f, e);
    }
  }

  lemma {:induction false} FlushKeepsQuicFinal(c: Config, w: World, t: int, order: seq<QuicFlow.Key>)
    requires Inv(c, w) && QuicFinal(w)
    ensures QuicFinal(FlushAll(w, t, order))
    decreases |order|
  {
    hide Inv, QuicFinal, FlushOne;
    if order != [] {
      FlushOneKeepsInv(c, w, t, order[0]);
      FlushOneKeepsQuicFinal(c, w, t, order[0]);
      FlushKeepsQuicFinal(c, FlushOne(w, t, order[0]), t, order[1..]);
    }
  }

  lemma TcpKeepsQuicFinal(c: Config, w: World, id: nat, s: TcpStream.State, e: Shared)
    requires Inv(c, w) && QuicFinal(w) && id in w.tcp && TcpEffect(w.tcp[id], w.shared, s, e)
    ensures QuicFinal(WithTcp(w, id, s, e))
  {
    hide StreamOk;
    assert forall k :: k in w.quic ==> w.quic[k].id != id;
    OthersKeepQuicFinal(w, WithTcp(w, id, s, e));
  }

  lemma StepKeepsQuicFinal(c: Config, w: World, ev: Event)
    requires LawfulConfig(c) && Inv(c, w) && QuicFinal(w)
    ensures QuicFinal(Step(c, w, ev))
  {
    hide Inv;
    match ev {
      case NewTcp(_, _, _) =>
      case Segment(id, dir, data, ts) =>
        if id in w.tcp && id !in w.closed {
          ReassembledEffect(c.maxPrefix, w.tcp[id], w.shared, dir, data, ts);
          var (s, e) := TcpStream.Reassembled(c.maxPrefix, w.tcp[id], w.shared, dir, data, ts);
          hide TcpStream.Reassembled, TcpEffect, QuicFinal;
          TcpKeepsQuicFinal(c, w, id, s, e);
        }
      case Close(id) =>
        if id in w.tcp && id !in w.closed {
          CompleteEffect(w.tcp[id], w.shared);
          var (s, e) := TcpStream.Complete(w.tcp[id], w.shared);
          hide TcpStream.Complete, TcpEffect;
          TcpKeepsQuicFinal(c, w, id, s, e);
        }
      case Receive(g) => ReceiveKeepsQuicFinal(c, w, g);
      case Flush(t, order) => FlushKeepsQuicFinal(c, w, t, order);
    }
  }

  /** Over every run, what the handler was given about a QUIC flow is never changed while the flow is tracked. */
  lemma {:induction false} QuicReportsAreFinal(c: Config, events: seq<Event>)
    requires LawfulConfig(c)
    ensures QuicFinal(Run(c, events))
  {
    hide Inv, Step;
    if events != [] {
      var before := events[..|events| - 1];
      RunKeepsInv(c, before);
      QuicReportsAreFinal(c, before);
      hide QuicFinal;
      StepKeepsQuicFinal(c, Run(c, before), events[|events| - 1]);
    }
  }
}
