/** What the assembler guarantees over every run, read off its invariant. */
module AssemblerRuns {
  import opened Bytes
  import opened Flows
  import opened Assembler
  import TcpStream
  import QuicFlow
  import Find

  // ---------------------------------------------------------------- admission

  /**
   * Over every run LiveStreams is exactly the tracked TCP streams plus the QUIC flows in the map. Each part keeps to
   * MaxStreams, so the sum is never negative and never above twice the cap.
   */
  lemma Admission(c: Config, events: seq<Event>)
    requires LawfulConfig(c)
    ensures var w := Run(c, events);
            && w.shared.stats.liveStreams == |Counted(w.tcp)| + |w.quic|
            && |Counted(w.tcp)| <= c.maxStreams && |w.quic| <= c.maxStreams
            && 0 <= w.shared.stats.liveStreams <= 2 * c.maxStreams
  {
    hide Run, Counted;
    RunKeepsInv(c, events);
  }

  /** A sweep at `t` over every key empties a map whose flows are all at or before `t`. */
  lemma {:induction false} FlushEmpties(w: World, t: int, order: seq<QuicFlow.Key>)
    requires forall k :: k in w.quic ==> k in order && w.quic[k].flow.lastSeen <= t
    ensures FlushAll(w, t, order).quic == map[] && FlushAll(w, t, order).tcp == w.tcp
            && FlushAll(w, t, order).closed == w.closed
    decreases |order|
  {
    hide QuicFlow.Emit;
    if order != [] {
      var w1 := FlushOne(w, t, order[0]);
      forall k | k in w1.quic
        ensures k in order[1..] && w1.quic[k].flow.lastSeen <= t
      {
        assert k in order && k != order[0];
      }
      FlushEmpties(w1, t, order[1..]);
    }
  }

  /** Once every TCP stream is closed and every QUIC flow is idle at the sweep, no slot is left taken. */
  lemma Drains(c: Config, events: seq<Event>, t: int, order: seq<QuicFlow.Key>)
    requires LawfulConfig(c)
    requires var w := Run(c, events);
             && w.tcp.Keys <= w.closed
             && forall k :: k in w.quic ==> k in order && w.quic[k].flow.lastSeen <= t
    ensures FlushAll(Run(c, events), t, order).shared.stats.liveStreams == 0
  {
    var w := Run(c, events);
    RunKeepsInv(c, events);
    FlushKeepsInv(c, w, t, order);
    hide Run, FlushAll;
    FlushEmpties(w, t, order);
    assert Counted(FlushAll(w, t, order).tcp) == {};
  }

  // ---------------------------------------------------------------- emission

  /**
   * Over every run the handler is called at most once per flow, only with a ClientHello, TLSFlows counts the calls,
   * and every closed TCP stream that latched a ClientHello has been reported.
   */
  lemma EmissionOnce(c: Config, events: seq<Event>)
    requires LawfulConfig(c)
    ensures var w := Run(c, events);
            && w.shared.stats.tlsFlows == |w.shared.log|
            && (forall i, j :: 0 <= i < j < |w.shared.log| ==> w.shared.log[i].id != w.shared.log[j].id)
            && (forall i :: 0 <= i < |w.shared.log| ==> w.shared.log[i].flow.client.Some?)
            && (forall i :: i in w.closed && i in w.tcp && w.tcp[i].flow.client.Some? ==> LogHas(w.shared.log, i))
  {
    hide Run, StreamOk, LogHas;
    RunKeepsInv(c, events);
  }

  lemma {:induction false} FlushKeepsReports(w: World, t: int, order: seq<QuicFlow.Key>, id: nat)
    requires LogHas(w.shared.log, id)
    ensures LogHas(FlushAll(w, t, order).shared.log, id)
    decreases |order|
  {
    if order != [] {
      var w1 := FlushOne(w, t, order[0]);
      var i :| 0 <= i < |w.shared.log| && w.shared.log[i].id == id;
      assert w1.shared.log[i].id == id;
      FlushKeepsReports(w1, t, order[1..], id);
    }
  }

  /** Every QUIC flow a sweep removes has been reported if it latched a ClientHello. */
  lemma {:induction false} FlushReports(c: Config, w: World, t: int, order: seq<QuicFlow.Key>, key: QuicFlow.Key)
    requires Inv(c, w) && key in order && key in w.quic
    requires w.quic[key].flow.lastSeen <= t && w.quic[key].flow.client.Some?
    ensures LogHas(FlushAll(w, t, order).shared.log, w.quic[key].id)
    decreases |order|
  {
    var w1 := FlushOne(w, t, order[0]);
    FlushOneKeepsInv(c, w, t, order[0]);
    if order[0] == key {
      FlushOneReports(c, w, t, key);
      hide Inv, FlushOne, LogHas;
      FlushKeepsReports(w1, t, order[1..], w.quic[key].id);
    } else {
      assert w1.quic[key] == w.quic[key];
      hide Inv, FlushOne, LogHas;
      FlushReports(c, w1, t, order[1..], key);
    }
  }

  lemma FlushOneReports(c: Config, w: World, t: int, key: QuicFlow.Key)
    requires Inv(c, w) && key in w.quic && w.quic[key].flow.lastSeen <= t && w.quic[key].flow.client.Some?
    ensures LogHas(FlushOne(w, t, key).shared.log, w.quic[key].id)
  {
    if !w.quic[key].emitted {
      LogHasSnoc(w.shared.log, Emission(w.quic[key].id, w.quic[key].flow), w.quic[key].id);
    }
  }

  // ---------------------------------------------------------------- conservation

  /** The identities handed out so far. */
  function Below(n: nat): (ids: set<nat>)
    ensures |ids| == n && forall i: nat :: i in ids <==> i < n
  {
    if n == 0 then {} else Below(n - 1) + {n - 1}
  }

  lemma {:induction false} ReportedSize(log: seq<Emission>)
    requires forall i, j :: 0 <= i < j < |log| ==> log[i].id != log[j].id
    ensures |Reported(log)| == |log|
  {
    if log == [] {
      assert Reported(log) == {};
    } else {
      var front, last := log[..|log| - 1], log[|log| - 1];
      ReportedSize(front);
      assert Reported(log) == Reported(front) + {last.id};
      assert last.id !in Reported(front);
    }
  }

  /** Reported, ruled-out and over-cap flows are different flows, and all of them were counted in Streams. */
  lemma OutcomesDisjoint(c: Config, w: World)
    requires Inv(c, w)
    ensures Reported(w.shared.log) !! Rejected(w.tcp) && Reported(w.shared.log) !! Over(w.tcp)
            && Rejected(w.tcp) !! Over(w.tcp)
    ensures Reported(w.shared.log) + Rejected(w.tcp) + Over(w.tcp) <= Below(w.shared.stats.streams)
  {
    forall i | i in Reported(w.shared.log)
      ensures i !in Rejected(w.tcp) && i !in Over(w.tcp) && i < w.shared.stats.streams
    {
      assert LogHas(w.shared.log, i);
      if i in w.tcp {
        assert StreamOk(w.tcp[i]) && w.tcp[i].emitted;
      }
    }
  }

  /** Over every run TLSFlows, RejectedTCP and the over-cap TCP streams together never exceed Streams. */
  lemma Conservation(c: Config, events: seq<Event>)
    requires LawfulConfig(c)
    ensures var w := Run(c, events);
            w.shared.stats.tlsFlows + w.shared.stats.rejectedTcp + |Over(w.tcp)| <= w.shared.stats.streams
  {
    hide Run;
    var w := Run(c, events);
    RunKeepsInv(c, events);
    OutcomesDisjoint(c, w);
    ReportedSize(w.shared.log);
    hide Reported, Rejected, Over, StreamOk, LogHas, Below;
    var a, b, d := Reported(w.shared.log), Rejected(w.tcp), Over(w.tcp);
    SubsetSize(a + b + d, Below(w.shared.stats.streams));
    assert |a + b| == |a| + |b| && |a + b + d| == |a + b| + |d|;
  }

  // ---------------------------------------------------------------- what the drops count

  /** An Initial of a connection that is not tracked, arriving at a full map. */
  ghost predicate Refused(c: Config, w: World, ev: Event) {
    && ev.Receive? && QuicFlow.Initial(ev.datagram.payload).Some?
    && QuicFlow.KeyOf(ev.datagram) !in w.quic && |w.quic| >= c.maxStreams
  }

  /** How often a run refused an Initial. */
  ghost function Refusals(c: Config, events: seq<Event>): nat
    requires LawfulConfig(c)
  {
    if events == [] then 0
    else
      var before := events[..|events| - 1];
      Refusals(c, before) + (if Refused(c, Run(c, before), events[|events| - 1]) then 1 else 0)
  }

  lemma ReceiveDrops(c: Config, w: World, g: QuicFlow.Datagram)
    requires LawfulConfig(c)
    ensures var w' := ReceiveStep(c, w, g);
            && w'.tcp == w.tcp
            && w'.shared.stats.streamsDropped
               == w.shared.stats.streamsDropped + (if Refused(c, w, Receive(g)) then 1 else 0)
  {
    hide QuicFlow.Initial, QuicFlow.Receive, QuicFlow.KeyOf;
    var h := QuicFlow.Initial(g.payload);
    if h.Some? {
      var w1 := Admit(c, w, g, h.value);
      if QuicFlow.KeyOf(g) in w1.quic {
        QuicReceiveEffect(c.derive, w1.quic[QuicFlow.KeyOf(g)], w1.shared, g, h.value);
      }
    }
  }

  lemma {:induction false} FlushDropsNothing(w: World, t: int, order: seq<QuicFlow.Key>)
    ensures var w' := FlushAll(w, t, order);
            && w'.tcp == w.tcp && w'.shared.stats.streamsDropped == w.shared.stats.streamsDropped
            && w'.shared.stats.liveStreams <= w.shared.stats.liveStreams
    decreases |order|
  {
    if order != [] {
      FlushDropsNothing(FlushOne(w, t, order[0]), t, order[1..]);
    }
  }

  lemma StepDrops(c: Config, w: World, ev: Event)
    requires LawfulConfig(c) && Inv(c, w)
    ensures var w' := Step(c, w, ev);
            w'.shared.stats.streamsDropped - |Over(w'.tcp)|
            == w.shared.stats.streamsDropped - |Over(w.tcp)| + (if Refused(c, w, ev) then 1 else 0)
  {
    hide QuicFlow.Initial, QuicFlow.KeyOf, NewTcpStep, ReceiveStep, FlushAll, TcpStream.Reassembled, TcpStream.Complete,
      Over, Inv, TcpEffect;
    match ev {
      case NewTcp(syn, payload, flow) => NewTcpDrops(c, w, syn, payload, flow);
      case Segment(id, dir, data, ts) =>
        if id in w.tcp && id !in w.closed {
          ReassembledEffect(c.maxPrefix, w.tcp[id], w.shared, dir, data, ts);
          var (s, e) := TcpStream.Reassembled(c.maxPrefix, w.tcp[id], w.shared, dir, data, ts);
          TcpDropsNothing(c, w, id, s, e);
        }
      case Close(id) =>
        if id in w.tcp && id !in w.closed {
          CompleteEffect(w.tcp[id], w.shared);
          var (s, e) := TcpStream.Complete(w.tcp[id], w.shared);
          TcpDropsNothing(c, w, id, s, e);
        }
      case Receive(g) => ReceiveDrops(c, w, g);
      case Flush(t, order) => FlushDropsNothing(w, t, order);
    }
  }

  lemma NewTcpDrops(c: Config, w: World, syn: bool, payload: bool, flow: Flow)
    requires Inv(c, w)
    ensures var w' := NewTcpStep(c, w, syn, payload, flow);
            w'.shared.stats.streamsDropped - |Over(w'.tcp)| == w.shared.stats.streamsDropped - |Over(w.tcp)|
  {
    hide NewTcpStep, Over, Accounted, Ruled, Identified, Logged, Settled;
    NewTcpKeepsCounts(c, w, syn, payload, flow);
  }

  lemma TcpDropsNothing(c: Config, w: World, id: nat, s: TcpStream.State, e: Shared)
    requires Inv(c, w) && id in w.tcp && TcpEffect(w.tcp[id], w.shared, s, e)
    ensures Over(WithTcp(w, id, s, e).tcp) == Over(w.tcp) && e.stats.streamsDropped == w.shared.stats.streamsDropped
  {
    hide Accounted, Identified, Settled, Over, Rejected, StreamOk, LogHas;
    TcpKeepsRuled(w, id, s, e);
  }

  /** Over every run StreamsDropped is the over-cap TCP streams plus the Initials refused, each counted as it came. */
  lemma {:induction false} DropsExact(c: Config, events: seq<Event>)
    requires LawfulConfig(c)
    ensures var w := Run(c, events); w.shared.stats.streamsDropped == |Over(w.tcp)| + Refusals(c, events)
  {
    if events == [] {
      assert Over(START.tcp) == {};
    } else {
      hide Step, Over, Refused;
      var before := events[..|events| - 1];
      DropsExact(c, before);
      RunKeepsInv(c, before);
      StepDrops(c, Run(c, before), events[|events| - 1]);
    }
  }

  // ---------------------------------------------------------------- what Streams counts

  /** A TCP packet worth tracking, or the Initial of an untracked connection that finds room. */
  ghost predicate Begins(c: Config, w: World, ev: Event) {
    match ev
    case NewTcp(syn, payload, _) => syn || payload
    case Receive(g) => QuicFlow.Initial(g.payload).Some? && QuicFlow.KeyOf(g) !in w.quic && |w.quic| < c.maxStreams
    case _ => false
  }

  /** How many events of a run began a connection. */
  ghost function Beginnings(c: Config, events: seq<Event>): nat
    requires LawfulConfig(c)
  {
    if events == [] then 0
    else
      var before := events[..|events| - 1];
      Beginnings(c, before) + (if Begins(c, Run(c, before), events[|events| - 1]) then 1 else 0)
  }

  lemma ReceiveBegins(c: Config, w: World, g: QuicFlow.Datagram)
    requires LawfulConfig(c)
    ensures ReceiveStep(c, w, g).shared.stats.streams
         == w.shared.stats.streams + (if Begins(c, w, Receive(g)) then 1 else 0)
  {
    hide QuicFlow.Initial, QuicFlow.Receive, QuicFlow.KeyOf;
    var h := QuicFlow.Initial(g.payload);
    if h.Some? {
      var w1 := Admit(c, w, g, h.value);
      if QuicFlow.KeyOf(g) in w1.quic {
        QuicReceiveEffect(c.derive, w1.quic[QuicFlow.KeyOf(g)], w1.shared, g, h.value);
      }
    }
  }

  lemma {:induction false} FlushBeginsNothing(w: World, t: int, order: seq<QuicFlow.Key>)
    ensures FlushAll(w, t, order).shared.stats.streams == w.shared.stats.streams
    decreases |order|
  {
    if order != [] {
      FlushBeginsNothing(FlushOne(w, t, order[0]), t, order[1..]);
    }
  }

  /** One event: Streams moves exactly when a connection begins, and a TCP one is tracked under the number it had. */
  lemma StepBegins(c: Config, w: World, ev: Event)
    requires LawfulConfig(c)
    ensures var w', id := Step(c, w, ev), w.shared.stats.streams;
            && w'.shared.stats.streams == id + (if Begins(c, w, ev) then 1 else 0)
            && w'.tcp.Keys == w.tcp.Keys + (if ev.NewTcp? && Begins(c, w, ev) then {id} else {})
            && (ev.NewTcp? && Begins(c, w, ev) ==>
                  w'.tcp[id].over == (w.shared.stats.liveStreams >= c.maxStreams) == w'.tcp[id].rejected)
  {
    hide QuicFlow.Initial, QuicFlow.KeyOf, ReceiveStep, FlushAll, TcpStream.Reassembled, TcpStream.Complete, TcpEffect;
    match ev {
      case NewTcp(syn, payload, flow) =>
      case Segment(id, dir, data, ts) =>
        if id in w.tcp && id !in w.closed {
          ReassembledKeepsStreams(c.maxPrefix, w.tcp[id], w.shared, dir, data, ts);
        }
      case Close(id) =>
        if id in w.tcp && id !in w.closed {
          CompleteKeepsStreams(w.tcp[id], w.shared);
        }
      case Receive(g) =>
        ReceiveBegins(c, w, g);
        ReceiveKeepsTcp(c, w, g);
      case Flush(t, order) =>
        FlushBeginsNothing(w, t, order);
        FlushDropsNothing(w, t, order);
    }
  }

  lemma ReceiveKeepsTcp(c: Config, w: World, g: QuicFlow.Datagram)
    requires LawfulConfig(c)
    ensures ReceiveStep(c, w, g).tcp == w.tcp
  {
    hide QuicFlow.Receive, QuicFlow.Initial;
  }

  lemma ReassembledKeepsStreams(max: nat, s: TcpStream.State, e: Shared, d: TcpStream.Dir, data: bytes, ts: int)
    ensures TcpStream.Reassembled(max, s, e, d, data, ts).1.stats.streams == e.stats.streams
  {
    hide Find.FindClientHello, Find.FindServerHello, TcpStream.Append, TcpStream.LatchClient;
  }

  lemma CompleteKeepsStreams(s: TcpStream.State, e: Shared)
    ensures TcpStream.Complete(s, e).1.stats.streams == e.stats.streams
  {
  }

  /**
   * Over every run Streams is the number of connections that began: a TCP packet counts when it is a SYN or carries
   * something, whether or not there was room for it, and a QUIC connection when its first Initial found room.
   */
  lemma {:induction false} StreamsExact(c: Config, events: seq<Event>)
    requires LawfulConfig(c)
    ensures Run(c, events).shared.stats.streams == Beginnings(c, events)
  {
    if events != [] {
      hide Step, Begins;
      var before := events[..|events| - 1];
      StreamsExact(c, before);
      StepBegins(c, Run(c, before), events[|events| - 1]);
    }
  }

  /** The connections that a run refused at least one Initial of. */
  ghost function RefusedKeys(c: Config, events: seq<Event>): set<QuicFlow.Key>
    requires LawfulConfig(c)
  {
    if events == [] then {}
    else
      var before, last := events[..|events| - 1], events[|events| - 1];
      RefusedKeys(c, before) + (if Refused(c, Run(c, before), last) then {QuicFlow.KeyOf(last.datagram)} else {})
  }

  /** No connection is refused a second time. */
  ghost predicate RefusedOnce(c: Config, events: seq<Event>)
    requires LawfulConfig(c)
  {
    forall n :: 0 <= n < |events| && Refused(c, Run(c, events[..n]), events[n]) ==>
      QuicFlow.KeyOf(events[n].datagram) !in RefusedKeys(c, events[..n])
  }

  lemma RefusedOnceSnoc(c: Config, events: seq<Event>)
    requires LawfulConfig(c) && events != []
    ensures var before, last := events[..|events| - 1], events[|events| - 1];
            RefusedOnce(c, events) <==>
            RefusedOnce(c, before)
            && (Refused(c, Run(c, before), last) ==> QuicFlow.KeyOf(last.datagram) !in RefusedKeys(c, before))
  {
    hide Refused, Run, RefusedKeys, QuicFlow.KeyOf;
    var before := events[..|events| - 1];
    assert forall n :: 0 <= n < |before| ==> before[n] == events[n] && before[..n] == events[..n];
  }

  lemma {:induction false} RefusalsPerKey(c: Config, events: seq<Event>)
    requires LawfulConfig(c)
    ensures Refusals(c, events) >= |RefusedKeys(c, events)|
    ensures Refusals(c, events) == |RefusedKeys(c, events)| <==> RefusedOnce(c, events)
  {
    hide Run, QuicFlow.Initial, QuicFlow.KeyOf;
    if events != [] {
      var before, last := events[..|events| - 1], events[|events| - 1];
      RefusalsPerKey(c, before);
      RefusedOnceSnoc(c, events);
      hide RefusedOnce;
      if Refused(c, Run(c, before), last) {
        OneMoreKey(RefusedKeys(c, before), QuicFlow.KeyOf(last.datagram));
      }
    }
  }

  lemma OneMoreKey(keys: set<QuicFlow.Key>, k: QuicFlow.Key)
    ensures |keys + {k}| == |keys| + (if k in keys then 0 else 1)
  {
    if k in keys {
      assert keys + {k} == keys;
    }
  }

  /**
   * StreamsDropped is documented to count connections. It does if and only if no connection had an Initial refused
   * twice; otherwise it is larger.
   */
  lemma DropsAreConnectionsIff(c: Config, events: seq<Event>)
    requires LawfulConfig(c)
    ensures var w := Run(c, events);
            && w.shared.stats.streamsDropped >= |Over(w.tcp)| + |RefusedKeys(c, events)|
            && (w.shared.stats.streamsDropped == |Over(w.tcp)| + |RefusedKeys(c, events)| <==> RefusedOnce(c, events))
  {
    hide Run, Over, RefusedKeys, RefusedOnce, Refusals;
    DropsExact(c, events);
    RefusalsPerKey(c, events);
  }

  /**
   * When the three counters of the summary line keep to Streams: exactly when the refusals fit in what reported,
   * rejected and over-cap streams leave of it. Without a refusal they always do.
   */
  lemma ConservationIff(c: Config, events: seq<Event>)
    requires LawfulConfig(c)
    ensures var w := Run(c, events);
            var st := w.shared.stats;
            && (st.tlsFlows + st.rejectedTcp + st.streamsDropped <= st.streams
                <==> Refusals(c, events) <= st.streams - st.tlsFlows - st.rejectedTcp - |Over(w.tcp)|)
            && (Refusals(c, events) == 0 ==> st.tlsFlows + st.rejectedTcp + st.streamsDropped <= st.streams)
  {
    hide Run, Over;
    DropsExact(c, events);
    Conservation(c, events);
  }

  /** A run without QUIC refuses no Initial. */
  lemma {:induction false} TcpConservation(c: Config, events: seq<Event>)
    requires LawfulConfig(c) && forall i :: 0 <= i < |events| ==> !events[i].Receive?
    ensures Refusals(c, events) == 0
    ensures var st := Run(c, events).shared.stats; st.tlsFlows + st.rejectedTcp + st.streamsDropped <= st.streams
  {
    hide Run;
    if events != [] {
      TcpConservation(c, events[..|events| - 1]);
    }
    ConservationIff(c, events);
  }

  // ---------------------------------------------------------------- reports are final

  /** A stream that was reported while still open has both hellos, and so ignores whatever else arrives. */
  predicate Frozen(w: World, i: nat)
    requires i in w.tcp
  {
    w.tcp[i].emitted && i !in w.closed ==> !TcpStream.Retaining(w.tcp[i])
  }

  /** Every logged flow is still exactly what its stream or flow object holds. */
  ghost predicate Final(w: World) {
    && (forall i :: i in w.tcp ==> Frozen(w, i))
    && (forall n :: 0 <= n < |w.shared.log| && w.shared.log[n].id in w.tcp ==>
          w.shared.log[n].flow == w.tcp[w.shared.log[n].id].flow)
  }

  lemma SegmentFreezes(max: nat, s: TcpStream.State, e: Shared, d: TcpStream.Dir, data: bytes, ts: int)
    requires s.emitted ==> !TcpStream.Retaining(s)
    requires s.flow.client.Some? <==> s.haveCH
    ensures var s' := TcpStream.Reassembled(max, s, e, d, data, ts).0;
            (s.emitted ==> s' == s) && (s'.emitted ==> !TcpStream.Retaining(s'))
  {
    hide TcpStream.Parse;
    if data != [] && TcpStream.Retaining(s) {
      ParseFreezes(TcpStream.Append(max, s.(flow := s.flow.SeenAt(ts)), d, data), e);
    }
  }

  /** Parsing reports a stream only once it holds both hellos. */
  lemma ParseFreezes(s: TcpStream.State, e: Shared)
    requires !s.emitted && (s.flow.client.Some? <==> s.haveCH)
    ensures TcpStream.Parse(s, e).0.emitted ==> !TcpStream.Retaining(TcpStream.Parse(s, e).0)
  {
    hide Find.FindClientHello, Find.FindServerHello;
    var s1 := TcpStream.LatchClient(s);
    assert !s1.emitted;
    hide TcpStream.LatchClient;
  }

  /** One stream changed, and the log grew by at most the report of that stream. */
  lemma TcpKeepsFinal(w: World, id: nat, s: TcpStream.State, e: Shared, closed: set<nat>)
    requires Final(w) && Identified(w) && Logged(w) && id in w.tcp && TcpEffect(w.tcp[id], w.shared, s, e)
    requires closed == w.closed || closed == w.closed + {id}
    requires w.tcp[id].emitted ==> s.flow == w.tcp[id].flow
    requires s.emitted && id !in closed ==> !TcpStream.Retaining(s)
    ensures Final(WithTcp(w, id, s, e).(closed := closed))
  {
    hide StreamOk;
    var w' := WithTcp(w, id, s, e).(closed := closed);
    forall n | 0 <= n < |w'.shared.log| && w'.shared.log[n].id in w'.tcp
      ensures w'.shared.log[n].flow == w'.tcp[w'.shared.log[n].id].flow
    {
      if n < |w.shared.log| {
        assert w'.shared.log[n] == w.shared.log[n];
        if w.shared.log[n].id == id {
          assert LogHas(w.shared.log, id);
        }
      }
    }
  }

  lemma SegmentKeepsFinal(c: Config, w: World, id: nat, dir: TcpStream.Dir, data: bytes, ts: int)
    requires Inv(c, w) && Final(w)
    ensures Final(SegmentStep(c, w, id, dir, data, ts))
  {
    if id in w.tcp && id !in w.closed {
      assert StreamOk(w.tcp[id]) && Frozen(w, id);
      ReassembledEffect(c.maxPrefix, w.tcp[id], w.shared, dir, data, ts);
      SegmentFreezes(c.maxPrefix, w.tcp[id], w.shared, dir, data, ts);
      hide TcpStream.Reassembled, Accounted, Ruled, Settled, Final, Logged, Identified;
      var (s, e) := TcpStream.Reassembled(c.maxPrefix, w.tcp[id], w.shared, dir, data, ts);
      TcpKeepsFinal(w, id, s, e, w.closed);
    }
  }

  lemma CloseKeepsFinal(c: Config, w: World, id: nat)
    requires Inv(c, w) && Final(w)
    ensures Final(CloseStep(w, id))
  {
    if id in w.tcp && id !in w.closed {
      CompleteEffect(w.tcp[id], w.shared);
      var (s, e) := TcpStream.Complete(w.tcp[id], w.shared);
      assert s.flow == w.tcp[id].flow;
      hide TcpStream.Complete, Accounted, Ruled, Settled, Final, Logged, Identified;
      TcpKeepsFinal(w, id, s, e, w.closed + {id});
    }
  }

  lemma NewTcpKeepsFinal(c: Config, w: World, syn: bool, payload: bool, flow: Flow)
    requires Inv(c, w) && Final(w)
    ensures Final(NewTcpStep(c, w, syn, payload, flow))
  {
    var id := w.shared.stats.streams;
    assert id !in w.tcp;
    assert forall n :: 0 <= n < |w.shared.log| ==> w.shared.log[n].id < id;
    hide Inv;
  }

  /** A QUIC report is about an identity no TCP stream has. */
  lemma QuicKeepsFinal(w: World, w': World)
    requires Final(w) && w'.tcp == w.tcp && w'.closed == w.closed
    requires |w.shared.log| <= |w'.shared.log| && w'.shared.log[..|w.shared.log|] == w.shared.log
    requires forall n :: |w.shared.log| <= n < |w'.shared.log| ==> w'.shared.log[n].id !in w.tcp
    ensures Final(w')
  {
    forall i | i in w'.tcp
      ensures Frozen(w', i)
    {
      assert Frozen(w, i);
    }
    forall n | 0 <= n < |w'.shared.log| && w'.shared.log[n].id in w'.tcp
      ensures w'.shared.log[n].flow == w'.tcp[w'.shared.log[n].id].flow
    {
      assert w'.shared.log[..|w.shared.log|][n] == w.shared.log[n];
    }
  }

  lemma ReceiveKeepsFinal(c: Config, w: World, g: QuicFlow.Datagram)
    requires LawfulConfig(c) && Inv(c, w) && Final(w)
    ensures Final(ReceiveStep(c, w, g))
  {
    hide Final, QuicFlow.Initial, QuicFlow.Receive, Admit, Inv;
    var h := QuicFlow.Initial(g.payload);
    if h.Some? {
      AdmitKeepsInv(c, w, g, h.value);
      var w1 := Admit(c, w, g, h.value);
      AdmitKeepsTcp(c, w, g, h.value);
      var key := QuicFlow.KeyOf(g);
      if key in w1.quic {
        QuicReceiveEffect(c.derive, w1.quic[key], w1.shared, g, h.value);
        QuicIdNotTcp(c, w1, key);
      }
      QuicKeepsFinal(w, ReceiveStep(c, w, g));
    }
  }

  lemma AdmitKeepsTcp(c: Config, w: World, g: QuicFlow.Datagram, h: QuicFlow.Packet.LongHeader)
    ensures var w1 := Admit(c, w, g, h); w1.tcp == w.tcp && w1.closed == w.closed && w1.shared.log == w.shared.log
  {
  }

  lemma QuicIdNotTcp(c: Config, w: World, key: QuicFlow.Key)
    requires Inv(c, w) && key in w.quic
    ensures w.quic[key].id !in w.tcp
  {
  }

  lemma FlushOneKeepsFinal(c: Config, w: World, t: int, key: QuicFlow.Key)
    requires Inv(c, w) && Final(w)
    ensures Final(FlushOne(w, t, key))
  {
    hide Final, Inv;
    if key in w.quic {
      QuicIdNotTcp(c, w, key);
      QuicKeepsFinal(w, FlushOne(w, t, key));
    }
  }

  lemma {:induction false} FlushKeepsFinal(c: Config, w: World, t: int, order: seq<QuicFlow.Key>)
    requires Inv(c, w) && Final(w)
    ensures Final(FlushAll(w, t, order))
    decreases |order|
  {
    hide Inv, Final, FlushOne;
    if order != [] {
      FlushOneKeepsInv(c, w, t, order[0]);
      FlushOneKeepsFinal(c, w, t, order[0]);
      FlushKeepsFinal(c, FlushOne(w, t, order[0]), t, order[1..]);
    }
  }

  lemma StepKeepsFinal(c: Config, w: World, ev: Event)
    requires LawfulConfig(c) && Inv(c, w) && Final(w)
    ensures Final(Step(c, w, ev))
  {
    hide Inv, Final, NewTcpStep, SegmentStep, CloseStep, ReceiveStep, FlushAll;
    match ev {
      case NewTcp(syn, payload, flow) => NewTcpKeepsFinal(c, w, syn, payload, flow);
      case Segment(id, dir, data, ts) => SegmentKeepsFinal(c, w, id, dir, data, ts);
      case Close(id) => CloseKeepsFinal(c, w, id);
      case Receive(g) => ReceiveKeepsFinal(c, w, g);
      case Flush(t, order) => FlushKeepsFinal(c, w, t, order);
    }
  }

  /** Over every run, what the handler was given about a TCP stream is never changed afterwards. */
  lemma {:induction false} ReportsAreFinal(c: Config, events: seq<Event>)
    requires LawfulConfig(c)
    ensures Final(Run(c, events))
  {
    hide Inv, Step;
    if events != [] {
      var before := events[..|events| - 1];
      RunKeepsInv(c, before);
      ReportsAreFinal(c, before);
      hide Final;
      StepKeepsFinal(c, Run(c, before), events[|events| - 1]);
    }
  }
}
