/**
 * What a QUIC flow holds after every sequence of its Initials, said of the datagrams: the endpoints, the times, the
 * frames collected, what was latched and reported, and when it stopped listening.
 */
module QuicRuns {
  import opened Bytes
  import opened Flows
  import opened Find
  import opened QuicFlow
  import opened Isolation
  import Frames
  import CryptoStream
  import Packet
  import Assembler

  /** A flow that is reported or has no keys ignores what comes next. */
  predicate Stopped(f: State) {
    f.rejected || f.emitted
  }

  /** The datagrams that reached a flow while it was listening. */
  ghost function TakenBy(derive: Derive, id: nat, gs: seq<Datagram>): (taken: seq<Datagram>)
    requires LawfulDerive(derive) && gs != [] && AllInitials(gs)
    ensures taken != [] && taken <= gs
  {
    if |gs| == 1 then gs
    else if Stopped(FlowOnItsOwn(derive, id, gs[..|gs| - 1])) then TakenBy(derive, id, gs[..|gs| - 1]) else gs
  }

  // ---------------------------------------------------------------- what a flow records

  /** Whether a datagram comes from the endpoint that sent the first one. */
  predicate BySender(first: Datagram, g: Datagram) {
    g.src == first.src && g.sport == first.sport
  }

  /** The keys that open a datagram: those of the side that sent it, from the first connection ID of the client. */
  ghost function KeysFor(derive: Derive, first: Datagram, g: Datagram): Option<Packet.Keys>
    requires Initial(first.payload).Some?
  {
    var h := Initial(first.payload).value;
    derive(h.version, h.dcid, !BySender(first, g))
  }

  /** The CRYPTO frames of one datagram, if it opens. */
  ghost function FramesIn(derive: Derive, first: Datagram, g: Datagram): seq<Frames.CryptoFrame>
    requires LawfulDerive(derive) && Initial(first.payload).Some? && Initial(g.payload).Some?
  {
    match KeysFor(derive, first, g)
    case None => []
    case Some(k) =>
      assert Packet.Lawful(k);
      match Packet.Opened(g.payload, Initial(g.payload).value, k)
      case Err(_) => []
      case Ok((_, plaintext)) => Frames.Extract(plaintext, 0)
  }

  /** The frames one side sent, in the order they came. */
  ghost function FramesFrom(derive: Derive, first: Datagram, gs: seq<Datagram>,
                            fromClient: bool): seq<Frames.CryptoFrame>
    requires LawfulDerive(derive) && Initial(first.payload).Some? && AllInitials(gs)
  {
    if gs == [] then []
    else
      var before, last := gs[..|gs| - 1], gs[|gs| - 1];
      var frames := FramesFrom(derive, first, before, fromClient);
      if BySender(first, last) == fromClient then frames + FramesIn(derive, first, last) else frames
  }

  /** The latest time among some datagrams. */
  function LatestTs(gs: seq<Datagram>): int
    requires gs != []
  {
    if |gs| == 1 then gs[0].ts
    else
      var before, ts := LatestTs(gs[..|gs| - 1]), gs[|gs| - 1].ts;
      if ts > before then ts else before
  }

  lemma {:induction false} LatestIsGreatest(gs: seq<Datagram>)
    requires gs != []
    ensures forall i :: 0 <= i < |gs| ==> gs[i].ts <= LatestTs(gs)
    ensures exists i :: 0 <= i < |gs| && gs[i].ts == LatestTs(gs)
    decreases |gs|
  {
    if |gs| == 1 {
      assert gs[0].ts == LatestTs(gs);
    } else {
      var n := |gs| - 1;
      LatestIsGreatest(gs[..n]);
      assert forall i :: 0 <= i < n ==> gs[..n][i] == gs[i];
      assert gs[n].ts <= LatestTs(gs);
    }
  }

  /** The first datagram of a flow fixes its version, its connection ID, its endpoints and when it began. */
  ghost predicate Founded(f: State, first: Datagram)
    requires Initial(first.payload).Some?
  {
    var h := Initial(first.payload).value;
    && f.version == h.version && f.origDcid == h.dcid && f.clientAddr == first.src && f.clientPort == first.sport
    && f.flow.quic && f.flow.clientIP == first.src && f.flow.clientPort == first.sport
    && f.flow.serverIP == first.dst && f.flow.serverPort == first.dport
    && f.flow.firstSeen == first.ts && !f.flow.prefixTruncated
  }

  /** What a flow has collected from the datagrams it took, and when it was last seen. */
  ghost predicate Collected(derive: Derive, f: State, gs: seq<Datagram>)
    requires LawfulDerive(derive) && gs != [] && AllInitials(gs)
  {
    && f.flow.lastSeen == LatestTs(gs)
    && f.client == CryptoStream.AddedAll(CryptoStream.EMPTY, FramesFrom(derive, gs[0], gs, true))
    && f.server == CryptoStream.AddedAll(CryptoStream.EMPTY, FramesFrom(derive, gs[0], gs, false))
    && (f.rejected <==> exists i :: 0 <= i < |gs| && KeysFor(derive, gs[0], gs[i]).None?)
  }

  /** What is latched hangs together, nothing that can be read is left unread, and a complete answer is reported. */
  ghost predicate Latched(f: State) {
    && (f.haveCH <==> f.flow.client.Some?) && (f.haveSH <==> f.flow.server.Some?) && (f.haveSH ==> f.haveCH)
    && (f.emitted <==> f.haveSH && f.flow.server.value.flightComplete)
    && (!f.haveCH ==> !FindClientHelloRaw(CryptoStream.Contiguous(f.client)).Hit?)
    && (f.haveCH && !f.haveSH ==> !FindServerHelloRaw(CryptoStream.Contiguous(f.server)).Hit?)
  }

  // ---------------------------------------------------------------- one datagram

  /** A parse latches what it reads, reports a complete answer, and touches nothing else. */
  lemma ParseLatches(f: State, e: Shared)
    requires !f.emitted && !f.haveSH && f.flow.server.None? && (f.haveCH <==> f.flow.client.Some?)
    ensures var f' := Parse(f, e).0;
            && Latched(f') && f'.client == f.client && f'.server == f.server && f'.rejected == f.rejected
            && f' == f.(flow := f'.flow, haveCH := f'.haveCH, haveSH := f'.haveSH, emitted := f'.emitted)
            && f'.flow == f.flow.(client := f'.flow.client, server := f'.flow.server)
  {
    hide FindClientHelloRaw, FindServerHelloRaw, CryptoStream.Contiguous;
  }

  /** Latched and still listening: no answer yet, or one that is not complete. */
  lemma ParseAgain(f: State, e: Shared)
    requires !f.emitted && f.haveSH && f.haveCH && f.flow.server.Some? && f.flow.client.Some?
    requires !f.flow.server.value.flightComplete
    ensures Parse(f, e).0 == f && Latched(f)
  {
    hide FindClientHelloRaw, FindServerHelloRaw, CryptoStream.Contiguous;
  }

  /** What one datagram does to a flow that is listening. */
  lemma ReceiveTakes(derive: Derive, f: State, e: Shared, first: Datagram, g: Datagram)
    requires LawfulDerive(derive) && Initial(first.payload).Some? && Initial(g.payload).Some?
    requires !Stopped(f) && Founded(f, first) && Latched(f)
    ensures var f' := Receive(derive, f, e, g, Initial(g.payload).value).0;
            && Founded(f', first) && Latched(f')
            && f'.flow.lastSeen == (if g.ts > f.flow.lastSeen then g.ts else f.flow.lastSeen)
            && (f'.rejected <==> KeysFor(derive, first, g).None?)
            && f'.client == (if BySender(first, g) then CryptoStream.AddedAll(f.client, FramesIn(derive, first, g))
                             else f.client)
            && f'.server == (if BySender(first, g) then f.server
                             else CryptoStream.AddedAll(f.server, FramesIn(derive, first, g)))
  {
    hide Parse, Packet.Opened, Initial, Frames.Extract, CryptoStream.AddedAll, CryptoStream.Contiguous,
      FindClientHelloRaw, FindServerHelloRaw, Packet.Lawful;
    var h := Initial(g.payload).value;
    var f1 := f.(flow := f.flow.SeenAt(g.ts));
    AddsNothing(f);
    var k := KeysFor(derive, first, g);
    if k.Some? {
      assert Packet.Lawful(k.value);
      CanOpen(k.value);
      var r := Packet.Opened(g.payload, h, k.value);
      if r.Ok? {
        var f2 := AddFrames(f1, BySender(first, g), Frames.Extract(r.value.1, 0));
        if f.haveSH {
          ParseAgain(f2, e);
        } else {
          ParseLatches(f2, e);
        }
      }
    }
  }

  lemma CanOpen(k: Packet.Keys)
    requires Packet.Lawful(k)
    ensures |k.iv| >= 8 && forall s :: |k.hp(s)| == 16
  {
  }

  lemma AddsNothing(f: State)
    ensures CryptoStream.AddedAll(f.client, []) == f.client && CryptoStream.AddedAll(f.server, []) == f.server
  {
  }

  // ---------------------------------------------------------------- every sequence of datagrams

  lemma OpenedFounded(id: nat, g: Datagram)
    requires Initial(g.payload).Some?
    ensures var f := Opened(id, g, Initial(g.payload).value);
            && Founded(f, g) && Latched(f) && !Stopped(f) && f.flow.lastSeen == g.ts
            && f.client == f.server == CryptoStream.EMPTY
  {
    hide Initial;
    CryptoStream.RunSkips(map[], 0, CryptoStream.MAX_BYTES + 1, []);
    assert CryptoStream.Contiguous(CryptoStream.EMPTY) == [];
    NothingRead();
    hide FindClientHelloRaw, FindServerHelloRaw;
  }

  lemma NothingRead()
    ensures FindClientHelloRaw([]) == Nothing && FindServerHelloRaw([]) == Nothing
  {
  }

  /** One more datagram extends what was collected. */
  lemma CollectsOneMore(derive: Derive, f: State, f': State, gs: seq<Datagram>, g: Datagram)
    requires LawfulDerive(derive) && gs != [] && AllInitials(gs) && Initial(g.payload).Some?
    requires Collected(derive, f, gs) && !f.rejected
    requires f'.flow.lastSeen == (if g.ts > f.flow.lastSeen then g.ts else f.flow.lastSeen)
    requires f'.rejected <==> KeysFor(derive, gs[0], g).None?
    requires f'.client
          == (if BySender(gs[0], g) then CryptoStream.AddedAll(f.client, FramesIn(derive, gs[0], g)) else f.client)
    requires f'.server
          == (if BySender(gs[0], g) then f.server else CryptoStream.AddedAll(f.server, FramesIn(derive, gs[0], g)))
    ensures AllInitials(gs + [g]) && Collected(derive, f', gs + [g])
  {
    hide CryptoStream.AddedAll, FramesIn, Initial, BySender;
    var all := gs + [g];
    assert all[..|gs|] == gs && all[0] == gs[0];
    var first := gs[0];
    CryptoStream.AddedAllAppend(CryptoStream.EMPTY, FramesFrom(derive, first, gs, true), FramesIn(derive, first, g));
    CryptoStream.AddedAllAppend(CryptoStream.EMPTY, FramesFrom(derive, first, gs, false), FramesIn(derive, first, g));
    assert forall i :: 0 <= i < |gs| ==> all[i] == gs[i];
    if KeysFor(derive, first, g).None? {
      assert KeysFor(derive, all[0], all[|gs|]).None?;
    }
  }

  /**
   * After every sequence of Initials a flow is founded on the first of them; it has collected exactly the frames that
   * each side sent, from the datagrams that opened while it was listening; its LastSeen is the latest of their times;
   * it is rejected exactly when keys could not be derived for one of them; and what it latched hangs together.
   */
  lemma {:induction false} FlowRecords(derive: Derive, id: nat, gs: seq<Datagram>)
    requires LawfulDerive(derive) && gs != [] && AllInitials(gs)
    ensures var f, taken := FlowOnItsOwn(derive, id, gs), TakenBy(derive, id, gs);
            Founded(f, gs[0]) && Latched(f) && Collected(derive, f, taken) && (taken == gs || Stopped(f))
    decreases |gs|
  {
    hide Receive, Initial, Founded, Latched, KeysFor, FramesIn, Opened, Collected, FlowOnItsOwn, TakenBy, AllInitials;
    var n := |gs| - 1;
    var before, g := gs[..n], gs[n];
    LastInitial(gs);
    if n == 0 {
      assert gs == [g];
      FirstTaken(derive, id, g);
    } else {
      FlowRecords(derive, id, before);
      NextTaken(derive, id, before, g);
      assert before + [g] == gs;
    }
  }

  lemma LastInitial(gs: seq<Datagram>)
    requires gs != [] && AllInitials(gs)
    ensures AllInitials(gs[..|gs| - 1]) && Initial(gs[|gs| - 1].payload).Some? && Initial(gs[0].payload).Some?
  {
    hide Initial;
  }

  lemma FirstTaken(derive: Derive, id: nat, g: Datagram)
    requires LawfulDerive(derive) && Initial(g.payload).Some?
    ensures AllInitials([g]) && TakenBy(derive, id, [g]) == [g]
    ensures var f := FlowOnItsOwn(derive, id, [g]); Founded(f, g) && Latched(f) && Collected(derive, f, [g])
  {
    hide Receive, Initial, Founded, Latched, KeysFor, FramesIn, Opened, Collected;
    OpenedFounded(id, g);
    ReceiveTakes(derive, Opened(id, g, Initial(g.payload).value), NOTHING_YET, g, g);
    var f := FlowOnItsOwn(derive, id, [g]);
    assert BySender(g, g);
    CollectsFirst(derive, f, g);
  }

  lemma NextTaken(derive: Derive, id: nat, gs: seq<Datagram>, g: Datagram)
    requires LawfulDerive(derive) && gs != [] && AllInitials(gs) && Initial(g.payload).Some?
    requires Initial(gs[0].payload).Some?
    requires var f, taken := FlowOnItsOwn(derive, id, gs), TakenBy(derive, id, gs);
             Founded(f, gs[0]) && Latched(f) && Collected(derive, f, taken) && (taken == gs || Stopped(f))
    ensures AllInitials(gs + [g])
    ensures var f, taken := FlowOnItsOwn(derive, id, gs + [g]), TakenBy(derive, id, gs + [g]);
            Founded(f, gs[0]) && Latched(f) && Collected(derive, f, taken) && (taken == gs + [g] || Stopped(f))
  {
    hide Receive, Initial, Founded, Latched, KeysFor, FramesIn, Opened, Collected, FlowOnItsOwn, AllInitials;
    var f := FlowOnItsOwn(derive, id, gs);
    OneMoreInitial(derive, id, gs, g);
    assert (gs + [g])[..|gs|] == gs;
    if Stopped(f) {
      StoppedIgnores(derive, f, g, Initial(g.payload).value);
    } else {
      ReceiveTakes(derive, f, NOTHING_YET, gs[0], g);
      CollectsOneMore(derive, f, FlowOnItsOwn(derive, id, gs + [g]), gs, g);
    }
  }

  lemma StoppedIgnores(derive: Derive, f: State, g: Datagram, h: Packet.LongHeader)
    requires LawfulDerive(derive) && 0 < h.pnOffset && h.end <= |g.payload| && Stopped(f)
    ensures Receive(derive, f, NOTHING_YET, g, h).0 == f
  {
  }

  lemma CollectsFirst(derive: Derive, f: State, g: Datagram)
    requires LawfulDerive(derive) && Initial(g.payload).Some? && f.flow.lastSeen == g.ts
    requires f.rejected <==> KeysFor(derive, g, g).None?
    requires f.client == CryptoStream.AddedAll(CryptoStream.EMPTY, FramesIn(derive, g, g))
             && f.server == CryptoStream.EMPTY
    ensures AllInitials([g]) && Collected(derive, f, [g])
  {
    hide CryptoStream.AddedAll, FramesIn, Initial, KeysFor;
    assert [g][..0] == [];
    assert FramesFrom(derive, g, [g], true) == [] + FramesIn(derive, g, g) == FramesIn(derive, g, g);
    assert FramesFrom(derive, g, [g], false) == [];
    AddsToEmpty();
  }

  lemma AddsToEmpty()
    ensures CryptoStream.AddedAll(CryptoStream.EMPTY, []) == CryptoStream.EMPTY
  {
  }

  // ---------------------------------------------------------------- in any run of the assembler

  /** The same of every tracked flow in every run, of the Initials heard on its key since it was opened. */
  lemma FlowRecordsInRuns(c: Assembler.Config, events: seq<Assembler.Event>, key: Key)
    requires Assembler.LawfulConfig(c) && key in Assembler.Run(c, events).quic
    ensures var f, gs := Assembler.Run(c, events).quic[key], HeardOn(c, events, key);
            && gs != [] && AllInitials(gs) && Founded(f, gs[0]) && Latched(f)
            && Collected(c.derive, f, TakenBy(c.derive, f.id, gs)) && (TakenBy(c.derive, f.id, gs) == gs || Stopped(f))
  {
    hide Assembler.Run, HeardOn, FlowOnItsOwn, AllInitials, Founded, Latched, Collected, TakenBy;
    FlowsDoNotInterfere(c, events, key);
    var f := Assembler.Run(c, events).quic[key];
    FlowRecords(c.derive, f.id, HeardOn(c, events, key));
  }

  lemma {:induction false} FlushSpares(w: Assembler.World, t: int, order: seq<Key>, key: Key)
    requires key in w.quic && w.quic[key].flow.lastSeen > t
    ensures key in Assembler.FlushAll(w, t, order).quic
    ensures Assembler.FlushAll(w, t, order).quic[key] == w.quic[key]
    decreases |order|
  {
    if order != [] {
      FlushSpares(Assembler.FlushOne(w, t, order[0]), t, order[1..], key);
    }
  }

  /** A flow that is still listening and was heard after `t` survives a sweep at `t`, unchanged. */
  lemma ActiveFlowSurvives(c: Assembler.Config, events: seq<Assembler.Event>, key: Key, i: nat, t: int, order: seq<Key>)
    requires Assembler.LawfulConfig(c) && key in Assembler.Run(c, events).quic
             && !Stopped(Assembler.Run(c, events).quic[key])
    requires i < |HeardOn(c, events, key)| && HeardOn(c, events, key)[i].ts > t
    ensures var w, w' := Assembler.Run(c, events), Assembler.FlushAll(Assembler.Run(c, events), t, order);
            key in w'.quic && w'.quic[key] == w.quic[key]
  {
    hide Assembler.Run, HeardOn, AllInitials, Founded, Latched, TakenBy, FramesFrom, KeysFor;
    FlowRecordsInRuns(c, events, key);
    LatestIsGreatest(HeardOn(c, events, key));
    FlushSpares(Assembler.Run(c, events), t, order, key);
  }
}
