/** How far the assembler's counters go: when the cap is passed, and runs that reach the extremes. */
module AssemblerLimits {
  import opened Bytes
  import opened Flows
  import opened Assembler
  import opened AssemblerRuns
  import TcpStream
  import QuicFlow
  import Packet
  import Varint

  // ---------------------------------------------------------------- passing MaxStreams

  /** An Initial that opens a QUIC flow while TCP and QUIC together have used up the cap. */
  ghost predicate OpensBeyondCap(c: Config, w: World, ev: Event) {
    && ev.Receive? && QuicFlow.Initial(ev.datagram.payload).Some? && QuicFlow.KeyOf(ev.datagram) !in w.quic
    && |w.quic| < c.maxStreams && w.shared.stats.liveStreams == c.maxStreams
  }

  lemma ReceiveLive(c: Config, w: World, g: QuicFlow.Datagram)
    requires LawfulConfig(c)
    ensures var st := w.shared.stats;
            ReceiveStep(c, w, g).shared.stats.liveStreams
            == st.liveStreams + (if QuicFlow.Initial(g.payload).Some? && QuicFlow.KeyOf(g) !in w.quic
                                    && |w.quic| < c.maxStreams then 1 else 0)
  {
    hide QuicFlow.Initial, QuicFlow.Receive, QuicFlow.KeyOf;
    var h := QuicFlow.Initial(g.payload);
    if h.Some? {
      var w1 := Admit(c, w, g, h.value);
      if QuicFlow.KeyOf(g) in w1.quic {
        QuicReceiveEffect(c.derive, w1.quic[QuicFlow.KeyOf(g)], w1.shared, g, h.value);
      }
    }
  }

  /** MaxStreams is not one cap: a step passes it exactly when it opens a QUIC flow, which looks at QUIC flows alone. */
  lemma PassesCapIff(c: Config, w: World, ev: Event)
    requires LawfulConfig(c) && Inv(c, w) && w.shared.stats.liveStreams <= c.maxStreams
    ensures Step(c, w, ev).shared.stats.liveStreams > c.maxStreams <==> OpensBeyondCap(c, w, ev)
  {
    hide QuicFlow.Initial, QuicFlow.KeyOf, Inv;
    match ev {
      case NewTcp(_, _, _) =>
      case Segment(id, dir, data, ts) =>
        if id in w.tcp && id !in w.closed {
          ReassembledEffect(c.maxPrefix, w.tcp[id], w.shared, dir, data, ts);
          hide TcpStream.Reassembled;
        }
      case Close(id) =>
        if id in w.tcp && id !in w.closed {
          CompleteEffect(w.tcp[id], w.shared);
          hide TcpStream.Complete;
        }
      case Receive(g) => ReceiveLive(c, w, g);
      case Flush(t, order) => FlushDropsNothing(w, t, order);
    }
  }

  // ---------------------------------------------------------------- the smallest Initial

  /** Version 1, no connection IDs, no token, length zero: recognised as an Initial, and too short to open. */
  const BARE_INITIAL: bytes := [0xc0, 0, 0, 0, 1, 0, 0, 0, 0]

  lemma BareInitialRead()
    ensures QuicFlow.Initial(BARE_INITIAL) == Some(BARE_HEADER) && |BARE_INITIAL| == 9
  {
    var b := BARE_INITIAL;
    BareVersion();
    BareVarint(7);
    BareVarint(8);
    hide Value, Varint.ReadVarint;
    assert b[6..6] == [] && b[7..7] == [] && b[8..8] == [];
    assert Packet.ReadConnId(b, 5) == Some(([], 6)) && Packet.ReadConnId(b, 6) == Some(([], 7));
    assert Packet.ReadToken(b, 7) == Some(([], 8));
  }

  lemma BareVersion()
    ensures Value(BARE_INITIAL[1..5]) == 1
  {
    var b: bytes := [];
    ValueSnoc(b, 0);
    ValueSnoc(b + [0], 0);
    ValueSnoc(b + [0] + [0], 0);
    ValueSnoc(b + [0] + [0] + [0], 1);
    assert BARE_INITIAL[1..5] == b + [0] + [0] + [0] + [1];
  }

  lemma BareVarint(p: nat)
    requires p == 7 || p == 8
    ensures Varint.ReadVarint(BARE_INITIAL[p..]) == Varint.Varint(0, 1)
  {
    var b := BARE_INITIAL[p..];
    assert b[0] == 0 && [b[0] % 64] + b[1..1] == [0];
    ValueOne(0);
  }

  /** A datagram of its own connection for every number. */
  function Knock(i: int): QuicFlow.Datagram {
    QuicFlow.Datagram(0, 0, if i < 0 then 0 else i, 0, BARE_INITIAL, 0)
  }

  function KnockKey(i: nat): QuicFlow.Key {
    QuicFlow.Key(0, i, 0, 0)
  }

  function KnockKeys(n: nat): set<QuicFlow.Key> {
    set i: nat | i < n :: KnockKey(i)
  }

  lemma {:induction false} KnockKeysSize(n: nat)
    ensures |KnockKeys(n)| == n
  {
    if n == 0 {
      assert KnockKeys(0) == {};
    } else {
      KnockKeysSize(n - 1);
      assert KnockKeys(n) == KnockKeys(n - 1) + {KnockKey(n - 1)};
      assert KnockKey(n - 1) !in KnockKeys(n - 1);
    }
  }

  /** A bare Initial opens a flow or is refused, and has no other effect on what is counted. */
  lemma KnockStep(c: Config, w: World, i: nat)
    requires LawfulConfig(c) && KnockKey(i) !in w.quic
    ensures var w' := ReceiveStep(c, w, Knock(i));
            var st := w.shared.stats;
            && w'.tcp == w.tcp
            && if |w.quic| < c.maxStreams
               then w'.quic.Keys == w.quic.Keys + {KnockKey(i)}
                    && w'.shared.stats == st.(streams := st.streams + 1, liveStreams := st.liveStreams + 1)
               else w'.quic == w.quic && w'.shared.stats == st.(streamsDropped := st.streamsDropped + 1)
  {
    hide QuicFlow.Initial, QuicFlow.Receive, QuicFlow.Opened, BARE_INITIAL;
    BareInitialRead();
    var g, h := Knock(i), BARE_HEADER;
    assert QuicFlow.KeyOf(g) == KnockKey(i);
    hide Knock, KnockKey, QuicFlow.KeyOf;
    if |w.quic| < c.maxStreams {
      KnockUnopened(c, QuicFlow.Opened(w.shared.stats.streams, g, h), Admit(c, w, g, h).shared, g);
    }
  }

  const BARE_HEADER := Packet.LongHeader(Packet.INITIAL, 1, [], [], [], 9, 0, 9)

  lemma KnockUnopened(c: Config, f: QuicFlow.State, e: Shared, g: QuicFlow.Datagram)
    requires LawfulConfig(c) && g.payload == BARE_INITIAL
    ensures QuicFlow.Receive(c.derive, f, e, g, BARE_HEADER).1 == e
  {
    hide QuicFlow.Parse;
    var k := c.derive(f.version, f.origDcid, !QuicFlow.FromClient(f, g));
    assert k.Some? ==> Packet.Lawful(k.value);
  }

  // ---------------------------------------------------------------- runs that reach the extremes

  function Knocks(n: nat): seq<Event> {
    seq(n, i => Receive(Knock(i)))
  }

  /** What `n` knocks did to a world whose map was empty: flows up to the cap, and a drop for every other one. */
  ghost predicate Filled(c: Config, w0: World, w: World, n: nat) {
    var m := if n < c.maxStreams then n else c.maxStreams;
    var st := w0.shared.stats;
    && w.tcp == w0.tcp && w.quic.Keys == KnockKeys(m)
    && w.shared.stats == st.(streams := st.streams + m, liveStreams := st.liveStreams + m,
                             streamsDropped := st.streamsDropped + n - m)
  }

  lemma FilledStep(c: Config, w0: World, w: World, n: nat)
    requires LawfulConfig(c) && Filled(c, w0, w, n)
    ensures Filled(c, w0, ReceiveStep(c, w, Knock(n)), n + 1)
  {
    hide KnockKeys, KnockKey, ReceiveStep, Knock;
    var m := if n < c.maxStreams then n else c.maxStreams;
    KnockKeysSize(m);
    KnockKeysNext(m, n);
    assert |w.quic| == |w.quic.Keys|;
    KnockStep(c, w, n);
  }

  lemma KnockKeysNext(m: nat, n: nat)
    requires m <= n
    ensures KnockKey(n) !in KnockKeys(m) && KnockKeys(m) + {KnockKey(m)} == KnockKeys(m + 1)
  {
  }

  lemma {:induction false} KnocksCount(c: Config, pre: seq<Event>, n: nat)
    requires LawfulConfig(c) && Run(c, pre).quic == map[]
    ensures Filled(c, Run(c, pre), Run(c, pre + Knocks(n)), n)
    decreases n
  {
    hide Run, ReceiveStep, Knock;
    if n == 0 {
      assert pre + Knocks(n) == pre;
      assert KnockKeys(0) == {};
    } else {
      hide Filled;
      KnocksCount(c, pre, n - 1);
      OneMoreKnock(c, pre, n);
      FilledStep(c, Run(c, pre), Run(c, pre + Knocks(n - 1)), n - 1);
    }
  }

  lemma OneMoreKnock(c: Config, pre: seq<Event>, n: nat)
    requires LawfulConfig(c) && n > 0
    ensures Run(c, pre + Knocks(n)) == ReceiveStep(c, Run(c, pre + Knocks(n - 1)), Knock(n - 1))
  {
    hide ReceiveStep, Knock;
    var all := pre + Knocks(n);
    assert all[..|all| - 1] == pre + Knocks(n - 1) && all[|all| - 1] == Receive(Knock(n - 1));
  }

  /**
   * For every cap, a run on which the counters of the summary line exceed Streams: MaxStreams connections fill the
   * map, and one more Initial than that is refused.
   */
  lemma ConservationFails(c: Config)
    requires LawfulConfig(c)
    ensures var st := Run(c, Knocks(2 * c.maxStreams + 1)).shared.stats;
            st.streams == c.maxStreams && st.streamsDropped == c.maxStreams + 1
            && st.tlsFlows + st.rejectedTcp + st.streamsDropped > st.streams
  {
    hide Run;
    var n := 2 * c.maxStreams + 1;
    EmptyRun(c);
    KnocksCount(c, [], n);
    assert [] + Knocks(n) == Knocks(n);
  }

  /** The map filled, and then the same connection knocking twice. */
  function KnocksTwice(n: nat): seq<Event> {
    Knocks(n) + [Receive(Knock(n)), Receive(Knock(n))]
  }

  /** A knock at a full map is refused, changes nothing else, and names its connection. */
  lemma KnockRefused(c: Config, events: seq<Event>, n: nat)
    requires LawfulConfig(c) && KnockKey(n) !in Run(c, events).quic && |Run(c, events).quic| >= c.maxStreams
    ensures var w, more := Run(c, events), events + [Receive(Knock(n))];
            && Run(c, more).quic == w.quic && Run(c, more).tcp == w.tcp
            && Run(c, more).shared.stats.streamsDropped == w.shared.stats.streamsDropped + 1
            && RefusedKeys(c, more) == RefusedKeys(c, events) + {KnockKey(n)}
  {
    hide ReceiveStep, QuicFlow.Initial;
    var more := events + [Receive(Knock(n))];
    assert more[..|events|] == events && more[|events|] == Receive(Knock(n));
    BareInitialRead();
    KnockStep(c, Run(c, events), n);
  }

  /** For every cap, a run with two drops and one connection refused. */
  lemma DropsAreNotConnections(c: Config)
    requires LawfulConfig(c)
    ensures var events := KnocksTwice(c.maxStreams);
            && Run(c, events).shared.stats.streamsDropped == 2 && Over(Run(c, events).tcp) == {}
            && RefusedKeys(c, events) == {KnockKey(c.maxStreams)}
  {
    hide Run, Knock, KnockKey, KnockKeys, RefusedKeys;
    var n := c.maxStreams;
    EmptyRun(c);
    KnocksCount(c, [], n);
    assert [] + Knocks(n) == Knocks(n);
    KnockKeysSize(n);
    KnockKeysNext(n, n);
    var w := Run(c, Knocks(n));
    assert |w.quic| == |w.quic.Keys|;
    assert RefusedKeys(c, Knocks(n)) == {} by {
      DropsAreConnectionsIff(c, Knocks(n));
    }
    var one := Knocks(n) + [Receive(Knock(n))];
    KnockRefused(c, Knocks(n), n);
    KnockRefused(c, one, n);
    assert one + [Receive(Knock(n))] == KnocksTwice(n);
  }

  lemma EmptyRun(c: Config)
    requires LawfulConfig(c)
    ensures Run(c, []) == START && Over(START.tcp) == {}
  {
  }

  function Syns(n: nat): seq<Event> {
    seq(n, i => NewTcp(true, false, BLANK_FLOW))
  }

  lemma {:induction false} SynsCount(c: Config, n: nat)
    requires LawfulConfig(c) && n <= c.maxStreams
    ensures Run(c, Syns(n)).quic == map[] && Run(c, Syns(n)).shared.stats.liveStreams == n
  {
    if n > 0 {
      SynsCount(c, n - 1);
      assert Syns(n)[..n - 1] == Syns(n - 1);
    }
  }

  /** For every cap, a run that tracks twice as many connections: MaxStreams over TCP, and as many over QUIC. */
  lemma CapReachedTwice(c: Config)
    requires LawfulConfig(c)
    ensures Run(c, Syns(c.maxStreams) + Knocks(c.maxStreams)).shared.stats.liveStreams == 2 * c.maxStreams
  {
    hide Run;
    SynsCount(c, c.maxStreams);
    KnocksCount(c, Syns(c.maxStreams), c.maxStreams);
  }
}
