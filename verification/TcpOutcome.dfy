/**
 * What a TCP stream comes to besides its hellos, over every sequence of deliveries: exactly when it is rejected, the
 * times it records, and whether it was cut short. Said of what was delivered, without the code that reads it.
 */
module TcpOutcome {
  import opened Bytes
  import opened Flows
  import opened Find
  import opened TcpStream
  import opened TcpRuns
  import Assembler
  import AssemblerRuns
  import Isolation

  // ---------------------------------------------------------------- rejection

  /** Both directions have delivered more than the prefix. */
  predicate BothOverran(max: nat, got: Two<bytes>) {
    |got.forward| > max && |got.backward| > max
  }

  /** Both directions have delivered enough to tell, and neither is TLS. */
  predicate BothNotTls(max: nat, got: Two<bytes>) {
    && |Take(got.forward, max)| >= 16 && FindClientHello(Take(got.forward, max)) == NotTls
    && |Take(got.backward, max)| >= 16 && FindClientHello(Take(got.backward, max)) == NotTls
  }

  /** The `k`-th delivery brought something and left the stream beyond hope. */
  ghost predicate HopelessAt(max: nat, events: seq<Event>, k: nat) {
    && 0 < k <= |events| && events[k - 1].data != []
    && (BothOverran(max, Delivered(events[..k])) || BothNotTls(max, Delivered(events[..k])))
  }

  /** A parse that finds no ClientHello rejects exactly then. */
  lemma ParseRejects(max: nat, s: State, e: Shared, got: Two<bytes>)
    requires BuffersExact(max, s, got) && Retaining(s) && !s.haveCH && !Parse(s, e).0.haveCH
    ensures var s' := Parse(s, e).0;
            && (s'.rejected <==> BothOverran(max, got) || BothNotTls(max, got))
            && (s'.rejected ==> s'.buf == Two([], []))
  {
    hide FindClientHello, LatchClient, LatchServer, Take;
    var s1 := LatchClient(s);
    LatchClientKeeps(s);
    LatchServerKeeps(s1, e);
  }

  lemma StepRejects(max: nat, s: State, e: Shared, created: Flow, got: Two<bytes>, ev: Event)
    requires Sound(max, s, created, got) && !s.haveCH && !s.rejected && ev.data != []
    requires !Reassembled(max, s, e, ev.dir, ev.data, ev.ts).0.haveCH
    ensures var s', got' := Reassembled(max, s, e, ev.dir, ev.data, ev.ts).0, More(got, ev.dir, ev.data);
            && (s'.rejected <==> BothOverran(max, got') || BothNotTls(max, got'))
            && (s'.rejected ==> s'.buf == Two([], []))
  {
    hide FindClientHello, Parse, LatchedFrom, BothNotTls, Hopeless;
    var s1 := s.(flow := s.flow.SeenAt(ev.ts));
    AppendExact(max, s1, got, ev.dir, ev.data);
    AppendKeeps(max, s1, ev.dir, ev.data);
    hide Append, BuffersExact;
    ParseRejects(max, Append(max, s1, ev.dir, ev.data), e, More(got, ev.dir, ev.data));
  }

  /**
   * Over every run of an admitted stream that latches no ClientHello: it is rejected if and only if some delivery left
   * both directions past the prefix, or both with at least sixteen bytes that are no TLS. Nothing is retained then.
   */
  lemma {:induction false} RejectedIff(max: nat, id: nat, created: Flow, e: Shared, events: seq<Event>)
    requires created.client.None? && !Run(max, Fresh(id, false, created), e, events).0.haveCH
    ensures var s := Run(max, Fresh(id, false, created), e, events).0;
            && (s.rejected <==> exists k: nat :: HopelessAt(max, events, k))
            && (s.rejected ==> s.buf == Two([], []))
    decreases |events|
  {
    if events == [] {
      assert forall k: nat :: !HopelessAt(max, events, k);
    } else {
      hide Reassembled, Delivered, BothOverran, BothNotTls;
      var n := |events| - 1;
      var before, ev := events[..n], events[n];
      var s := Fresh(id, false, created);
      var (s1, e1) := Run(max, s, e, before);
      if s1.haveCH {
        RunLatchPersists(max, s, e, events, n);
      }
      RejectedIff(max, id, created, e, before);
      RunSound(max, id, created, e, before);
      assert forall k: nat :: k <= n ==> before[..k] == events[..k];
      assert forall k: nat :: k <= n ==> HopelessAt(max, before, k) == HopelessAt(max, events, k);
      assert events[..n + 1] == events;
      DeliveredSnoc(events);
      if s1.rejected || ev.data == [] {
        StaysAsItWas(max, s1, e1, ev);
      } else {
        StepRejects(max, s1, e1, created, Delivered(before), ev);
        assert s1.rejected <==> exists k: nat :: HopelessAt(max, before, k);
        if Run(max, s, e, events).0.rejected {
          assert HopelessAt(max, events, n + 1);
        }
      }
      OnlyTheLast(max, events, n);
    }
  }

  lemma DeliveredSnoc(events: seq<Event>)
    requires events != []
    ensures var ev := events[|events| - 1];
            Delivered(events) == More(Delivered(events[..|events| - 1]), ev.dir, ev.data)
  {
  }

  lemma StaysAsItWas(max: nat, s: State, e: Shared, ev: Event)
    requires !Retaining(s) || ev.data == []
    ensures Reassembled(max, s, e, ev.dir, ev.data, ev.ts) == (s, e)
  {
    hide Parse, Append;
  }

  /** A delivery that leaves the stream beyond hope is the last one or an earlier one. */
  lemma OnlyTheLast(max: nat, events: seq<Event>, n: nat)
    requires |events| == n + 1
    ensures (exists k: nat :: HopelessAt(max, events, k))
      <==> HopelessAt(max, events, n + 1) || exists k: nat :: HopelessAt(max, events[..n], k)
  {
    hide Delivered, BothOverran, BothNotTls;
    assert forall k: nat :: k <= n ==> events[..n][..k] == events[..k];
    assert forall k: nat :: k <= n ==> HopelessAt(max, events[..n], k) == HopelessAt(max, events, k);
    if exists k: nat :: HopelessAt(max, events, k) {
      var k: nat :| HopelessAt(max, events, k);
      assert k == n + 1 || HopelessAt(max, events[..n], k);
    }
    if exists k: nat :: HopelessAt(max, events[..n], k) {
      var k: nat :| HopelessAt(max, events[..n], k);
      assert HopelessAt(max, events, k);
    }
  }

  // ---------------------------------------------------------------- times and truncation

  /** The deliveries that reached the stream while it still retained bytes, empty ones aside. */
  function Taken(max: nat, s: State, e: Shared, events: seq<Event>): seq<Event> {
    if events == [] then []
    else
      var before, ev := events[..|events| - 1], events[|events| - 1];
      var taken := Taken(max, s, e, before);
      if Retaining(Run(max, s, e, before).0) && ev.data != [] then taken + [ev] else taken
  }

  /** The latest of a time and the times of some deliveries. */
  function LatestOf(t: int, events: seq<Event>): int {
    if events == [] then t
    else
      var before, ts := LatestOf(t, events[..|events| - 1]), events[|events| - 1].ts;
      if ts > before then ts else before
  }

  /** It is one of them, and none is later. */
  lemma {:induction false} LatestIsGreatest(t: int, events: seq<Event>)
    ensures t <= LatestOf(t, events) && forall i :: 0 <= i < |events| ==> events[i].ts <= LatestOf(t, events)
    ensures LatestOf(t, events) == t || exists i :: 0 <= i < |events| && events[i].ts == LatestOf(t, events)
  {
    if events != [] {
      var n := |events| - 1;
      LatestIsGreatest(t, events[..n]);
      assert forall i :: 0 <= i < n ==> events[..n][i] == events[i];
    }
  }

  /** What a flow records of the deliveries taken: when it began, when it was last seen, whether a prefix overran. */
  ghost predicate Records(max: nat, flow: Flow, created: Flow, taken: seq<Event>) {
    && flow.quic == created.quic && flow.firstSeen == created.firstSeen
    && flow.lastSeen == LatestOf(created.lastSeen, taken)
    && (flow.prefixTruncated <==> |Delivered(taken).forward| > max || |Delivered(taken).backward| > max)
  }

  /** Parsing touches none of this. */
  lemma ParseKeepsRecords(s: State, e: Shared)
    ensures var f, g := Parse(s, e).0.flow, s.flow;
            && f.quic == g.quic && f.firstSeen == g.firstSeen && f.lastSeen == g.lastSeen
            && f.prefixTruncated == g.prefixTruncated
  {
    hide LatchClient, LatchServer, NotTlsEitherWay;
    LatchKeepsRecords(s);
    LatchServerKeeps(LatchClient(s), e);
  }

  lemma LatchKeepsRecords(s: State)
    ensures var f, g := LatchClient(s).flow, s.flow;
            && f.quic == g.quic && f.firstSeen == g.firstSeen && f.lastSeen == g.lastSeen
            && f.prefixTruncated == g.prefixTruncated
  {
    hide FindClientHello;
  }

  lemma AppendMarks(max: nat, s: State, got: Two<bytes>, d: Dir, data: bytes)
    requires ExactAt(max, s, got, d) && data != []
    ensures var f := Append(max, s, d, data).flow;
            && f == s.flow.(prefixTruncated := f.prefixTruncated)
            && (f.prefixTruncated <==> s.flow.prefixTruncated || |More(got, d, data).At(d)| > max)
  {
    assert More(got, d, data).At(d) == got.At(d) + data;
  }

  lemma StepRecords(max: nat, s: State, e: Shared, created: Flow, taken: seq<Event>, ev: Event)
    requires BuffersExact(max, s, Delivered(taken)) && Retaining(s) && ev.data != []
             && Records(max, s.flow, created, taken)
    ensures Records(max, Reassembled(max, s, e, ev.dir, ev.data, ev.ts).0.flow, created, taken + [ev])
  {
    hide Parse, Delivered, ExactAt, Append;
    var s1 := s.(flow := s.flow.SeenAt(ev.ts));
    var got := Delivered(taken);
    SameExact(max, s, s1, got, ev.dir);
    AppendMarks(max, s1, got, ev.dir, ev.data);
    ParseKeepsRecords(Append(max, s1, ev.dir, ev.data), e);
    assert (taken + [ev])[..|taken|] == taken;
    DeliveredSnoc(taken + [ev]);
    OtherSide(got, ev.dir, ev.data);
  }

  lemma SameExact(max: nat, s: State, s1: State, got: Two<bytes>, d: Dir)
    requires BuffersExact(max, s, got) && s1.buf == s.buf && s1.full == s.full
    ensures ExactAt(max, s1, got, d)
  {
    hide Take;
  }

  lemma OtherSide(got: Two<bytes>, d: Dir, data: bytes)
    ensures More(got, d, data).At(Other(d)) == got.At(Other(d)) && |More(got, d, data).At(d)| >= |got.At(d)|
  {
  }

  /** While bytes are retained, what was taken is all that was delivered. */
  lemma {:induction false} TakenIsDelivered(max: nat, id: nat, created: Flow, e: Shared, events: seq<Event>)
    requires created.client.None?
    ensures Retaining(Run(max, Fresh(id, false, created), e, events).0) ==>
              Delivered(Taken(max, Fresh(id, false, created), e, events)) == Delivered(events)
  {
    hide Reassembled;
    if events != [] {
      var n := |events| - 1;
      var before, ev, s := events[..n], events[n], Fresh(id, false, created);
      TakenIsDelivered(max, id, created, e, before);
      var (s1, e1) := Run(max, s, e, before);
      var taken := Taken(max, s, e, before);
      if !Retaining(s1) {
        StaysAsItWas(max, s1, e1, ev);
      } else if ev.data == [] {
        assert Delivered(before).At(ev.dir) + [] == Delivered(before).At(ev.dir);
      } else {
        assert (taken + [ev])[..|taken|] == taken;
      }
    }
  }

  /**
   * Over every run: LastSeen is the latest of the creation time and the times of what was taken, FirstSeen stays, and
   * the flow is marked as cut short exactly when a direction overran the prefix.
   */
  lemma {:induction false} RunRecords(max: nat, id: nat, created: Flow, e: Shared, events: seq<Event>)
    requires created.client.None? && !created.prefixTruncated
    ensures var s := Fresh(id, false, created);
            Records(max, Run(max, s, e, events).0.flow, created, Taken(max, s, e, events))
  {
    if events != [] {
      hide Reassembled, Delivered, Records, Sound;
      var n := |events| - 1;
      var before, ev, s := events[..n], events[n], Fresh(id, false, created);
      RunRecords(max, id, created, e, before);
      TakenIsDelivered(max, id, created, e, before);
      BuffersHold(max, id, created, e, before);
      var (s1, e1) := Run(max, s, e, before);
      if Retaining(s1) && ev.data != [] {
        StepRecords(max, s1, e1, created, Taken(max, s, e, before), ev);
      } else {
        StaysAsItWas(max, s1, e1, ev);
      }
    }
  }

  lemma BuffersHold(max: nat, id: nat, created: Flow, e: Shared, events: seq<Event>)
    requires created.client.None?
    ensures var s := Run(max, Fresh(id, false, created), e, events).0;
            Retaining(s) ==> BuffersExact(max, s, Delivered(events))
  {
    RunSound(max, id, created, e, events);
  }

  // ---------------------------------------------------------------- in any run of the assembler

  /**
   * The same of every admitted stream in every run: of the segments it heard, whatever else was captured. What is
   * reported about it carries these times and this mark, since reports are final.
   */
  lemma OutcomeInRuns(c: Assembler.Config, events: seq<Assembler.Event>, id: nat)
    requires Assembler.LawfulConfig(c) && id in Assembler.Run(c, events).tcp && !Assembler.Run(c, events).tcp[id].over
    ensures var s := Assembler.Run(c, events).tcp[id];
            var heard, created := Isolation.Heard(c, events, id), Isolation.CreatedAs(c, events, id);
            && Records(c.maxPrefix, s.flow, created, Taken(c.maxPrefix, Fresh(id, false, created), NOTHING_YET, heard))
            && (!s.haveCH ==> (s.rejected <==> exists k: nat :: HopelessAt(c.maxPrefix, heard, k)))
            && (s.rejected ==> s.buf == Two([], []))
  {
    hide Assembler.Run, Run, Isolation.Heard, Isolation.CreatedAs, Records, Taken, Begun, HopelessAt;
    Isolation.StreamsDoNotInterfere(c, events, id);
    var heard, created := Isolation.Heard(c, events, id), Isolation.CreatedAs(c, events, id);
    RunRecords(c.maxPrefix, id, created, NOTHING_YET, heard);
    RunSound(c.maxPrefix, id, created, NOTHING_YET, heard);
    if !Run(c.maxPrefix, Fresh(id, false, created), NOTHING_YET, heard).0.haveCH {
      RejectedIff(c.maxPrefix, id, created, NOTHING_YET, heard);
    }
  }
}
