/** What holds of a TCP stream after every sequence of deliveries, however the bytes were cut into segments. */
module TcpRuns {
  import opened Bytes
  import opened Flows
  import opened Find
  import opened TcpStream
  import Records
  import ServerHello

  /** One `ReassembledSG` callback. */
  datatype Event = Event(dir: Dir, data: bytes, ts: int)

  function Run(max: nat, s: State, e: Shared, events: seq<Event>): (State, Shared) {
    if events == [] then (s, e)
    else
      var (s1, e1) := Run(max, s, e, events[..|events| - 1]);
      var ev := events[|events| - 1];
      Reassembled(max, s1, e1, ev.dir, ev.data, ev.ts)
  }

  /** Everything the events delivered in each direction. */
  function Delivered(events: seq<Event>): Two<bytes> {
    if events == [] then Two([], [])
    else
      var before := Delivered(events[..|events| - 1]);
      var ev := events[|events| - 1];
      before.With(ev.dir, before.At(ev.dir) + ev.data)
  }

  // ---------------------------------------------------------------- the invariant

  /** Neither direction can still yield a ClientHello: both overran the prefix without one, or neither is TLS. */
  ghost predicate Hopeless(max: nat, got: Two<bytes>) {
    || (forall d: Dir :: |got.At(d)| > max && !FindClientHello(Take(got.At(d), max)).Hit?)
    || (forall d: Dir :: FindClientHello(Take(got.At(d), max)) == NotTls)
  }

  /** Some prefix of what the client sent reads as the ClientHello that was latched. */
  ghost predicate LatchedFrom(s: State, sent: bytes) {
    s.flow.client.Some? && exists n: nat :: n <= |sent| && FindClientHello(sent[..n]) == Hit(s.flow.client.value)
  }

  /** The endpoints are as recorded at creation, or, when the capture began with the server's side, exchanged. */
  predicate Faces(f: Flow, created: Flow, exchanged: bool) {
    if exchanged then
      && f.clientIP == created.serverIP && f.clientPort == created.serverPort
      && f.serverIP == created.clientIP && f.serverPort == created.clientPort
    else SameEndpoints(f, created)
  }

  predicate SameEndpoints(f: Flow, g: Flow) {
    f.clientIP == g.clientIP && f.clientPort == g.clientPort && f.serverIP == g.serverIP && f.serverPort == g.serverPort
  }

  /** The endpoints are as recorded at creation, exchanged exactly when the client turned out to be the other side. */
  predicate Oriented(s: State, created: Flow) {
    Faces(s.flow, created, s.haveCH && s.client == Backward)
  }

  /** A buffer is the first `max` bytes delivered its way, and marked full exactly when there were more. */
  predicate ExactAt(max: nat, s: State, got: Two<bytes>, d: Dir) {
    s.buf.At(d) == Take(got.At(d), max) && s.full.At(d) == (|got.At(d)| > max)
  }

  predicate BuffersExact(max: nat, s: State, got: Two<bytes>) {
    ExactAt(max, s, got, Forward) && ExactAt(max, s, got, Backward)
  }

  ghost predicate Sound(max: nat, s: State, created: Flow, got: Two<bytes>) {
    && (Retaining(s) ==> BuffersExact(max, s, got))
    && (Retaining(s) && !s.haveCH ==> forall d: Dir :: !FindClientHello(Take(got.At(d), max)).Hit?)
    && (s.rejected ==> !s.haveCH && Hopeless(max, got))
    && (s.haveCH ==> LatchedFrom(s, Take(got.At(s.client), max)))
    && (s.flow.client.Some? <==> s.haveCH)
    && Oriented(s, created)
  }

  // ---------------------------------------------------------------- one more segment

  function More(got: Two<bytes>, d: Dir, data: bytes): Two<bytes> {
    got.With(d, got.At(d) + data)
  }

  lemma TakeGrows(a: bytes, b: bytes, max: nat)
    ensures Take(a, max) <= Take(a + b, max)
    ensures |a| > max ==> Take(a + b, max) == Take(a, max)
  {
    if |a| > max {
      assert (a + b)[..max] == a[..max];
    }
  }

  lemma FindGrows(a: bytes, b: bytes)
    requires a <= b
    ensures FindClientHello(a) == NotTls ==> FindClientHello(b) == NotTls
    ensures FindClientHello(a) == Nothing || FindClientHello(b) == NotTls || FindClientHello(a) == FindClientHello(b)
  {
    hide FindClientHello;
    assert b == a + b[|a|..];
    FindClientHelloGrows(a, b[|a|..]);
  }

  lemma HopelessStays(max: nat, got: Two<bytes>, d: Dir, data: bytes)
    requires Hopeless(max, got)
    ensures Hopeless(max, More(got, d, data))
  {
    hide FindClientHello;
    var got' := More(got, d, data);
    TakeGrows(got.At(d), data, max);
    FindGrows(Take(got.At(d), max), Take(got'.At(d), max));
    assert got'.At(Other(d)) == got.At(Other(d));
  }

  lemma LatchedStays(s: State, sent: bytes, more: bytes)
    requires LatchedFrom(s, sent) && sent <= more
    ensures LatchedFrom(s, more)
  {
    hide FindClientHello;
    var n: nat :| n <= |sent| && FindClientHello(sent[..n]) == Hit(s.flow.client.value);
    assert more[..n] == sent[..n];
  }

  /** A stream that no longer retains anything is indifferent to further bytes. */
  lemma SoundIgnores(max: nat, s: State, created: Flow, got: Two<bytes>, d: Dir, data: bytes)
    requires Sound(max, s, created, got) && !Retaining(s)
    ensures Sound(max, s, created, More(got, d, data))
  {
    hide FindClientHello;
    var got' := More(got, d, data);
    if s.rejected {
      HopelessStays(max, got, d, data);
    } else {
      hide LatchedFrom;
      TakeGrows(got.At(d), data, max);
      assert s.client == d || got'.At(s.client) == got.At(s.client);
      LatchedStays(s, Take(got.At(s.client), max), Take(got'.At(s.client), max));
    }
  }

  /** One buffer, with `room` left of `max`: appending what fits keeps it the first `max` bytes. */
  lemma AppendTake(max: nat, buf: bytes, got: bytes, data: bytes)
    requires buf == Take(got, max)
    ensures var room := max - |buf|;
            Take(got + data, max) == if room > 0 then buf + Take(data, room) else buf
  {
    if |got| <= max < |got + data| {
      assert (got + data)[..max] == got + data[..max - |got|];
    } else if |got| > max {
      assert (got + data)[..max] == got[..max];
    }
  }

  /** Appending a segment keeps each buffer the first `max` bytes of what was delivered. */
  lemma AppendExact(max: nat, s: State, got: Two<bytes>, d: Dir, data: bytes)
    requires BuffersExact(max, s, got) && data != []
    ensures BuffersExact(max, Append(max, s, d, data), More(got, d, data))
  {
    hide ExactAt, Append;
    AppendExactAt(max, s, got, d, data);
    AppendExactOther(max, s, got, d, data);
  }

  lemma AppendExactAt(max: nat, s: State, got: Two<bytes>, d: Dir, data: bytes)
    requires ExactAt(max, s, got, d) && data != []
    ensures ExactAt(max, Append(max, s, d, data), More(got, d, data), d)
  {
    AppendTake(max, s.buf.At(d), got.At(d), data);
    hide Take;
    AppendAt(max, s, d, data);
    assert More(got, d, data).At(d) == got.At(d) + data;
  }

  /** What `Append` does to the buffer and the mark of its own direction. */
  lemma AppendAt(max: nat, s: State, d: Dir, data: bytes)
    ensures var room := max - |s.buf.At(d)|;
            var s' := Append(max, s, d, data);
            && s'.buf.At(d) == (if room > 0 then s.buf.At(d) + Take(data, room) else s.buf.At(d))
            && s'.full.At(d) == (s.full.At(d) || room <= 0 || |data| > room)
  {
  }

  lemma AppendExactOther(max: nat, s: State, got: Two<bytes>, d: Dir, data: bytes)
    requires ExactAt(max, s, got, Other(d))
    ensures ExactAt(max, Append(max, s, d, data), More(got, d, data), Other(d))
  {
    hide Take;
    AppendElsewhere(max, s, d, data);
    hide Append;
  }

  lemma AppendElsewhere(max: nat, s: State, d: Dir, data: bytes)
    ensures var s' := Append(max, s, d, data);
            s'.buf.At(Other(d)) == s.buf.At(Other(d)) && s'.full.At(Other(d)) == s.full.At(Other(d))
  {
    hide Take, Append;
    var b, f := AppendShape(max, s, d, data);
    WithElsewhere(s.buf, d, b);
    WithElsewhere(s.full, d, f);
  }

  /** `Append` touches the buffer and the mark of its own direction only. */
  lemma AppendShape(max: nat, s: State, d: Dir, data: bytes) returns (b: bytes, f: bool)
    ensures Append(max, s, d, data).buf == s.buf.With(d, b) && Append(max, s, d, data).full == s.full.With(d, f)
  {
    b, f := Append(max, s, d, data).buf.At(d), Append(max, s, d, data).full.At(d);
  }

  lemma WithElsewhere<T>(two: Two<T>, d: Dir, v: T)
    ensures two.With(d, v).At(Other(d)) == two.At(Other(d))
  {
  }

  /** Latching from exact buffers. */
  lemma LatchClientSound(max: nat, s: State, created: Flow, got: Two<bytes>)
    requires BuffersExact(max, s, got) && !s.rejected && Oriented(s, created) && (s.flow.client.Some? <==> s.haveCH)
    requires s.haveCH ==> LatchedFrom(s, Take(got.At(s.client), max))
    ensures var s' := LatchClient(s);
            && Oriented(s', created)
            && (s'.flow.client.Some? <==> s'.haveCH)
            && (s'.haveCH ==> LatchedFrom(s', Take(got.At(s'.client), max)))
            && (!s'.haveCH ==> forall d: Dir :: !FindClientHello(Take(got.At(d), max)).Hit?)
  {
    hide FindClientHello, Take, LatchedFrom;
    var s' := LatchClient(s);
    assert forall d: Dir :: s.buf.At(d) == Take(got.At(d), max);
    if !s.haveCH && s'.haveCH {
      LatchedWhole(s', s.buf.At(s'.client));
    }
  }

  lemma LatchedWhole(s: State, sent: bytes)
    requires s.flow.client.Some? && FindClientHello(sent) == Hit(s.flow.client.value)
    ensures LatchedFrom(s, sent)
  {
    hide FindClientHello;
    assert sent[..|sent|] == sent;
  }

  lemma LatchClientKeeps(s: State)
    ensures var s' := LatchClient(s);
            && s'.buf == s.buf && s'.full == s.full && s'.rejected == s.rejected && s'.haveSH == s.haveSH
            && (!s'.haveCH ==> s' == s)
  {
    hide FindClientHello;
  }

  lemma LatchServerKeeps(s: State, e: Shared)
    ensures var s' := LatchServer(s, e).0;
            && s'.buf == s.buf && s'.full == s.full && s'.rejected == s.rejected && s'.haveCH == s.haveCH
            && s'.client == s.client && s'.flow == s.flow.(server := s'.flow.server)
            && (!s.haveCH ==> s' == s)
  {
    hide FindServerHello;
  }

  lemma ParseSound(max: nat, s: State, e: Shared, created: Flow, got: Two<bytes>)
    requires BuffersExact(max, s, got) && Retaining(s) && Oriented(s, created) && (s.flow.client.Some? <==> s.haveCH)
    requires s.haveCH ==> LatchedFrom(s, Take(got.At(s.client), max))
    ensures Sound(max, Parse(s, e).0, created, got)
  {
    var s1 := LatchClient(s);
    var s2 := LatchServer(s1, e).0;
    LatchClientSound(max, s, created, got);
    LatchClientKeeps(s);
    LatchServerKeeps(s1, e);
    hide FindClientHello, LatchClient, LatchServer;
    var r := Parse(s, e).0;
    if s2.haveCH {
      assert r == s2;
      assert LatchedFrom(s2, Take(got.At(s2.client), max)) by {
        assert s2.flow.client == s1.flow.client;
      }
    } else if r.rejected {
      assert Hopeless(max, got);
    }
  }

  lemma StepSound(max: nat, s: State, e: Shared, created: Flow, got: Two<bytes>, ev: Event)
    requires Sound(max, s, created, got)
    ensures Sound(max, Reassembled(max, s, e, ev.dir, ev.data, ev.ts).0, created, More(got, ev.dir, ev.data))
  {
    hide FindClientHello, Parse, LatchedFrom;
    if !Retaining(s) {
      SoundIgnores(max, s, created, got, ev.dir, ev.data);
    } else if ev.data == [] {
      assert got.At(ev.dir) + [] == got.At(ev.dir);
      assert More(got, ev.dir, []) == got;
    } else {
      var s1 := s.(flow := s.flow.SeenAt(ev.ts));
      var s2 := Append(max, s1, ev.dir, ev.data);
      var got' := More(got, ev.dir, ev.data);
      AppendExact(max, s1, got, ev.dir, ev.data);
      TakeGrows(got.At(ev.dir), ev.data, max);
      hide BuffersExact, Append;
      AppendKeeps(max, s1, ev.dir, ev.data);
      if s.haveCH {
        assert s.client == ev.dir || got'.At(s.client) == got.At(s.client);
        LatchedStays(s, Take(got.At(s.client), max), Take(got'.At(s.client), max));
        LatchedSame(s, s2, Take(got'.At(s.client), max));
      }
      ParseSound(max, s2, e, created, got');
    }
  }

  lemma AppendKeeps(max: nat, s: State, d: Dir, data: bytes)
    ensures var s' := Append(max, s, d, data);
            && s'.rejected == s.rejected && s'.haveCH == s.haveCH && s'.haveSH == s.haveSH && s'.client == s.client
            && s'.flow.client == s.flow.client && SameEndpoints(s'.flow, s.flow)
  {
  }

  lemma LatchedSame(s: State, s': State, sent: bytes)
    requires LatchedFrom(s, sent) && s'.flow.client == s.flow.client
    ensures LatchedFrom(s', sent)
  {
  }

  // ---------------------------------------------------------------- every run

  lemma FreshSound(max: nat, id: nat, created: Flow)
    requires created.client.None?
    ensures Sound(max, Fresh(id, false, created), created, Two([], []))
  {
    NothingInNothing();
  }

  lemma NothingInNothing()
    ensures FindClientHello([]) == Nothing
  {
    assert Records.Coalesce([], true) == Some([]);
    assert Records.Split([]) == [];
  }

  lemma {:induction false} RunSound(max: nat, id: nat, created: Flow, e: Shared, events: seq<Event>)
    requires created.client.None?
    ensures Sound(max, Run(max, Fresh(id, false, created), e, events).0, created, Delivered(events))
  {
    hide Sound, Reassembled;
    if events == [] {
      FreshSound(max, id, created);
    } else {
      var before := events[..|events| - 1];
      RunSound(max, id, created, e, before);
      var (s1, e1) := Run(max, Fresh(id, false, created), e, before);
      StepSound(max, s1, e1, created, Delivered(before), events[|events| - 1]);
    }
  }

  /** What one-shot parsing would be given: the retained prefix of everything delivered in a direction. */
  function Retained(max: nat, events: seq<Event>, d: Dir): bytes {
    Take(Delivered(events).At(d), max)
  }

  /** No prefix of what this direction sent reads as a ClientHello. */
  ghost predicate NeverHits(sent: bytes) {
    forall n: nat :: n <= |sent| ==> !FindClientHello(sent[..n]).Hit?
  }

  /** Only a stream that ends in `ErrNotTLS` can have read as a ClientHello before and not as a whole. */
  lemma LostOnlyToNotTls(sent: bytes)
    requires !FindClientHello(sent).Hit? && FindClientHello(sent) != NotTls
    ensures NeverHits(sent)
  {
    hide FindClientHello;
    forall n: nat | n <= |sent|
      ensures !FindClientHello(sent[..n]).Hit?
    {
      FindGrows(sent[..n], sent);
    }
  }

  /**
   * What rejection means, over every run: the retained prefix of neither direction reads, as a whole, as a ClientHello,
   * and unless both directions overran the prefix, no continuation of either will. A direction whose shorter part does
   * read as one is a direction that ended in `ErrNotTLS`.
   */
  lemma RejectionSound(max: nat, id: nat, created: Flow, e: Shared, events: seq<Event>)
    requires created.client.None? && Run(max, Fresh(id, false, created), e, events).0.rejected
    ensures forall d: Dir :: !FindClientHello(Retained(max, events, d)).Hit?
    ensures || (forall d: Dir :: |Delivered(events).At(d)| > max)
            || (forall d: Dir, c: bytes :: FindClientHello(Retained(max, events, d) + c) == NotTls)
    ensures forall d: Dir :: FindClientHello(Retained(max, events, d)) == NotTls || NeverHits(Retained(max, events, d))
  {
    hide FindClientHello, Run, Delivered;
    RunSound(max, id, created, e, events);
    var got := Delivered(events);
    if !(forall d: Dir :: |got.At(d)| > max) {
      forall d: Dir, c: bytes
        ensures FindClientHello(Retained(max, events, d) + c) == NotTls
      {
        assert FindClientHello(Take(got.At(d), max)) == NotTls;
        FindClientHelloGrows(Retained(max, events, d), c);
      }
    }
    forall d: Dir
      ensures FindClientHello(Retained(max, events, d)) == NotTls || NeverHits(Retained(max, events, d))
    {
      if FindClientHello(Retained(max, events, d)) != NotTls {
        LostOnlyToNotTls(Retained(max, events, d));
      }
    }
  }

  /** A latched ClientHello is never unlatched or replaced. */
  lemma LatchPersists(max: nat, s: State, e: Shared, d: Dir, data: bytes, ts: int)
    requires s.haveCH
    ensures var s' := Reassembled(max, s, e, d, data, ts).0; s'.haveCH && s'.flow.client == s.flow.client
  {
    hide Append, LatchServer;
    if data != [] && Retaining(s) {
      var s1 := s.(flow := s.flow.SeenAt(ts));
      AppendKeeps(max, s1, d, data);
      LatchServerKeeps(Append(max, s1, d, data), e);
    }
  }

  lemma {:induction false} RunLatchPersists(max: nat, s: State, e: Shared, events: seq<Event>, k: nat)
    requires k <= |events| && Run(max, s, e, events[..k]).0.haveCH
    ensures var s', s1 := Run(max, s, e, events).0, Run(max, s, e, events[..k]).0;
            s'.haveCH && s'.flow.client == s1.flow.client
    decreases |events|
  {
    hide Reassembled;
    if k == |events| {
      assert events[..k] == events;
    } else {
      var n := |events| - 1;
      assert events[..n][..k] == events[..k];
      RunLatchPersists(max, s, e, events[..n], k);
      var (s1, e1) := Run(max, s, e, events[..n]);
      LatchPersists(max, s1, e1, events[n].dir, events[n].data, events[n].ts);
    }
  }

  /**
   * Over every run without a latched ClientHello, none could be read at any of the points where bytes were delivered.
   */
  lemma NothingReadIsMissed(max: nat, id: nat, created: Flow, e: Shared, events: seq<Event>, k: nat, d: Dir)
    requires created.client.None? && k <= |events| && !Run(max, Fresh(id, false, created), e, events).0.haveCH
    ensures !FindClientHello(Retained(max, events[..k], d)).Hit?
  {
    hide FindClientHello, Run, Delivered;
    RunSound(max, id, created, e, events[..k]);
    var s := Run(max, Fresh(id, false, created), e, events[..k]).0;
    if s.haveCH {
      RunLatchPersists(max, Fresh(id, false, created), e, events, k);
    }
    assert s.rejected || Retaining(s);
  }

  /**
   * When TCP segmentation does not matter to the client: if the other direction carries no ClientHello and this one
   * does not end in `ErrNotTLS`, then however the bytes were cut and interleaved a ClientHello is latched exactly when
   * one-shot parsing of the retained prefix finds one, it is that one, and its sender is recorded as the client.
   */
  lemma SegmentationIrrelevant(max: nat, id: nat, created: Flow, e: Shared, events: seq<Event>, d: Dir)
    requires created.client.None?
    requires NeverHits(Retained(max, events, Other(d))) && FindClientHello(Retained(max, events, d)) != NotTls
    ensures var s := Run(max, Fresh(id, false, created), e, events).0;
            var once := FindClientHello(Retained(max, events, d));
            && s.haveCH == once.Hit?
            && (once.Hit? ==> s.flow.client == Some(once.hello) && s.client == d)
            && Faces(s.flow, created, once.Hit? && d == Backward)
  {
    RunSound(max, id, created, e, events);
    hide FindClientHello, Run, Delivered;
    var s := Run(max, Fresh(id, false, created), e, events).0;
    var sent := Retained(max, events, d);
    if s.haveCH {
      if s.client == Other(d) {
        assert false;
      } else {
        var n: nat :| n <= |sent| && FindClientHello(sent[..n]) == Hit(s.flow.client.value);
        FindGrows(sent[..n], sent);
      }
    } else if FindClientHello(sent).Hit? {
      assert FindClientHello(Take(Delivered(events).At(d), max)).Hit?;
      if Retaining(s) {
        assert false;
      } else {
        assert s.rejected && Hopeless(max, Delivered(events));
        assert false;
      }
    }
  }

  /** Until the stream stops retaining, each buffer is exactly the first `max` bytes of what was delivered. */
  lemma BuffersArePrefixes(max: nat, id: nat, created: Flow, e: Shared, events: seq<Event>, d: Dir)
    requires created.client.None? && Retaining(Run(max, Fresh(id, false, created), e, events).0)
    ensures var s := Run(max, Fresh(id, false, created), e, events).0;
            s.buf.At(d) == Retained(max, events, d) && s.full.At(d) == (|Delivered(events).At(d)| > max)
  {
    RunSound(max, id, created, e, events);
  }

  // ---------------------------------------------------------------- the server's answer was really sent

  /** Some prefix of what the server sent reads as the answer that was latched. */
  ghost predicate AnsweredFrom(s: State, sent: bytes) {
    s.flow.server.Some? && exists n: nat :: n <= |sent| && FindServerHello(sent[..n]) == Hit(s.flow.server.value)
  }

  ghost predicate Answered(max: nat, s: State, got: Two<bytes>) {
    && (s.haveSH ==> s.haveCH && AnsweredFrom(s, Take(got.At(Other(s.client)), max)))
    && (s.flow.server.Some? <==> s.haveSH)
  }

  lemma AnswerStays(s: State, sent: bytes, more: bytes)
    requires AnsweredFrom(s, sent) && sent <= more
    ensures AnsweredFrom(s, more)
  {
    hide FindServerHello;
    var n: nat :| n <= |sent| && FindServerHello(sent[..n]) == Hit(s.flow.server.value);
    assert more[..n] == sent[..n];
  }

  lemma AnswerIgnores(max: nat, s: State, got: Two<bytes>, d: Dir, data: bytes)
    requires Answered(max, s, got)
    ensures Answered(max, s, More(got, d, data))
  {
    hide AnsweredFrom;
    if s.haveSH {
      var o := Other(s.client);
      TakeGrows(got.At(d), data, max);
      assert o == d || More(got, d, data).At(o) == got.At(o);
      AnswerStays(s, Take(got.At(o), max), Take(More(got, d, data).At(o), max));
    }
  }

  lemma LatchServerAnswers(max: nat, s: State, e: Shared, got: Two<bytes>)
    requires BuffersExact(max, s, got) && !s.haveSH && s.flow.server.None?
    ensures Answered(max, LatchServer(s, e).0, got)
  {
    hide FindServerHello, Take;
    var s' := LatchServer(s, e).0;
    if s'.haveSH {
      var sent := s.buf.At(Other(s.client));
      assert FindServerHello(sent) == Hit(s'.flow.server.value);
      assert sent[..|sent|] == sent;
    }
  }

  lemma ParseAnswers(max: nat, s: State, e: Shared, got: Two<bytes>)
    requires BuffersExact(max, s, got) && !s.haveSH && s.flow.server.None?
    ensures Answered(max, Parse(s, e).0, got)
  {
    LatchClientKeeps(s);
    LatchClientServer(s);
    var s1 := LatchClient(s);
    hide FindClientHello, LatchClient, LatchServer;
    LatchServerAnswers(max, s1, e, got);
    var s2 := LatchServer(s1, e).0;
    hide AnsweredFrom;
    assert !s2.haveCH ==> !s2.haveSH;
  }

  lemma LatchClientServer(s: State)
    ensures LatchClient(s).flow.server == s.flow.server
  {
    hide FindClientHello;
  }

  lemma StepAnswered(max: nat, s: State, e: Shared, created: Flow, got: Two<bytes>, ev: Event)
    requires Sound(max, s, created, got) && Answered(max, s, got)
    ensures Answered(max, Reassembled(max, s, e, ev.dir, ev.data, ev.ts).0, More(got, ev.dir, ev.data))
  {
    hide Parse, AnsweredFrom, LatchedFrom, FindClientHello;
    if !Retaining(s) || ev.data == [] {
      AnswerIgnores(max, s, got, ev.dir, ev.data);
    } else {
      var s1 := s.(flow := s.flow.SeenAt(ev.ts));
      assert !s.haveSH;
      AppendExact(max, s1, got, ev.dir, ev.data);
      AppendServer(max, s1, ev.dir, ev.data);
      hide Append, BuffersExact;
      ParseAnswers(max, Append(max, s1, ev.dir, ev.data), e, More(got, ev.dir, ev.data));
    }
  }

  lemma AppendServer(max: nat, s: State, d: Dir, data: bytes)
    ensures Append(max, s, d, data).flow.server == s.flow.server && Append(max, s, d, data).haveSH == s.haveSH
  {
  }

  /**
   * Over every run a latched answer is one that the side facing the client sent, within the retained prefix, and it is
   * latched only beside a ClientHello.
   */
  lemma {:induction false} AnswerWasSent(max: nat, id: nat, created: Flow, e: Shared, events: seq<Event>)
    requires created.client.None? && created.server.None?
    ensures Answered(max, Run(max, Fresh(id, false, created), e, events).0, Delivered(events))
  {
    hide Reassembled, Sound;
    if events != [] {
      var before := events[..|events| - 1];
      AnswerWasSent(max, id, created, e, before);
      RunSound(max, id, created, e, before);
      hide Answered;
      var (s1, e1) := Run(max, Fresh(id, false, created), e, before);
      StepAnswered(max, s1, e1, created, Delivered(before), events[|events| - 1]);
    }
  }

  // ---------------------------------------------------------------- when the server's answer ignores the cut

  /** While the answer is awaited, what the other side has sent does not read as one. */
  ghost predicate Awaiting(max: nat, s: State, got: Two<bytes>) {
    s.haveCH && !s.haveSH ==> !FindServerHello(Take(got.At(Other(s.client)), max)).Hit?
  }

  /** The handler was called once, with the flow as it now stands, exactly when a complete answer was latched. */
  predicate Told(s: State, before: seq<Emission>, log: seq<Emission>) {
    && (s.emitted <==> s.haveCH && s.haveSH && s.flow.server.Some? && s.flow.server.value.flightComplete)
    && log == before + (if s.emitted then [Emission(s.id, s.flow)] else [])
  }

  lemma LatchServerTells(max: nat, s: State, e: Shared, got: Two<bytes>, before: seq<Emission>)
    requires BuffersExact(max, s, got) && !s.haveSH && !s.emitted && e.log == before
             && (s.flow.client.Some? <==> s.haveCH)
    ensures var r := LatchServer(s, e); Awaiting(max, r.0, got) && Told(r.0, before, r.1.log)
  {
    hide FindServerHello, Take;
    assert before + [] == before;
  }

  lemma ParseTells(max: nat, s: State, e: Shared, got: Two<bytes>, before: seq<Emission>)
    requires BuffersExact(max, s, got) && !s.haveSH && !s.emitted && e.log == before
             && (s.flow.client.Some? <==> s.haveCH)
    ensures var r := Parse(s, e); Awaiting(max, r.0, got) && Told(r.0, before, r.1.log)
  {
    LatchClientKeeps(s);
    LatchClientTells(s);
    var s1 := LatchClient(s);
    hide FindClientHello, LatchClient, BuffersExact;
    assert BuffersExact(max, s1, got) by { SameBuffers(max, s, s1, got); }
    LatchServerTells(max, s1, e, got, before);
    LatchServerKeeps(s1, e);
    hide LatchServer, Awaiting;
    var (s2, e2) := LatchServer(s1, e);
    if !s2.haveCH {
      AwaitsNothing(max, Parse(s, e).0, got);
    }
  }

  lemma AwaitsNothing(max: nat, s: State, got: Two<bytes>)
    requires !s.haveCH
    ensures Awaiting(max, s, got)
  {
  }

  lemma SameBuffers(max: nat, s: State, s': State, got: Two<bytes>)
    requires BuffersExact(max, s, got) && s'.buf == s.buf && s'.full == s.full
    ensures BuffersExact(max, s', got)
  {
  }

  lemma LatchClientTells(s: State)
    requires s.flow.client.Some? <==> s.haveCH
    ensures var s' := LatchClient(s);
            s'.emitted == s.emitted && s'.id == s.id && (s'.flow.client.Some? <==> s'.haveCH)
  {
    hide FindClientHello;
  }

  lemma StepTells(max: nat, s: State, e: Shared, created: Flow, got: Two<bytes>, ev: Event, before: seq<Emission>)
    requires Sound(max, s, created, got) && Answered(max, s, got) && Awaiting(max, s, got) && Told(s, before, e.log)
    ensures var r := Reassembled(max, s, e, ev.dir, ev.data, ev.ts);
            Awaiting(max, r.0, More(got, ev.dir, ev.data)) && Told(r.0, before, r.1.log)
  {
    hide Parse, AnsweredFrom, LatchedFrom, FindClientHello, FindServerHello;
    if ev.data == [] {
      assert got.At(ev.dir) + [] == got.At(ev.dir);
      assert More(got, ev.dir, []) == got;
    } else if Retaining(s) {
      var s1 := s.(flow := s.flow.SeenAt(ev.ts));
      AppendExact(max, s1, got, ev.dir, ev.data);
      AppendServer(max, s1, ev.dir, ev.data);
      AppendKeeps(max, s1, ev.dir, ev.data);
      AppendQuiet(max, s1, ev.dir, ev.data);
      assert before + [] == before;
      hide Append, BuffersExact;
      ParseTells(max, Append(max, s1, ev.dir, ev.data), e, More(got, ev.dir, ev.data), before);
    }
  }

  lemma AppendQuiet(max: nat, s: State, d: Dir, data: bytes)
    ensures Append(max, s, d, data).emitted == s.emitted
  {
  }

  lemma {:induction false} RunTells(max: nat, id: nat, created: Flow, e: Shared, events: seq<Event>)
    requires created.client.None? && created.server.None?
    ensures var r := Run(max, Fresh(id, false, created), e, events);
            Awaiting(max, r.0, Delivered(events)) && Told(r.0, e.log, r.1.log)
  {
    if events != [] {
      hide Reassembled, Sound, Answered, Awaiting, Told;
      var before := events[..|events| - 1];
      RunTells(max, id, created, e, before);
      RunSound(max, id, created, e, before);
      AnswerWasSent(max, id, created, e, before);
      var (s1, e1) := Run(max, Fresh(id, false, created), e, before);
      StepTells(max, s1, e1, created, Delivered(before), events[|events| - 1], e.log);
    } else {
      assert e.log + [] == e.log;
    }
  }

  /** However far the server's bytes have arrived, they read as this answer or not as one at all; in full they do. */
  ghost predicate Settles(sent: bytes, reply: ServerHello.Reply) {
    && FindServerHello(sent) == Hit(reply)
    && forall n: nat :: n <= |sent| && FindServerHello(sent[..n]).Hit? ==> FindServerHello(sent[..n]) == Hit(reply)
  }

  /**
   * Where the server's bytes settle on one answer, the whole observation is independent of segmentation and of how the
   * two directions interleave: both hellos, the endpoints, and a report at once if the answer ends the flight.
   */
  lemma BothSidesSettle(max: nat, id: nat, created: Flow, e: Shared, events: seq<Event>, d: Dir,
                        reply: ServerHello.Reply)
    requires created.client.None? && created.server.None? && FindClientHello(Retained(max, events, d)).Hit?
    requires NeverHits(Retained(max, events, Other(d))) && Settles(Retained(max, events, Other(d)), reply)
    ensures var (s, e') := Run(max, Fresh(id, false, created), e, events);
            && s.flow.client == Some(FindClientHello(Retained(max, events, d)).hello) && s.flow.server == Some(reply)
            && Faces(s.flow, created, d == Backward)
            && e'.log == e.log + (if reply.flightComplete then [Emission(s.id, s.flow)] else [])
  {
    SegmentationIrrelevant(max, id, created, e, events, d);
    RunTells(max, id, created, e, events);
    AnswerWasSent(max, id, created, e, events);
    hide FindClientHello, FindServerHello, Run, Delivered, Take;
    var s := Run(max, Fresh(id, false, created), e, events).0;
    assert s.haveSH;
    var sent := Retained(max, events, Other(d));
    var n: nat :| n <= |sent| && FindServerHello(sent[..n]) == Hit(s.flow.server.value);
    assert FindServerHello(sent[..n]).Hit?;
  }

  // ---------------------------------------------------------------- and when it does

  /** A client's bytes, then a server's in two segments cut at `n`. */
  function CutAt(c: bytes, sent: bytes, n: nat): seq<Event>
    requires n <= |sent|
  {
    [Event(Forward, c, 0), Event(Backward, sent[..n], 0), Event(Backward, sent[n..], 0)]
  }

  /** A stream that knows its client and has read `buf` from the server without finding an answer. */
  predicate Expecting(s: State, buf: bytes) {
    s.haveCH && s.client == Forward && !s.haveSH && !s.rejected && s.buf.backward == buf
  }

  lemma FirstSegment(max: nat, id: nat, created: Flow, e: Shared, c: bytes)
    requires FindClientHello(c).Hit? && |c| <= max
    ensures Expecting(Reassembled(max, Fresh(id, false, created), e, Forward, c, 0).0, [])
  {
    hide FindClientHello, FindServerHello;
    NothingInNothing();
    NoAnswerInNothing();
    assert [] + c == c;
  }

  lemma NoAnswerInNothing()
    ensures FindServerHello([]) == Nothing
  {
    assert Records.Coalesce([], true) == Some([]);
    assert Records.Split([]) == [];
  }

  lemma ServerSegment(max: nat, s: State, e: Shared, data: bytes)
    requires Expecting(s, s.buf.backward) && |s.buf.backward + data| <= max
    requires data == [] ==> !FindServerHello(s.buf.backward).Hit?
    ensures var s' := Reassembled(max, s, e, Backward, data, 0).0;
            var read := FindServerHello(s.buf.backward + data);
            if read.Hit? then s'.haveCH && s'.haveSH && s'.flow.server == Some(read.hello)
            else Expecting(s', s.buf.backward + data)
  {
    hide FindClientHello, FindServerHello;
    assert s.buf.backward + [] == s.buf.backward;
  }

  /** The first reading that finds an answer is the one that is kept. */
  lemma CutKeepsFirst(max: nat, id: nat, created: Flow, e: Shared, c: bytes, sent: bytes, n: nat)
    requires FindClientHello(c).Hit? && FindServerHello(sent).Hit? && |c| <= max && |sent| <= max && n <= |sent|
    ensures Run(max, Fresh(id, false, created), e, CutAt(c, sent, n)).0.flow.server
         == Some(if FindServerHello(sent[..n]).Hit? then FindServerHello(sent[..n]).hello
                 else FindServerHello(sent).hello)
  {
    hide FindClientHello, FindServerHello, Reassembled, Run, Fresh;
    var s := Fresh(id, false, created);
    FirstSegment(max, id, created, e, c);
    RunOfThree(max, s, e, CutAt(c, sent, n));
    var (s1, e1) := Reassembled(max, s, e, Forward, c, 0);
    ServerTwoSegments(max, s1, e1, sent, n);
  }

  /** A server's bytes in two segments: the first reading that finds an answer is kept. */
  lemma ServerTwoSegments(max: nat, s1: State, e1: Shared, sent: bytes, n: nat)
    requires Expecting(s1, []) && n <= |sent| <= max && FindServerHello(sent).Hit?
    ensures var (s2, e2) := Reassembled(max, s1, e1, Backward, sent[..n], 0);
            Reassembled(max, s2, e2, Backward, sent[n..], 0).0.flow.server
            == Some(if FindServerHello(sent[..n]).Hit? then FindServerHello(sent[..n]).hello
                    else FindServerHello(sent).hello)
  {
    hide FindClientHello, FindServerHello, Reassembled;
    NoAnswerInNothing();
    assert [] + sent[..n] == sent[..n] && sent[..n] + sent[n..] == sent;
    assert n == |sent| ==> sent[..n] == sent;
    ServerSegment(max, s1, e1, sent[..n]);
    var (s2, e2) := Reassembled(max, s1, e1, Backward, sent[..n], 0);
    if s2.haveSH {
      IgnoresMore(max, s2, e2, Backward, sent[n..]);
    } else {
      ServerSegment(max, s2, e2, sent[n..]);
    }
  }

  /** Once both hellos are latched nothing more is read. */
  lemma IgnoresMore(max: nat, s: State, e: Shared, d: Dir, data: bytes)
    requires s.haveCH && s.haveSH
    ensures Reassembled(max, s, e, d, data, 0).0 == s
  {
    hide Parse, Append;
  }

  lemma RunOfThree(max: nat, s: State, e: Shared, evs: seq<Event>)
    requires |evs| == 3
    ensures var (s1, e1) := Reassembled(max, s, e, evs[0].dir, evs[0].data, evs[0].ts);
            var (s2, e2) := Reassembled(max, s1, e1, evs[1].dir, evs[1].data, evs[1].ts);
            Run(max, s, e, evs) == Reassembled(max, s2, e2, evs[2].dir, evs[2].data, evs[2].ts)
  {
    hide Reassembled;
    assert evs[..2][..1] == evs[..1] && evs[..1][..0] == [];
    assert Run(max, s, e, evs[..1]) == Reassembled(max, s, e, evs[0].dir, evs[0].data, evs[0].ts);
    var (s1, e1) := Run(max, s, e, evs[..1]);
    assert Run(max, s, e, evs[..2]) == Reassembled(max, s1, e1, evs[1].dir, evs[1].data, evs[1].ts);
  }

  /** The server's answer is the same for every cut of its bytes if and only if those bytes settle on it. */
  lemma ServerCutIffSettles(max: nat, id: nat, created: Flow, e: Shared, c: bytes, sent: bytes,
                            reply: ServerHello.Reply)
    requires FindClientHello(c).Hit? && FindServerHello(sent) == Hit(reply) && |c| <= max && |sent| <= max
    ensures (forall n: nat :: n <= |sent| ==>
               Run(max, Fresh(id, false, created), e, CutAt(c, sent, n)).0.flow.server == Some(reply))
      <==> Settles(sent, reply)
  {
    hide Run, FindServerHello, FindClientHello;
    forall n: nat | n <= |sent|
      ensures Run(max, Fresh(id, false, created), e, CutAt(c, sent, n)).0.flow.server
           == Some(if FindServerHello(sent[..n]).Hit? then FindServerHello(sent[..n]).hello else reply)
    {
      CutKeepsFirst(max, id, created, e, c, sent, n);
    }
  }
}
