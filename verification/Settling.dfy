/**
 * When a server's answer can be read early: the assembler keeps the first answer it reads, so what it reports is
 * independent of segmentation exactly when nothing after the first hello changes the answer.
 */
module Settling {
  import opened Bytes
  import opened Flows
  import opened Records
  import opened ServerHello
  import opened Find
  import TcpStream
  import TcpRuns
  import ServerSynth
  import ClientHello

  // ---------------------------------------------------------------- messages after the first hello

  /** A message that changes the answer once `sh` is the answer; `closed` says that its flight counts as complete. */
  predicate Disturbs(sh: Reply, closed: bool, m: Message) {
    || (IsReal(m) && ParseServerHello(m.body).value != sh)
    || (m.typ == SERVER_KEY_EXCHANGE && sh.group == 0 && KeyExchangeGroup(m.body).Some?)
    || (m.typ == CERTIFICATE && CertificateChain(m.body).Some? && CertificateChain(m.body).value != [])
    || (m.typ == SERVER_HELLO_DONE && !closed)
  }

  predicate Closed(s: Scan, sh: Reply) {
    Tls13(sh) || s.done
  }

  /** A scan that holds a real ServerHello as it was parsed. */
  predicate Holds(s: Scan, sh: Reply) {
    s.sh == Some(sh) && sh.chain == [] && !sh.flightComplete && sh.source != FromServerKeyExchange
  }

  /** One message that disturbs nothing leaves the answer, and what would disturb it, as they were. */
  lemma Undisturbed(s: Scan, sh: Reply, m: Message)
    requires Holds(s, sh) && !Disturbs(sh, Closed(s, sh), m)
    ensures Holds(Step(s, m), sh) && Closed(Step(s, m), sh) == Closed(s, sh) && Conclude(Step(s, m)) == Conclude(s)
  {
    hide ParseServerHello, KeyExchangeGroup, CertificateChain;
  }

  lemma Disturbed(s: Scan, sh: Reply, m: Message)
    requires Holds(s, sh) && Disturbs(sh, Closed(s, sh), m)
    ensures Conclude(Step(s, m)) != Conclude(s)
  {
    if IsReal(m) {
      ParsedReply(m.body);
    }
    hide ParseServerHello, KeyExchangeGroup, CertificateChain;
  }

  /** Every reading on the way gives this answer. */
  ghost predicate AlwaysReads(s: Scan, ms: seq<Message>, answer: Found<Reply>) {
    forall k :: 0 <= k <= |ms| ==> ScanFrom(s, ms[..k]) == answer
  }

  lemma AlwaysReadsCons(s: Scan, ms: seq<Message>, answer: Found<Reply>)
    requires ms != [] && !Stops(s, ms[0])
    ensures AlwaysReads(s, ms, answer) <==> Conclude(s) == answer && AlwaysReads(Step(s, ms[0]), ms[1..], answer)
  {
    hide Step, Stops, Conclude;
    forall k | 0 <= k < |ms|
      ensures ScanFrom(s, ms[..k + 1]) == ScanFrom(Step(s, ms[0]), ms[1..][..k])
    {
      assert ms[..k + 1][0] == ms[0] && ms[..k + 1][1..] == ms[1..][..k];
    }
    assert ms[..0] == [] && ScanFrom(s, []) == Conclude(s);
    if AlwaysReads(s, ms, answer) {
      forall k | 0 <= k <= |ms[1..]|
        ensures ScanFrom(Step(s, ms[0]), ms[1..][..k]) == answer
      {
        assert ScanFrom(s, ms[..k + 1]) == answer;
      }
    }
    if Conclude(s) == answer && AlwaysReads(Step(s, ms[0]), ms[1..], answer) {
      forall k | 0 <= k <= |ms|
        ensures ScanFrom(s, ms[..k]) == answer
      {
        if k > 0 {
          assert ScanFrom(Step(s, ms[0]), ms[1..][..k - 1]) == answer;
        }
      }
    }
  }

  lemma AlwaysReadsNil(s: Scan, answer: Found<Reply>)
    ensures AlwaysReads(s, [], answer) <==> Conclude(s) == answer
  {
    var none: seq<Message> := [];
    assert forall k :: 0 <= k <= |none| ==> none[..k] == none;
    assert ScanFrom(s, none[..0]) == Conclude(s);
  }

  /** From a real ServerHello on, the answer never changes exactly when no message disturbs it. */
  lemma {:induction false} NeverChangesIff(s: Scan, sh: Reply, ms: seq<Message>)
    requires Holds(s, sh)
    ensures AlwaysReads(s, ms, Conclude(s)) <==> forall j :: 0 <= j < |ms| ==> !Disturbs(sh, Closed(s, sh), ms[j])
    decreases |ms|
  {
    hide AlwaysReads, Disturbs, Conclude, Closed, Step, ParseServerHello;
    if ms == [] {
      AlwaysReadsNil(s, Conclude(s));
    } else {
      AlwaysReadsCons(s, ms, Conclude(s));
      if Disturbs(sh, Closed(s, sh), ms[0]) {
        Disturbed(s, sh, ms[0]);
        var next := Step(s, ms[0]);
        if AlwaysReads(next, ms[1..], Conclude(s)) {
          AlwaysReadsFirst(next, ms[1..], Conclude(s));
        }
      } else {
        Undisturbed(s, sh, ms[0]);
        NeverChangesIff(Step(s, ms[0]), sh, ms[1..]);
        assert forall j :: 0 <= j < |ms[1..]| ==> ms[1..][j] == ms[j + 1];
      }
    }
  }

  lemma AlwaysReadsFirst(s: Scan, ms: seq<Message>, answer: Found<Reply>)
    requires AlwaysReads(s, ms, answer)
    ensures Conclude(s) == answer
  {
    assert ms[..0] == [] && ScanFrom(s, ms[..0]) == Conclude(s);
  }

  /** From a HelloRetryRequest on, the answer never changes exactly when no real ServerHello follows. */
  lemma RetryNeverChangesIff(s: Scan, ms: seq<Message>)
    requires s.sh.None? && s.retry.Some? && s.retry.value.isRetry
    ensures AlwaysReads(s, ms, Hit(s.retry.value)) <==> NoReal(ms)
  {
    hide ParseServerHello;
    if NoReal(ms) {
      forall k | 0 <= k <= |ms|
        ensures ScanFrom(s, ms[..k]) == Hit(s.retry.value)
      {
        ScanKeepsRetry(s, ms[..k]);
      }
    } else {
      var j :| 0 <= j < |ms| && IsReal(ms[j]);
      assert ms[..j + 1] == ms[..j] + [ms[j]] + [];
      var r := ScanReaches(s, ms[..j], ms[j], []);
      var sh := ParseServerHello(ms[j].body).value;
      assert ScanFrom(s, ms[..j + 1]) == Conclude(Scan(Some(sh), r, s.done || HasDone(ms[..j])));
    }
  }

  // ---------------------------------------------------------------- whole lists

  /** `ms[i]` is the first ServerHello message, and it parses. */
  ghost predicate FirstHelloAt(ms: seq<Message>, i: nat) {
    i < |ms| && IsHello(ms[i]) && forall j :: 0 <= j < i ==> ms[j].typ != SERVER_HELLO
  }

  /** Nothing after the first hello changes the answer. */
  ghost predicate Steady(ms: seq<Message>, i: nat)
    requires FirstHelloAt(ms, i)
  {
    var sh := ParseServerHello(ms[i].body).value;
    if sh.isRetry then NoReal(ms[i + 1..])
    else forall j :: i < j < |ms| ==> !Disturbs(sh, Tls13(sh) || HasDone(ms[..i]), ms[j])
  }

  lemma {:induction false} SkipToHello(s: Scan, a: seq<Message>, rest: seq<Message>)
    requires s.sh.None? && s.retry.None? && forall j :: 0 <= j < |a| ==> a[j].typ != SERVER_HELLO
    ensures ScanFrom(s, a + rest) == ScanFrom(s.(done := s.done || HasDone(a)), rest)
    decreases |a|
  {
    hide ParseServerHello, HasDone;
    if a == [] {
      assert a + rest == rest;
      assert !HasDone([]) by { NoDoneInNothing(); }
    } else {
      HasDoneCons(a);
      assert (a + rest)[0] == a[0] && (a + rest)[1..] == a[1..] + rest;
      SkipToHello(Step(s, a[0]), a[1..], rest);
    }
  }

  lemma NoDoneInNothing()
    ensures !HasDone([])
  {
  }

  /** The scan when the first hello has just been read. */
  ghost function AtHello(ms: seq<Message>, i: nat): Scan
    requires FirstHelloAt(ms, i)
  {
    Step(Scan(None, None, HasDone(ms[..i])), ms[i])
  }

  /** The reading of every prefix: nothing up to the first hello, and from there what the scan goes on to. */
  lemma ReadingOfPrefix(ms: seq<Message>, i: nat, k: nat)
    requires FirstHelloAt(ms, i) && k <= |ms|
    ensures FirstServerHello(ms[..k]) == if k <= i then Nothing else ScanFrom(AtHello(ms, i), ms[i + 1..][..k - i - 1])
  {
    hide ParseServerHello, HasDone, KeyExchangeGroup, CertificateChain;
    if k <= i {
      assert ms[..k] + [] == ms[..k];
      SkipToHello(START, ms[..k], []);
    } else {
      var rest := ms[i..k];
      assert ms[..k] == ms[..i] + rest;
      SkipToHello(START, ms[..i], rest);
      assert rest[0] == ms[i] && rest[1..] == ms[i + 1..][..k - i - 1];
    }
  }

  lemma AtHelloHolds(ms: seq<Message>, i: nat)
    requires FirstHelloAt(ms, i)
    ensures var sh, s := ParseServerHello(ms[i].body).value, AtHello(ms, i);
            && s.done == HasDone(ms[..i])
            && (if sh.isRetry then s.sh.None? && s.retry == Some(sh) else Holds(s, sh))
            && Conclude(s).Hit?
  {
    ParsedReply(ms[i].body);
    ParsedSource(ms[i].body);
    hide ParseServerHello, HasDone, KeyExchangeGroup, CertificateChain;
  }

  /** Every answer on the way is the final one. */
  ghost predicate EarlyIsFinal(ms: seq<Message>) {
    forall k :: 0 <= k <= |ms| && FirstServerHello(ms[..k]).Hit? ==> FirstServerHello(ms[..k]) == FirstServerHello(ms)
  }

  lemma EarlyIsFinalIffAlways(ms: seq<Message>, i: nat)
    requires FirstHelloAt(ms, i)
    ensures EarlyIsFinal(ms) <==> AlwaysReads(AtHello(ms, i), ms[i + 1..], Conclude(AtHello(ms, i)))
  {
    hide FirstServerHello, ScanFrom, AtHello, Conclude;
    var s, rest := AtHello(ms, i), ms[i + 1..];
    AtHelloHolds(ms, i);
    forall k | 0 <= k <= |ms|
      ensures FirstServerHello(ms[..k]) == if k <= i then Nothing else ScanFrom(s, rest[..k - i - 1])
    {
      ReadingOfPrefix(ms, i, k);
    }
    assert ms[..|ms|] == ms && rest[..0] == [];
    assert ScanFrom(s, []) == Conclude(s) by { ScanEnd(s); }
    if EarlyIsFinal(ms) {
      assert FirstServerHello(ms[..i + 1]) == Conclude(s);
      forall k | 0 <= k <= |rest|
        ensures ScanFrom(s, rest[..k]) == Conclude(s)
      {
        assert FirstServerHello(ms[..k + i + 1]) == ScanFrom(s, rest[..k]);
        StaysHit(s, rest[..k]);
      }
    }
    if AlwaysReads(s, rest, Conclude(s)) {
      assert ScanFrom(s, rest[..|rest|]) == Conclude(s);
    }
  }

  lemma ScanEnd(s: Scan)
    ensures ScanFrom(s, []) == Conclude(s)
  {
  }

  /** Once something was found, every longer reading finds something. */
  lemma {:induction false} StaysHit(s: Scan, ms: seq<Message>)
    requires s.sh.Some? || s.retry.Some?
    ensures ScanFrom(s, ms).Hit?
    decreases |ms|
  {
    hide ParseServerHello, KeyExchangeGroup, CertificateChain;
    if ms != [] {
      StaysHit(Step(s, ms[0]), ms[1..]);
    }
  }

  /** The answer of a list never changes on the way exactly when nothing after its first hello disturbs it. */
  lemma SteadyIff(ms: seq<Message>, i: nat)
    requires FirstHelloAt(ms, i)
    ensures EarlyIsFinal(ms) <==> Steady(ms, i)
  {
    hide ParseServerHello, EarlyIsFinal, AlwaysReads, Disturbs, HasDone, AtHello;
    EarlyIsFinalIffAlways(ms, i);
    AtHelloHolds(ms, i);
    var sh, s, rest := ParseServerHello(ms[i].body).value, AtHello(ms, i), ms[i + 1..];
    if sh.isRetry {
      RetryNeverChangesIff(s, rest);
    } else {
      NeverChangesIff(s, sh, rest);
      assert forall j :: 0 <= j < |rest| ==> rest[j] == ms[i + 1 + j];
      assert forall j :: i < j < |ms| ==> ms[j] == rest[j - i - 1];
    }
  }

  // ---------------------------------------------------------------- streams

  /** A stream settles on an answer exactly when the readings of its message list do. */
  lemma SettlesIffEarlyIsFinal(sent: bytes, ms: seq<Message>, reply: Reply)
    requires HandshakeMessages(sent) == Some(ms) && FindServerHello(sent) == Hit(reply)
    ensures TcpRuns.Settles(sent, reply) <==> EarlyIsFinal(ms)
  {
    hide HandshakeMessages, FirstServerHello;
    if TcpRuns.Settles(sent, reply) {
      forall k | 0 <= k <= |ms| && FirstServerHello(ms[..k]).Hit?
        ensures FirstServerHello(ms[..k]) == FirstServerHello(ms)
      {
        assert sent[..|sent|] == sent;
        var at := EveryPrefixIsRead(sent, |sent|, k);
        assert FindServerHello(sent[..at]) == FirstServerHello(ms[..k]);
      }
    }
    if EarlyIsFinal(ms) {
      forall n: nat | n <= |sent| && FindServerHello(sent[..n]).Hit?
        ensures FindServerHello(sent[..n]) == Hit(reply)
      {
        assert sent == sent[..n] + sent[n..];
        Incremental(sent[..n], sent[n..]);
        var part := HandshakeMessages(sent[..n]).value;
        assert part == ms[..|part|];
      }
    }
  }

  /**
   * What decides whether a server's bytes settle, said of its messages: after the first hello no real ServerHello that
   * differs from it, no curve it lacks, no certificate chain, and no end of a flight that was still open. After a
   * HelloRetryRequest, no real ServerHello at all.
   */
  lemma SettlesIffSteady(sent: bytes, ms: seq<Message>, i: nat, reply: Reply)
    requires HandshakeMessages(sent) == Some(ms) && FindServerHello(sent) == Hit(reply) && FirstHelloAt(ms, i)
    ensures TcpRuns.Settles(sent, reply) <==> Steady(ms, i)
  {
    hide HandshakeMessages, FindServerHello, TcpRuns.Settles, EarlyIsFinal, Steady, FirstHelloAt;
    SettlesIffEarlyIsFinal(sent, ms, reply);
    SteadyIff(ms, i);
  }

  /** A list with an answer has a first hello. */
  lemma {:induction false} AnswerHasHello(s: Scan, ms: seq<Message>) returns (i: nat)
    requires s.sh.None? && s.retry.None? && ScanFrom(s, ms).Hit?
    ensures FirstHelloAt(ms, i)
    decreases |ms|
  {
    hide ParseServerHello;
    assert ms != [];
    if ms[0].typ == SERVER_HELLO {
      i := 0;
    } else {
      var j := AnswerHasHello(Step(s, ms[0]), ms[1..]);
      i := j + 1;
      assert ms[1..][j] == ms[i] && forall k :: 0 < k < i ==> ms[k] == ms[1..][k - 1];
    }
  }

  /** Both directions of a stream deliver exactly these bytes, in some segmentation and interleaving. */
  ghost predicate Delivers(max: nat, events: seq<TcpRuns.Event>, c: bytes, sent: bytes) {
    TcpRuns.Retained(max, events, TcpStream.Forward) == c && TcpRuns.Retained(max, events, TcpStream.Backward) == sent
  }

  /** Over every segmentation and interleaving of these bytes the server's answer comes out as `reply`. */
  ghost predicate AlwaysAnswers(max: nat, id: nat, created: Flow, e: Shared, c: bytes, sent: bytes, reply: Reply) {
    forall events :: Delivers(max, events, c, sent) ==>
      TcpRuns.Run(max, TcpStream.Fresh(id, false, created), e, events).0.flow.server == Some(reply)
  }

  /**
   * The server's answer does not depend on how either direction was cut and how the two were interleaved, if and only
   * if nothing after the server's first hello changes the answer.
   */
  lemma AnswerIndependentIffSteady(max: nat, id: nat, created: Flow, e: Shared, c: bytes, sent: bytes,
                                   ms: seq<Message>, i: nat, reply: Reply)
    requires created.client.None? && created.server.None? && FindClientHello(c).Hit? && TcpRuns.NeverHits(sent)
    requires HandshakeMessages(sent) == Some(ms) && FindServerHello(sent) == Hit(reply) && FirstHelloAt(ms, i)
    requires |c| <= max && |sent| <= max
    ensures AlwaysAnswers(max, id, created, e, c, sent, reply) <==> Steady(ms, i)
  {
    hide HandshakeMessages, FindServerHello, FindClientHello, Steady, FirstHelloAt, TcpRuns.Settles, TcpRuns.Run,
      TcpRuns.Retained, TcpRuns.NeverHits;
    SettlesIffSteady(sent, ms, i, reply);
    if TcpRuns.Settles(sent, reply) {
      forall events | Delivers(max, events, c, sent)
        ensures TcpRuns.Run(max, TcpStream.Fresh(id, false, created), e, events).0.flow.server == Some(reply)
      {
        TcpRuns.BothSidesSettle(max, id, created, e, events, TcpStream.Forward, reply);
      }
    }
    if AlwaysAnswers(max, id, created, e, c, sent, reply) {
      forall n: nat | n <= |sent|
        ensures TcpRuns.Run(max, TcpStream.Fresh(id, false, created), e, TcpRuns.CutAt(c, sent, n)).0.flow.server
                == Some(reply)
      {
        CutDelivers(max, c, sent, n);
      }
      TcpRuns.ServerCutIffSettles(max, id, created, e, c, sent, reply);
    }
  }

  lemma CutDelivers(max: nat, c: bytes, sent: bytes, n: nat)
    requires n <= |sent| <= max && |c| <= max
    ensures Delivers(max, TcpRuns.CutAt(c, sent, n), c, sent)
  {
    var evs := TcpRuns.CutAt(c, sent, n);
    assert evs[..2][..1] == evs[..1] && evs[..1][..0] == [];
    assert [] + c == c && [] + sent[..n] == sent[..n] && sent[..n] + sent[n..] == sent;
    assert TcpRuns.Delivered(evs[..1]) == TcpStream.Two(c, []);
    assert TcpRuns.Delivered(evs[..2]) == TcpStream.Two(c, sent[..n]);
    assert TcpRuns.Delivered(evs) == TcpStream.Two(c, sent);
  }

  // ---------------------------------------------------------------- answers that are lost

  /** Some messages in records of one size, then others in records of another. */
  function TwoBursts(a: seq<Message>, chunk: nat, b: seq<Message>, chunk2: nat): bytes {
    PrintRecords(HANDSHAKE, PrintMessages(a), chunk) + PrintRecords(HANDSHAKE, PrintMessages(b), chunk2)
  }

  ghost predicate Printable(ms: seq<Message>) {
    forall i :: 0 <= i < |ms| ==> |ms[i].body| < 0x100_0000
  }

  lemma {:induction false} PrintMessagesAppend(a: seq<Message>, b: seq<Message>)
    ensures PrintMessages(a + b) == PrintMessages(a) + PrintMessages(b)
  {
    hide HandshakeMsg;
    if a == [] {
      assert a + b == b;
    } else {
      assert (a + b)[1..] == a[1..] + b;
      PrintMessagesAppend(a[1..], b);
    }
  }

  lemma BurstsRead(a: seq<Message>, chunk: nat, b: seq<Message>, chunk2: nat)
    requires a != [] && Printable(a) && Printable(b) && 0 < chunk <= MAX_PAYLOAD && 0 < chunk2 <= MAX_PAYLOAD
    ensures HandshakeMessages(PrintRecords(HANDSHAKE, PrintMessages(a), chunk)) == Some(a)
    ensures HandshakeMessages(TwoBursts(a, chunk, b, chunk2)) == Some(a + b)
  {
    var p, q := PrintMessages(a), PrintMessages(b);
    assert |p| > 0;
    PrintMessagesAppend(a, b);
    hide Coalesce, Split, PrintMessages, PrintRecords, PrintAll;
    SplitInvertsPrint(a);
    SplitInvertsPrint(a + b);
    RecordsRoundTrip(p, chunk);
    ChunksPrint(p, chunk);
    ChunksPrint(q, chunk2);
    var rs, qs := Chunks(p, chunk), Chunks(q, chunk2);
    CoalesceRecords(rs, PrintAll(qs), true);
    CoalesceRecords(qs, [], false);
    assert PrintAll(qs) + [] == PrintAll(qs);
    CoalesceNothing(false);
    assert q + [] == q;
  }

  /** If a first burst already answers, and the whole stream answers otherwise, a cut between them keeps the first. */
  lemma CutBetweenBursts(max: nat, id: nat, created: Flow, e: Shared, c: bytes, a: seq<Message>, chunk: nat,
                         b: seq<Message>, chunk2: nat, early: Reply, late: Reply)
    requires a != [] && Printable(a) && Printable(b) && 0 < chunk <= MAX_PAYLOAD && 0 < chunk2 <= MAX_PAYLOAD
    requires FirstServerHello(a) == Hit(early) && FirstServerHello(a + b) == Hit(late) && early != late
    requires FindClientHello(c).Hit? && |c| <= max && |TwoBursts(a, chunk, b, chunk2)| <= max
    ensures var sent, n := TwoBursts(a, chunk, b, chunk2), |PrintRecords(HANDSHAKE, PrintMessages(a), chunk)|;
            && FindServerHello(sent) == Hit(late) && !TcpRuns.Settles(sent, late)
            && TcpRuns.Run(max, TcpStream.Fresh(id, false, created), e, TcpRuns.CutAt(c, sent, n)).0.flow.server
              == Some(early)
            && TcpRuns.Run(max, TcpStream.Fresh(id, false, created), e, TcpRuns.CutAt(c, sent, 0)).0.flow.server
              == Some(late)
  {
    hide HandshakeMessages, FirstServerHello, FindClientHello, PrintRecords, PrintMessages, TcpRuns.Run;
    BurstsRead(a, chunk, b, chunk2);
    var sent, n := TwoBursts(a, chunk, b, chunk2), |PrintRecords(HANDSHAKE, PrintMessages(a), chunk)|;
    assert sent[..n] == PrintRecords(HANDSHAKE, PrintMessages(a), chunk);
    TcpRuns.CutKeepsFirst(max, id, created, e, c, sent, n);
    TcpRuns.CutKeepsFirst(max, id, created, e, c, sent, 0);
    assert sent[..0] == [];
    TcpRuns.NoAnswerInNothing();
  }

  /**
   * A TLS 1.2 flight that reaches the stream in two segments, the first of them its hello, is reported without curve
   * and chain; the same flight in one segment is reported with both.
   */
  lemma CutFlightLosesChain(max: nat, id: nat, created: Flow, e: Shared, c: bytes, s: ServerSynth.Spec,
                            chain: seq<bytes>, group: u16, chunk: nat, chunk2: nat)
    requires ServerSynth.Build(s).Some? && ServerSynth.Certificate(chain).Some? && ServerSynth.KeyExchange(group).Some?
    requires !s.retry && s.group == 0 && group != 0 && !Tls13(ServerSynth.Expected(s))
    requires Printable(ServerSynth.Flight(s, chain, group)) && 0 < chunk <= MAX_PAYLOAD && 0 < chunk2 <= MAX_PAYLOAD
    requires var ms := ServerSynth.Flight(s, chain, group);
             FindClientHello(c).Hit? && |c| <= max && |TwoBursts(ms[..1], chunk, ms[1..], chunk2)| <= max
    ensures var ms := ServerSynth.Flight(s, chain, group);
            var sent := TwoBursts(ms[..1], chunk, ms[1..], chunk2);
            var n := |PrintRecords(HANDSHAKE, PrintMessages(ms[..1]), chunk)|;
            && !TcpRuns.Settles(sent, ServerSynth.FlightReply(s, chain, group))
            && TcpRuns.Run(max, TcpStream.Fresh(id, false, created), e, TcpRuns.CutAt(c, sent, n)).0.flow.server
               == Some(ServerSynth.Expected(s))
            && TcpRuns.Run(max, TcpStream.Fresh(id, false, created), e, TcpRuns.CutAt(c, sent, 0)).0.flow.server
               == Some(ServerSynth.FlightReply(s, chain, group))
  {
    hide ServerSynth.Build, ServerSynth.Certificate, ServerSynth.KeyExchange, ServerSynth.FlightReply,
      ServerSynth.Expected, ServerSynth.Flight, FirstServerHello, FindClientHello, TcpRuns.Run, TcpRuns.Settles,
      TwoBursts, PrintRecords, PrintMessages;
    ServerSynth.FlightReads(s, chain, group);
    ServerSynth.FlightCutShort(s, chain, group);
    ServerSynth.FlightShape(s, chain, group);
    var ms := ServerSynth.Flight(s, chain, group);
    assert ms[..1] + ms[1..] == ms;
    CutBetweenBursts(max, id, created, e, c, ms[..1], chunk, ms[1..], chunk2,
                     ServerSynth.Expected(s), ServerSynth.FlightReply(s, chain, group));
  }

  /** A HelloRetryRequest read before the ServerHello that follows it is what the stream is reported with. */
  lemma CutAfterRetryKeepsRetry(max: nat, id: nat, created: Flow, e: Shared, c: bytes, h: Message, m: Message,
                                chunk: nat, chunk2: nat)
    requires IsHello(h) && !IsReal(h) && IsReal(m) && Printable([h]) && Printable([m])
    requires 0 < chunk <= MAX_PAYLOAD && 0 < chunk2 <= MAX_PAYLOAD
    requires FindClientHello(c).Hit? && |c| <= max && |TwoBursts([h], chunk, [m], chunk2)| <= max
    ensures var sent, n := TwoBursts([h], chunk, [m], chunk2), |PrintRecords(HANDSHAKE, PrintMessages([h]), chunk)|;
            var s := TcpStream.Fresh(id, false, created);
            var cut := TcpRuns.Run(max, s, e, TcpRuns.CutAt(c, sent, n)).0.flow.server;
            var whole := TcpRuns.Run(max, s, e, TcpRuns.CutAt(c, sent, 0)).0.flow.server;
            cut.Some? && cut.value.isRetry && whole.Some? && !whole.value.isRetry && !TcpRuns.Settles(sent, whole.value)
  {
    hide FirstServerHello, FindClientHello, TcpRuns.Run, TcpRuns.Settles, TwoBursts, PrintRecords, PrintMessages,
      ParseServerHello;
    ServerAnswerChanges(h, m);
    assert [h] + [m] == [h, m];
    CutBetweenBursts(max, id, created, e, c, [h], chunk, [m], chunk2,
                     FirstServerHello([h]).hello, FirstServerHello([h, m]).hello);
  }

  // ---------------------------------------------------------------- the client's side

  /**
   * Over every segmentation, and every interleaving with a side that never looks like a client, what is latched is what
   * one-shot parsing of these bytes finds.
   */
  ghost predicate AlwaysLatches(max: nat, id: nat, created: Flow, e: Shared, d: TcpStream.Dir, sent: bytes) {
    forall events ::
      && TcpRuns.Retained(max, events, d) == sent
      && TcpRuns.NeverHits(TcpRuns.Retained(max, events, TcpStream.Other(d))) ==>
        LatchedAs(TcpRuns.Run(max, TcpStream.Fresh(id, false, created), e, events).0, FindClientHello(sent))
  }

  predicate LatchedAs(s: TcpStream.State, once: Found<ClientHello.Hello>) {
    s.haveCH == once.Hit? && (once.Hit? ==> s.flow.client == Some(once.hello))
  }

  /** Two segments of one direction. */
  function TwoSegments(d: TcpStream.Dir, sent: bytes, n: nat): seq<TcpRuns.Event>
    requires n <= |sent|
  {
    [TcpRuns.Event(d, sent[..n], 0), TcpRuns.Event(d, sent[n..], 0)]
  }

  lemma TwoSegmentsDeliver(max: nat, d: TcpStream.Dir, sent: bytes, n: nat)
    requires n <= |sent| <= max
    ensures TcpRuns.Retained(max, TwoSegments(d, sent, n), d) == sent
    ensures TcpRuns.Retained(max, TwoSegments(d, sent, n), TcpStream.Other(d)) == []
  {
    var evs := TwoSegments(d, sent, n);
    assert evs[..1][..0] == [] && [] + sent[..n] == sent[..n] && sent[..n] + sent[n..] == sent;
    var none: TcpStream.Two<bytes> := TcpStream.Two([], []);
    assert TcpRuns.Delivered(evs[..1]) == none.With(d, sent[..n]);
    assert TcpRuns.Delivered(evs) == none.With(d, sent);
  }

  /** A first segment that reads as a ClientHello is latched, whichever side it came from. */
  lemma FirstSegmentLatches(max: nat, id: nat, created: Flow, e: Shared, d: TcpStream.Dir, c: bytes)
    requires FindClientHello(c).Hit? && |c| <= max
    ensures var s := TcpStream.Reassembled(max, TcpStream.Fresh(id, false, created), e, d, c, 0).0;
            s.haveCH && s.flow.client == Some(FindClientHello(c).hello)
  {
    hide FindClientHello, TcpStream.LatchServer;
    TcpRuns.NothingInNothing();
    assert [] + c == c && c != [];
    var s1 := TcpStream.Append(max, TcpStream.Fresh(id, false, created.SeenAt(0)), d, c);
    TcpRuns.LatchServerKeeps(TcpStream.LatchClient(s1), e);
  }

  /** Bytes that read as a ClientHello up to `n` latch it when they are cut there, whatever they read as in the end. */
  lemma CutLatches(max: nat, id: nat, created: Flow, e: Shared, d: TcpStream.Dir, sent: bytes, n: nat)
    requires n <= |sent| <= max && FindClientHello(sent[..n]).Hit?
    ensures var s := TcpRuns.Run(max, TcpStream.Fresh(id, false, created), e, TwoSegments(d, sent, n)).0;
            s.haveCH && s.flow.client == Some(FindClientHello(sent[..n]).hello)
  {
    hide FindClientHello, TcpStream.Reassembled;
    var evs := TwoSegments(d, sent, n);
    assert evs[..1][..0] == [];
    FirstSegmentLatches(max, id, created, e, d, sent[..n]);
    TcpRuns.RunLatchPersists(max, TcpStream.Fresh(id, false, created), e, evs, 1);
  }

  /** Bytes of which no part reads as a ClientHello never latch one. */
  lemma NothingToLatch(max: nat, id: nat, created: Flow, e: Shared, events: seq<TcpRuns.Event>)
    requires created.client.None?
    requires forall d: TcpStream.Dir :: TcpRuns.NeverHits(TcpRuns.Retained(max, events, d))
    ensures !TcpRuns.Run(max, TcpStream.Fresh(id, false, created), e, events).0.haveCH
  {
    hide FindClientHello, TcpRuns.Run, TcpRuns.Delivered;
    TcpRuns.RunSound(max, id, created, e, events);
    var s := TcpRuns.Run(max, TcpStream.Fresh(id, false, created), e, events).0;
    assert TcpRuns.NeverHits(TcpRuns.Retained(max, events, s.client));
  }

  /**
   * Segmentation does not matter to the client if and only if its bytes, should they end in `ErrNotTLS`, read as a
   * ClientHello at no point before.
   */
  lemma ClientIndependentIff(max: nat, id: nat, created: Flow, e: Shared, d: TcpStream.Dir, sent: bytes)
    requires created.client.None? && |sent| <= max
    ensures AlwaysLatches(max, id, created, e, d, sent)
            <==> (FindClientHello(sent) == NotTls ==> TcpRuns.NeverHits(sent))
  {
    hide FindClientHello, TcpRuns.Run, TcpRuns.Retained, TcpStream.Fresh;
    if FindClientHello(sent) == NotTls && !TcpRuns.NeverHits(sent) {
      var n: nat :| n <= |sent| && FindClientHello(sent[..n]).Hit?;
      CutLatches(max, id, created, e, d, sent, n);
      TwoSegmentsDeliver(max, d, sent, n);
      NeverHitsNothing();
      var evs := TwoSegments(d, sent, n);
      assert !LatchedAs(TcpRuns.Run(max, TcpStream.Fresh(id, false, created), e, evs).0, FindClientHello(sent));
    } else {
      forall events | TcpRuns.Retained(max, events, d) == sent
                      && TcpRuns.NeverHits(TcpRuns.Retained(max, events, TcpStream.Other(d)))
        ensures LatchedAs(TcpRuns.Run(max, TcpStream.Fresh(id, false, created), e, events).0, FindClientHello(sent))
      {
        OneShot(max, id, created, e, events, d);
      }
    }
  }

  lemma OneShot(max: nat, id: nat, created: Flow, e: Shared, events: seq<TcpRuns.Event>, d: TcpStream.Dir)
    requires created.client.None? && TcpRuns.NeverHits(TcpRuns.Retained(max, events, TcpStream.Other(d)))
    requires FindClientHello(TcpRuns.Retained(max, events, d)) == NotTls
             ==> TcpRuns.NeverHits(TcpRuns.Retained(max, events, d))
    ensures LatchedAs(TcpRuns.Run(max, TcpStream.Fresh(id, false, created), e, events).0,
                      FindClientHello(TcpRuns.Retained(max, events, d)))
  {
    hide FindClientHello, TcpRuns.Run, TcpRuns.Retained, TcpRuns.NeverHits;
    if FindClientHello(TcpRuns.Retained(max, events, d)) == NotTls {
      forall x: TcpStream.Dir
        ensures TcpRuns.NeverHits(TcpRuns.Retained(max, events, x))
      {
        assert x == d || x == TcpStream.Other(d);
      }
      NothingToLatch(max, id, created, e, events);
    } else {
      TcpRuns.SegmentationIrrelevant(max, id, created, e, events, d);
    }
  }

  lemma NeverHitsNothing()
    ensures TcpRuns.NeverHits([])
  {
    TcpRuns.NothingInNothing();
    hide FindClientHello;
    var none: bytes := [];
    assert forall n: nat :: n <= |none| ==> none[..n] == none;
  }

  /** The same said of records: up to the header that is refused, the records hold no readable ClientHello. */
  lemma NeverHitsIff(sent: bytes, rs: seq<Record>, t: bytes)
    requires StopsAt(sent, true, rs, t)
    ensures FindClientHello(sent) == NotTls
    ensures TcpRuns.NeverHits(sent) <==> !FirstClientHello(Split(HandshakeBytes(rs))).Hit?
  {
    hide Coalesce, Split, HandshakeBytes, PrintAll, FirstClientHello, StopsAt;
    var x := FirstClientHello(Split(HandshakeBytes(rs)));
    StopsRefused(sent, true, rs, t);
    forall n: nat | n <= |sent|
      ensures FindClientHello(sent[..n]).Hit? ==> x.Hit?
    {
      PartOfRefused(sent, rs, t, n);
    }
    PartOfRefused(sent, rs, t, 0);
    PartOfRefused(sent, rs, t, |PrintAll(rs)|);
  }

  /** Every part of a refused stream reads as refused, as nothing, or as what the records before the bad header hold. */
  lemma PartOfRefused(sent: bytes, rs: seq<Record>, t: bytes, n: nat)
    requires StopsAt(sent, true, rs, t) && n <= |sent|
    ensures var r := FindClientHello(sent[..n]);
            r == NotTls || r == Nothing || r == FirstClientHello(Split(HandshakeBytes(rs)))
    ensures |PrintAll(rs)| <= |sent|
    ensures n == |PrintAll(rs)| ==> FindClientHello(sent[..n]) == FirstClientHello(Split(HandshakeBytes(rs)))
  {
    hide Coalesce, Split, HandshakeBytes, PrintAll, FirstClientHello;
    var front := PrintAll(rs);
    FramingIrrelevant(rs);
    if n < |front| {
      assert sent[..n] == front[..n];
      TcpRuns.FindGrows(front[..n], front);
      NeverNotTls(front);
    } else {
      var part := t[..n - |front|];
      assert sent[..n] == front + part;
      CoalesceRecords(rs, part, true);
      if |part| < HEADER {
        CoalesceShort(part, rs == []);
        assert HandshakeBytes(rs) + [] == HandshakeBytes(rs);
      } else {
        assert part[0] == t[0] && part[1] == t[1] && part[3] == t[3] && part[4] == t[4];
        BadCoalesces(part, rs == []);
      }
    }
  }

  lemma BadCoalesces(b: bytes, first: bool)
    requires |b| >= HEADER && BadHeader(b, first)
    ensures Coalesce(b, first).None?
  {
  }

  /**
   * For bytes that end in `ErrNotTLS`, split at the header that is refused: segmentation does not matter exactly when
   * the records before that header hold no readable ClientHello.
   */
  lemma RefusedClientIndependentIff(max: nat, id: nat, created: Flow, e: Shared, d: TcpStream.Dir, sent: bytes,
                                    rs: seq<Record>, t: bytes)
    requires created.client.None? && |sent| <= max && StopsAt(sent, true, rs, t)
    ensures AlwaysLatches(max, id, created, e, d, sent) <==> !FirstClientHello(Split(HandshakeBytes(rs))).Hit?
  {
    hide FindClientHello, AlwaysLatches, StopsAt, TcpRuns.NeverHits, FirstClientHello;
    NeverHitsIff(sent, rs, t);
    ClientIndependentIff(max, id, created, e, d, sent);
  }

  // ---------------------------------------------------------------- a ClientHello that is lost

  /** Bytes one way that are no TLS, and then a client's bytes the other way in one segment or in two. */
  function JunkThen(junk: bytes, segments: seq<bytes>): seq<TcpRuns.Event> {
    [TcpRuns.Event(TcpStream.Forward, junk, 0)]
    + seq(|segments|, i requires 0 <= i < |segments| => TcpRuns.Event(TcpStream.Backward, segments[i], 0))
  }

  /** The ClientHello a parse of these buffers latches. */
  function HelloIn(buf: TcpStream.Two<bytes>): Option<ClientHello.Hello> {
    match FindClientHello(buf.forward)
    case Hit(ch) => Some(ch)
    case _ =>
      match FindClientHello(buf.backward)
      case Hit(ch) => Some(ch)
      case _ => None
  }

  predicate BothNotTls(buf: TcpStream.Two<bytes>) {
    && |buf.forward| >= TcpStream.MIN_BEFORE_REJECT && FindClientHello(buf.forward) == NotTls
    && |buf.backward| >= TcpStream.MIN_BEFORE_REJECT && FindClientHello(buf.backward) == NotTls
  }

  /** What one segment does to a stream that has latched nothing and still retains. */
  lemma UnlatchedSegment(max: nat, s: TcpStream.State, e: Shared, d: TcpStream.Dir, data: bytes)
    requires !s.haveCH && !s.rejected && data != [] && |s.buf.At(d) + data| <= max
    requires s.full == TcpStream.Two(false, false)
    ensures var s' := TcpStream.Reassembled(max, s, e, d, data, 0).0;
            var buf := s.buf.With(d, s.buf.At(d) + data);
            if HelloIn(buf).Some? then s'.haveCH && s'.flow.client == HelloIn(buf)
            else if BothNotTls(buf) then s'.rejected && s'.flow.client == s.flow.client
            else s' == s.(buf := buf, flow := s.flow.SeenAt(0))
  {
    hide FindClientHello, TcpStream.Parse;
    var s1 := s.(buf := s.buf.With(d, s.buf.At(d) + data), flow := s.flow.SeenAt(0));
    assert TcpStream.Append(max, s.(flow := s.flow.SeenAt(0)), d, data) == s1;
    UnlatchedParse(s1, e);
  }

  lemma UnlatchedParse(s: TcpStream.State, e: Shared)
    requires !s.haveCH && !s.rejected && s.full == TcpStream.Two(false, false)
    ensures var s' := TcpStream.Parse(s, e).0;
            if HelloIn(s.buf).Some? then s'.haveCH && s'.flow.client == HelloIn(s.buf)
            else if BothNotTls(s.buf) then s'.rejected && s'.flow.client == s.flow.client
            else s' == s
  {
    hide FindClientHello, TcpStream.LatchServer;
    TcpRuns.LatchServerKeeps(TcpStream.LatchClient(s), e);
  }

  /** Non-TLS bytes one way leave a stream waiting for the other. */
  lemma AfterJunk(max: nat, id: nat, created: Flow, e: Shared, junk: bytes)
    requires FindClientHello(junk) == NotTls && 0 < |junk| <= max
    ensures var s := TcpStream.Fresh(id, false, created);
            TcpStream.Reassembled(max, s, e, TcpStream.Forward, junk, 0).0
            == s.(buf := TcpStream.Two(junk, []), flow := created.SeenAt(0))
  {
    hide FindClientHello, TcpStream.Reassembled;
    TcpRuns.NothingInNothing();
    assert [] + junk == junk;
    UnlatchedSegment(max, TcpStream.Fresh(id, false, created), e, TcpStream.Forward, junk);
  }

  lemma RunOfTwo(max: nat, s: TcpStream.State, e: Shared, evs: seq<TcpRuns.Event>)
    requires |evs| == 2
    ensures var (s1, e1) := TcpStream.Reassembled(max, s, e, evs[0].dir, evs[0].data, evs[0].ts);
            TcpRuns.Run(max, s, e, evs) == TcpStream.Reassembled(max, s1, e1, evs[1].dir, evs[1].data, evs[1].ts)
  {
    hide TcpStream.Reassembled;
    assert evs[..1][..0] == [];
    assert TcpRuns.Run(max, s, e, evs[..1]) == TcpStream.Reassembled(max, s, e, evs[0].dir, evs[0].data, evs[0].ts);
  }

  /** In one segment: the client's bytes are refused as a whole, and the stream with them. */
  lemma WholeIsRejected(max: nat, id: nat, created: Flow, e: Shared, junk: bytes, all: bytes)
    requires created.client.None? && FindClientHello(all) == NotTls && FindClientHello(junk) == NotTls
    requires TcpStream.MIN_BEFORE_REJECT <= |junk| <= max && TcpStream.MIN_BEFORE_REJECT <= |all| <= max
    ensures var s := TcpRuns.Run(max, TcpStream.Fresh(id, false, created), e, JunkThen(junk, [all])).0;
            s.rejected && s.flow.client.None?
  {
    hide FindClientHello, TcpStream.Reassembled, TcpRuns.Run;
    var s := TcpStream.Fresh(id, false, created);
    AfterJunk(max, id, created, e, junk);
    RunOfTwo(max, s, e, JunkThen(junk, [all]));
    var (s1, e1) := TcpStream.Reassembled(max, s, e, TcpStream.Forward, junk, 0);
    assert [] + all == all;
    UnlatchedSegment(max, s1, e1, TcpStream.Backward, all);
  }

  /** In two: the ClientHello is latched when its bytes are in, and stays. */
  lemma CutIsLatched(max: nat, id: nat, created: Flow, e: Shared, junk: bytes, a: bytes, b: bytes)
    requires created.client.None? && FindClientHello(a).Hit? && FindClientHello(junk) == NotTls
    requires 0 < |junk| <= max && |a| <= max
    ensures var s := TcpRuns.Run(max, TcpStream.Fresh(id, false, created), e, JunkThen(junk, [a, b])).0;
            !s.rejected && s.flow.client == Some(FindClientHello(a).hello)
  {
    hide FindClientHello, TcpStream.Reassembled, TcpRuns.Run, TcpRuns.Delivered;
    var s, evs := TcpStream.Fresh(id, false, created), JunkThen(junk, [a, b]);
    AfterJunk(max, id, created, e, junk);
    TcpRuns.RunOfThree(max, s, e, evs);
    TcpRuns.NothingInNothing();
    var (s1, e1) := TcpStream.Reassembled(max, s, e, TcpStream.Forward, junk, 0);
    assert [] + a == a && a != [];
    UnlatchedSegment(max, s1, e1, TcpStream.Backward, a);
    var (s2, e2) := TcpStream.Reassembled(max, s1, e1, TcpStream.Backward, a, 0);
    TcpRuns.LatchPersists(max, s2, e2, TcpStream.Backward, b, 0);
    TcpRuns.RunSound(max, id, created, e, evs);
  }

  /**
   * The same bytes on the same stream: where `a` reads as a ClientHello and `a + b` as `ErrNotTLS`, in one segment the
   * stream is rejected and its ClientHello lost; in two segments it is latched.
   */
  lemma CutDecidesRejection(max: nat, id: nat, created: Flow, e: Shared, junk: bytes, a: bytes, b: bytes)
    requires created.client.None? && FindClientHello(a).Hit? && FindClientHello(a + b) == NotTls
    requires FindClientHello(junk) == NotTls && TcpStream.MIN_BEFORE_REJECT <= |junk| <= max
    requires TcpStream.MIN_BEFORE_REJECT <= |a + b| <= max
    ensures var s := TcpStream.Fresh(id, false, created);
            var whole := TcpRuns.Run(max, s, e, JunkThen(junk, [a + b])).0;
            var cut := TcpRuns.Run(max, s, e, JunkThen(junk, [a, b])).0;
            && whole.rejected && whole.flow.client.None?
            && !cut.rejected && cut.flow.client == Some(FindClientHello(a).hello)
            && !TcpRuns.NeverHits(a + b)
  {
    hide FindClientHello, TcpRuns.Run;
    WholeIsRejected(max, id, created, e, junk, a + b);
    CutIsLatched(max, id, created, e, junk, a, b);
    assert (a + b)[..|a|] == a;
  }
}
