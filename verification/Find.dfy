/** Finding the hellos in a list of handshake messages (the `Find*` half of internal/tlsparse/record.go). */
module Find {
  import opened Bytes
  import opened Records
  import opened ClientHello
  import opened ServerHello

  const CLIENT_HELLO := 1
  const SERVER_HELLO := 2
  const CERTIFICATE := 11
  const SERVER_KEY_EXCHANGE := 12
  const SERVER_HELLO_DONE := 14

  /** The message types, as the wire has them. */
  lemma Constants()
    ensures CLIENT_HELLO == 1 && SERVER_HELLO == 2 && CERTIFICATE == 11 && SERVER_KEY_EXCHANGE == 12
    ensures SERVER_HELLO_DONE == 14
  {
  }

  /** The outcome of a search: an error of either layer, nothing, or a hello. */
  datatype Found<+T> = NotTls | Bad(error: ClientHello.Error) | Nothing | Hit(hello: T)

  // ---------------------------------------------------------------- ClientHello

  function FirstClientHello(ms: seq<Message>): Found<Hello> {
    if ms == [] then Nothing
    else if ms[0].typ == CLIENT_HELLO then
      match ParseClientHello(ms[0].body)
      case Ok(ch) => Hit(ch)
      case Err(e) => Bad(e)
    else FirstClientHello(ms[1..])
  }

  method FindClientHelloIn(ms: seq<Message>) returns (r: Found<Hello>)
    ensures r == FirstClientHello(ms)
  {
    hide ParseClientHello;
    assert ms[0..] == ms;
    for i := 0 to |ms|
      invariant FirstClientHello(ms) == FirstClientHello(ms[i..])
    {
      assert ms[i..][1..] == ms[i + 1..];
      if ms[i].typ == CLIENT_HELLO {
        match ParseClientHello(ms[i].body) {
          case Ok(ch) => return Hit(ch);
          case Err(e) => return Bad(e);
        }
      }
    }
    return Nothing;
  }

  function FindClientHello(stream: bytes): Found<Hello> {
    var ms := HandshakeMessages(stream);
    if ms.None? then NotTls else FirstClientHello(ms.value)
  }

  function FindClientHelloRaw(stream: bytes): Found<Hello> {
    FirstClientHello(Split(stream))
  }

  /**
   * The first message of type 1 decides, and nothing in front of it or behind it matters: its ClientHello is the
   * result, or its error is.
   */
  lemma {:induction false} FirstClientHelloDecides(ms: seq<Message>, i: nat)
    requires i <= |ms| && (forall j :: 0 <= j < i ==> ms[j].typ != 1) && (i < |ms| ==> ms[i].typ == 1)
    ensures i == |ms| ==> FirstClientHello(ms) == Nothing
    ensures i < |ms| && ParseClientHello(ms[i].body).Ok? ==>
              FirstClientHello(ms) == Hit(ParseClientHello(ms[i].body).value)
    ensures i < |ms| && ParseClientHello(ms[i].body).Err? ==>
              FirstClientHello(ms) == Bad(ParseClientHello(ms[i].body).error)
  {
    hide ParseClientHello;
    if i > 0 {
      FirstClientHelloDecides(ms[1..], i - 1);
    }
  }

  /** A search that has met a ClientHello is not changed by what follows. */
  lemma {:induction false} FirstClientHelloStable(a: seq<Message>, b: seq<Message>)
    requires a <= b
    ensures FirstClientHello(a) == Nothing || FirstClientHello(a) == FirstClientHello(b)
  {
    hide ParseClientHello;
    if a != [] {
      assert a[1..] <= b[1..];
      FirstClientHelloStable(a[1..], b[1..]);
    }
  }

  /**
   * The client search over a growing buffer: `ErrNotTLS` is final, and otherwise a result other than "nothing yet"
   * stays unless a later record makes the stream `ErrNotTLS`.
   */
  lemma FindClientHelloGrows(b: bytes, c: bytes)
    ensures FindClientHello(b) == NotTls ==> FindClientHello(b + c) == NotTls
    ensures FindClientHello(b) == Nothing || FindClientHello(b + c) == NotTls
            || FindClientHello(b) == FindClientHello(b + c)
  {
    hide HandshakeMessages, FirstClientHello;
    Incremental(b, c);
    NeverNotTls(b + c);
    if HandshakeMessages(b).Some? && HandshakeMessages(b + c).Some? {
      FirstClientHelloStable(HandshakeMessages(b).value, HandshakeMessages(b + c).value);
    }
    if HandshakeMessages(b).Some? { FirstIsNotNotTls(HandshakeMessages(b).value); }
  }

  lemma NeverNotTls(b: bytes)
    ensures FindClientHello(b) == NotTls <==> HandshakeMessages(b).None?
  {
    if HandshakeMessages(b).Some? {
      FirstIsNotNotTls(HandshakeMessages(b).value);
    }
  }

  lemma {:induction false} FirstIsNotNotTls(ms: seq<Message>)
    ensures !FirstClientHello(ms).NotTls?
  {
    hide ParseClientHello;
    if ms != [] {
      FirstIsNotNotTls(ms[1..]);
    }
  }

  // ---------------------------------------------------------------- ServerHello

  /** What a scan holds: the latest real ServerHello, the first HelloRetryRequest, whether the flight was closed. */
  datatype Scan = Scan(sh: Option<Reply>, retry: Option<Reply>, done: bool)

  /** One message that is not a ServerHello which fails to parse before any other. */
  function Step(s: Scan, m: Message): Scan {
    if m.typ == SERVER_HELLO then
      match ParseServerHello(m.body)
      case Err(_) => s
      case Ok(p) =>
        if !p.isRetry then s.(sh := Some(p))
        else if s.retry.None? then s.(retry := Some(p)) else s
    else if m.typ == SERVER_KEY_EXCHANGE then
      if s.sh.None? || s.sh.value.group != 0 || KeyExchangeGroup(m.body).None? then s
      else s.(sh := Some(s.sh.value.(group := KeyExchangeGroup(m.body).value, source := FromServerKeyExchange)))
    else if m.typ == SERVER_HELLO_DONE then s.(done := true)
    else if m.typ == CERTIFICATE then
      if s.sh.None? || s.sh.value.chain != [] || CertificateChain(m.body).None? then s
      else s.(sh := Some(s.sh.value.(chain := CertificateChain(m.body).value)))
    else s
  }

  /** The scan stops with an error only while nothing has been found. */
  predicate Stops(s: Scan, m: Message) {
    s.sh.None? && s.retry.None? && m.typ == SERVER_HELLO && ParseServerHello(m.body).Err?
  }

  function Conclude(s: Scan): Found<Reply> {
    if s.sh.Some? then Hit(s.sh.value.(flightComplete := Version(s.sh.value) >= 0x0304 || s.done))
    else if s.retry.Some? then Hit(s.retry.value)
    else Nothing
  }

  function ScanFrom(s: Scan, ms: seq<Message>): Found<Reply>
    decreases |ms|
  {
    if ms == [] then Conclude(s)
    else if Stops(s, ms[0]) then Bad(ParseServerHello(ms[0].body).error)
    else ScanFrom(Step(s, ms[0]), ms[1..])
  }

  const START := Scan(None, None, false)

  function FirstServerHello(ms: seq<Message>): Found<Reply> {
    ScanFrom(START, ms)
  }

  function FindServerHello(stream: bytes): Found<Reply> {
    var ms := HandshakeMessages(stream);
    if ms.None? then NotTls else FirstServerHello(ms.value)
  }

  function FindServerHelloRaw(stream: bytes): Found<Reply> {
    FirstServerHello(Split(stream))
  }

  method FindServerHelloIn(ms: seq<Message>) returns (r: Found<Reply>)
    ensures r == FirstServerHello(ms)
  {
    hide ParseServerHello, KeyExchangeGroup, CertificateChain;
    var sh: Option<Reply>, retry: Option<Reply>, sawDone := None, None, false;
    assert ms[0..] == ms;
    for i := 0 to |ms|
      invariant ScanFrom(START, ms) == ScanFrom(Scan(sh, retry, sawDone), ms[i..])
    {
      var m := ms[i];
      assert ms[i..][1..] == ms[i + 1..];
      if m.typ == SERVER_HELLO {
        match ParseServerHello(m.body) {
          case Err(e) =>
            if sh.None? && retry.None? {
              return Bad(e);
            }
          case Ok(parsed) =>
            if parsed.isRetry {
              if retry.None? {
                retry := Some(parsed);
              }
            } else {
              sh := Some(parsed);
            }
        }
      } else if m.typ == SERVER_KEY_EXCHANGE {
        if sh.None? || sh.value.group != 0 {
          continue;
        }
        var group := KeyExchangeGroup(m.body);
        if group.Some? {
          sh := Some(sh.value.(group := group.value, source := FromServerKeyExchange));
        }
      } else if m.typ == SERVER_HELLO_DONE {
        sawDone := true;
      } else if m.typ == CERTIFICATE {
        if sh.None? || sh.value.chain != [] {
          continue;
        }
        var chain, ok := ParseCertificateChain(m.body);
        if ok {
          sh := Some(sh.value.(chain := chain));
        }
      }
    }
    if sh.Some? {
      return Hit(sh.value.(flightComplete := Version(sh.value) >= 0x0304 || sawDone));
    }
    return if retry.Some? then Hit(retry.value) else Nothing;
  }

  // ---------------------------------------------------------------- what the scan finds, said without the scan

  predicate IsHello(m: Message) {
    m.typ == SERVER_HELLO && ParseServerHello(m.body).Ok?
  }

  predicate IsReal(m: Message) {
    IsHello(m) && !ParseServerHello(m.body).value.isRetry
  }

  ghost predicate NoReal(ms: seq<Message>) {
    forall i :: 0 <= i < |ms| ==> !IsReal(ms[i])
  }

  ghost predicate HasDone(ms: seq<Message>) {
    exists i :: 0 <= i < |ms| && ms[i].typ == SERVER_HELLO_DONE
  }

  /** The first nonzero named curve among the ServerKeyExchange messages, or zero. */
  function LateGroup(ms: seq<Message>): u16 {
    if ms == [] then 0
    else if ms[0].typ == SERVER_KEY_EXCHANGE && KeyExchangeGroup(ms[0].body).Some?
      && KeyExchangeGroup(ms[0].body).value != 0
    then KeyExchangeGroup(ms[0].body).value
    else LateGroup(ms[1..])
  }

  /** Whether any ServerKeyExchange names a curve at all, zero included. */
  predicate AnyCurve(ms: seq<Message>) {
    ms != [] && ((ms[0].typ == SERVER_KEY_EXCHANGE && KeyExchangeGroup(ms[0].body).Some?) || AnyCurve(ms[1..]))
  }

  /** The first non-empty certificate chain, or none. */
  function LateChain(ms: seq<Message>): seq<bytes> {
    if ms == [] then []
    else if ms[0].typ == CERTIFICATE && CertificateChain(ms[0].body).Some? && CertificateChain(ms[0].body).value != []
    then CertificateChain(ms[0].body).value
    else LateChain(ms[1..])
  }

  /** A ServerHello as parsed, enriched by the messages after it. */
  function Enriched(sh: Reply, after: seq<Message>): Reply {
    sh.(group := if sh.group != 0 then sh.group else LateGroup(after),
        source := if sh.group == 0 && AnyCurve(after) then FromServerKeyExchange else sh.source,
        chain := if sh.chain != [] then sh.chain else LateChain(after))
  }

  /** The first HelloRetryRequest of a list. */
  function FirstRetry(ms: seq<Message>): Found<Reply> {
    if ms == [] then Nothing
    else if IsHello(ms[0]) && ParseServerHello(ms[0].body).value.isRetry then Hit(ParseServerHello(ms[0].body).value)
    else FirstRetry(ms[1..])
  }

  /** The error of the first ServerHello message, if that one does not parse. */
  function FirstError(ms: seq<Message>): Option<ClientHello.Error> {
    if ms == [] then None
    else if ms[0].typ == SERVER_HELLO then
      if ParseServerHello(ms[0].body).Err? then Some(ParseServerHello(ms[0].body).error) else None
    else FirstError(ms[1..])
  }

  lemma HasDoneCons(ms: seq<Message>)
    requires ms != []
    ensures HasDone(ms) == (ms[0].typ == SERVER_HELLO_DONE || HasDone(ms[1..]))
  {
    if HasDone(ms) && ms[0].typ != SERVER_HELLO_DONE {
      var i :| 0 <= i < |ms| && ms[i].typ == SERVER_HELLO_DONE;
      assert ms[1..][i - 1].typ == SERVER_HELLO_DONE;
    }
    if HasDone(ms[1..]) {
      var i :| 0 <= i < |ms[1..]| && ms[1..][i].typ == SERVER_HELLO_DONE;
      assert ms[i + 1].typ == SERVER_HELLO_DONE;
    }
  }

  lemma EnrichKeyExchange(sh: Reply, ms: seq<Message>)
    requires ms != [] && ms[0].typ == SERVER_KEY_EXCHANGE
    ensures Enriched(if sh.group != 0 || KeyExchangeGroup(ms[0].body).None? then sh
                     else sh.(group := KeyExchangeGroup(ms[0].body).value, source := FromServerKeyExchange), ms[1..])
         == Enriched(sh, ms)
  {
    hide KeyExchangeGroup, CertificateChain;
    assert LateChain(ms) == LateChain(ms[1..]);
  }

  lemma EnrichCertificate(sh: Reply, ms: seq<Message>)
    requires ms != [] && ms[0].typ == CERTIFICATE
    ensures var c := CertificateChain(ms[0].body);
            Enriched(if sh.chain != [] || c.None? then sh else sh.(chain := c.value), ms[1..]) == Enriched(sh, ms)
  {
    hide KeyExchangeGroup, CertificateChain;
    assert LateGroup(ms) == LateGroup(ms[1..]) && AnyCurve(ms) == AnyCurve(ms[1..]);
  }

  lemma EnrichOther(sh: Reply, ms: seq<Message>)
    requires ms != [] && ms[0].typ != CERTIFICATE && ms[0].typ != SERVER_KEY_EXCHANGE
    ensures Enriched(sh, ms[1..]) == Enriched(sh, ms)
  {
    hide KeyExchangeGroup, CertificateChain;
  }

  /** One message after the last real ServerHello enriches it exactly as `Enriched` says. */
  lemma EnrichStep(s: Scan, ms: seq<Message>)
    requires s.sh.Some? && ms != [] && !IsReal(ms[0])
    ensures !Stops(s, ms[0]) && Step(s, ms[0]).sh.Some?
    ensures Enriched(Step(s, ms[0]).sh.value, ms[1..]) == Enriched(s.sh.value, ms)
    ensures Step(s, ms[0]).done == (s.done || ms[0].typ == SERVER_HELLO_DONE)
    ensures Version(Step(s, ms[0]).sh.value) == Version(s.sh.value)
  {
    hide ParseServerHello, KeyExchangeGroup, CertificateChain, Enriched;
    if ms[0].typ == SERVER_KEY_EXCHANGE {
      EnrichKeyExchange(s.sh.value, ms);
    } else if ms[0].typ == CERTIFICATE {
      EnrichCertificate(s.sh.value, ms);
    } else {
      EnrichOther(s.sh.value, ms);
    }
  }

  /** With a real ServerHello in hand and no other to come, the scan enriches it and closes the flight. */
  lemma {:induction false} ScanEnriches(s: Scan, ms: seq<Message>)
    requires s.sh.Some? && NoReal(ms)
    ensures ScanFrom(s, ms) ==
      Hit(Enriched(s.sh.value, ms).(flightComplete := Tls13(s.sh.value) || s.done || HasDone(ms)))
    decreases |ms|
  {
    if ms != [] {
      assert !IsReal(ms[0]);
      EnrichStep(s, ms);
      HasDoneCons(ms);
      hide Step, Enriched, HasDone, Stops, IsReal;
      assert forall i :: 0 <= i < |ms[1..]| ==> ms[1..][i] == ms[i + 1];
      ScanEnriches(Step(s, ms[0]), ms[1..]);
    }
  }

  /** A scan that does not stop arrives at the last real ServerHello with it, and with any flight end seen before it. */
  lemma {:induction false} ScanReaches(s: Scan, a: seq<Message>, m: Message, b: seq<Message>) returns (r: Option<Reply>)
    requires IsReal(m) && (s.sh.Some? || s.retry.Some? || FirstError(a).None?)
    ensures ScanFrom(s, a + [m] + b) == ScanFrom(Scan(Some(ParseServerHello(m.body).value), r, s.done || HasDone(a)), b)
    decreases |a|
  {
    hide ParseServerHello, KeyExchangeGroup, CertificateChain;
    var all := a + [m] + b;
    if a == [] {
      assert all[0] == m && all[1..] == b;
      r := s.retry;
      assert Step(s, m) == Scan(Some(ParseServerHello(m.body).value), s.retry, s.done || HasDone(a));
    } else {
      assert all[0] == a[0] && all[1..] == a[1..] + [m] + b;
      HasDoneCons(a);
      assert !Stops(s, a[0]);
      var s' := Step(s, a[0]);
      assert s'.done == (s.done || a[0].typ == SERVER_HELLO_DONE);
      assert s'.sh.Some? || s'.retry.Some? || FirstError(a[1..]).None?;
      hide HasDone;
      r := ScanReaches(s', a[1..], m, b);
    }
  }

  /** Without a real ServerHello the scan keeps the first HelloRetryRequest. */
  lemma {:induction false} ScanKeepsRetry(s: Scan, ms: seq<Message>)
    requires s.sh.None? && NoReal(ms) && (s.retry.Some? || FirstError(ms).None?)
    ensures ScanFrom(s, ms) == if s.retry.Some? then Hit(s.retry.value) else FirstRetry(ms)
    decreases |ms|
  {
    hide ParseServerHello, KeyExchangeGroup, CertificateChain;
    if ms != [] {
      assert !IsReal(ms[0]) && !Stops(s, ms[0]);
      assert forall i :: 0 <= i < |ms[1..]| ==> ms[1..][i] == ms[i + 1];
      ScanKeepsRetry(Step(s, ms[0]), ms[1..]);
    }
  }

  lemma {:induction false} ScanFails(s: Scan, ms: seq<Message>)
    requires s.sh.None? && s.retry.None? && FirstError(ms).Some?
    ensures ScanFrom(s, ms) == Bad(FirstError(ms).value)
    decreases |ms|
  {
    hide ParseServerHello, KeyExchangeGroup, CertificateChain;
    if ms[0].typ != SERVER_HELLO {
      ScanFails(Step(s, ms[0]), ms[1..]);
    }
  }

  /** `FirstError` looks no further than the first ServerHello. */
  lemma {:induction false} FirstErrorOfPrefix(a: seq<Message>, b: seq<Message>)
    requires FirstError(a + b).None?
    ensures FirstError(a).None?
  {
    hide ParseServerHello;
    if a != [] {
      assert (a + b)[0] == a[0] && (a + b)[1..] == a[1..] + b;
      if a[0].typ != SERVER_HELLO {
        FirstErrorOfPrefix(a[1..], b);
      }
    }
  }

  /** The answer when `sh` is the last real ServerHello, between `a` and `b`. */
  ghost function LastReal(a: seq<Message>, sh: Reply, b: seq<Message>): Found<Reply> {
    Hit(Enriched(sh, b).(flightComplete := Tls13(sh) || HasDone(a) || HasDone(b)))
  }

  /** The search fails exactly when the first ServerHello message does not parse. */
  lemma ServerHelloError(ms: seq<Message>)
    requires FirstError(ms).Some?
    ensures FirstServerHello(ms) == Bad(FirstError(ms).value)
  {
    hide ScanFrom, FirstError;
    ScanFails(START, ms);
  }

  /** Otherwise a HelloRetryRequest is returned only when no real ServerHello is present, and then it is the first. */
  lemma ServerHelloRetry(ms: seq<Message>)
    requires FirstError(ms).None? && NoReal(ms)
    ensures FirstServerHello(ms) == FirstRetry(ms)
  {
    hide ScanFrom, FirstError, FirstRetry;
    ScanKeepsRetry(START, ms);
  }

  /**
   * Otherwise it is the last real ServerHello: with its own group, or else the first later nonzero named curve; with
   * the first later non-empty certificate chain; and complete exactly for TLS 1.3 or when the list closes the flight.
   */
  lemma ServerHelloLastReal(a: seq<Message>, m: Message, b: seq<Message>)
    requires FirstError(a + [m] + b).None? && IsReal(m) && NoReal(b)
    ensures FirstServerHello(a + [m] + b) == LastReal(a, ParseServerHello(m.body).value, b)
    ensures ParseServerHello(m.body).value.chain == []
  {
    ParsedReply(m.body);
    hide ScanFrom, FirstError, Enriched, HasDone, ParseServerHello;
    assert a + [m] + b == a + ([m] + b);
    FirstErrorOfPrefix(a, [m] + b);
    var r := ScanReaches(START, a, m, b);
    ScanEnriches(Scan(Some(ParseServerHello(m.body).value), r, HasDone(a)), b);
  }

  /**
   * What later messages cannot add to: everything but the group and its source, the chain and the end of the flight.
   */
  function Core(sh: Reply): Reply {
    sh.(group := 0, source := NoSource, chain := [], flightComplete := false)
  }

  /** `ms[i]` is the first real ServerHello of a list and `ms[j]` the last. */
  ghost predicate FirstAndLastReal(ms: seq<Message>, i: nat, j: nat) {
    && i <= j < |ms| && IsReal(ms[i]) && IsReal(ms[j])
    && NoReal(ms[..i]) && NoReal(ms[j + 1..])
  }

  /** In those fields the answer is always the last real ServerHello. */
  lemma AnswerIsLast(ms: seq<Message>, i: nat, j: nat)
    requires FirstError(ms).None? && FirstAndLastReal(ms, i, j)
    ensures FirstServerHello(ms).Hit? && Core(FirstServerHello(ms).hello) == Core(ParseServerHello(ms[j].body).value)
  {
    hide ParseServerHello, FirstError, FirstServerHello, LateGroup, LateChain, AnyCurve, HasDone;
    assert ms == ms[..j] + [ms[j]] + ms[j + 1..];
    ServerHelloLastReal(ms[..j], ms[j], ms[j + 1..]);
  }

  /** The group a ServerHello ends up with: its own, or else the first named curve of the messages after it. */
  function GroupAfter(sh: Reply, after: seq<Message>): u16 {
    if sh.group != 0 then sh.group else LateGroup(after)
  }

  function SourceAfter(sh: Reply, after: seq<Message>): Source {
    if sh.group == 0 && AnyCurve(after) then FromServerKeyExchange else sh.source
  }

  /** What the documentation promises: the first real ServerHello, enriched from the messages that follow it. */
  ghost function Documented(ms: seq<Message>, i: nat): Found<Reply>
    requires i < |ms| && IsReal(ms[i])
  {
    var sh := ParseServerHello(ms[i].body).value;
    Hit(Enriched(sh, ms[i + 1..]).(flightComplete := Tls13(sh) || HasDone(ms)))
  }

  lemma HasDoneAround(ms: seq<Message>, j: nat)
    requires j < |ms| && ms[j].typ != SERVER_HELLO_DONE
    ensures HasDone(ms) <==> HasDone(ms[..j]) || HasDone(ms[j + 1..])
  {
    if HasDone(ms) {
      var k :| 0 <= k < |ms| && ms[k].typ == SERVER_HELLO_DONE;
      if k < j {
        assert ms[..j][k].typ == SERVER_HELLO_DONE;
      } else {
        assert ms[j + 1..][k - j - 1].typ == SERVER_HELLO_DONE;
      }
    }
    if HasDone(ms[j + 1..]) {
      var k :| 0 <= k < |ms[j + 1..]| && ms[j + 1..][k].typ == SERVER_HELLO_DONE;
      assert ms[j + 1 + k].typ == SERVER_HELLO_DONE;
    }
  }

  /**
   * The documentation holds if and only if the first and the last real ServerHello agree in everything that later
   * messages cannot add to, and the messages after either give the same chain, the same group and the same source.
   */
  lemma FirstRealIsReturnedIff(ms: seq<Message>, i: nat, j: nat)
    requires FirstError(ms).None? && FirstAndLastReal(ms, i, j)
    ensures var f, l := ParseServerHello(ms[i].body).value, ParseServerHello(ms[j].body).value;
            FirstServerHello(ms) == Documented(ms, i)
            <==> && Core(f) == Core(l) && LateChain(ms[i + 1..]) == LateChain(ms[j + 1..])
                 && GroupAfter(f, ms[i + 1..]) == GroupAfter(l, ms[j + 1..])
                 && SourceAfter(f, ms[i + 1..]) == SourceAfter(l, ms[j + 1..])
  {
    hide ParseServerHello, FirstError, FirstServerHello, LateGroup, LateChain, AnyCurve, HasDone, NoReal;
    ParsedReply(ms[i].body);
    assert ms == ms[..j] + [ms[j]] + ms[j + 1..];
    ServerHelloLastReal(ms[..j], ms[j], ms[j + 1..]);
    HasDoneAround(ms, j);
    var f, l := ParseServerHello(ms[i].body).value, ParseServerHello(ms[j].body).value;
    EnrichedAlike(f, ms[i + 1..], l, ms[j + 1..]);
    assert Core(f) == Core(l) ==> Version(f) == Version(l);
    hide Core, Enriched, GroupAfter, SourceAfter;
  }

  /**
   * Two parsed ServerHellos are enriched to the same reply, the end of the flight aside, exactly under that condition.
   */
  lemma EnrichedAlike(f: Reply, a: seq<Message>, l: Reply, b: seq<Message>)
    requires f.chain == [] && l.chain == []
    ensures Enriched(f, a).(flightComplete := false) == Enriched(l, b).(flightComplete := false)
      <==> && Core(f) == Core(l) && LateChain(a) == LateChain(b)
           && GroupAfter(f, a) == GroupAfter(l, b) && SourceAfter(f, a) == SourceAfter(l, b)
  {
    hide LateGroup, LateChain, AnyCurve;
    var x, y := Enriched(f, a), Enriched(l, b);
    assert Core(x) == Core(f) && Core(y) == Core(l);
  }

  /** Where it is not: any list whose first and last real ServerHello chose different cipher suites. */
  lemma FirstRealIsLost(ms: seq<Message>, i: nat, j: nat)
    requires FirstError(ms).None? && FirstAndLastReal(ms, i, j)
    requires ParseServerHello(ms[i].body).value.cipherSuite != ParseServerHello(ms[j].body).value.cipherSuite
    ensures FirstServerHello(ms).Hit?
    ensures FirstServerHello(ms).hello.cipherSuite == ParseServerHello(ms[j].body).value.cipherSuite
    ensures FirstServerHello(ms).hello.cipherSuite != ParseServerHello(ms[i].body).value.cipherSuite
  {
    hide ParseServerHello, FirstError, FirstServerHello;
    AnswerIsLast(ms, i, j);
  }

  /** Of two real ServerHellos, one after the other, the second is returned as it was parsed. */
  lemma SecondOfTwo(m1: Message, m2: Message)
    requires IsReal(m1) && IsReal(m2)
    ensures FirstServerHello([m1, m2]).Hit?
    ensures var sh := ParseServerHello(m2.body).value;
            FirstServerHello([m1, m2]).hello == sh.(flightComplete := Tls13(sh))
  {
    hide ParseServerHello, FirstServerHello;
    assert [m1] + [m2] + [] == [m1, m2];
    assert FirstError([m1, m2]).None?;
    ServerHelloLastReal([m1], m2, []);
    assert Enriched(ParseServerHello(m2.body).value, []) == ParseServerHello(m2.body).value;
  }

  /**
   * Unlike the client's, the server's answer is not settled by its first reading: a HelloRetryRequest is returned until
   * a real ServerHello follows it, so a reader that stops at the first answer depends on where the stream was cut.
   */
  lemma ServerAnswerChanges(h: Message, m: Message)
    requires IsHello(h) && !IsReal(h) && IsReal(m)
    ensures FirstServerHello([h]).Hit? && FirstServerHello([h]).hello.isRetry
    ensures FirstServerHello([h, m]).Hit? && !FirstServerHello([h, m]).hello.isRetry
  {
    hide ParseServerHello;
    ServerHelloRetry([h]);
    assert [h] + [m] + [] == [h, m];
    assert FirstError([h, m]).None?;
    ServerHelloLastReal([h], m, []);
  }
}
