/** The TLS record layer (internal/tlsparse/record.go) and its independent printer (internal/tlssynth/synth.go). */
module Records {
  import opened Bytes

  const CHANGE_CIPHER_SPEC := 20
  const ALERT := 21
  const HANDSHAKE := 22

  const HEADER := 5
  /** 2^14 plus 256 bytes of expansion. */
  const MAX_PAYLOAD := 16640

  /** One handshake message without its four-byte header. */
  datatype Message = Message(typ: byte, body: bytes)

  /** The content types, the header length and the payload limit, as the wire has them. */
  lemma Constants()
    ensures CHANGE_CIPHER_SPEC == 20 && ALERT == 21 && HANDSHAKE == 22 && HEADER == 5 && MAX_PAYLOAD == 16384 + 256
  {
  }

  // ---------------------------------------------------------------- decoder

  function PayloadLen(b: bytes): nat
    requires |b| >= HEADER
  {
    U16Of(b[3], b[4])
  }

  /** A header the reader refuses: oversized, or (first record only) not a non-empty 0x03xx handshake record. */
  predicate BadHeader(b: bytes, first: bool)
    requires |b| >= HEADER
  {
    || PayloadLen(b) > MAX_PAYLOAD
    || (first && (b[0] != HANDSHAKE || b[1] != 0x03 || PayloadLen(b) == 0))
  }

  function Prepend(front: bytes, r: Option<bytes>): Option<bytes> {
    if r.None? then None else Some(front + r.value)
  }

  /** The handshake bytes carried by the records in `b`; `None` is `ErrNotTLS`. */
  function Coalesce(b: bytes, first: bool): Option<bytes>
    decreases |b|
  {
    if |b| < HEADER then Some([])
    else if BadHeader(b, first) then None
    else
      var end := HEADER + PayloadLen(b);
      if |b| < end then Some(if b[0] == HANDSHAKE then b[HEADER..] else [])
      else if b[0] == HANDSHAKE then Prepend(b[HEADER..end], Coalesce(b[end..], false))
      else if b[0] == CHANGE_CIPHER_SPEC || b[0] == ALERT then Coalesce(b[end..], false)
      else Some([])
  }

  /** The complete messages at the front of a handshake byte stream. */
  function Split(buf: bytes): seq<Message>
    decreases |buf|
  {
    if |buf| < 4 then []
    else
      var end := 4 + U24Of(buf[1], buf[2], buf[3]);
      if |buf| < end then [] else [Message(buf[0], buf[4..end])] + Split(buf[end..])
  }

  function HandshakeMessages(b: bytes): Option<seq<Message>> {
    var buf := Coalesce(b, true);
    if buf.None? then None else Some(Split(buf.value))
  }

  method SplitMessages(input: bytes) returns (msgs: seq<Message>)
    ensures msgs == Split(input)
  {
    msgs := [];
    var buf := input;
    while |buf| >= 4
      invariant msgs + Split(buf) == Split(input)
      decreases |buf|
    {
      var length := U24Of(buf[1], buf[2], buf[3]);
      if |buf| < 4 + length {
        break;
      }
      var m := Message(buf[0], buf[4..4 + length]);
      assert msgs + ([m] + Split(buf[4 + length..])) == msgs + [m] + Split(buf[4 + length..]);
      msgs, buf := msgs + [m], buf[4 + length..];
    }
  }

  method ReadHandshakeMessages(input: bytes) returns (r: Option<seq<Message>>)
    ensures r == HandshakeMessages(input)
  {
    hide Split;
    var b, buf, first := input, [], true;
    PrependNothing(Coalesce(input, true));
    while |b| >= HEADER
      invariant Coalesce(input, true) == Prepend(buf, Coalesce(b, first))
      decreases |b|
    {
      var typ, length := b[0], U16Of(b[3], b[4]);
      if first {
        if typ != HANDSHAKE || b[1] != 0x03 || length == 0 {
          return None;
        }
      }
      if length > MAX_PAYLOAD {
        return None;
      }
      var payload := b[HEADER..];
      if |payload| < length {
        if typ == HANDSHAKE {
          buf := buf + payload;
        } else {
          assert buf + [] == buf;
        }
        assert Coalesce(input, true) == Some(buf);
        break;
      }
      if typ == HANDSHAKE {
        assert payload[..length] == b[HEADER..HEADER + length];
        PrependTwice(buf, payload[..length], Coalesce(b[HEADER + length..], false));
        buf := buf + payload[..length];
      } else if typ != CHANGE_CIPHER_SPEC && typ != ALERT {
        assert buf + [] == buf;
        break;
      }
      b, first := b[HEADER + length..], false;
    }
    assert Coalesce(input, true) == Some(buf) by { assert buf + [] == buf; }
    var msgs := SplitMessages(buf);
    r := Some(msgs);
  }

  lemma PrependTwice(a: bytes, b: bytes, r: Option<bytes>)
    ensures Prepend(a, Prepend(b, r)) == Prepend(a + b, r)
  {
    if r.Some? {
      assert a + (b + r.value) == a + b + r.value;
    }
  }

  // ---------------------------------------------------------------- reading a growing buffer

  /** What a longer buffer may read as, given what a shorter one read as: refused stays refused, content only grows. */
  predicate Extends(short: Option<bytes>, long: Option<bytes>) {
    long.None? || (short.Some? && short.value <= long.value)
  }

  lemma ExtendsPrepend(front: bytes, short: Option<bytes>, long: Option<bytes>)
    requires Extends(short, long)
    ensures Extends(Prepend(front, short), Prepend(front, long))
  {
  }

  lemma {:induction false} CoalesceExtends(b: bytes, c: bytes, first: bool)
    ensures Extends(Coalesce(b, first), Coalesce(b + c, first))
    decreases |b|
  {
    if |b| >= HEADER && !BadHeader(b, first) {
      var end := HEADER + PayloadLen(b);
      if |b| < end {
        if |b + c| >= end && b[0] == HANDSHAKE {
          assert b[HEADER..] <= (b + c)[HEADER..end];
        }
      } else {
        CoalesceExtends(b[end..], c, false);
        CoalesceExtendsPast(b, c, end, first);
      }
    }
  }

  lemma CoalesceExtendsPast(b: bytes, c: bytes, end: nat, first: bool)
    requires |b| >= HEADER && !BadHeader(b, first) && end == HEADER + PayloadLen(b) <= |b|
    requires Extends(Coalesce(b[end..], false), Coalesce(b[end..] + c, false))
    ensures Extends(Coalesce(b, first), Coalesce(b + c, first))
  {
    var payload := b[HEADER..end];
    assert (b + c)[HEADER..end] == payload;
    assert (b + c)[end..] == b[end..] + c;
    ExtendsPrepend(payload, Coalesce(b[end..], false), Coalesce(b[end..] + c, false));
  }

  lemma CoalesceNothing(first: bool)
    ensures Coalesce([], first) == Some([])
  {
  }

  /** The content of a whole record in front of a stream. */
  lemma CoalesceFront(b: bytes, first: bool)
    requires |b| >= HEADER && !BadHeader(b, first) && |b| >= HEADER + PayloadLen(b)
    ensures var rest := Coalesce(b[HEADER + PayloadLen(b)..], false);
            Coalesce(b, first)
            == if b[0] == HANDSHAKE then Prepend(b[HEADER..HEADER + PayloadLen(b)], rest)
               else if b[0] == CHANGE_CIPHER_SPEC || b[0] == ALERT then rest else Some([])
  {
    hide U16Of;
  }

  /** The content of a record cut short at the end of a stream, or of a header that is not there yet. */
  lemma CoalesceShort(b: bytes, first: bool)
    requires |b| < HEADER || (!BadHeader(b, first) && |b| < HEADER + PayloadLen(b))
    ensures Coalesce(b, first) == Some(if |b| >= HEADER && b[0] == HANDSHAKE then b[HEADER..] else [])
  {
    hide U16Of;
  }

  lemma NotBad(b: bytes, first: bool)
    requires |b| >= HEADER && Coalesce(b, first).Some?
    ensures !BadHeader(b, first)
  {
  }

  /** One more byte brings at most one more byte of content. */
  lemma {:induction false} CoalesceByOne(b: bytes, x: byte, first: bool)
    requires Coalesce(b, first).Some? && Coalesce(b + [x], first).Some?
    ensures |Coalesce(b + [x], first).value| <= |Coalesce(b, first).value| + 1
    decreases |b|
  {
    hide Coalesce, U16Of;
    var more := b + [x];
    CoalesceNothing(false);
    if |b| < HEADER {
      CoalesceShort(b, first);
      if |more| < HEADER || |more| < HEADER + PayloadLen(more) {
        if |more| >= HEADER { NotBad(more, first); }
        CoalesceShort(more, first);
      } else {
        NotBad(more, first);
        CoalesceFront(more, first);
        assert more[HEADER + PayloadLen(more)..] == [];
      }
    } else {
      NotBad(b, first);
      var end := HEADER + PayloadLen(b);
      assert PayloadLen(more) == PayloadLen(b) && !BadHeader(more, first);
      if |b| >= end {
        CoalesceFront(b, first);
        CoalesceFront(more, first);
        assert more[end..] == b[end..] + [x] && more[HEADER..end] == b[HEADER..end];
        if b[0] == HANDSHAKE || b[0] == CHANGE_CIPHER_SPEC || b[0] == ALERT {
          CoalesceByOne(b[end..], x, false);
        }
      } else {
        CoalesceShort(b, first);
        if |more| < end {
          CoalesceShort(more, first);
        } else {
          CoalesceFront(more, first);
          assert more[end..] == [];
        }
      }
    }
  }

  /** Where the first message of a stream ends, once its header is in. */
  function FirstEnd(buf: bytes): nat
    requires |buf| >= 4
  {
    4 + U24Of(buf[1], buf[2], buf[3])
  }

  lemma SplitFirst(buf: bytes)
    ensures |buf| < 4 || |buf| < FirstEnd(buf) ==> Split(buf) == []
    ensures |buf| >= 4 && |buf| >= FirstEnd(buf) ==> |Split(buf)| == 1 + |Split(buf[FirstEnd(buf)..])|
  {
    hide U24Of;
  }

  /** One more byte completes at most one message. */
  lemma {:induction false} SplitByOne(buf: bytes, x: byte)
    ensures |Split(buf + [x])| <= |Split(buf)| + 1
    decreases |buf|
  {
    hide Split, U24Of;
    var more := buf + [x];
    SplitFirst(buf);
    SplitFirst(more);
    SplitNothing();
    if |buf| >= 4 && |buf| >= FirstEnd(buf) {
      var end := FirstEnd(buf);
      assert FirstEnd(more) == end && more[end..] == buf[end..] + [x];
      SplitByOne(buf[end..], x);
    } else if |more| >= 4 && |more| >= FirstEnd(more) {
      assert |buf| >= 4 ==> FirstEnd(buf) == FirstEnd(more);
      assert more[FirstEnd(more)..] == [];
    }
  }

  lemma {:induction false} SplitExtends(x: bytes, y: bytes)
    requires x <= y
    ensures Split(x) <= Split(y)
    decreases |x|
  {
    if |x| >= 4 {
      var end := 4 + U24Of(x[1], x[2], x[3]);
      if |x| >= end {
        assert y[4..end] == x[4..end] && x[end..] <= y[end..];
        SplitExtends(x[end..], y[end..]);
        assert Split(y) == [Message(x[0], x[4..end])] + Split(y[end..]);
      }
    }
  }

  /** The messages read from each prefix of a readable stream, as it grows by one byte. */
  lemma MessagesByOne(sent: bytes, n: nat)
    requires n < |sent| && HandshakeMessages(sent).Some?
    ensures HandshakeMessages(sent[..n]).Some? && HandshakeMessages(sent[..n + 1]).Some?
    ensures |HandshakeMessages(sent[..n + 1]).value| <= |HandshakeMessages(sent[..n]).value| + 1
  {
    hide Coalesce, Split;
    var a, b := sent[..n], sent[..n + 1];
    assert b == a + [sent[n]] && b + sent[n + 1..] == sent;
    Incremental(b, sent[n + 1..]);
    Incremental(a, [sent[n]]);
    CoalesceExtends(a, [sent[n]], true);
    CoalesceByOne(a, sent[n], true);
    var x, y := Coalesce(a, true).value, Coalesce(b, true).value;
    if |y| > |x| {
      assert y == x + [y[|x|]];
      SplitByOne(x, y[|x|]);
    } else {
      assert y == x;
    }
  }

  /** Every prefix of the messages of a stream is what some prefix of its bytes reads as. */
  lemma {:induction false} EveryPrefixIsRead(sent: bytes, n: nat, k: nat) returns (at: nat)
    requires n <= |sent| && HandshakeMessages(sent).Some? && HandshakeMessages(sent[..n]).Some?
    requires k <= |HandshakeMessages(sent[..n]).value|
    ensures at <= |sent| && k <= |HandshakeMessages(sent).value|
    ensures HandshakeMessages(sent[..at]) == Some(HandshakeMessages(sent).value[..k])
    decreases n
  {
    hide HandshakeMessages;
    if k == |HandshakeMessages(sent[..n]).value| {
      at := n;
      assert sent == sent[..n] + sent[n..];
      Incremental(sent[..n], sent[n..]);
      assert HandshakeMessages(sent[..n]).value == HandshakeMessages(sent).value[..k];
    } else if n == 0 {
      assert sent[..0] == [];
      NoBytesNoMessages();
      assert false;
    } else {
      MessagesByOne(sent, n - 1);
      at := EveryPrefixIsRead(sent, n - 1, k);
    }
  }

  lemma NoBytesNoMessages()
    ensures HandshakeMessages([]) == Some([])
  {
  }

  /** Record parsing is incremental: `ErrNotTLS` stays, and messages already read stay where they are. */
  lemma Incremental(b: bytes, c: bytes)
    ensures HandshakeMessages(b).None? ==> HandshakeMessages(b + c).None?
    ensures HandshakeMessages(b).Some? && HandshakeMessages(b + c).Some? ==>
              HandshakeMessages(b).value <= HandshakeMessages(b + c).value
  {
    CoalesceExtends(b, c, true);
    if Coalesce(b, true).Some? && Coalesce(b + c, true).Some? {
      SplitExtends(Coalesce(b, true).value, Coalesce(b + c, true).value);
    }
  }

  // ---------------------------------------------------------------- what is refused

  /**
   * A header that no TLS stream has: a payload beyond the limit, or, in front, anything but a handshake record of major
   * version 3 with something in it.
   */
  predicate NoTlsHeader(t: bytes, first: bool)
    requires |t| >= 5
  {
    var length := t[3] as int * 256 + t[4] as int;
    length > 16640 || (first && (t[0] != 22 || t[1] != 3 || length == 0))
  }

  /** Whole records the reader walks over, and then a header that it refuses. */
  ghost predicate StopsAt(b: bytes, first: bool, qs: seq<Record>, t: bytes) {
    && AllWalkable(qs) && (first && qs != [] ==> Opens(qs[0]))
    && b == PrintAll(qs) + t && |t| >= 5 && NoTlsHeader(t, first && qs == [])
  }

  /** A record at the front of a stream, read off its header. */
  lemma FrontRecord(b: bytes) returns (r: Record)
    requires |b| >= HEADER && |b| >= HEADER + PayloadLen(b)
    ensures r == Record(b[0], b[1], b[2], b[HEADER..HEADER + PayloadLen(b)])
    ensures b == PrintRecord(r) + b[HEADER + PayloadLen(b)..]
  {
    var end := HEADER + PayloadLen(b);
    r := Record(b[0], b[1], b[2], b[HEADER..end]);
    assert U16(|r.payload|) == [b[3], b[4]];
    hide U16, U16Of;
    assert PrintRecord(r) == b[..end];
  }

  lemma {:induction false} RefusedStops(b: bytes, first: bool) returns (qs: seq<Record>, t: bytes)
    requires Coalesce(b, first).None?
    ensures StopsAt(b, first, qs, t)
    decreases |b|
  {
    if BadHeader(b, first) {
      qs, t := [], b;
      assert PrintAll([]) + b == b;
    } else {
      var r := FrontRecord(b);
      var end := HEADER + PayloadLen(b);
      var more, rest := RefusedStops(b[end..], false);
      qs, t := [r] + more, rest;
      hide Coalesce, PrintRecord;
      assert qs[1..] == more;
      assert PrintAll(qs) + t == PrintRecord(r) + (PrintAll(more) + t);
    }
  }

  /** `ErrNotTLS`, said of the headers alone: some header reached over whole records is one the reader refuses. */
  lemma NotTlsIff(b: bytes, first: bool)
    ensures Coalesce(b, first).None? <==> exists qs, t :: StopsAt(b, first, qs, t)
  {
    hide Coalesce, PrintAll, StopsAt;
    if Coalesce(b, first).None? {
      var qs, t := RefusedStops(b, first);
    }
    if exists qs, t :: StopsAt(b, first, qs, t) {
      var qs, t :| StopsAt(b, first, qs, t);
      StopsRefused(b, first, qs, t);
    }
  }

  lemma StopsRefused(b: bytes, first: bool, qs: seq<Record>, t: bytes)
    requires StopsAt(b, first, qs, t)
    ensures Coalesce(b, first).None?
  {
    CoalesceRecords(qs, t, first);
    hide PrintAll, HandshakeBytes;
    assert Coalesce(t, first && qs == []).None?;
  }

  /**
   * What follows decides whether a readable stream stays readable: whole records and then any bytes are refused exactly
   * when those bytes are whole records up to an oversized header.
   */
  lemma ReadableThenRefused(rs: seq<Record>, c: bytes)
    requires AllWalkable(rs) && rs != [] && Opens(rs[0])
    ensures HandshakeMessages(PrintAll(rs)) == Some(Split(HandshakeBytes(rs)))
    ensures HandshakeMessages(PrintAll(rs) + c).None? <==> exists qs, t :: StopsAt(c, false, qs, t)
  {
    hide Coalesce, Split, PrintAll, HandshakeBytes, StopsAt;
    FramingIrrelevant(rs);
    CoalesceRecords(rs, c, true);
    NotTlsIff(c, false);
  }

  // ---------------------------------------------------------------- printer

  /** `HandshakeMsg`: type, 24-bit length, body. */
  function HandshakeMsg(m: Message): (b: bytes)
    ensures |b| == 4 + |m.body|
  {
    [m.typ] + U24(|m.body|) + m.body
  }

  /** `Records`: one record per `chunk` bytes of payload; a chunk of zero or less means the whole payload. */
  function PrintRecords(contentType: byte, payload: bytes, chunk: int): bytes
    decreases |payload|
  {
    if payload == [] then []
    else
      var n := if chunk <= 0 || chunk > |payload| then |payload| else chunk;
      [contentType, 3, 3] + U16(n) + payload[..n] + PrintRecords(contentType, payload[n..], chunk)
  }

  method WrapRecords(contentType: byte, input: bytes, requested: int) returns (out: bytes)
    ensures out == PrintRecords(contentType, input, requested)
  {
    var chunk, payload := requested, input;
    if chunk <= 0 {
      chunk := |payload|;
    }
    out := [];
    if chunk <= 0 {
      return;
    }
    SameChunk(contentType, input, requested);
    while |payload| > 0
      invariant out + PrintRecords(contentType, payload, chunk) == PrintRecords(contentType, input, requested)
      decreases |payload|
    {
      var n := if chunk < |payload| then chunk else |payload|;
      var rec := [contentType, 3, 3] + U16(n) + payload[..n];
      assert out + PrintRecords(contentType, payload, chunk)
             == out + rec + PrintRecords(contentType, payload[n..], chunk);
      out, payload := out + rec, payload[n..];
    }
  }

  lemma SameChunk(contentType: byte, payload: bytes, chunk: int)
    ensures chunk <= 0 ==> PrintRecords(contentType, payload, chunk) == PrintRecords(contentType, payload, |payload|)
  {
    if chunk <= 0 && payload != [] {
      assert payload[|payload|..] == [];
    }
  }

  /** Wrapping adds headers and drops nothing. */
  lemma {:induction false} PrintRecordsSize(contentType: byte, payload: bytes, chunk: int)
    ensures |PrintRecords(contentType, payload, chunk)| >= |payload|
    decreases |payload|
  {
    if payload != [] {
      var n := if chunk <= 0 || chunk > |payload| then |payload| else chunk;
      PrintRecordsSize(contentType, payload[n..], chunk);
    }
  }

  /** One record of any fragmentation; `kind` is its content type. */
  datatype Record = Record(kind: byte, major: byte, minor: byte, payload: bytes)

  function PrintRecord(r: Record): bytes {
    [r.kind, r.major, r.minor] + U16(|r.payload|) + r.payload
  }

  function PrintAll(rs: seq<Record>): bytes {
    if rs == [] then [] else PrintRecord(rs[0]) + PrintAll(rs[1..])
  }

  /** A record the reader walks over: handshake, ChangeCipherSpec or alert, within the size limit. */
  predicate Walkable(r: Record) {
    (r.kind == HANDSHAKE || r.kind == CHANGE_CIPHER_SPEC || r.kind == ALERT) && |r.payload| <= MAX_PAYLOAD
  }

  /** What the first record of a TLS stream must be. */
  predicate Opens(r: Record) {
    r.kind == HANDSHAKE && r.major == 3 && r.payload != []
  }

  ghost predicate AllWalkable(rs: seq<Record>) {
    forall i :: 0 <= i < |rs| ==> Walkable(rs[i])
  }

  /** The handshake bytes of a record list, other content types skipped. */
  function HandshakeBytes(rs: seq<Record>): bytes {
    if rs == [] then []
    else if rs[0].kind == HANDSHAKE then rs[0].payload + HandshakeBytes(rs[1..])
    else HandshakeBytes(rs[1..])
  }

  lemma CoalesceRecord(r: Record, rest: bytes, first: bool)
    requires Walkable(r) && (first ==> Opens(r))
    ensures Coalesce(PrintRecord(r) + rest, first)
         == Prepend(if r.kind == HANDSHAKE then r.payload else [], Coalesce(rest, false))
  {
    var b := PrintRecord(r) + rest;
    assert b[3] == |r.payload| / 256 && b[4] == |r.payload| % 256;
    assert PayloadLen(b) == |r.payload|;
    assert b[0] == r.kind && b[1] == r.major;
    PrependNothing(Coalesce(rest, false));
    var end := HEADER + |r.payload|;
    assert b[HEADER..end] == r.payload;
    assert b[end..] == rest;
  }

  /** However handshake bytes are cut into records and interleaved, reading gives them back, then what follows. */
  lemma {:induction false} CoalesceRecords(rs: seq<Record>, rest: bytes, first: bool)
    requires AllWalkable(rs) && (first && rs != [] ==> Opens(rs[0]))
    ensures Coalesce(PrintAll(rs) + rest, first)
         == Prepend(HandshakeBytes(rs), Coalesce(rest, first && rs == []))
    decreases |rs|
  {
    hide Coalesce;
    if rs == [] {
      assert PrintAll(rs) + rest == rest;
      PrependNothing(Coalesce(rest, first));
    } else {
      var tail := PrintAll(rs[1..]) + rest;
      assert PrintAll(rs) + rest == PrintRecord(rs[0]) + tail;
      CoalesceRecord(rs[0], tail, first);
      CoalesceRecords(rs[1..], rest, false);
      var front := if rs[0].kind == HANDSHAKE then rs[0].payload else [];
      PrependTwice(front, HandshakeBytes(rs[1..]), Coalesce(rest, false));
      assert HandshakeBytes(rs) == front + HandshakeBytes(rs[1..]);
    }
  }

  lemma PrependNothing(r: Option<bytes>)
    ensures Prepend([], r) == r
  {
    if r.Some? { assert [] + r.value == r.value; }
  }

  /** Framing does not matter: any walkable fragmentation reads as the bare handshake stream it carries. */
  lemma FramingIrrelevant(rs: seq<Record>)
    requires AllWalkable(rs) && (rs != [] ==> Opens(rs[0]))
    ensures HandshakeMessages(PrintAll(rs)) == Some(Split(HandshakeBytes(rs)))
  {
    assert PrintAll(rs) + [] == PrintAll(rs);
    CoalesceRecords(rs, [], true);
    assert HandshakeBytes(rs) + [] == HandshakeBytes(rs);
  }

  /** The chunks `Records` cuts a payload into. */
  function Chunks(payload: bytes, chunk: nat): seq<Record>
    requires chunk > 0
    decreases |payload|
  {
    if payload == [] then []
    else
      var n := if chunk < |payload| then chunk else |payload|;
      [Record(HANDSHAKE, 3, 3, payload[..n])] + Chunks(payload[n..], chunk)
  }

  lemma {:induction false} ChunksPrint(payload: bytes, chunk: nat)
    requires 0 < chunk
    ensures PrintRecords(HANDSHAKE, payload, chunk) == PrintAll(Chunks(payload, chunk))
    ensures HandshakeBytes(Chunks(payload, chunk)) == payload
    ensures chunk <= MAX_PAYLOAD || |payload| <= MAX_PAYLOAD ==> AllWalkable(Chunks(payload, chunk))
    decreases |payload|
  {
    hide U16;
    if payload != [] {
      var n := if chunk < |payload| then chunk else |payload|;
      var c := Chunks(payload, chunk);
      assert c[1..] == Chunks(payload[n..], chunk);
      ChunksPrint(payload[n..], chunk);
      assert payload[..n] + payload[n..] == payload;
    }
  }

  /** The size of the first record `Records` cuts: a chunk of zero or less, or past the end, means everything. */
  function FirstSize(payload: bytes, chunk: int): nat {
    if chunk <= 0 || chunk > |payload| then |payload| else chunk
  }

  /**
   * `Records` at any chunk size. Where records keep to the two-byte length, `HandshakeMessages` undoes it exactly when
   * none exceeds the size limit. A record of 65536 bytes or more is printed with its length truncated, so it is read
   * as one of that many bytes, and what is left of it as the records that follow.
   */
  lemma RecordsRoundTrip(payload: bytes, chunk: int)
    ensures var n := FirstSize(payload, chunk);
            HandshakeMessages(PrintRecords(HANDSHAKE, payload, chunk))
            == if n <= MAX_PAYLOAD then Some(Split(payload))
               else if n % 0x10000 == 0 || n % 0x10000 > MAX_PAYLOAD then None
               else Misread(payload[..n % 0x10000],
                 payload[n % 0x10000..n] + PrintRecords(HANDSHAKE, payload[n..], chunk))
  {
    var n := FirstSize(payload, chunk);
    if payload != [] && n <= MAX_PAYLOAD {
      SameChunk(HANDSHAKE, payload, chunk);
      var size := if chunk <= 0 then |payload| else chunk;
      ChunksPrint(payload, size);
      FramingIrrelevant(Chunks(payload, size));
    } else if payload != [] {
      WideRecord(payload, chunk);
    }
  }

  /** The content of a record that was cut short by its length field, then whatever the rest of it reads as. */
  function Misread(front: bytes, rest: bytes): Option<seq<Message>> {
    var all := Prepend(front, Coalesce(rest, false));
    if all.None? then None else Some(Split(all.value))
  }

  lemma WideRecord(payload: bytes, chunk: int)
    requires FirstSize(payload, chunk) > MAX_PAYLOAD
    ensures var n := FirstSize(payload, chunk);
            var m := n % 0x10000;
            var b := PrintRecords(HANDSHAKE, payload, chunk);
            HandshakeMessages(b)
            == if m == 0 || m > MAX_PAYLOAD then None
               else Misread(payload[..m], payload[m..n] + PrintRecords(HANDSHAKE, payload[n..], chunk))
  {
    var n := FirstSize(payload, chunk);
    var m := n % 0x10000;
    var rest := PrintRecords(HANDSHAKE, payload[n..], chunk);
    var b := PrintRecords(HANDSHAKE, payload, chunk);
    assert b == [HANDSHAKE, 3, 3] + U16(n) + payload[..n] + rest;
    TruncatedLength(n);
    hide Split, PrintRecords, U16;
    assert b[3] == U16(n)[0] && b[4] == U16(n)[1];
    assert PayloadLen(b) == m;
    if 0 < m <= MAX_PAYLOAD {
      assert b[HEADER..HEADER + m] == payload[..m];
      assert b[HEADER + m..] == payload[m..n] + rest;
    }
  }

  lemma TruncatedLength(n: nat)
    ensures U16Of(U16(n)[0], U16(n)[1]) == n % 0x10000
  {
    LowTwoBytes(n);
  }

  lemma SplitMessage(m: Message, rest: bytes)
    requires |m.body| < 0x100_0000
    ensures Split(HandshakeMsg(m) + rest) == [m] + Split(rest)
  {
    var b := HandshakeMsg(m) + rest;
    assert [b[1], b[2], b[3]] == U24(|m.body|);
    U24Value(|m.body|);
    assert b[4..4 + |m.body|] == m.body;
    assert b[4 + |m.body|..] == rest;
  }

  function PrintMessages(ms: seq<Message>): bytes {
    if ms == [] then [] else HandshakeMsg(ms[0]) + PrintMessages(ms[1..])
  }

  /** A concatenation of printed messages splits back into exactly those messages. */
  lemma {:induction false} SplitInvertsPrint(ms: seq<Message>)
    requires forall i :: 0 <= i < |ms| ==> |ms[i].body| < 0x100_0000
    ensures Split(PrintMessages(ms)) == ms
  {
    hide Split;
    if ms == [] {
      SplitNothing();
    } else {
      SplitMessage(ms[0], PrintMessages(ms[1..]));
      SplitInvertsPrint(ms[1..]);
    }
  }

  lemma SplitNothing()
    ensures Split([]) == []
  {
  }
}
