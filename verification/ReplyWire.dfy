/**
 * A ServerHello as section 4.1.3 of RFC 8446 lays it out, with every extension the parser decodes and any others, and
 * the TLS 1.2 messages that enrich it. Codepoints are written out here, independently of the parser.
 */
module ReplyWire {
  import opened Bytes
  import opened Reader
  import opened Grease
  import opened ServerHello
  import ClientHello
  import Synth
  import ServerSynth
  import HelloWire

  /** SHA-256 of "HelloRetryRequest" (section 4.1.3 of RFC 8446). */
  const HELLO_RETRY: bytes := [
    0xcf, 0x21, 0xad, 0x74, 0xe5, 0x9a, 0x61, 0x11, 0xbe, 0x1d, 0x8c, 0x02, 0x1e, 0x65, 0xb8, 0x91,
    0xc2, 0xa2, 0x11, 0x16, 0x7a, 0xbb, 0x8c, 0x5e, 0x07, 0x9e, 0x09, 0xe2, 0xc8, 0xa8, 0x33, 0x9c]

  // ---------------------------------------------------------------- extensions

  /** `Bare` is a key share without a key, as a HelloRetryRequest sends it. */
  datatype Ext =
    | Selected(version: u16, extra: bytes)
    | Share(group: u16, key: bytes, extra: bytes)
    | Bare(group: u16, rest: bytes)
    | Protocols(names: seq<bytes>, extra: bytes)
    | Psk(body: bytes)
    | Broken(decoded: u16, broken: bytes)
    | Other(typ: u16, other: bytes)

  function Code(e: Ext): u16 {
    match e
    case Selected(_, _) => 43
    case Share(_, _, _) => 51
    case Bare(_, _) => 51
    case Protocols(_, _) => 16
    case Psk(_) => 41
    case Broken(t, _) => t
    case Other(t, _) => t
  }

  function Body(e: Ext): bytes {
    match e
    case Selected(v, extra) => U16(v) + extra
    case Share(g, key, extra) => U16(g) + (Prefixed16(key) + extra)
    case Bare(g, rest) => U16(g) + rest
    case Protocols(names, extra) => Prefixed16(Synth.NameList(names)) + extra
    case Psk(body) => body
    case Broken(_, body) => body
    case Other(_, body) => body
  }

  predicate BadNames(body: bytes) {
    HelloWire.BadVector(body) || HelloWire.CutNames(HelloWire.Inside(body))
  }

  predicate Sound(e: Ext) {
    && |Body(e)| < 0x10000
    && match e
       case Selected(_, _) => true
       case Share(_, key, _) => |key| < 0x10000
       case Bare(_, rest) => HelloWire.BadVector(rest)
       case Protocols(names, _) => HelloWire.ProtocolsFit(names)
       case Psk(_) => true
       case Broken(t, body) => if t == 16 then BadNames(body) else (t == 43 || t == 51) && |body| < 2
       case Other(t, _) => t != 43 && t != 51 && t != 16 && t != 41
  }

  // ---------------------------------------------------------------- what an extension says

  function SaysVersion(e: Ext): Option<u16> {
    if e.Selected? then Some(e.version) else None
  }

  function SaysGroup(e: Ext, retry: bool): Option<u16> {
    if e.Share? || (e.Bare? && retry) then Some(e.group) else None
  }

  function SaysAlpn(e: Ext): Option<bytes> {
    if e.Protocols? && e.names != [] then Some(e.names[0]) else None
  }

  /** One extension sets its own field and no other; GREASE is not even listed. */
  function Add(sh: Reply, e: Ext): Reply {
    var g := SaysGroup(e, sh.isRetry);
    sh.(extensions := if IsGrease(Code(e)) then sh.extensions else sh.extensions + [Code(e)],
        selectedVersion := if SaysVersion(e).Some? then SaysVersion(e).value else sh.selectedVersion,
        group := if g.Some? then g.value else sh.group,
        source := if g.Some? then FromKeyShare else sh.source,
        alpn := if SaysAlpn(e).Some? then SaysAlpn(e).value else sh.alpn,
        hasPreSharedKey := sh.hasPreSharedKey || e.Psk?)
  }

  /** What the parser's loop does with one extension. */
  function Applied(sh: Reply, t: u16, body: bytes): Reply {
    if IsGrease(t) then sh else Decode(sh.(extensions := sh.extensions + [t]), t, body)
  }

  lemma Applies(sh: Reply, e: Ext)
    requires Sound(e)
    ensures Applied(sh, Code(e), Body(e)) == Add(sh, e)
  {
    hide ReadU16, U16, ReadPrefixed16, Prefixed16, ClientHello.Protocols, Synth.NameList, BadNames;
    match e {
      case Selected(v, extra) => ReadsU16(v, extra);
      case Share(g, key, extra) =>
        ReadsU16(g, Prefixed16(key) + extra);
        ReadsPrefixed16(key, extra);
      case Bare(g, rest) =>
        ReadsU16(g, rest);
        HelloWire.BadVectorFails(rest);
      case Protocols(names, extra) => HelloWire.ReadsProtocols(names, extra);
      case Psk(_) =>
      case Broken(t, body) => BrokenReads(t, body);
      case Other(_, _) =>
    }
  }

  lemma BrokenReads(t: u16, body: bytes)
    requires if t == 16 then BadNames(body) else |body| < 2
    ensures if t == 16 then ClientHello.Protocols(body).None? else ReadU16(body).Fail?
  {
    hide ReadPrefixed16, ClientHello.Names, HelloWire.CutNames, HelloWire.Inside, HelloWire.After;
    if t == 16 {
      if HelloWire.BadVector(body) {
        HelloWire.BadVectorFails(body);
      } else {
        HelloWire.ReadsInside(body);
        HelloWire.CutNamesFail(HelloWire.Inside(body));
      }
    }
  }

  // ---------------------------------------------------------------- any list of extensions

  ghost predicate AllSound(exts: seq<Ext>) {
    forall i :: 0 <= i < |exts| ==> Sound(exts[i])
  }

  function BlockOf(exts: seq<Ext>): bytes {
    if exts == [] then [] else U16(Code(exts[0])) + (Prefixed16(Body(exts[0])) + BlockOf(exts[1..]))
  }

  function AddAll(sh: Reply, exts: seq<Ext>): Reply
    decreases |exts|
  {
    if exts == [] then sh else AddAll(Add(sh, exts[0]), exts[1..])
  }

  lemma {:induction false} ReadsBlock(sh: Reply, exts: seq<Ext>, cut: bytes)
    requires AllSound(exts) && (cut == [] || HelloWire.CutShort(cut))
    ensures var all := AddAll(sh, exts);
            ServerHello.Extensions(sh, BlockOf(exts) + cut) == if cut == [] then all else all.(truncated := true)
    decreases |exts|
  {
    hide Decode, Add, Body, Sound, ReadU16, U16, ReadPrefixed16, Prefixed16;
    if exts == [] {
      assert BlockOf(exts) + cut == cut;
      ReadsCut(sh, cut);
    } else {
      var e, rest := exts[0], BlockOf(exts[1..]) + cut;
      var b := BlockOf(exts) + cut;
      assert b == U16(Code(e)) + (Prefixed16(Body(e)) + rest);
      FitsItself(e);
      ReadsU16(Code(e), Prefixed16(Body(e)) + rest);
      ReadsPrefixed16(Body(e), rest);
      Applies(sh, e);
      ReadsBlock(Add(sh, e), exts[1..], cut);
    }
  }

  lemma FitsItself(e: Ext)
    requires Sound(e)
    ensures |Body(e)| < 0x10000
  {
  }

  lemma ReadsCut(sh: Reply, cut: bytes)
    requires cut == [] || HelloWire.CutShort(cut)
    ensures ServerHello.Extensions(sh, cut) == if cut == [] then sh else sh.(truncated := true)
  {
    hide Decode;
    if |cut| >= 2 {
      assert ReadU16(cut).rest == cut[2..];
    }
  }

  // ---------------------------------------------------------------- what each field comes to

  /** What the last extension that speaks of a field says about it. */
  function Said<T>(exts: seq<Ext>, says: Ext -> Option<T>, start: T): T {
    if exts == [] then start
    else
      var last := says(exts[|exts| - 1]);
      if last.Some? then last.value else Said(exts[..|exts| - 1], says, start)
  }

  function Codes(exts: seq<Ext>): seq<u16> {
    if exts == [] then [] else Codes(exts[..|exts| - 1]) + [Code(exts[|exts| - 1])]
  }

  function SaysShare(e: Ext): Option<u16> { SaysGroup(e, false) }
  function SaysRetryShare(e: Ext): Option<u16> { SaysGroup(e, true) }

  predicate AnyPsk(exts: seq<Ext>) {
    exists i :: 0 <= i < |exts| && exts[i].Psk?
  }

  predicate AnyShare(exts: seq<Ext>, retry: bool) {
    exists i :: 0 <= i < |exts| && SaysGroup(exts[i], retry).Some?
  }

  /** Every field of the result, each from the extensions of its own type alone. */
  ghost predicate SaysAll(sh: Reply, start: Reply, exts: seq<Ext>) {
    && sh.selectedVersion == Said(exts, SaysVersion, start.selectedVersion)
    && sh.alpn == Said(exts, SaysAlpn, start.alpn)
    && sh.group == Said(exts, if start.isRetry then SaysRetryShare else SaysShare, start.group)
    && sh.source == (if AnyShare(exts, start.isRetry) then FromKeyShare else start.source)
    && sh.hasPreSharedKey == (start.hasPreSharedKey || AnyPsk(exts))
    && sh.extensions == start.extensions + Strip(Codes(exts))
    && sh == start.(selectedVersion := sh.selectedVersion, alpn := sh.alpn, group := sh.group, source := sh.source,
                    hasPreSharedKey := sh.hasPreSharedKey, extensions := sh.extensions)
  }

  lemma {:induction false} AddAllSnoc(sh: Reply, exts: seq<Ext>)
    requires exts != []
    ensures AddAll(sh, exts) == Add(AddAll(sh, exts[..|exts| - 1]), exts[|exts| - 1])
    decreases |exts|
  {
    hide Add;
    if |exts| == 1 {
      assert exts[1..] == [] && exts[..0] == [];
    } else {
      var rest := exts[1..];
      AddAllSnoc(Add(sh, exts[0]), rest);
      assert rest[..|rest| - 1] == exts[..|exts| - 1][1..];
    }
  }

  lemma AnySnoc(exts: seq<Ext>, retry: bool)
    requires exts != []
    ensures AnyPsk(exts) == (AnyPsk(exts[..|exts| - 1]) || exts[|exts| - 1].Psk?)
    ensures AnyShare(exts, retry) == (AnyShare(exts[..|exts| - 1], retry) || SaysGroup(exts[|exts| - 1], retry).Some?)
  {
    hide SaysGroup;
    var n := |exts| - 1;
    var before := exts[..n];
    assert forall i :: 0 <= i < n ==> before[i] == exts[i];
    if AnyPsk(exts) && !exts[n].Psk? {
      var i :| 0 <= i < |exts| && exts[i].Psk?;
      assert before[i].Psk?;
    }
    if AnyPsk(before) {
      var i :| 0 <= i < n && before[i].Psk?;
      assert exts[i].Psk?;
    }
    if AnyShare(exts, retry) && !SaysGroup(exts[n], retry).Some? {
      var i :| 0 <= i < |exts| && SaysGroup(exts[i], retry).Some?;
      assert SaysGroup(before[i], retry).Some?;
    }
    if AnyShare(before, retry) {
      var i :| 0 <= i < n && SaysGroup(before[i], retry).Some?;
      assert SaysGroup(exts[i], retry).Some?;
    }
  }

  function Or<T>(said: Option<T>, was: T): T {
    if said.Some? then said.value else was
  }

  lemma SaidSnoc<T>(exts: seq<Ext>, says: Ext -> Option<T>, start: T)
    requires exts != []
    ensures Said(exts, says, start) == Or(says(exts[|exts| - 1]), Said(exts[..|exts| - 1], says, start))
  {
  }

  /** One more extension, field by field. */
  lemma AddSays(sh: Reply, start: Reply, exts: seq<Ext>)
    requires exts != [] && SaysAll(sh, start, exts[..|exts| - 1])
    ensures SaysAll(Add(sh, exts[|exts| - 1]), start, exts)
  {
    hide Strip, Code, IsGrease, AnyPsk, AnyShare, Said, SaysVersion, SaysGroup, SaysAlpn;
    var n := |exts| - 1;
    HelloWire.StripSnoc(Codes(exts[..n]), Code(exts[n]));
    AnySnoc(exts, start.isRetry);
    SaidSnoc(exts, SaysVersion, start.selectedVersion);
    SaidSnoc(exts, SaysAlpn, start.alpn);
    SaidSnoc(exts, SaysShare, start.group);
    SaidSnoc(exts, SaysRetryShare, start.group);
  }

  lemma {:induction false} AddAllSays(start: Reply, exts: seq<Ext>)
    ensures SaysAll(AddAll(start, exts), start, exts)
    decreases |exts|
  {
    if exts == [] {
      assert start.extensions + Strip(Codes(exts)) == start.extensions;
    } else {
      hide SaysAll, Add, AddAll;
      AddAllSnoc(start, exts);
      AddAllSays(start, exts[..|exts| - 1]);
      AddSays(AddAll(start, exts[..|exts| - 1]), start, exts);
    }
  }

  // ---------------------------------------------------------------- the whole message

  datatype Tail = Absent | Short(short: bytes) | Block(exts: seq<Ext>, cut: bytes, after: bytes)

  datatype Message = Message(
    version: u16, random: bytes, session: bytes, suite: u16, compression: byte, tail: Tail)

  function TailBytes(t: Tail): bytes {
    if t.Absent? then [] else if t.Short? then t.short else Prefixed16(BlockOf(t.exts) + t.cut) + t.after
  }

  ghost predicate TailSound(t: Tail) {
    && (t.Short? ==> t.short != [] && HelloWire.BadVector(t.short))
    && (t.Block? ==> AllSound(t.exts) && (t.cut == [] || HelloWire.CutShort(t.cut)))
    && (t.Block? ==> |BlockOf(t.exts) + t.cut| < 0x10000)
  }

  function Print(m: Message): bytes {
    U16(m.version) + (m.random + (Prefixed8(m.session) + (U16(m.suite) + ([m.compression] + TailBytes(m.tail)))))
  }

  ghost predicate Printable(m: Message) {
    |m.random| == 32 && |m.session| < 0x100 && TailSound(m.tail)
  }

  /** The fixed fields: a HelloRetryRequest is known by its Random alone. */
  function Start(m: Message): Reply {
    Reply(m.version, m.suite, m.compression, [], 0, 0, NoSource, [], m.random == HELLO_RETRY, false, false, [], false)
  }

  /** The end of the message, read after the fixed fields. */
  function WithTail(sh: Reply, tail: bytes): Reply {
    if tail == [] then sh
    else
      var exts := ReadPrefixed16(tail);
      if exts.Fail? then sh.(truncated := true) else ServerHello.Extensions(sh, exts.value)
  }

  lemma ReadsFixed(m: Message)
    requires Printable(m)
    ensures ParseServerHello(Print(m)) == ClientHello.Ok(WithTail(Start(m), TailBytes(m.tail)))
  {
    hide ReadU16, U16, ReadPrefixed8, Prefixed8, ReadPrefixed16, ReadBytes, ServerHello.Extensions, TailBytes,
      TailSound;
    assert HELLO_RETRY == RETRY_RANDOM;
    var e := TailBytes(m.tail);
    var d := [m.compression] + e;
    var c := U16(m.suite) + d;
    var b := Prefixed8(m.session) + c;
    ReadsU16(m.version, m.random + b);
    ReadsBytes(m.random, b);
    ReadsPrefixed8(m.session, c);
    ReadsU16(m.suite, d);
    assert d[1..] == e && d[0] == m.compression;
  }

  function ExtsOf(t: Tail): seq<Ext> {
    if t.Block? then t.exts else []
  }

  function AfterTail(sh: Reply, t: Tail): Reply {
    var all := AddAll(sh, ExtsOf(t));
    if t.Short? || (t.Block? && t.cut != []) then all.(truncated := true) else all
  }

  lemma ReadsTail(sh: Reply, t: Tail)
    requires TailSound(t)
    ensures WithTail(sh, TailBytes(t)) == AfterTail(sh, t)
  {
    hide ReadPrefixed16, Prefixed16, ServerHello.Extensions, BlockOf, AllSound;
    match t {
      case Absent =>
      case Short(b) => HelloWire.BadVectorFails(b);
      case Block(exts, cut, after) =>
        ReadsPrefixed16(BlockOf(exts) + cut, after);
        ReadsBlock(sh, exts, cut);
    }
  }

  /**
   * Every ServerHello that can be laid out so is parsed, and every field of the result is what the message says: the
   * fixed fields as they stand, version, protocol and group from the last extension of its own type, and truncation
   * exactly when the end is cut short. A share without a key counts in a HelloRetryRequest only.
   */
  lemma ParsesMessage(m: Message)
    requires Printable(m)
    ensures ParseServerHello(Print(m)).Ok?
    ensures var sh := ParseServerHello(Print(m)).value;
            && SaysAll(sh.(truncated := false), Start(m), ExtsOf(m.tail))
            && (sh.truncated <==> m.tail.Short? || (m.tail.Block? && m.tail.cut != []))
  {
    hide Print, TailBytes, TailSound, AddAll, WithTail, Said, AnyPsk, AnyShare, Strip, HELLO_RETRY;
    ReadsFixed(m);
    ReadsTail(Start(m), m.tail);
    AddAllSays(Start(m), ExtsOf(m.tail));
    assert !AddAll(Start(m), ExtsOf(m.tail)).truncated;
    var sh := ParseServerHello(Print(m)).value;
    assert sh.(truncated := false) == AddAll(Start(m), ExtsOf(m.tail));
  }

  // ---------------------------------------------------------------- TLS 1.2 messages

  /** A ServerKeyExchange names a curve exactly when it says so in its first byte and holds one. */
  lemma KeyExchangeIff(body: bytes)
    ensures KeyExchangeGroup(body).Some? <==> |body| >= 3 && body[0] == 3
    ensures KeyExchangeGroup(body).Some? ==> KeyExchangeGroup(body).value == body[1] as int * 256 + body[2] as int
  {
  }

  /** A certificate that the end of the list cuts short. */
  predicate CertCut(cut: bytes) {
    cut != [] && (|cut| < 3 || cut[0] * 65536 + cut[1] * 256 + cut[2] > |cut| - 3)
  }

  lemma {:induction false} ReadsList(chain: seq<bytes>, cut: bytes)
    requires |ServerSynth.DerList(chain) + cut| < 0x100_0000 && (cut == [] || CertCut(cut))
    ensures Certificates(ServerSynth.DerList(chain) + cut) == chain
    ensures ServerHello.CutShort(ServerSynth.DerList(chain) + cut) <==> cut != []
  {
    var list := ServerSynth.DerList(chain) + cut;
    if chain == [] {
      assert list == cut;
      if cut != [] {
        CutFails(cut);
      }
    } else {
      var rest := ServerSynth.DerList(chain[1..]) + cut;
      assert list == ServerSynth.Prefixed24(chain[0]) + rest;
      ServerSynth.ReadsPrefixed24(chain[0], rest);
      hide ReadPrefixed24, ServerSynth.Prefixed24;
      ReadsList(chain[1..], cut);
    }
  }

  lemma CutFails(cut: bytes)
    requires CertCut(cut)
    ensures ReadPrefixed24(cut).Fail?
  {
  }

  /**
   * A list gives its certificates, one cut short those before the cut, and it fails only when there are none of those.
   */
  lemma ReadsChain(chain: seq<bytes>, cut: bytes, after: bytes)
    requires |ServerSynth.DerList(chain) + cut| < 0x100_0000 && (cut == [] || CertCut(cut))
    ensures CertificateChain(ServerSynth.Prefixed24(ServerSynth.DerList(chain) + cut) + after)
         == if chain == [] && cut != [] then None else Some(chain)
  {
    hide Certificates, ServerHello.CutShort, ReadPrefixed24, ServerSynth.Prefixed24, ServerSynth.DerList;
    ServerSynth.ReadsPrefixed24(ServerSynth.DerList(chain) + cut, after);
    ReadsList(chain, cut);
  }

  /** And a message whose list itself is cut short fails. */
  lemma CutMessage(body: bytes)
    requires |body| < 3 || body[0] * 65536 + body[1] * 256 + body[2] > |body| - 3
    ensures CertificateChain(body).None?
  {
  }
}
