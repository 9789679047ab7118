/**
 * The independent builders of the server's messages (internal/tlssynth/synth.go) and the proof that the parsers invert
 * them.
 */
module ServerSynth {
  import opened Bytes
  import opened Reader
  import opened Grease
  import ClientHello
  import opened ServerHello
  import opened Find
  import opened Records
  import Synth

  datatype Spec = Spec(legacyVersion: u16, cipher: u16, selectedVersion: u16, group: u16, alpn: bytes, retry: bool)

  // ---------------------------------------------------------------- builders

  function VersionItems(s: Spec): seq<Synth.Item> {
    if s.selectedVersion == 0 then [] else [Synth.Item(Synth.EXT_SUPPORTED_VERSIONS, U16(s.selectedVersion))]
  }

  /** A HelloRetryRequest names the group alone; a ServerHello adds a key. */
  function ShareItems(s: Spec): seq<Synth.Item> {
    if s.group == 0 then []
    else [Synth.Item(Synth.EXT_KEY_SHARE,
                     U16(s.group) + (if s.retry then [] else Prefixed16(Zeros(Synth.KeyShareLen(s.group)))))]
  }

  function AlpnItems(s: Spec): seq<Synth.Item> {
    if s.alpn == [] then [] else [Synth.Item(Synth.EXT_ALPN, Prefixed16(Prefixed8(s.alpn)))]
  }

  function Items(s: Spec): seq<Synth.Item> {
    VersionItems(s) + (ShareItems(s) + AlpnItems(s))
  }

  function LegacyVersion(s: Spec): u16 {
    if s.legacyVersion == 0 then 0x0303 else s.legacyVersion
  }

  function Random(s: Spec): bytes {
    if s.retry then RETRY_RANDOM else Zeros(32)
  }

  function Print(s: Spec): bytes {
    U16(LegacyVersion(s))
      + (Random(s) + (Prefixed8(Zeros(32)) + (U16(s.cipher) + ([0] + Prefixed16(Synth.Block(Items(s)))))))
  }

  /** `ServerHello`: the message body, or `None` where the builder panics. Only the protocol name can be too long. */
  function Build(s: Spec): Option<bytes> {
    if |s.alpn| < 0x100 then Some(Print(s)) else None
  }

  /** `ServerKeyExchangeECDHE`; the public key of a post-quantum group does not fit its one-byte length. */
  function KeyExchange(group: u16): Option<bytes> {
    if Synth.KeyShareLen(group) >= 0x100 then None
    else Some([3] + (U16(group)
      + (Prefixed8(Zeros(Synth.KeyShareLen(group))) + (U16(0x0401) + Prefixed16(Zeros(256))))))
  }

  function Prefixed24(b: bytes): (p: bytes)
    ensures |p| == 3 + |b|
  {
    U24(|b|) + b
  }

  function DerList(chain: seq<bytes>): bytes {
    if chain == [] then [] else Prefixed24(chain[0]) + DerList(chain[1..])
  }

  /** `CertificateMsg`. */
  function Certificate(chain: seq<bytes>): Option<bytes> {
    if |DerList(chain)| < 0x100_0000 then Some(Prefixed24(DerList(chain))) else None
  }

  // ---------------------------------------------------------------- the parsers invert them

  /** The spec read back. */
  function Expected(s: Spec): Reply {
    Fixed(LegacyVersion(s), Random(s), s.cipher, 0).(
      extensions := Synth.Types(Items(s)),
      selectedVersion := s.selectedVersion,
      group := s.group,
      source := if s.group == 0 then NoSource else FromKeyShare,
      alpn := s.alpn,
      isRetry := s.retry)
  }

  function Apply(sh: Reply, i: Synth.Item): Reply {
    Decode(sh.(extensions := sh.extensions + [i.typ]), i.typ, i.body)
  }

  function ApplyAll(sh: Reply, items: seq<Synth.Item>): Reply
    decreases |items|
  {
    if items == [] then sh else ApplyAll(Apply(sh, items[0]), items[1..])
  }

  /** The extension loop over a printed block is a fold over its items. */
  lemma {:induction false} ExtensionsOfBlock(sh: Reply, items: seq<Synth.Item>)
    requires forall i :: 0 <= i < |items| ==> !IsGrease(items[i].typ) && |items[i].body| < 0x10000
    ensures ServerHello.Extensions(sh, Synth.Block(items)) == ApplyAll(sh, items)
    decreases |items|
  {
    hide Decode, ReadU16, ReadPrefixed16, Prefixed16;
    if items != [] {
      var i, rest := items[0], Synth.Block(items[1..]);
      assert Synth.Block(items) == U16(i.typ) + (Prefixed16(i.body) + rest);
      ReadsU16(i.typ, Prefixed16(i.body) + rest);
      ReadsPrefixed16(i.body, rest);
      ExtensionsOfBlock(Apply(sh, i), items[1..]);
    }
  }

  lemma {:induction false} ApplyAllAppend(sh: Reply, a: seq<Synth.Item>, b: seq<Synth.Item>)
    ensures ApplyAll(sh, a + b) == ApplyAll(ApplyAll(sh, a), b)
    decreases |a|
  {
    hide Apply;
    if a == [] {
      assert a + b == b;
    } else {
      assert (a + b)[1..] == a[1..] + b;
      ApplyAllAppend(Apply(sh, a[0]), a[1..], b);
    }
  }

  lemma ApplyOne(sh: Reply, i: Synth.Item)
    ensures ApplyAll(sh, [i]) == Apply(sh, i) && Synth.Types([i]) == [i.typ] && ApplyAll(sh, []) == sh
            && Synth.Types([]) == []
  {
    hide Apply;
    assert [i][1..] == [];
  }

  lemma VersionStage(s: Spec, sh: Reply)
    requires sh.selectedVersion == 0
    ensures ApplyAll(sh, VersionItems(s))
         == sh.(extensions := sh.extensions + Synth.Types(VersionItems(s)), selectedVersion := s.selectedVersion)
  {
    ApplyOne(sh, Synth.Item(Synth.EXT_SUPPORTED_VERSIONS, U16(s.selectedVersion)));
    assert U16(s.selectedVersion) + [] == U16(s.selectedVersion) && sh.extensions + [] == sh.extensions;
    ReadsU16(s.selectedVersion, []);
    hide ReadU16, U16, ClientHello.Protocols, KeyShareOf, ApplyAll;
  }

  lemma ShareStage(s: Spec, sh: Reply)
    requires sh.group == 0 && sh.source == NoSource && sh.isRetry == s.retry
    ensures ApplyAll(sh, ShareItems(s))
         == sh.(extensions := sh.extensions + Synth.Types(ShareItems(s)), group := s.group,
                source := if s.group == 0 then NoSource else FromKeyShare)
  {
    hide ReadU16, U16, ClientHello.Protocols, ApplyAll, ReadPrefixed16, Prefixed16;
    assert sh.extensions + [] == sh.extensions;
    ApplyOne(sh, Synth.Item(0, []));
    if s.group != 0 {
      var key := if s.retry then [] else Prefixed16(Zeros(Synth.KeyShareLen(s.group)));
      ApplyOne(sh, Synth.Item(Synth.EXT_KEY_SHARE, U16(s.group) + key));
      ReadsU16(s.group, key);
      assert key + [] == key;
      ReadsPrefixed16(Zeros(Synth.KeyShareLen(s.group)), []);
    }
  }

  lemma AlpnStage(s: Spec, sh: Reply)
    requires sh.alpn == [] && |s.alpn| < 0x100
    ensures ApplyAll(sh, AlpnItems(s)) == sh.(extensions := sh.extensions + Synth.Types(AlpnItems(s)), alpn := s.alpn)
  {
    hide ReadU16, U16, ClientHello.Protocols, ApplyAll, Prefixed16, Prefixed8;
    assert sh.extensions + [] == sh.extensions;
    ApplyOne(sh, Synth.Item(0, []));
    if s.alpn != [] {
      ApplyOne(sh, Synth.Item(Synth.EXT_ALPN, Prefixed16(Prefixed8(s.alpn))));
      assert [s.alpn][1..] == [] && Prefixed8(s.alpn) + [] == Prefixed8(s.alpn);
      assert Synth.NameList([s.alpn]) == Prefixed8(s.alpn) + Synth.NameList([]);
      Synth.NoNames();
      Synth.ReadsProtocols([s.alpn]);
    }
  }

  lemma AllStages(s: Spec, sh: Reply)
    requires |s.alpn| < 0x100 && sh == Fixed(LegacyVersion(s), Random(s), s.cipher, 0) && sh.isRetry == s.retry
    ensures ApplyAll(sh, Items(s)) == Expected(s)
  {
    hide ApplyAll, VersionItems, ShareItems, AlpnItems, Random, Synth.Types;
    var v, k, a := VersionItems(s), ShareItems(s), AlpnItems(s);
    ApplyAllAppend(sh, v, k + a);
    ApplyAllAppend(ApplyAll(sh, v), k, a);
    Synth.TypesAppend(v, k + a);
    Synth.TypesAppend(k, a);
    VersionStage(s, sh);
    ShareStage(s, ApplyAll(sh, v));
    AlpnStage(s, ApplyAll(ApplyAll(sh, v), k));
    assert [] + Synth.Types(v) + Synth.Types(k) + Synth.Types(a) == Synth.Types(v) + (Synth.Types(k) + Synth.Types(a));
  }

  /** Only the reserved Random marks a HelloRetryRequest, and the builder's ordinary one is not it. */
  lemma RandomMarksRetry(s: Spec)
    ensures |Random(s)| == 32 && (Random(s) == RETRY_RANDOM <==> s.retry)
  {
    assert Zeros(32)[0] != RETRY_RANDOM[0];
  }

  lemma ItemsFit(s: Spec)
    requires |s.alpn| < 0x100
    ensures forall i :: 0 <= i < |Items(s)| ==> !IsGrease(Items(s)[i].typ) && |Items(s)[i].body| < 0x1000
    ensures |Synth.Block(Items(s))| < 0x10000
  {
    hide Synth.Block, VersionItems, ShareItems, AlpnItems, IsGrease;
    var v, k, a := VersionItems(s), ShareItems(s), AlpnItems(s);
    EachFits(s);
    Synth.BlockAppend(v, k + a);
    Synth.BlockAppend(k, a);
    OneBlock(v);
    OneBlock(k);
    OneBlock(a);
    assert (v != [] ==> v[0] in v) && (k != [] ==> k[0] in k) && (a != [] ==> a[0] in a);
    forall i | 0 <= i < |Items(s)|
      ensures Fitting(Items(s)[i])
    {
      var it := Items(s)[i];
      assert it in v || it in k || it in a;
    }
  }

  predicate Fitting(i: Synth.Item) {
    !IsGrease(i.typ) && |i.body| < 0x1000
  }

  lemma EachFits(s: Spec)
    requires |s.alpn| < 0x100
    ensures |VersionItems(s)| <= 1 && |ShareItems(s)| <= 1 && |AlpnItems(s)| <= 1
    ensures forall i :: i in VersionItems(s) || i in ShareItems(s) || i in AlpnItems(s) ==> Fitting(i)
  {
    hide U16, Prefixed16, Prefixed8;
  }

  lemma OneBlock(items: seq<Synth.Item>)
    requires |items| <= 1
    ensures |Synth.Block(items)| == if items == [] then 0 else 4 + |items[0].body|
  {
    if items != [] {
      assert items == [items[0]];
      Synth.BlockOne(items[0]);
    }
  }

  lemma FixedFields(s: Spec)
    requires |s.alpn| < 0x100
    ensures ParseServerHello(Print(s))
         == ClientHello.Ok(ServerHello.Extensions(Fixed(LegacyVersion(s), Random(s), s.cipher, 0),
           Synth.Block(Items(s))))
  {
    hide ReadU16, U16, ReadPrefixed8, Prefixed8, ReadPrefixed16, Prefixed16, ReadBytes, ServerHello.Extensions, Items,
      Random, Fixed, Synth.Block, LegacyVersion, Zeros;
    RandomMarksRetry(s);
    ItemsFit(s);
    var block := Synth.Block(Items(s));
    var e := Prefixed16(block);
    var d := [0] + e;
    var c := U16(s.cipher) + d;
    var b := Prefixed8(Zeros(32)) + c;
    ReadsU16(LegacyVersion(s), Random(s) + b);
    ReadsBytes(Random(s), b);
    ReadsPrefixed8(Zeros(32), c);
    ReadsU16(s.cipher, d);
    assert d[1..] == e && e + [] == e;
    ReadsPrefixed16(block, []);
  }

  /** Print then parse: a ServerHello or HelloRetryRequest built from any spec is read back as the spec says. */
  lemma RoundTrip(s: Spec)
    requires Build(s).Some?
    ensures ParseServerHello(Build(s).value) == ClientHello.Ok(Expected(s))
  {
    hide ParseServerHello, ApplyAll, ServerHello.Extensions, Print, Random, Expected, Items;
    FixedFields(s);
    ItemsFit(s);
    RandomMarksRetry(s);
    var sh := Fixed(LegacyVersion(s), Random(s), s.cipher, 0);
    ExtensionsOfBlock(sh, Items(s));
    AllStages(s, sh);
  }

  lemma KeyExchangeRoundTrip(group: u16)
    requires KeyExchange(group).Some?
    ensures KeyExchangeGroup(KeyExchange(group).value) == Some(group)
  {
    hide U16, ReadU16, Prefixed8, Prefixed16;
    var rest := Prefixed8(Zeros(Synth.KeyShareLen(group))) + (U16(0x0401) + Prefixed16(Zeros(256)));
    var body := KeyExchange(group).value;
    assert body[1..] == U16(group) + rest;
    ReadsU16(group, rest);
  }

  lemma ReadsCounted(h: bytes, b: bytes, rest: bytes)
    requires |h| == 3 && U24Of(h[0], h[1], h[2]) == |b|
    ensures ReadPrefixed24(h + b + rest) == Got(b, rest)
  {
    hide U24Of, ReadBytes;
    assert (h + b + rest)[3..] == b + rest;
    ReadsBytes(b, rest);
  }

  lemma ReadsPrefixed24(b: bytes, rest: bytes)
    requires |b| < 0x100_0000
    ensures ReadPrefixed24(Prefixed24(b) + rest) == Got(b, rest)
  {
    U24Value(|b|);
    hide U24, U24Of, ReadPrefixed24;
    ReadsCounted(U24(|b|), b, rest);
  }

  lemma {:induction false} ReadsDerList(chain: seq<bytes>)
    requires |DerList(chain)| < 0x100_0000
    ensures Certificates(DerList(chain)) == chain && !CutShort(DerList(chain))
  {
    if chain != [] {
      ReadsPrefixed24(chain[0], DerList(chain[1..]));
      hide ReadPrefixed24, Prefixed24;
      ReadsDerList(chain[1..]);
    }
  }

  /** Any certificate list that can be printed, the empty one included, is read back whole. */
  lemma CertificateRoundTrip(chain: seq<bytes>)
    requires Certificate(chain).Some?
    ensures CertificateChain(Certificate(chain).value) == Some(chain)
  {
    hide Certificates, CutShort, ReadPrefixed24, Prefixed24, DerList;
    assert Prefixed24(DerList(chain)) + [] == Prefixed24(DerList(chain));
    ReadsPrefixed24(DerList(chain), []);
    ReadsDerList(chain);
  }

  /** Two ServerHellos built with different cipher suites, one after the other: the second is returned. */
  lemma SecondHelloWins(s: Spec, t: Spec)
    requires Build(s).Some? && Build(t).Some? && !s.retry && !t.retry && s.cipher != t.cipher
    ensures var r := FirstServerHello([Message(SERVER_HELLO, Build(s).value), Message(SERVER_HELLO, Build(t).value)]);
            r.Hit? && r.hello.cipherSuite == t.cipher && r.hello.cipherSuite != s.cipher
  {
    hide Build, ParseServerHello, FirstServerHello, Random;
    RoundTrip(s);
    RoundTrip(t);
    SecondOfTwo(Message(SERVER_HELLO, Build(s).value), Message(SERVER_HELLO, Build(t).value));
  }

  /** Even two hellos that differ in nothing but the group of their key share: the second's group is returned. */
  lemma SecondGroupWins(s: Spec, t: Spec)
    requires Build(s).Some? && !s.retry && t == s.(group := t.group) && s.group != 0 && t.group != 0
             && s.group != t.group
    ensures Build(t).Some? && Core(Expected(s)) == Core(Expected(t))
    ensures var ms := [Message(SERVER_HELLO, Build(s).value), Message(SERVER_HELLO, Build(t).value)];
            FirstServerHello(ms).Hit? && FirstServerHello(ms).hello.group == t.group
  {
    hide ParseServerHello, FirstServerHello, Random, Print, Synth.Types, Items, LegacyVersion;
    SameTypes(s, t);
    RoundTrip(s);
    RoundTrip(t);
    SecondOfTwo(Message(SERVER_HELLO, Build(s).value), Message(SERVER_HELLO, Build(t).value));
  }

  /** Specs that differ in a nonzero group print extensions of the same types. */
  lemma SameTypes(s: Spec, t: Spec)
    requires t == s.(group := t.group) && s.group != 0 && t.group != 0
    ensures Synth.Types(Items(s)) == Synth.Types(Items(t)) && LegacyVersion(s) == LegacyVersion(t)
            && Random(s) == Random(t)
  {
    hide U16, Prefixed16, Prefixed8;
    Synth.TypesAppend(VersionItems(s), ShareItems(s) + AlpnItems(s));
    Synth.TypesAppend(ShareItems(s), AlpnItems(s));
    Synth.TypesAppend(VersionItems(t), ShareItems(t) + AlpnItems(t));
    Synth.TypesAppend(ShareItems(t), AlpnItems(t));
    OneTyped(ShareItems(s)[0]);
    OneTyped(ShareItems(t)[0]);
  }

  lemma OneTyped(i: Synth.Item)
    ensures Synth.Types([i]) == [i.typ]
  {
    assert [i][1..] == [];
  }

  /** And one and the same hello, repeated after the certificates, loses the chain that the first would have had. */
  lemma RepeatedHelloLosesChain(s: Spec, chain: seq<bytes>)
    requires Build(s).Some? && !s.retry && Certificate(chain).Some? && chain != []
    ensures var h, cert := Message(SERVER_HELLO, Build(s).value), Message(CERTIFICATE, Certificate(chain).value);
            && FirstServerHello([h, cert]).Hit? && FirstServerHello([h, cert]).hello.chain == chain
            && FirstServerHello([h, cert, h]).Hit? && FirstServerHello([h, cert, h]).hello.chain == []
  {
    hide ParseServerHello, FirstServerHello, Random, Build, Certificate, CertificateChain, Synth.Types, Items;
    RoundTrip(s);
    CertificateRoundTrip(chain);
    var h, cert := Message(SERVER_HELLO, Build(s).value), Message(CERTIFICATE, Certificate(chain).value);
    assert IsReal(h) && !IsReal(cert) && [cert][1..] == [];
    assert [] + [h] + [cert] == [h, cert] && [h, cert] + [h] + [] == [h, cert, h];
    assert FirstError([h, cert]).None? && FirstError([h, cert, h]).None?;
    ServerHelloLastReal([], h, [cert]);
    ServerHelloLastReal([h, cert], h, []);
    assert LateChain([cert]) == chain;
  }

  // ---------------------------------------------------------------- a TLS 1.2 flight

  /** A TLS 1.2 server's flight: its hello, its certificates, the curve it chose, and the end. */
  function Flight(s: Spec, chain: seq<bytes>, group: u16): seq<Message>
    requires Build(s).Some? && Certificate(chain).Some? && KeyExchange(group).Some?
  {
    [Message(SERVER_HELLO, Build(s).value), Message(CERTIFICATE, Certificate(chain).value),
     Message(SERVER_KEY_EXCHANGE, KeyExchange(group).value), Message(SERVER_HELLO_DONE, [])]
  }

  /** What the flight says: the curve comes from the ServerKeyExchange, the chain from the Certificate. */
  function FlightReply(s: Spec, chain: seq<bytes>, group: u16): Reply {
    Expected(s).(group := group, source := FromServerKeyExchange, chain := chain, flightComplete := true)
  }

  /** The messages after the hello enrich any ServerHello without a group of its own. */
  lemma FlightEnriches(s: Spec, chain: seq<bytes>, group: u16)
    requires Build(s).Some? && Certificate(chain).Some? && KeyExchange(group).Some?
    requires !s.retry && s.group == 0 && group != 0
    ensures var after := Flight(s, chain, group)[1..];
            LateGroup(after) == group && AnyCurve(after) && LateChain(after) == chain && HasDone(after) && NoReal(after)
  {
    hide Certificate, KeyExchange, CertificateChain, KeyExchangeGroup, Build, ParseServerHello;
    var after := Flight(s, chain, group)[1..];
    CertificateRoundTrip(chain);
    KeyExchangeRoundTrip(group);
    assert after[2].typ == SERVER_HELLO_DONE;
    assert after[1..][0] == after[1] && after[1..][1..][0] == after[2] && after[1..][1..][1..] == [];
    assert LateGroup(after[1..]) == group && AnyCurve(after[1..]);
    assert LateChain(after[1..][1..]) == LateChain([]) == [];
    assert LateChain(after[1..]) == [];
  }

  lemma FlightReads(s: Spec, chain: seq<bytes>, group: u16)
    requires Build(s).Some? && Certificate(chain).Some? && KeyExchange(group).Some?
    requires !s.retry && s.group == 0 && group != 0
    ensures FirstServerHello(Flight(s, chain, group)) == Hit(FlightReply(s, chain, group))
  {
    var ms := Flight(s, chain, group);
    FlightShape(s, chain, group);
    FlightEnriches(s, chain, group);
    HelloThen(ms, s);
    hide Flight, Build, Certificate, KeyExchange, FirstServerHello, LateGroup, LateChain, AnyCurve, HasDone, NoReal,
      Random;
  }

  /** A list that opens with a printed ServerHello and holds no other reads as that hello, enriched. */
  lemma HelloThen(ms: seq<Message>, s: Spec)
    requires Build(s).Some? && !s.retry && ms != [] && ms[0] == Message(SERVER_HELLO, Build(s).value) && NoReal(ms[1..])
    ensures FirstServerHello(ms) == LastReal([], Expected(s), ms[1..])
  {
    hide Build, ParseServerHello, FirstServerHello, Enriched, Random, NoReal, LastReal, KeyExchangeGroup,
      CertificateChain;
    RoundTrip(s);
    assert IsReal(ms[0]) && FirstError(ms).None?;
    hide Expected, FirstError, IsReal;
    assert [] + [ms[0]] + ms[1..] == ms;
    ServerHelloLastReal([], ms[0], ms[1..]);
  }

  /** A whole flight, in records of any size, reads as its parts: hello, curve, chain, and complete. */
  lemma FlightRoundTrip(s: Spec, chain: seq<bytes>, group: u16, chunk: nat)
    requires Build(s).Some? && Certificate(chain).Some? && KeyExchange(group).Some?
    requires !s.retry && s.group == 0 && group != 0 && 0 < chunk <= MAX_PAYLOAD
    requires forall m :: m in Flight(s, chain, group) ==> |m.body| < 0x100_0000
    ensures FindServerHello(PrintRecords(HANDSHAKE, PrintMessages(Flight(s, chain, group)), chunk))
         == Hit(FlightReply(s, chain, group))
  {
    hide Flight, FlightReply, Build, Certificate, KeyExchange, Split, HandshakeMessages, PrintRecords, PrintMessages,
      FirstServerHello;
    FlightReads(s, chain, group);
    SplitInvertsPrint(Flight(s, chain, group));
    RecordsRoundTrip(PrintMessages(Flight(s, chain, group)), chunk);
  }

  lemma FlightShape(s: Spec, chain: seq<bytes>, group: u16)
    requires Build(s).Some? && Certificate(chain).Some? && KeyExchange(group).Some?
    ensures |Flight(s, chain, group)| == 4 && Flight(s, chain, group)[0] == Message(SERVER_HELLO, Build(s).value)
  {
    hide Certificate, KeyExchange, Build;
  }

  /**
   * The same flight cut after its hello reads differently: the hello is found, without curve or chain and incomplete.
   * A reader that keeps the first answer, as the assembler does, loses both when a segment ends there.
   */
  lemma FlightCutShort(s: Spec, chain: seq<bytes>, group: u16)
    requires Build(s).Some? && Certificate(chain).Some? && KeyExchange(group).Some?
    requires !s.retry && s.group == 0 && group != 0 && !Tls13(Expected(s))
    ensures FirstServerHello(Flight(s, chain, group)[..1]) == Hit(Expected(s))
    ensures Expected(s) != FlightReply(s, chain, group) && !Expected(s).flightComplete
  {
    hide Certificate, KeyExchange, Build, ParseServerHello, FirstServerHello, Random;
    var m := Flight(s, chain, group)[0];
    FlightShape(s, chain, group);
    assert Flight(s, chain, group)[..1] == [m] && [m][1..] == [];
    HelloThen([m], s);
    assert Enriched(Expected(s), []) == Expected(s);
  }

  /** The extensions listed for a built ServerHello, by their codepoints and in the order the builder adds them. */
  lemma ListedInOrder(s: Spec)
    ensures Expected(s).extensions
         == (if s.selectedVersion == 0 then [] else [43]) + ((if s.group == 0 then [] else [51])
                                                              + (if s.alpn == [] then [] else [16]))
  {
    hide U16, Prefixed16, Prefixed8, RETRY_RANDOM, Random;
    Synth.TypesAppend(ShareItems(s), AlpnItems(s));
    Synth.TypesAppend(VersionItems(s), ShareItems(s) + AlpnItems(s));
  }
}
