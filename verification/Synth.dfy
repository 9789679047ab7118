/** The independent ClientHello builder (internal/tlssynth/synth.go) and the proof that the parser inverts it. */
module Synth {
  import opened Bytes
  import opened Reader
  import opened Grease
  import opened ClientHello

  // Codepoints, written out independently of the parser.
  const EXT_SERVER_NAME: u16 := 0
  const EXT_SUPPORTED_GROUPS: u16 := 10
  const EXT_SIGNATURE_ALGORITHMS: u16 := 13
  const EXT_ALPN: u16 := 16
  const EXT_SUPPORTED_VERSIONS: u16 := 43
  const EXT_KEY_SHARE: u16 := 51
  const EXT_QUIC: u16 := 57
  const EXT_ECH: u16 := 0xfe0d

  datatype Spec = Spec(
    legacyVersion: u16,
    ciphers: seq<u16>,
    compression: Option<bytes>,
    sni: bytes,
    alpn: seq<bytes>,
    versions: seq<u16>,
    groups: seq<u16>,
    keyShares: seq<u16>,
    sigAlgs: seq<u16>,
    ech: bool,
    quic: bool,
    omitExtensions: bool,
    noGrease: bool)

  /** One extension to print. */
  datatype Item = Item(typ: u16, body: bytes)

  function KeyShareLen(group: u16): nat {
    if group == 0x11ec || group == 0x6399 then 1216
    else if group == 0x11eb then 1249
    else if group == 0x11ed then 1665
    else if group == 30 then 56
    else if group == 23 then 65
    else if group == 24 then 97
    else if group == 25 then 133
    else 32
  }

  // ---------------------------------------------------------------- builder

  function PrintItem(i: Item): (b: bytes)
    ensures |b| == 4 + |i.body|
  {
    U16(i.typ) + Prefixed16(i.body)
  }

  function Block(items: seq<Item>): bytes {
    if items == [] then [] else PrintItem(items[0]) + Block(items[1..])
  }

  /** A list with the GREASE value a BoringSSL client would put first, unless the spec says not to. */
  function Greased(s: Spec, g: u16, vs: seq<u16>): seq<u16> {
    if s.noGrease then vs else [g] + vs
  }

  function NameList(names: seq<bytes>): bytes {
    if names == [] then [] else Prefixed8(names[0]) + NameList(names[1..])
  }

  function ShareList(groups: seq<u16>): bytes {
    if groups == [] then []
    else U16(groups[0]) + Prefixed16(Zeros(KeyShareLen(groups[0]))) + ShareList(groups[1..])
  }

  function GreaseShare(s: Spec): bytes {
    if s.noGrease then [] else U16(0xdada) + Prefixed16([0])
  }

  function GreaseItems(s: Spec): seq<Item> {
    if s.noGrease then [] else [Item(0x1a1a, [])]
  }
  function SniItems(s: Spec): seq<Item> {
    if s.sni == [] then [] else [Item(EXT_SERVER_NAME, Prefixed16([0] + Prefixed16(s.sni)))]
  }
  function AlpnItems(s: Spec): seq<Item> {
    if s.alpn == [] then [] else [Item(EXT_ALPN, Prefixed16(NameList(s.alpn)))]
  }
  function VersionItems(s: Spec): seq<Item> {
    if s.versions == [] then [] else [Item(EXT_SUPPORTED_VERSIONS, Prefixed8(U16s(Greased(s, 0x3a3a, s.versions))))]
  }
  function GroupItems(s: Spec): seq<Item> {
    if s.groups == [] then [] else [Item(EXT_SUPPORTED_GROUPS, Prefixed16(U16s(Greased(s, 0x5a5a, s.groups))))]
  }
  function SigAlgItems(s: Spec): seq<Item> {
    if s.sigAlgs == [] then [] else [Item(EXT_SIGNATURE_ALGORITHMS, Prefixed16(U16s(s.sigAlgs)))]
  }
  function ShareItems(s: Spec): seq<Item> {
    if s.keyShares == [] then [] else [Item(EXT_KEY_SHARE, Prefixed16(GreaseShare(s) + ShareList(s.keyShares)))]
  }
  function EchBody(): bytes {
    [0] + (U16(1) + (U16(1) + ([7] + (Prefixed16(Zeros(32)) + Prefixed16(Zeros(128))))))
  }
  function EchItems(s: Spec): seq<Item> {
    if s.ech then [Item(EXT_ECH, EchBody())] else []
  }
  function QuicItems(s: Spec): seq<Item> {
    if s.quic then [Item(EXT_QUIC, [1, 2, 3])] else []
  }

  /** The extensions of a spec in the order the builder adds them. */
  function Items(s: Spec): seq<Item> {
    GreaseItems(s) + (SniItems(s) + (AlpnItems(s) + (VersionItems(s) + (GroupItems(s)
    + (SigAlgItems(s) + (ShareItems(s) + (EchItems(s) + QuicItems(s))))))))
  }

  function Version(s: Spec): u16 {
    if s.legacyVersion == 0 then 0x0303 else s.legacyVersion
  }

  function Compression(s: Spec): bytes {
    if s.compression.None? then [0] else s.compression.value
  }

  /** Every length fits its prefix; otherwise the builder panics. */
  predicate Fits(s: Spec) {
    && 2 * |Greased(s, 0x0a0a, s.ciphers)| < 0x10000
    && |Compression(s)| < 0x100
    && (!s.omitExtensions ==>
          && |Block(Items(s))| < 0x10000
          && (s.versions != [] ==> 2 * |Greased(s, 0x3a3a, s.versions)| < 0x100)
          && (forall i :: 0 <= i < |s.alpn| ==> |s.alpn[i]| < 0x100))
  }

  function Print(s: Spec): bytes {
    U16(Version(s)) + (Zeros(32) + (Prefixed8(Zeros(32)) + (Prefixed16(U16s(Greased(s, 0x0a0a, s.ciphers)))
    + (Prefixed8(Compression(s)) + (if s.omitExtensions then [] else Prefixed16(Block(Items(s))))))))
  }

  /** `ClientHello`: the message body, or `None` where the builder panics. */
  function Build(s: Spec): Option<bytes> {
    if Fits(s) then Some(Print(s)) else None
  }

  // ---------------------------------------------------------------- what the parser must find

  function Types(items: seq<Item>): seq<u16> {
    if items == [] then [] else [items[0].typ] + Types(items[1..])
  }

  /** Whether any list of the spec carries GREASE of its own. */
  predicate OwnGrease(s: Spec) {
    HasGrease(s.versions) || HasGrease(s.groups) || HasGrease(s.sigAlgs) || HasGrease(s.keyShares)
  }

  /** The spec read back: wire order kept, GREASE filtered out, its presence recorded. */
  function Expected(s: Spec): Hello {
    var fixed := Fixed(Version(s), 32, s.ciphers, Compression(s)).(grease := !s.noGrease || HasGrease(s.ciphers));
    if s.omitExtensions then fixed
    else fixed.(
      extensions := Strip(Types(Items(s))),
      serverName := s.sni,
      alpn := s.alpn,
      supportedVersions := Strip(s.versions),
      supportedGroups := Strip(s.groups),
      sigAlgs := Strip(s.sigAlgs),
      keyShareGroups := Strip(s.keyShares),
      ech := if s.ech then Some(Ech(true, 1, 1, 7)) else None,
      flags := if s.quic then {Quic} else {},
      grease := !s.noGrease || HasGrease(s.ciphers) || OwnGrease(s))
  }

  // ---------------------------------------------------------------- the parser over a printed block

  function ApplyAll(ch: Hello, items: seq<Item>): Hello
    decreases |items|
  {
    if items == [] then ch else ApplyAll(Apply(ch, items[0].typ, items[0].body), items[1..])
  }

  lemma {:induction false} ApplyAllAppend(ch: Hello, a: seq<Item>, b: seq<Item>)
    ensures ApplyAll(ch, a + b) == ApplyAll(ApplyAll(ch, a), b)
    decreases |a|
  {
    hide Apply;
    if a == [] {
      assert a + b == b;
    } else {
      assert (a + b)[1..] == a[1..] + b;
      ApplyAllAppend(Apply(ch, a[0].typ, a[0].body), a[1..], b);
    }
  }

  lemma ExtensionsStep(ch: Hello, i: Item, rest: bytes)
    requires |i.body| < 0x10000
    ensures Extensions(ch, PrintItem(i) + rest) == Extensions(Apply(ch, i.typ, i.body), rest)
  {
    hide Apply, ReadU16, ReadPrefixed16, Prefixed16;
    var b := PrintItem(i) + rest;
    assert b == U16(i.typ) + (Prefixed16(i.body) + rest);
    ReadsU16(i.typ, Prefixed16(i.body) + rest);
    ReadsPrefixed16(i.body, rest);
  }

  /** The extension loop over a printed block is a fold over its items. */
  lemma {:induction false} ExtensionsOfBlock(ch: Hello, items: seq<Item>)
    requires |Block(items)| < 0x10000
    ensures Extensions(ch, Block(items)) == ApplyAll(ch, items)
    decreases |items|
  {
    hide Apply, PrintItem;
    if items != [] {
      ExtensionsStep(ch, items[0], Block(items[1..]));
      ExtensionsOfBlock(Apply(ch, items[0].typ, items[0].body), items[1..]);
    }
  }

  // ---------------------------------------------------------------- one extension at a time

  lemma ReadsName(sni: bytes)
    requires |sni| + 5 < 0x10000
    ensures ServerName(Prefixed16([0] + Prefixed16(sni))) == Some(sni)
  {
    hide Prefixed16, ReadPrefixed16;
    var list := [0] + Prefixed16(sni);
    assert Prefixed16(list) + [] == Prefixed16(list);
    ReadsPrefixed16(list, []);
    assert list[1..] == Prefixed16(sni) == Prefixed16(sni) + [];
    ReadsPrefixed16(sni, []);
  }

  lemma {:induction false} ReadsNames(names: seq<bytes>)
    requires forall i :: 0 <= i < |names| ==> |names[i]| < 0x100
    ensures Names(NameList(names)) == Some(names)
  {
    hide Prefixed8, ReadPrefixed8;
    if names != [] {
      ReadsPrefixed8(names[0], NameList(names[1..]));
      ReadsNames(names[1..]);
      assert NameList(names) != [];
      assert [names[0]] + names[1..] == names;
    }
  }

  lemma ReadsProtocols(names: seq<bytes>)
    requires forall i :: 0 <= i < |names| ==> |names[i]| < 0x100
    requires |NameList(names)| < 0x10000
    ensures Protocols(Prefixed16(NameList(names))) == Some(names)
  {
    hide Prefixed16, ReadPrefixed16, NameList, Names;
    var list := NameList(names);
    assert Prefixed16(list) + [] == Prefixed16(list);
    ReadsPrefixed16(list, []);
    ReadsNames(names);
  }

  /** A printed share in front of others: its group is kept unless it is GREASE. */
  lemma SharesStep(group: u16, key: bytes, rest: bytes)
    requires |key| < 0x10000
    ensures Shares(U16(group) + Prefixed16(key) + rest)
         == if IsGrease(group) then (Shares(rest).0, true)
            else (if Shares(rest).0.None? then None else Some([group] + Shares(rest).0.value), Shares(rest).1)
  {
    hide ReadU16, ReadPrefixed16, Prefixed16, IsGrease;
    var b := U16(group) + Prefixed16(key) + rest;
    assert b == U16(group) + (Prefixed16(key) + rest);
    ReadsU16(group, Prefixed16(key) + rest);
    ReadsPrefixed16(key, rest);
  }

  lemma {:induction false} ReadsShares(groups: seq<u16>)
    ensures Shares(ShareList(groups)) == (Some(Strip(groups)), HasGrease(groups))
  {
    if groups == [] {
    } else {
      ReadsShares(groups[1..]);
      hide Shares, HasGrease, IsGrease;
      assert groups == [groups[0]] + groups[1..];
      HasGreaseCons(groups[0], groups[1..]);
      SharesStep(groups[0], Zeros(KeyShareLen(groups[0])), ShareList(groups[1..]));
    }
  }

  lemma ReadsGreasedShares(s: Spec)
    ensures Shares(GreaseShare(s) + ShareList(s.keyShares))
         == (Some(Strip(s.keyShares)), !s.noGrease || HasGrease(s.keyShares))
  {
    hide Shares, HasGrease, ShareList, Strip;
    ReadsShares(s.keyShares);
    var rest := ShareList(s.keyShares);
    if s.noGrease {
      assert GreaseShare(s) + rest == rest;
    } else {
      SharesStep(0xdada, [0], rest);
    }
  }

  lemma ReadsEch()
    ensures EchOf(EchBody()) == Some(Ech(true, 1, 1, 7))
  {
    hide ReadU16, ReadPrefixed16, Prefixed16, Zeros, U16;
    var b5 := Prefixed16(Zeros(128));
    var b4 := Prefixed16(Zeros(32)) + b5;
    var b3 := [7] + b4;
    var b2 := U16(1) + b3;
    var b1 := U16(1) + b2;
    assert EchBody()[1..] == b1;
    ReadsU16(1, b2);
    ReadsU16(1, b3);
    assert b3[1..] == b4;
    ReadsPrefixed16(Zeros(32), b5);
    assert b5 + [] == b5;
    ReadsPrefixed16(Zeros(128), []);
  }

  /** The list fields after a stripped list is stored: `g` in front changes nothing but the GREASE flag. */
  lemma StripGreased(s: Spec, g: u16, vs: seq<u16>)
    requires IsGrease(g)
    ensures Strip(Greased(s, g, vs)) == Strip(vs)
    ensures HasGrease(Greased(s, g, vs)) == (!s.noGrease || HasGrease(vs))
  {
    if !s.noGrease {
      StripInjected(g, vs);
    }
  }

  lemma OneType(i: Item)
    requires !IsGrease(i.typ)
    ensures Strip(Types([i])) == [i.typ]
  {
    assert [i][1..] == [];
    assert Types([i]) == [i.typ] + [];
    assert Strip([i.typ]) == [i.typ] + Strip([i.typ][1..]);
  }

  lemma ApplyOne(ch: Hello, i: Item)
    requires !IsGrease(i.typ)
    ensures ApplyAll(ch, [i]) == Decode(ch.(extensions := ch.extensions + Strip(Types([i]))), i.typ, i.body)
  {
    hide Decode;
    OneType(i);
    assert [i][1..] == [];
    assert ApplyAll(Apply(ch, i.typ, i.body), []) == Apply(ch, i.typ, i.body);
  }

  lemma ApplyNone(ch: Hello)
    ensures ApplyAll(ch, []) == ch && ch.extensions + Strip(Types([])) == ch.extensions
  {
  }

  lemma GreaseStage(s: Spec, ch: Hello)
    ensures ApplyAll(ch, GreaseItems(s))
         == ch.(extensions := ch.extensions + Strip(Types(GreaseItems(s))), grease := ch.grease || !s.noGrease)
  {
    hide Apply, Strip;
    if s.noGrease {
      ApplyNone(ch);
    } else {
      GreaseItem(ch);
    }
  }

  lemma GreaseItem(ch: Hello)
    ensures ApplyAll(ch, [Item(0x1a1a, [])])
         == ch.(extensions := ch.extensions + Strip(Types([Item(0x1a1a, [])])), grease := true)
  {
    var i := Item(0x1a1a, []);
    assert [i][1..] == [];
    assert Types([i]) == [0x1a1a] + [];
    assert Strip([0x1a1a]) == Strip([0x1a1a][1..]) == [];
    assert ApplyAll(Apply(ch, 0x1a1a, []), []) == Apply(ch, 0x1a1a, []);
  }

  lemma SniStage(s: Spec, ch: Hello)
    requires ch.serverName == [] && |s.sni| + 5 < 0x10000
    ensures ApplyAll(ch, SniItems(s))
         == ch.(extensions := ch.extensions + Strip(Types(SniItems(s))), serverName := s.sni)
  {
    hide ApplyAll, Strip, Types, ServerName, Prefixed16;
    if s.sni == [] {
      ApplyNone(ch);
    } else {
      ApplyOne(ch, SniItems(s)[0]);
      ReadsName(s.sni);
    }
  }

  lemma AlpnStage(s: Spec, ch: Hello)
    requires ch.alpn == [] && |NameList(s.alpn)| < 0x10000
    requires forall i :: 0 <= i < |s.alpn| ==> |s.alpn[i]| < 0x100
    ensures ApplyAll(ch, AlpnItems(s))
         == ch.(extensions := ch.extensions + Strip(Types(AlpnItems(s))), alpn := s.alpn)
  {
    hide ApplyAll, Strip, Types, Protocols, Prefixed16, NameList;
    if s.alpn == [] {
      ApplyNone(ch);
    } else {
      ApplyOne(ch, AlpnItems(s)[0]);
      ReadsProtocols(s.alpn);
    }
  }

  lemma VersionStage(s: Spec, ch: Hello)
    requires ch.supportedVersions == [] && (!s.noGrease ==> ch.grease)
    requires s.versions != [] ==> 2 * |Greased(s, 0x3a3a, s.versions)| < 0x100
    ensures ApplyAll(ch, VersionItems(s))
         == ch.(extensions := ch.extensions + Strip(Types(VersionItems(s))),
                supportedVersions := Strip(s.versions), grease := ch.grease || HasGrease(s.versions))
  {
    hide ApplyAll, Types, ReadU8PrefixedU16List, Prefixed8, U16s, HasGrease;
    if s.versions == [] {
      ApplyNone(ch);
      EmptyIsGreaseFree();
    } else {
      var vs := Greased(s, 0x3a3a, s.versions);
      ApplyOne(ch, VersionItems(s)[0]);
      assert Prefixed8(U16s(vs)) + [] == Prefixed8(U16s(vs));
      ReadsU8PrefixedU16List(vs, []);
      StripGreased(s, 0x3a3a, s.versions);
    }
  }

  lemma GroupStage(s: Spec, ch: Hello)
    requires ch.supportedGroups == [] && (!s.noGrease ==> ch.grease)
    requires s.groups != [] ==> 2 * |Greased(s, 0x5a5a, s.groups)| < 0x10000
    ensures ApplyAll(ch, GroupItems(s))
         == ch.(extensions := ch.extensions + Strip(Types(GroupItems(s))),
                supportedGroups := Strip(s.groups), grease := ch.grease || HasGrease(s.groups))
  {
    hide ApplyAll, Types, ReadU16List, Prefixed16, U16s, HasGrease;
    if s.groups == [] {
      ApplyNone(ch);
      EmptyIsGreaseFree();
    } else {
      var vs := Greased(s, 0x5a5a, s.groups);
      ApplyOne(ch, GroupItems(s)[0]);
      assert Prefixed16(U16s(vs)) + [] == Prefixed16(U16s(vs));
      ReadsU16List(vs, []);
      StripGreased(s, 0x5a5a, s.groups);
    }
  }

  lemma SigAlgStage(s: Spec, ch: Hello)
    requires ch.sigAlgs == [] && 2 * |s.sigAlgs| < 0x10000
    ensures ApplyAll(ch, SigAlgItems(s))
         == ch.(extensions := ch.extensions + Strip(Types(SigAlgItems(s))),
                sigAlgs := Strip(s.sigAlgs), grease := ch.grease || HasGrease(s.sigAlgs))
  {
    hide ApplyAll, Types, ReadU16List, Prefixed16, U16s, HasGrease;
    if s.sigAlgs == [] {
      ApplyNone(ch);
      EmptyIsGreaseFree();
    } else {
      ApplyOne(ch, SigAlgItems(s)[0]);
      assert Prefixed16(U16s(s.sigAlgs)) + [] == Prefixed16(U16s(s.sigAlgs));
      ReadsU16List(s.sigAlgs, []);
    }
  }

  lemma ShareStage(s: Spec, ch: Hello)
    requires ch.keyShareGroups == [] && (!s.noGrease ==> ch.grease)
    requires s.keyShares != [] ==> |GreaseShare(s) + ShareList(s.keyShares)| < 0x10000
    ensures ApplyAll(ch, ShareItems(s))
         == ch.(extensions := ch.extensions + Strip(Types(ShareItems(s))),
                keyShareGroups := Strip(s.keyShares), grease := ch.grease || HasGrease(s.keyShares))
  {
    hide ApplyAll, Types, ReadPrefixed16, Prefixed16, HasGrease, Shares, GreaseShare, ShareList;
    if s.keyShares == [] {
      ApplyNone(ch);
      EmptyIsGreaseFree();
    } else {
      var list := GreaseShare(s) + ShareList(s.keyShares);
      ApplyOne(ch, ShareItems(s)[0]);
      assert Prefixed16(list) + [] == Prefixed16(list);
      ReadsPrefixed16(list, []);
      ReadsGreasedShares(s);
    }
  }

  lemma EchStage(s: Spec, ch: Hello)
    requires ch.ech.None?
    ensures ApplyAll(ch, EchItems(s))
         == ch.(extensions := ch.extensions + Strip(Types(EchItems(s))),
                ech := if s.ech then Some(Ech(true, 1, 1, 7)) else None)
  {
    hide ApplyAll, Types, Strip, EchOf, EchBody;
    if s.ech {
      ApplyOne(ch, EchItems(s)[0]);
      ReadsEch();
    } else {
      ApplyNone(ch);
    }
  }

  lemma QuicStage(s: Spec, ch: Hello)
    requires ch.flags == {}
    ensures ApplyAll(ch, QuicItems(s))
         == ch.(extensions := ch.extensions + Strip(Types(QuicItems(s))), flags := if s.quic then {Quic} else {})
  {
    hide ApplyAll, Types, Strip;
    if s.quic {
      ApplyOne(ch, QuicItems(s)[0]);
    } else {
      ApplyNone(ch);
    }
  }

  // ---------------------------------------------------------------- the whole message

  lemma {:induction false} BlockAppend(a: seq<Item>, b: seq<Item>)
    ensures Block(a + b) == Block(a) + Block(b)
  {
    if a == [] {
      assert a + b == b;
    } else {
      assert (a + b)[1..] == a[1..] + b;
      BlockAppend(a[1..], b);
    }
  }

  lemma BlockOne(i: Item)
    ensures |Block([i])| == 4 + |i.body|
  {
    assert [i][1..] == [];
  }

  /** Reading any items lists exactly their types, GREASE left out. */
  lemma {:induction false} ItemsListed(ch: Hello, items: seq<Item>)
    ensures ApplyAll(ch, items).extensions == ch.extensions + Strip(Types(items))
    decreases |items|
  {
    if items != [] {
      var i := items[0];
      var ch' := Apply(ch, i.typ, i.body);
      ItemsListed(ch', items[1..]);
      ApplyLists(ch, i.typ, i.body);
      hide Apply, ApplyAll, IsGrease;
      assert Types(items)[1..] == Types(items[1..]);
    }
  }

  lemma ApplyLists(ch: Hello, t: u16, body: bytes)
    ensures Apply(ch, t, body).extensions == if IsGrease(t) then ch.extensions else ch.extensions + [t]
  {
    hide ServerName, Protocols, ReadU8PrefixedU16List, ReadU16List, Shares, EchOf, ReadPrefixed8, ReadPrefixed16,
      Strip, HasGrease;
  }

  /** A record with its extension list put aside, so that stages can be compared field by field. */
  function Rest(ch: Hello): Hello {
    ch.(extensions := [])
  }

  /** The last four extensions of a block. */
  function LastItems(s: Spec): seq<Item> {
    SigAlgItems(s) + (ShareItems(s) + (EchItems(s) + QuicItems(s)))
  }

  /** A block that fits leaves room for each of its vectors. */
  lemma FrontSizes(s: Spec)
    requires |Block(Items(s))| < 0x10000
    ensures |s.sni| + 5 < 0x10000 && |NameList(s.alpn)| < 0x10000
    ensures s.groups != [] ==> 2 * |Greased(s, 0x5a5a, s.groups)| < 0x10000
    ensures |Block(LastItems(s))| < 0x10000
  {
    hide Block, Items, NameList, U16s, Greased, GreaseItems, VersionItems, LastItems;
    var l2 := AlpnItems(s) + MiddleItems(s);
    ItemsSplit(s);
    BlockAppend(GreaseItems(s), SniItems(s) + l2);
    BlockAppend(SniItems(s), l2);
    BlockAppend(AlpnItems(s), MiddleItems(s));
    BlockAppend(VersionItems(s), GroupItems(s) + LastItems(s));
    BlockAppend(GroupItems(s), LastItems(s));
    if s.sni != [] { BlockOne(SniItems(s)[0]); }
    if s.alpn != [] { BlockOne(AlpnItems(s)[0]); } else { NoNames(); }
    if s.groups != [] { BlockOne(GroupItems(s)[0]); }
  }

  lemma NoNames()
    ensures NameList([]) == []
  {
  }

  lemma LastSizes(s: Spec)
    requires |Block(LastItems(s))| < 0x10000
    ensures 2 * |s.sigAlgs| < 0x10000
    ensures s.keyShares != [] ==> |GreaseShare(s) + ShareList(s.keyShares)| < 0x10000
  {
    hide Block, U16s, GreaseShare, ShareList, EchItems, QuicItems;
    var l1 := EchItems(s) + QuicItems(s);
    BlockAppend(SigAlgItems(s), ShareItems(s) + l1);
    BlockAppend(ShareItems(s), l1);
    if s.sigAlgs != [] { BlockOne(SigAlgItems(s)[0]); }
    if s.keyShares != [] { BlockOne(ShareItems(s)[0]); }
  }

  lemma LastStages(s: Spec, ch: Hello)
    requires |Block(LastItems(s))| < 0x10000 && (!s.noGrease ==> ch.grease)
    requires ch.sigAlgs == [] && ch.keyShareGroups == [] && ch.ech.None? && ch.flags == {}
    ensures Rest(ApplyAll(ch, LastItems(s)))
         == Rest(ch).(sigAlgs := Strip(s.sigAlgs), keyShareGroups := Strip(s.keyShares),
                ech := if s.ech then Some(Ech(true, 1, 1, 7)) else None,
                flags := if s.quic then {Quic} else {},
                grease := ch.grease || HasGrease(s.sigAlgs) || HasGrease(s.keyShares))
  {
    LastSizes(s);
    hide ApplyAll, Types, Strip, HasGrease, Block, SigAlgItems, ShareItems, EchItems, QuicItems;
    var l1 := EchItems(s) + QuicItems(s);
    var l2 := ShareItems(s) + l1;
    ApplyAllAppend(ch, SigAlgItems(s), l2);
    SigAlgStage(s, ch);
    var c1 := ApplyAll(ch, SigAlgItems(s));
    ApplyAllAppend(c1, ShareItems(s), l1);
    ShareStage(s, c1);
    var c2 := ApplyAll(c1, ShareItems(s));
    ApplyAllAppend(c2, EchItems(s), QuicItems(s));
    EchStage(s, c2);
    var c3 := ApplyAll(c2, EchItems(s));
    QuicStage(s, c3);
  }

  /** Everything from supported_versions on. */
  function MiddleItems(s: Spec): seq<Item> {
    VersionItems(s) + (GroupItems(s) + LastItems(s))
  }

  lemma MiddleStages(s: Spec, ch: Hello)
    requires |Block(LastItems(s))| < 0x10000 && (!s.noGrease ==> ch.grease)
    requires s.versions != [] ==> 2 * |Greased(s, 0x3a3a, s.versions)| < 0x100
    requires s.groups != [] ==> 2 * |Greased(s, 0x5a5a, s.groups)| < 0x10000
    requires ch.supportedVersions == [] && ch.supportedGroups == []
    requires ch.sigAlgs == [] && ch.keyShareGroups == [] && ch.ech.None? && ch.flags == {}
    ensures Rest(ApplyAll(ch, MiddleItems(s)))
         == Rest(ch).(supportedVersions := Strip(s.versions), supportedGroups := Strip(s.groups),
                sigAlgs := Strip(s.sigAlgs), keyShareGroups := Strip(s.keyShares),
                ech := if s.ech then Some(Ech(true, 1, 1, 7)) else None,
                flags := if s.quic then {Quic} else {},
                grease := ch.grease || OwnGrease(s))
  {
    hide ApplyAll, Types, Strip, HasGrease, Block, Greased, VersionItems, GroupItems, LastItems;
    ApplyAllAppend(ch, VersionItems(s), GroupItems(s) + LastItems(s));
    VersionStage(s, ch);
    var c1 := ApplyAll(ch, VersionItems(s));
    ApplyAllAppend(c1, GroupItems(s), LastItems(s));
    GroupStage(s, c1);
    var c2 := ApplyAll(c1, GroupItems(s));
    LastStages(s, c2);
  }

  /** The three extensions that come first. */
  lemma FirstStages(s: Spec, ch: Hello)
    requires ch.serverName == [] && ch.alpn == [] && |s.sni| + 5 < 0x10000 && |NameList(s.alpn)| < 0x10000
    requires forall i :: 0 <= i < |s.alpn| ==> |s.alpn[i]| < 0x100
    ensures Rest(ApplyAll(ApplyAll(ApplyAll(ch, GreaseItems(s)), SniItems(s)), AlpnItems(s)))
         == Rest(ch).(grease := ch.grease || !s.noGrease, serverName := s.sni, alpn := s.alpn)
  {
    hide ApplyAll, Types, Strip, NameList, GreaseItems, SniItems, AlpnItems;
    GreaseStage(s, ch);
    var c1 := ApplyAll(ch, GreaseItems(s));
    SniStage(s, c1);
    AlpnStage(s, ApplyAll(c1, SniItems(s)));
  }

  lemma ApplyItems(s: Spec, ch: Hello)
    ensures ApplyAll(ch, Items(s))
         == ApplyAll(ApplyAll(ApplyAll(ApplyAll(ch, GreaseItems(s)), SniItems(s)), AlpnItems(s)), MiddleItems(s))
  {
    ItemsSplit(s);
    hide ApplyAll, Items, GreaseItems, SniItems, AlpnItems, MiddleItems;
    var l2 := AlpnItems(s) + MiddleItems(s);
    ApplyAllAppend(ch, GreaseItems(s), SniItems(s) + l2);
    var c1 := ApplyAll(ch, GreaseItems(s));
    ApplyAllAppend(c1, SniItems(s), l2);
    ApplyAllAppend(ApplyAll(c1, SniItems(s)), AlpnItems(s), MiddleItems(s));
  }

  /** Reading the extensions of a spec into a record that has none yet. */
  lemma AllStages(s: Spec, ch: Hello)
    requires Fits(s) && !s.omitExtensions
    requires ch == Fixed(ch.legacyVersion, ch.sessionIdLen, Greased(s, 0x0a0a, s.ciphers), ch.compression)
    ensures Rest(ApplyAll(ch, Items(s)))
         == Rest(ch).(serverName := s.sni, alpn := s.alpn,
                supportedVersions := Strip(s.versions), supportedGroups := Strip(s.groups),
                sigAlgs := Strip(s.sigAlgs), keyShareGroups := Strip(s.keyShares),
                ech := if s.ech then Some(Ech(true, 1, 1, 7)) else None,
                flags := if s.quic then {Quic} else {},
                grease := ch.grease || !s.noGrease || OwnGrease(s))
  {
    FrontSizes(s);
    ApplyItems(s, ch);
    hide ApplyAll, Strip, HasGrease, Block, Items, NameList, Greased, GreaseItems, SniItems, AlpnItems, MiddleItems,
      LastItems;
    FirstStages(s, ch);
    MiddleStages(s, ApplyAll(ApplyAll(ApplyAll(ch, GreaseItems(s)), SniItems(s)), AlpnItems(s)));
  }

  lemma ItemsSplit(s: Spec)
    ensures Items(s) == GreaseItems(s) + (SniItems(s) + (AlpnItems(s) + MiddleItems(s)))
  {
    hide GreaseItems, SniItems, AlpnItems, VersionItems, GroupItems, SigAlgItems, ShareItems, EchItems, QuicItems;
  }

  /** The fixed fields of a printed message read back, up to the extension block. */
  lemma FixedFields(s: Spec)
    requires Fits(s)
    ensures var ch := Fixed(Version(s), 32, Greased(s, 0x0a0a, s.ciphers), Compression(s));
            ParseClientHello(Print(s)) == Ok(if s.omitExtensions then ch else Extensions(ch, Block(Items(s))))
  {
    hide Extensions, Block, Items, Greased, Compression, Version, Strip, HasGrease, Zeros, ReadU16, ReadBytes,
      ReadPrefixed8, ReadPrefixed16, ReadU16List, Prefixed8, Prefixed16, U16, U16s;
    var suites := Greased(s, 0x0a0a, s.ciphers);
    var exts: bytes := if s.omitExtensions then [] else Prefixed16(Block(Items(s)));
    var b4 := Prefixed8(Compression(s)) + exts;
    var b3 := Prefixed16(U16s(suites)) + b4;
    var b2 := Prefixed8(Zeros(32)) + b3;
    var b1 := Zeros(32) + b2;
    ReadsU16(Version(s), b1);
    ReadsBytes(Zeros(32), b2);
    ReadsPrefixed8(Zeros(32), b3);
    ReadsU16List(suites, b4);
    ReadsPrefixed8(Compression(s), exts);
    if !s.omitExtensions {
      assert exts + [] == exts;
      ReadsPrefixed16(Block(Items(s)), []);
    }
  }

  /** Print then parse: every spec the builder accepts is read back whole, in wire order, without its GREASE. */
  lemma RoundTrip(s: Spec)
    requires Build(s).Some?
    ensures ParseClientHello(Build(s).value) == Ok(Expected(s))
  {
    hide ParseClientHello, Print, Extensions, ApplyAll, Items, Types, Strip, HasGrease, Block, Greased;
    FixedFields(s);
    StripGreased(s, 0x0a0a, s.ciphers);
    if !s.omitExtensions {
      var ch := Fixed(Version(s), 32, Greased(s, 0x0a0a, s.ciphers), Compression(s));
      ExtensionsOfBlock(ch, Items(s));
      AllStages(s, ch);
      ItemsListed(ch, Items(s));
      var r := ApplyAll(ch, Items(s));
      assert r.extensions == Strip(Types(Items(s)));
      assert r == Rest(r).(extensions := r.extensions);
    }
  }

  // ---------------------------------------------------------------- the order of the extensions

  function If(present: bool, t: u16): seq<u16> {
    if present then [t] else []
  }

  lemma {:induction false} TypesAppend(a: seq<Item>, b: seq<Item>)
    ensures Types(a + b) == Types(a) + Types(b)
    decreases |a|
  {
    if a == [] {
      assert a + b == b;
    } else {
      assert (a + b)[1..] == a[1..] + b;
      TypesAppend(a[1..], b);
    }
  }

  lemma FirstTypes(s: Spec)
    ensures Types(SniItems(s)) == If(s.sni != [], 0) && Types(AlpnItems(s)) == If(s.alpn != [], 16)
    ensures Types(VersionItems(s)) == If(s.versions != [], 43) && Types(GroupItems(s)) == If(s.groups != [], 10)
    ensures Types(GreaseItems(s)) == If(!s.noGrease, 0x1a1a)
  {
    hide Prefixed16, Prefixed8, U16s, NameList, Greased;
  }

  lemma LastTypes(s: Spec)
    ensures Types(SigAlgItems(s)) == If(s.sigAlgs != [], 13) && Types(ShareItems(s)) == If(s.keyShares != [], 51)
    ensures Types(EchItems(s)) == If(s.ech, 0xfe0d) && Types(QuicItems(s)) == If(s.quic, 57)
  {
    hide Prefixed16, U16s, GreaseShare, ShareList, EchBody;
  }

  /** What a reader who sees no GREASE should list. */
  function Order(s: Spec): seq<u16> {
    If(s.sni != [], 0) + (If(s.alpn != [], 16) + (If(s.versions != [], 43) + (If(s.groups != [], 10)
    + (If(s.sigAlgs != [], 13) + (If(s.keyShares != [], 51) + (If(s.ech, 0xfe0d) + If(s.quic, 57)))))))
  }

  lemma TypesOfItems(s: Spec)
    ensures Types(Items(s)) == If(!s.noGrease, 0x1a1a) + Order(s)
  {
    hide Types, If, GreaseItems, SniItems, AlpnItems, VersionItems, GroupItems, SigAlgItems, ShareItems, EchItems,
      QuicItems;
    FirstTypes(s);
    LastTypes(s);
    var i7 := EchItems(s) + QuicItems(s);
    var i6 := ShareItems(s) + i7;
    var i5 := SigAlgItems(s) + i6;
    var i4 := GroupItems(s) + i5;
    var i3 := VersionItems(s) + i4;
    var i2 := AlpnItems(s) + i3;
    var i1 := SniItems(s) + i2;
    TypesAppend(EchItems(s), QuicItems(s));
    TypesAppend(ShareItems(s), i7);
    TypesAppend(SigAlgItems(s), i6);
    TypesAppend(GroupItems(s), i5);
    TypesAppend(VersionItems(s), i4);
    TypesAppend(AlpnItems(s), i3);
    TypesAppend(SniItems(s), i2);
    TypesAppend(GreaseItems(s), i1);
  }

  lemma StripIf(present: bool, t: u16, rest: seq<u16>)
    requires !IsGrease(t) && Strip(rest) == rest
    ensures Strip(If(present, t) + rest) == If(present, t) + rest
  {
    hide IsGrease;
    StripAppend(If(present, t), rest);
    assert [t][1..] == [];
  }

  lemma StripOrder(s: Spec)
    ensures Strip(Order(s)) == Order(s)
  {
    hide Strip, If;
    NoneStripped(s.quic);
    var o7 := If(s.ech, 0xfe0d) + If(s.quic, 57);
    var o6 := If(s.keyShares != [], 51) + o7;
    var o5 := If(s.sigAlgs != [], 13) + o6;
    var o4 := If(s.groups != [], 10) + o5;
    var o3 := If(s.versions != [], 43) + o4;
    var o2 := If(s.alpn != [], 16) + o3;
    StripIf(s.ech, 0xfe0d, If(s.quic, 57));
    StripIf(s.keyShares != [], 51, o7);
    StripIf(s.sigAlgs != [], 13, o6);
    StripIf(s.groups != [], 10, o5);
    StripIf(s.versions != [], 43, o4);
    StripIf(s.alpn != [], 16, o3);
    StripIf(s.sni != [], 0, o2);
  }

  lemma NoneStripped(quic: bool)
    ensures Strip(If(quic, 57)) == If(quic, 57)
  {
    assert Strip([]) == [];
    StripIf(quic, 57, []);
    assert If(quic, 57) + [] == If(quic, 57);
  }

  /** The extensions listed for a built ClientHello, by their codepoints and in the order the builder adds them. */
  lemma ListedInOrder(s: Spec)
    requires !s.omitExtensions
    ensures Expected(s).extensions == Order(s)
  {
    hide Order, Items, Types;
    TypesOfItems(s);
    StripOrder(s);
    StripAppend(If(!s.noGrease, 0x1a1a), Order(s));
    assert [0x1a1a][1..] == [];
  }
}
