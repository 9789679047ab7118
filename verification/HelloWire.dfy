/**
 * A ClientHello as section 4.1.2 of RFC 8446 lays it out, with every extension the parser decodes and any others, well
 * formed or not, in any order and number. Codepoints are written out here, independently of the parser. What the parser
 * makes of such a message is said field by field.
 */
module HelloWire {
  import opened Bytes
  import opened Reader
  import opened Grease
  import opened ClientHello
  import Synth

  // ---------------------------------------------------------------- extensions

  /**
   * One extension. `extra` is whatever follows its vector, and `unread` what follows a host name in the list: neither
   * is looked at. `CutShares` is a list whose last share is cut short, `Broken` anything else that does not decode.
   */
  datatype Ext =
    | Names(entries: seq<(byte, bytes)>, unread: bytes, extra: bytes)
    | Protocols(names: seq<bytes>, extra: bytes)
    | Versions(versions: seq<u16>, extra: bytes)
    | Groups(groups: seq<u16>, extra: bytes)
    | Algorithms(algorithms: seq<u16>, extra: bytes)
    | CertAlgorithms(certAlgorithms: seq<u16>, extra: bytes)
    | Shares(shares: seq<(u16, bytes)>, extra: bytes)
    | CutShares(shares: seq<(u16, bytes)>, cut: bytes, extra: bytes)
    | PskModes(modes: bytes, extra: bytes)
    | EchOuter(kdf: u16, aead: u16, config: byte, enc: bytes, payload: bytes, extra: bytes)
    | EchInner(rest: bytes)
    | Presence(flag: Flag, body: bytes)
    | Broken(decoded: u16, broken: bytes)
    | Other(typ: u16, other: bytes)

  function FlagCode(f: Flag): u16 {
    match f
    case PreSharedKey => 41
    case EarlyData => 42
    case SessionTicket => 35
    case ExtendedMasterSecret => 23
    case RenegotiationInfo => 0xff01
    case StatusRequest => 5
    case Quic => 57
  }

  function Code(e: Ext): u16 {
    match e
    case Names(_, _, _) => 0
    case Protocols(_, _) => 16
    case Versions(_, _) => 43
    case Groups(_, _) => 10
    case Algorithms(_, _) => 13
    case CertAlgorithms(_, _) => 50
    case Shares(_, _) => 51
    case CutShares(_, _, _) => 51
    case PskModes(_, _) => 45
    case EchOuter(_, _, _, _, _, _) => 0xfe0d
    case EchInner(_) => 0xfe0d
    case Presence(f, _) => FlagCode(f)
    case Broken(t, _) => t
    case Other(t, _) => t
  }

  function EntryList(entries: seq<(byte, bytes)>): bytes {
    if entries == [] then [] else [entries[0].0] + Prefixed16(entries[0].1) + EntryList(entries[1..])
  }

  function ShareList(shares: seq<(u16, bytes)>): bytes {
    if shares == [] then [] else U16(shares[0].0) + Prefixed16(shares[0].1) + ShareList(shares[1..])
  }

  function Body(e: Ext): bytes {
    match e
    case Names(entries, unread, extra) => Prefixed16(EntryList(entries) + unread) + extra
    case Protocols(names, extra) => Prefixed16(Synth.NameList(names)) + extra
    case Versions(vs, extra) => Prefixed8(U16s(vs)) + extra
    case Groups(vs, extra) => Prefixed16(U16s(vs)) + extra
    case Algorithms(vs, extra) => Prefixed16(U16s(vs)) + extra
    case CertAlgorithms(vs, extra) => Prefixed16(U16s(vs)) + extra
    case Shares(shares, extra) => Prefixed16(ShareList(shares)) + extra
    case CutShares(shares, cut, extra) => Prefixed16(ShareList(shares) + cut) + extra
    case PskModes(modes, extra) => Prefixed8(modes) + extra
    case EchOuter(kdf, aead, config, enc, payload, extra) =>
      [0] + (U16(kdf) + (U16(aead) + ([config] + (Prefixed16(enc) + (Prefixed16(payload) + extra)))))
    case EchInner(rest) => [1] + rest
    case Presence(_, body) => body
    case Broken(_, body) => body
    case Other(_, body) => body
  }

  /** Types the parser looks into. */
  predicate Known(t: u16) {
    || t == 0 || t == 16 || t == 43 || t == 10 || t == 13 || t == 50 || t == 51 || t == 45 || t == 0xfe0d
    || t == 41 || t == 42 || t == 35 || t == 23 || t == 0xff01 || t == 5 || t == 57
  }

  /** A two-byte length that runs past the end, or is not there. */
  predicate BadVector(body: bytes) {
    |body| < 2 || body[0] * 256 + body[1] > |body| - 2
  }

  predicate BadShortVector(body: bytes) {
    |body| < 1 || body[0] > |body| - 1
  }

  /** The bytes a two-byte length announces, and what follows them. */
  function Inside(body: bytes): (b: bytes)
    requires !BadVector(body)
    ensures |b| < 0x10000
  {
    body[2..2 + body[0] as int * 256 + body[1] as int]
  }

  function After(body: bytes): (b: bytes)
    requires !BadVector(body)
    ensures |b| < |body|
  {
    body[2 + body[0] as int * 256 + body[1] as int..]
  }

  /** An entry, or the last bytes of a list, that the end cuts short: a type byte and a vector. */
  predicate CutEntry(list: bytes) {
    |list| < 1 || BadVector(list[1..])
  }

  /** A server name list that is cut short before any host name. */
  predicate NoHostRead(list: bytes)
    decreases |list|
  {
    list != [] && (CutEntry(list) || (list[0] != 0 && NoHostRead(After(list[1..]))))
  }

  /** A protocol list whose last name is cut short. */
  predicate CutNames(list: bytes)
    decreases |list|
  {
    list != [] && (BadShortVector(list) || CutNames(list[1 + list[0]..]))
  }

  /** Encrypted ClientHello of neither form: its fixed fields or one of its two vectors are not there. */
  predicate BadEch(body: bytes) {
    || body == [] || body[0] > 1
    || (body[0] == 0 && (|body| < 6 || BadVector(body[6..]) || BadVector(After(body[6..]))))
  }

  /** A body that does not decode as its type wants. */
  predicate DoesNotDecode(t: u16, body: bytes) {
    if t == 0 then BadVector(body) || NoHostRead(Inside(body))
    else if t == 16 then BadVector(body) || CutNames(Inside(body))
    else if t == 51 then BadVector(body)
    else if t == 10 || t == 13 || t == 50 then BadVector(body) || body[1] % 2 == 1
    else if t == 43 then BadShortVector(body) || body[0] % 2 == 1
    else if t == 45 then BadShortVector(body)
    else t == 0xfe0d && BadEch(body)
  }

  /** An extension or a key share, a codepoint and a vector, that the end cuts short. */
  predicate CutShort(cut: bytes) {
    cut != [] && (|cut| < 4 || cut[2] * 256 + cut[3] > |cut| - 4)
  }

  predicate HasHost(entries: seq<(byte, bytes)>) {
    exists i :: 0 <= i < |entries| && entries[i].0 == 0
  }

  predicate ProtocolsFit(names: seq<bytes>) {
    |Synth.NameList(names)| < 0x10000 && forall i :: 0 <= i < |names| ==> |names[i]| < 0x100
  }

  predicate SharesFit(shares: seq<(u16, bytes)>) {
    forall i :: 0 <= i < |shares| ==> |shares[i].1| < 0x10000
  }

  /** Nothing is left unread unless a host name came first. */
  predicate NamesFit(entries: seq<(byte, bytes)>, unread: bytes) {
    && |EntryList(entries) + unread| < 0x10000 && (unread == [] || HasHost(entries))
    && forall i :: 0 <= i < |entries| ==> |entries[i].1| < 0x10000
  }

  /** Lengths fit their prefixes, a broken extension is broken, and an unknown one unknown. */
  predicate Sound(e: Ext) {
    && |Body(e)| < 0x10000
    && match e
       case Names(entries, unread, _) => NamesFit(entries, unread)
       case Protocols(names, _) => ProtocolsFit(names)
       case Versions(vs, _) => 2 * |vs| < 0x100
       case Groups(vs, _) => 2 * |vs| < 0x10000
       case Algorithms(vs, _) => 2 * |vs| < 0x10000
       case CertAlgorithms(vs, _) => 2 * |vs| < 0x10000
       case Shares(shares, _) => |ShareList(shares)| < 0x10000 && SharesFit(shares)
       case CutShares(shares, cut, _) => |ShareList(shares) + cut| < 0x10000 && SharesFit(shares) && CutShort(cut)
       case PskModes(modes, _) => |modes| < 0x100
       case EchOuter(_, _, _, enc, payload, _) => |enc| < 0x10000 && |payload| < 0x10000
       case EchInner(_) => true
       case Presence(_, _) => true
       case Broken(t, body) => DoesNotDecode(t, body)
       case Other(t, _) => !Known(t)
  }

  // ---------------------------------------------------------------- what an extension says

  /** The first host_name entry, or the empty name. */
  function Host(entries: seq<(byte, bytes)>): bytes {
    if entries == [] then [] else if entries[0].0 == 0 then entries[0].1 else Host(entries[1..])
  }

  function GroupsOf(shares: seq<(u16, bytes)>): seq<u16> {
    if shares == [] then [] else [shares[0].0] + GroupsOf(shares[1..])
  }

  /** Whether an extension shows GREASE: in its type, or in a list of codepoints other than the certificate one. */
  predicate ShowsGrease(e: Ext) {
    match e
    case Versions(vs, _) => HasGrease(vs)
    case Groups(vs, _) => HasGrease(vs)
    case Algorithms(vs, _) => HasGrease(vs)
    case Shares(shares, _) => HasGrease(GroupsOf(shares))
    case CutShares(shares, _, _) => HasGrease(GroupsOf(shares))
    case Other(t, _) => IsGrease(t)
    case _ => false
  }

  function EchSaid(e: Ext): Option<Option<Ech>> {
    match e
    case EchOuter(kdf, aead, config, _, _, _) => Some(Some(Ech(true, kdf, aead, config)))
    case EchInner(_) => Some(Some(Ech(false, 0, 0, 0)))
    case Broken(t, _) => if t == 0xfe0d then Some(Some(Ech(true, 0, 0, 0))) else None
    case _ => None
  }

  /** Every extension is listed by its type, and GREASE noticed. */
  function Listed(ch: Hello, e: Ext): Hello {
    var listed := if IsGrease(Code(e)) then ch.extensions else ch.extensions + [Code(e)];
    ch.(extensions := listed, grease := ch.grease || ShowsGrease(e))
  }

  /** What one extension adds to a ClientHello: its own field, and no other. */
  function Add(ch: Hello, e: Ext): Hello {
    var ch' := Listed(ch, e);
    match e
    case Names(entries, _, _) => ch'.(serverName := Host(entries))
    case Protocols(names, _) => ch'.(alpn := names)
    case Versions(vs, _) => ch'.(supportedVersions := Strip(vs))
    case Groups(vs, _) => ch'.(supportedGroups := Strip(vs))
    case Algorithms(vs, _) => ch'.(sigAlgs := Strip(vs))
    case CertAlgorithms(vs, _) => ch'.(sigAlgsCert := Strip(vs))
    case Shares(shares, _) => ch'.(keyShareGroups := Strip(GroupsOf(shares)))
    case CutShares(_, _, _) => ch'
    case PskModes(modes, _) => ch'.(pskModes := modes)
    case EchOuter(_, _, _, _, _, _) => ch'.(ech := EchSaid(e).value)
    case EchInner(_) => ch'.(ech := EchSaid(e).value)
    case Presence(f, _) => ch'.(flags := ch'.flags + {f})
    case Broken(t, _) => if t == 0xfe0d then ch'.(ech := EchSaid(e).value) else ch'
    case Other(_, _) => ch'
  }

  // ---------------------------------------------------------------- one extension is read as it says

  lemma BadVectorFails(body: bytes)
    requires BadVector(body)
    ensures ReadPrefixed16(body).Fail?
  {
  }

  lemma BadShortVectorFails(body: bytes)
    requires BadShortVector(body)
    ensures ReadPrefixed8(body).Fail?
  {
  }

  lemma BadListFails(body: bytes)
    requires BadVector(body) || body[1] % 2 == 1
    ensures ReadU16List(body).Fail?
  {
    hide Pairs;
    if BadVector(body) {
      BadVectorFails(body);
    }
  }

  lemma BadShortListFails(body: bytes)
    requires BadShortVector(body) || body[0] % 2 == 1
    ensures ReadU8PrefixedU16List(body).Fail?
  {
    hide Pairs;
    if BadShortVector(body) {
      BadShortVectorFails(body);
    }
  }

  lemma HostStep(t: byte, name: bytes, rest: bytes)
    requires |name| < 0x10000
    ensures HostName([t] + Prefixed16(name) + rest) == if t == 0 then Some(name) else HostName(rest)
  {
    hide ReadPrefixed16, Prefixed16;
    var list := [t] + Prefixed16(name) + rest;
    assert list[1..] == Prefixed16(name) + rest;
    ReadsPrefixed16(name, rest);
  }

  lemma NoHost()
    ensures HostName([]) == Some([])
  {
  }

  lemma {:induction false} ReadsHost(entries: seq<(byte, bytes)>, unread: bytes)
    requires unread == [] || HasHost(entries)
    requires forall i :: 0 <= i < |entries| ==> |entries[i].1| < 0x10000
    ensures HostName(EntryList(entries) + unread) == Some(Host(entries))
  {
    hide HostName, Prefixed16;
    if entries == [] {
      assert EntryList(entries) + unread == [];
      NoHost();
    } else {
      var rest := EntryList(entries[1..]) + unread;
      assert EntryList(entries) + unread == [entries[0].0] + Prefixed16(entries[0].1) + rest;
      HostStep(entries[0].0, entries[0].1, rest);
      if entries[0].0 != 0 {
        if HasHost(entries) {
          var i :| 0 <= i < |entries| && entries[i].0 == 0;
          assert entries[1..][i - 1].0 == 0;
        }
        ReadsHost(entries[1..], unread);
      }
    }
  }

  lemma ReadsNames(entries: seq<(byte, bytes)>, unread: bytes, extra: bytes)
    requires NamesFit(entries, unread)
    ensures ServerName(Prefixed16(EntryList(entries) + unread) + extra) == Some(Host(entries))
  {
    hide ReadPrefixed16, Prefixed16, HostName, EntryList, Host;
    ReadsPrefixed16(EntryList(entries) + unread, extra);
    ReadsHost(entries, unread);
  }

  lemma ReadsProtocols(names: seq<bytes>, extra: bytes)
    requires ProtocolsFit(names)
    ensures ClientHello.Protocols(Prefixed16(Synth.NameList(names)) + extra) == Some(names)
  {
    hide Prefixed16, ReadPrefixed16, Synth.NameList, ClientHello.Names;
    ReadsPrefixed16(Synth.NameList(names), extra);
    Synth.ReadsNames(names);
  }

  lemma ReadsInside(body: bytes)
    requires !BadVector(body)
    ensures ReadPrefixed16(body) == Got(Inside(body), After(body))
  {
    var n := body[0] as int * 256 + body[1] as int;
    assert body[2..][..n] == body[2..2 + n] && body[2..][n..] == body[2 + n..];
  }

  lemma {:induction false} NoHostFails(list: bytes)
    requires NoHostRead(list)
    ensures HostName(list).None?
    decreases |list|
  {
    hide ReadPrefixed16;
    if CutEntry(list) {
      BadVectorFails(list[1..]);
    } else {
      ReadsInside(list[1..]);
      NoHostFails(After(list[1..]));
    }
  }

  lemma {:induction false} CutNamesFail(list: bytes)
    requires CutNames(list)
    ensures ClientHello.Names(list).None?
    decreases |list|
  {
    if BadShortVector(list) {
      BadShortVectorFails(list);
    } else {
      CutNamesFail(list[1 + list[0]..]);
      assert ReadPrefixed8(list).rest == list[1 + list[0]..];
    }
  }

  /**
   * A list of shares, whole or with the last one cut short: GREASE is noticed either way, groups only if it is whole.
   */
  lemma {:induction false} ReadsShareList(shares: seq<(u16, bytes)>, cut: bytes)
    requires SharesFit(shares) && (cut == [] || CutShort(cut))
    ensures ClientHello.Shares(ShareList(shares) + cut)
         == (if cut == [] then Some(Strip(GroupsOf(shares))) else None, HasGrease(GroupsOf(shares)))
  {
    hide ClientHello.Shares, Prefixed16, U16;
    if shares == [] {
      assert ShareList(shares) + cut == cut;
      NoShares();
      if cut != [] {
        CutShareFails(cut);
      }
    } else {
      var rest := ShareList(shares[1..]) + cut;
      ReadsShareList(shares[1..], cut);
      assert ShareList(shares) + cut == U16(shares[0].0) + Prefixed16(shares[0].1) + rest;
      Synth.SharesStep(shares[0].0, shares[0].1, rest);
      HasGreaseCons(shares[0].0, GroupsOf(shares[1..]));
    }
  }

  lemma CutShareFails(cut: bytes)
    requires CutShort(cut)
    ensures ClientHello.Shares(cut) == (None, false)
  {
    if |cut| >= 2 {
      assert ReadU16(cut).rest == cut[2..];
    }
  }

  lemma NoShares()
    ensures ClientHello.Shares([]) == (Some([]), false) && !HasGrease([])
  {
  }

  lemma ReadsShares(ch: Hello, shares: seq<(u16, bytes)>, cut: bytes, extra: bytes)
    requires |ShareList(shares) + cut| < 0x10000 && SharesFit(shares) && (cut == [] || CutShort(cut))
    ensures KeyShare(ch, Prefixed16(ShareList(shares) + cut) + extra)
         == ch.(keyShareGroups := if cut == [] then Strip(GroupsOf(shares)) else ch.keyShareGroups,
                grease := ch.grease || HasGrease(GroupsOf(shares)))
  {
    hide ReadPrefixed16, Prefixed16, ClientHello.Shares, ShareList, GroupsOf, HasGrease;
    ReadsPrefixed16(ShareList(shares) + cut, extra);
    ReadsShareList(shares, cut);
  }

  lemma ReadsEchOuter(kdf: u16, aead: u16, config: byte, enc: bytes, payload: bytes, extra: bytes)
    requires |enc| < 0x10000 && |payload| < 0x10000
    ensures EchOf([0] + (U16(kdf) + (U16(aead) + ([config] + (Prefixed16(enc) + (Prefixed16(payload) + extra))))))
         == Some(Ech(true, kdf, aead, config))
  {
    hide ReadU16, U16, ReadPrefixed16, Prefixed16;
    var d := Prefixed16(payload) + extra;
    var c := Prefixed16(enc) + d;
    var b := [config] + c;
    var a := U16(aead) + b;
    var body := [0] + (U16(kdf) + a);
    assert body[1..] == U16(kdf) + a;
    ReadsU16(kdf, a);
    ReadsU16(aead, b);
    assert b[1..] == c;
    ReadsPrefixed16(enc, d);
    ReadsPrefixed16(payload, extra);
  }

  lemma ReadsEchInner(rest: bytes)
    ensures EchOf([1] + rest) == Some(Ech(false, 0, 0, 0))
  {
  }

  lemma ReadsEchBroken(body: bytes)
    requires BadEch(body)
    ensures EchOf(body).None?
  {
    hide ReadPrefixed16;
    if |body| >= 6 && body[0] == 0 {
      assert body[1..][2..][2..][1..] == body[6..];
      if BadVector(body[6..]) {
        BadVectorFails(body[6..]);
      } else {
        ReadsInside(body[6..]);
        BadVectorFails(After(body[6..]));
      }
    }
  }

  /** The lists of codepoints. */
  lemma AppliesLists(ch: Hello, e: Ext)
    requires Sound(e) && (e.Versions? || e.Groups? || e.Algorithms? || e.CertAlgorithms?)
    ensures Apply(ch, Code(e), Body(e)) == Add(ch, e)
  {
    hide ReadU16List, ReadU8PrefixedU16List, U16s, Prefixed8, Prefixed16, HasGrease, Strip;
    match e {
      case Versions(vs, extra) => ReadsU8PrefixedU16List(vs, extra);
      case Groups(vs, extra) => ReadsU16List(vs, extra);
      case Algorithms(vs, extra) => ReadsU16List(vs, extra);
      case CertAlgorithms(vs, extra) => ReadsU16List(vs, extra);
    }
  }

  /** The extensions with a structure of their own. */
  lemma AppliesStructures(ch: Hello, e: Ext)
    requires Sound(e) && (e.Names? || e.Protocols? || e.Shares? || e.CutShares? || e.PskModes?)
    ensures Apply(ch, Code(e), Body(e)) == Add(ch, e)
  {
    hide ServerName, ClientHello.Protocols, KeyShare, ReadPrefixed8, Prefixed8, Prefixed16, HasGrease, Strip,
      Synth.NameList,
      EntryList, ShareList, Host, GroupsOf;
    var listed := ch.(extensions := ch.extensions + [Code(e)]);
    match e {
      case Names(entries, unread, extra) => ReadsNames(entries, unread, extra);
      case Protocols(names, extra) => ReadsProtocols(names, extra);
      case Shares(shares, extra) =>
        assert ShareList(shares) + [] == ShareList(shares);
        ReadsShares(listed, shares, [], extra);
      case CutShares(shares, cut, extra) => ReadsShares(listed, shares, cut, extra);
      case PskModes(modes, extra) => ReadsPrefixed8(modes, extra);
    }
  }

  /** Encrypted ClientHello in its two forms. */
  lemma AppliesEch(ch: Hello, e: Ext)
    requires Sound(e) && (e.EchOuter? || e.EchInner?)
    ensures Apply(ch, Code(e), Body(e)) == Add(ch, e)
  {
    hide EchOf, U16, Prefixed16, HasGrease, Strip, ServerName, ClientHello.Protocols, KeyShare, CodepointList,
      ReadPrefixed8;
    match e {
      case EchOuter(kdf, aead, config, enc, payload, extra) => ReadsEchOuter(kdf, aead, config, enc, payload, extra);
      case EchInner(rest) => ReadsEchInner(rest);
    }
  }

  lemma FlagOfCode(f: Flag)
    ensures FlagOf(FlagCode(f)) == Some(f) && !IsGrease(FlagCode(f))
    ensures var t := FlagCode(f);
            && t != 0 && t != 16 && !IsCodepointList(t) && t != 51 && t != 45 && t != 0xfe0d
  {
  }

  /** The extensions of which only presence counts. */
  lemma AppliesPresence(ch: Hello, e: Ext)
    requires Sound(e) && e.Presence?
    ensures Apply(ch, Code(e), Body(e)) == Add(ch, e)
  {
    hide FlagOf, FlagCode, IsGrease, IsCodepointList, EchOf, ServerName, ClientHello.Protocols, KeyShare, CodepointList;
    FlagOfCode(e.flag);
  }

  /** And those that are not looked into. */
  lemma AppliesOther(ch: Hello, e: Ext)
    requires Sound(e) && e.Other?
    ensures Apply(ch, Code(e), Body(e)) == Add(ch, e)
  {
    hide EchOf, ServerName, ClientHello.Protocols, KeyShare, CodepointList, ReadPrefixed8;
  }

  /**
   * A malformed body of a type that is decoded leaves its field alone, except that a broken ECH still counts as one.
   */
  lemma AppliesBroken(ch: Hello, e: Ext)
    requires Sound(e) && e.Broken?
    ensures Apply(ch, Code(e), Body(e)) == Add(ch, e)
  {
    hide EchOf, ReadU16List, ReadU8PrefixedU16List, ReadPrefixed16, ReadPrefixed8, HasGrease, Strip, BadEch, HostName,
      ClientHello.Names, NoHostRead, CutNames;
    var t, body := e.decoded, e.broken;
    if (t == 0 || t == 16 || t == 51) && BadVector(body) {
      BadVectorFails(body);
    } else if t == 0 {
      ReadsInside(body);
      NoHostFails(Inside(body));
    } else if t == 16 {
      ReadsInside(body);
      CutNamesFail(Inside(body));
    } else if t == 10 || t == 13 || t == 50 {
      BadListFails(body);
    } else if t == 43 {
      BadShortListFails(body);
    } else if t == 45 {
      BadShortVectorFails(body);
    } else {
      ReadsEchBroken(body);
    }
  }

  lemma Applies(ch: Hello, e: Ext)
    requires Sound(e)
    ensures Apply(ch, Code(e), Body(e)) == Add(ch, e)
  {
    hide Apply, Add, Sound, Code, Body;
    if e.Versions? || e.Groups? || e.Algorithms? || e.CertAlgorithms? {
      AppliesLists(ch, e);
    } else if e.Names? || e.Protocols? || e.Shares? || e.CutShares? || e.PskModes? {
      AppliesStructures(ch, e);
    } else if e.Broken? {
      AppliesBroken(ch, e);
    } else if e.EchOuter? || e.EchInner? {
      AppliesEch(ch, e);
    } else if e.Presence? {
      AppliesPresence(ch, e);
    } else {
      AppliesOther(ch, e);
    }
  }

  // ---------------------------------------------------------------- any list of extensions

  ghost predicate AllSound(exts: seq<Ext>) {
    forall i :: 0 <= i < |exts| ==> Sound(exts[i])
  }

  function ItemsOf(exts: seq<Ext>): seq<Synth.Item> {
    if exts == [] then [] else [Synth.Item(Code(exts[0]), Body(exts[0]))] + ItemsOf(exts[1..])
  }

  function AddAll(ch: Hello, exts: seq<Ext>): Hello
    decreases |exts|
  {
    if exts == [] then ch else AddAll(Add(ch, exts[0]), exts[1..])
  }

  lemma {:induction false} ItemsApply(ch: Hello, exts: seq<Ext>)
    requires AllSound(exts)
    ensures Synth.ApplyAll(ch, ItemsOf(exts)) == AddAll(ch, exts)
    decreases |exts|
  {
    hide Apply, Add, Sound, Code, Body;
    if exts != [] {
      Applies(ch, exts[0]);
      assert ItemsOf(exts)[1..] == ItemsOf(exts[1..]);
      ItemsApply(Add(ch, exts[0]), exts[1..]);
    }
  }

  lemma {:induction false} ReadsBlock(ch: Hello, items: seq<Synth.Item>, cut: bytes)
    requires forall i :: 0 <= i < |items| ==> |items[i].body| < 0x10000
    requires cut == [] || CutShort(cut)
    ensures var all := Synth.ApplyAll(ch, items);
            Extensions(ch, Synth.Block(items) + cut) == if cut == [] then all else all.(truncated := true)
    decreases |items|
  {
    hide Apply, Synth.PrintItem;
    if items == [] {
      assert Synth.Block(items) + cut == cut;
      ReadsCut(ch, cut);
    } else {
      var rest := Synth.Block(items[1..]) + cut;
      assert Synth.Block(items) + cut == Synth.PrintItem(items[0]) + rest;
      Synth.ExtensionsStep(ch, items[0], rest);
      ReadsBlock(Apply(ch, items[0].typ, items[0].body), items[1..], cut);
    }
  }

  lemma ReadsCut(ch: Hello, cut: bytes)
    requires cut == [] || CutShort(cut)
    ensures Extensions(ch, cut) == if cut == [] then ch else ch.(truncated := true)
  {
    hide Apply;
    if |cut| >= 2 {
      var t := ReadU16(cut);
      assert t.rest == cut[2..];
    }
  }

  // ---------------------------------------------------------------- what each field comes to

  /** What the last extension that speaks of a field says about it. */
  function Said<T>(exts: seq<Ext>, says: Ext -> Option<T>, start: T): T {
    if exts == [] then start
    else
      var last := says(exts[|exts| - 1]);
      if last.Some? then last.value else Said(exts[..|exts| - 1], says, start)
  }

  function Codes(exts: seq<Ext>): seq<u16> {
    if exts == [] then [] else Codes(exts[..|exts| - 1]) + [Code(exts[|exts| - 1])]
  }

  predicate AnyGrease(exts: seq<Ext>) {
    exists i :: 0 <= i < |exts| && ShowsGrease(exts[i])
  }

  function FlagsOf(exts: seq<Ext>): set<Flag> {
    set i | 0 <= i < |exts| && exts[i].Presence? :: exts[i].flag
  }

  function SaysName(e: Ext): Option<bytes> { if e.Names? then Some(Host(e.entries)) else None }
  function SaysAlpn(e: Ext): Option<seq<bytes>> { if e.Protocols? then Some(e.names) else None }
  function SaysVersions(e: Ext): Option<seq<u16>> { if e.Versions? then Some(Strip(e.versions)) else None }
  function SaysGroups(e: Ext): Option<seq<u16>> { if e.Groups? then Some(Strip(e.groups)) else None }
  function SaysAlgs(e: Ext): Option<seq<u16>> { if e.Algorithms? then Some(Strip(e.algorithms)) else None }
  function SaysCertAlgs(e: Ext): Option<seq<u16>> { if e.CertAlgorithms? then Some(Strip(e.certAlgorithms)) else None }
  function SaysShares(e: Ext): Option<seq<u16>> { if e.Shares? then Some(Strip(GroupsOf(e.shares))) else None }
  function SaysModes(e: Ext): Option<bytes> { if e.PskModes? then Some(e.modes) else None }

  /** Every field of the result, each from the extensions of its own type alone. */
  ghost predicate SaysAll(ch: Hello, start: Hello, exts: seq<Ext>) {
    && ch.serverName == Said(exts, SaysName, start.serverName) && ch.alpn == Said(exts, SaysAlpn, start.alpn)
    && ch.supportedVersions == Said(exts, SaysVersions, start.supportedVersions)
    && ch.supportedGroups == Said(exts, SaysGroups, start.supportedGroups)
    && ch.sigAlgs == Said(exts, SaysAlgs, start.sigAlgs)
    && ch.sigAlgsCert == Said(exts, SaysCertAlgs, start.sigAlgsCert)
    && ch.keyShareGroups == Said(exts, SaysShares, start.keyShareGroups)
    && ch.pskModes == Said(exts, SaysModes, start.pskModes)
    && ch.ech == Said(exts, EchSaid, start.ech)
    && SaysRest(ch, start, exts)
  }

  ghost predicate SaysRest(ch: Hello, start: Hello, exts: seq<Ext>) {
    && ch.flags == start.flags + FlagsOf(exts) && ch.grease == (start.grease || AnyGrease(exts))
    && ch.extensions == start.extensions + Strip(Codes(exts))
    && ch.legacyVersion == start.legacyVersion && ch.sessionIdLen == start.sessionIdLen
    && ch.cipherSuites == start.cipherSuites && ch.compression == start.compression
  }

  lemma {:induction false} AddAllSnoc(ch: Hello, exts: seq<Ext>)
    requires exts != []
    ensures AddAll(ch, exts) == Add(AddAll(ch, exts[..|exts| - 1]), exts[|exts| - 1])
    decreases |exts|
  {
    hide Add;
    if |exts| == 1 {
      assert exts[1..] == [] && exts[..0] == [];
    } else {
      var rest := exts[1..];
      AddAllSnoc(Add(ch, exts[0]), rest);
      assert rest[..|rest| - 1] == exts[..|exts| - 1][1..];
    }
  }

  /** What one extension says of the fields that any number of extensions add to. */
  lemma AddRest(ch: Hello, e: Ext)
    ensures var ch', listed := Add(ch, e), Listed(ch, e);
            && ch'.flags == ch.flags + (if e.Presence? then {e.flag} else {}) && ch'.truncated == ch.truncated
            && ch'.grease == listed.grease && ch'.extensions == listed.extensions
            && ch'.legacyVersion == ch.legacyVersion && ch'.sessionIdLen == ch.sessionIdLen
            && ch'.cipherSuites == ch.cipherSuites && ch'.compression == ch.compression
  {
    hide Strip, Host, GroupsOf, EchSaid, Listed;
    ListedKeeps(ch, e);
    assert ch.flags + {} == ch.flags;
  }

  lemma ListedKeeps(ch: Hello, e: Ext)
    ensures Listed(ch, e) == ch.(extensions := Listed(ch, e).extensions, grease := Listed(ch, e).grease)
  {
    hide Code, IsGrease, ShowsGrease;
  }

  function Or<T>(said: Option<T>, was: T): T {
    if said.Some? then said.value else was
  }

  /** And of the fields that the last one of its type decides. */
  lemma AddFields(ch: Hello, e: Ext)
    ensures var ch' := Add(ch, e);
            && ch'.serverName == Or(SaysName(e), ch.serverName) && ch'.alpn == Or(SaysAlpn(e), ch.alpn)
            && ch'.supportedVersions == Or(SaysVersions(e), ch.supportedVersions)
            && ch'.supportedGroups == Or(SaysGroups(e), ch.supportedGroups)
            && ch'.sigAlgs == Or(SaysAlgs(e), ch.sigAlgs) && ch'.sigAlgsCert == Or(SaysCertAlgs(e), ch.sigAlgsCert)
            && ch'.keyShareGroups == Or(SaysShares(e), ch.keyShareGroups)
            && ch'.pskModes == Or(SaysModes(e), ch.pskModes) && ch'.ech == Or(EchSaid(e), ch.ech)
  {
    hide Strip, Host, GroupsOf, ShowsGrease, Code, IsGrease;
  }

  lemma SaidSnoc<T>(exts: seq<Ext>, says: Ext -> Option<T>, start: T)
    requires exts != []
    ensures Said(exts, says, start) == Or(says(exts[|exts| - 1]), Said(exts[..|exts| - 1], says, start))
  {
  }

  lemma SaysRestStep(ch: Hello, start: Hello, exts: seq<Ext>)
    requires exts != [] && SaysRest(ch, start, exts[..|exts| - 1])
    ensures SaysRest(Add(ch, exts[|exts| - 1]), start, exts)
  {
    hide Strip, Add, ShowsGrease, Code, IsGrease, AnyGrease, FlagsOf;
    var n := |exts| - 1;
    var before, e := exts[..n], exts[n];
    AddRest(ch, e);
    StripSnoc(Codes(before), Code(e));
    GreaseSnoc(exts);
    FlagsSnoc(exts);
  }

  lemma SaysFieldsStep(ch: Hello, start: Hello, exts: seq<Ext>)
    requires exts != [] && SaysAll(ch, start, exts[..|exts| - 1]) && SaysRest(Add(ch, exts[|exts| - 1]), start, exts)
    ensures SaysAll(Add(ch, exts[|exts| - 1]), start, exts)
  {
    hide Add, SaysRest, Said, Or, SaysName, SaysAlpn, SaysVersions, SaysGroups, SaysAlgs, SaysCertAlgs, SaysShares,
      SaysModes, EchSaid;
    AddFields(ch, exts[|exts| - 1]);
    SaidSnoc(exts, SaysName, start.serverName);
    SaidSnoc(exts, SaysAlpn, start.alpn);
    SaidSnoc(exts, SaysVersions, start.supportedVersions);
    SaidSnoc(exts, SaysGroups, start.supportedGroups);
    SaidSnoc(exts, SaysAlgs, start.sigAlgs);
    SaidSnoc(exts, SaysCertAlgs, start.sigAlgsCert);
    SaidSnoc(exts, SaysShares, start.keyShareGroups);
    SaidSnoc(exts, SaysModes, start.pskModes);
    SaidSnoc(exts, EchSaid, start.ech);
  }

  lemma RestSaid(ch: Hello, start: Hello, exts: seq<Ext>)
    requires SaysAll(ch, start, exts)
    ensures SaysRest(ch, start, exts)
  {
    hide SaysRest;
  }

  lemma StripSnoc(vs: seq<u16>, v: u16)
    ensures Strip(vs + [v]) == if IsGrease(v) then Strip(vs) else Strip(vs) + [v]
  {
    StripAppend(vs, [v]);
    assert [v][1..] == [];
  }

  lemma GreaseSnoc(exts: seq<Ext>)
    requires exts != []
    ensures AnyGrease(exts) == (AnyGrease(exts[..|exts| - 1]) || ShowsGrease(exts[|exts| - 1]))
  {
    hide ShowsGrease;
    var n := |exts| - 1;
    assert forall i :: 0 <= i < n ==> exts[..n][i] == exts[i];
    if AnyGrease(exts) {
      var i :| 0 <= i < |exts| && ShowsGrease(exts[i]);
      assert i == n || ShowsGrease(exts[..n][i]);
    }
    if AnyGrease(exts[..n]) {
      var i :| 0 <= i < n && ShowsGrease(exts[..n][i]);
      assert ShowsGrease(exts[i]);
    }
  }

  lemma FlagsSnoc(exts: seq<Ext>)
    requires exts != []
    ensures var e := exts[|exts| - 1];
            FlagsOf(exts) == FlagsOf(exts[..|exts| - 1]) + (if e.Presence? then {e.flag} else {})
  {
    var n := |exts| - 1;
    assert forall i :: 0 <= i < n ==> exts[..n][i] == exts[i];
  }

  lemma {:induction false} AddAllSays(start: Hello, exts: seq<Ext>)
    ensures SaysAll(AddAll(start, exts), start, exts) && AddAll(start, exts).truncated == start.truncated
    decreases |exts|
  {
    if exts == [] {
      assert start.extensions + Strip(Codes(exts)) == start.extensions;
    } else {
      hide SaysRest, SaysAll, Add, AddAll;
      AddAllSnoc(start, exts);
      var ch := AddAll(start, exts[..|exts| - 1]);
      AddAllSays(start, exts[..|exts| - 1]);
      RestSaid(ch, start, exts[..|exts| - 1]);
      SaysRestStep(ch, start, exts);
      SaysFieldsStep(ch, start, exts);
      AddRest(ch, exts[|exts| - 1]);
    }
  }

  // ---------------------------------------------------------------- the whole message

  /**
   * What follows the fixed fields: nothing, a length that runs past the end, or a block and whatever comes after it.
   */
  datatype Tail = Absent | Short(short: bytes) | Block(exts: seq<Ext>, cut: bytes, after: bytes)

  datatype Message = Message(
    version: u16, random: bytes, session: bytes, suites: seq<u16>, compression: bytes, tail: Tail)

  function TailBytes(t: Tail): bytes {
    match t
    case Absent => []
    case Short(b) => b
    case Block(exts, cut, after) => Prefixed16(Synth.Block(ItemsOf(exts)) + cut) + after
  }

  ghost predicate TailSound(t: Tail) {
    && (t.Short? ==> t.short != [] && BadVector(t.short))
    && (t.Block? ==> AllSound(t.exts) && (t.cut == [] || CutShort(t.cut)))
    && (t.Block? ==> |Synth.Block(ItemsOf(t.exts)) + t.cut| < 0x10000)
  }

  function Print(m: Message): bytes {
    U16(m.version) + (m.random + (Prefixed8(m.session) + (Prefixed16(U16s(m.suites))
    + (Prefixed8(m.compression) + TailBytes(m.tail)))))
  }

  ghost predicate Printable(m: Message) {
    && |m.random| == 32 && |m.session| < 0x100 && 2 * |m.suites| < 0x10000 && |m.compression| < 0x100
    && TailSound(m.tail)
  }

  /** The fixed fields: the session ID is only measured, GREASE suites are noticed and dropped. */
  predicate FixedFields(ch: Hello, m: Message) {
    && ch.legacyVersion == m.version && ch.sessionIdLen == |m.session| && ch.compression == m.compression
    && ch.cipherSuites == Strip(m.suites) && ch.grease == HasGrease(m.suites)
    && ch.extensions == [] && ch.serverName == [] && ch.alpn == [] && ch.supportedVersions == []
    && ch.supportedGroups == [] && ch.keyShareGroups == [] && ch.sigAlgs == [] && ch.sigAlgsCert == []
    && ch.pskModes == [] && ch.flags == {} && ch.ech.None? && !ch.truncated
  }

  lemma ReadsFixed(m: Message)
    requires Printable(m)
    ensures exists start ::
              FixedFields(start, m) && ParseClientHello(Print(m)) == Ok(WithTail(start, TailBytes(m.tail)))
  {
    hide ReadU16, U16, ReadPrefixed8, Prefixed8, ReadPrefixed16, Prefixed16, ReadBytes, ReadU16List, U16s, Extensions,
      TailBytes, TailSound, Strip, HasGrease;
    var e := TailBytes(m.tail);
    var d := Prefixed8(m.compression) + e;
    var c := Prefixed16(U16s(m.suites)) + d;
    var b := Prefixed8(m.session) + c;
    ReadsU16(m.version, m.random + b);
    ReadsBytes(m.random, b);
    ReadsPrefixed8(m.session, c);
    ReadsU16List(m.suites, d);
    ReadsPrefixed8(m.compression, e);
    assert FixedFields(Fixed(m.version, |m.session|, m.suites, m.compression), m);
  }

  /** The end of the message: extensions are optional, and a block that is cut short still counts for what it has. */
  function WithTail(ch: Hello, tail: bytes): Hello {
    if tail == [] then ch
    else
      var exts := ReadPrefixed16(tail);
      if exts.Fail? then ch.(truncated := true) else Extensions(ch, exts.value)
  }

  lemma {:induction false} ItemsFit(exts: seq<Ext>)
    requires AllSound(exts)
    ensures forall i :: 0 <= i < |ItemsOf(exts)| ==> |ItemsOf(exts)[i].body| < 0x10000
  {
    hide Code, Body;
    if exts != [] {
      assert Sound(exts[0]);
      ItemsFit(exts[1..]);
    }
  }

  function AfterTail(ch: Hello, t: Tail): Hello {
    if t.Absent? then ch
    else if t.Short? then ch.(truncated := true)
    else if t.cut == [] then AddAll(ch, t.exts) else AddAll(ch, t.exts).(truncated := true)
  }

  lemma ReadsTail(ch: Hello, t: Tail)
    requires TailSound(t)
    ensures WithTail(ch, TailBytes(t)) == AfterTail(ch, t)
  {
    hide ReadPrefixed16, Prefixed16, Extensions, Synth.Block, ItemsOf, AddAll, AllSound;
    match t {
      case Absent =>
      case Short(b) => BadVectorFails(b);
      case Block(exts, cut, after) =>
        var block := Synth.Block(ItemsOf(exts)) + cut;
        ReadsPrefixed16(block, after);
        ItemsFit(exts);
        ReadsBlock(ch, ItemsOf(exts), cut);
        ItemsApply(ch, exts);
    }
  }

  /** The extensions of a message, if it has any. */
  function ExtsOf(t: Tail): seq<Ext> {
    if t.Block? then t.exts else []
  }

  /**
   * Every ClientHello that can be laid out so is parsed, and every field of the result is what the message says: the
   * fixed fields as they stand, each list and name from the last well-formed extension of its own type, each flag from
   * its own, and truncation exactly when the end is cut short.
   */
  lemma ParsesMessage(m: Message)
    requires Printable(m)
    ensures ParseClientHello(Print(m)).Ok?
    ensures var ch := ParseClientHello(Print(m)).value;
            && (exists start :: FixedFields(start, m) && SaysAll(ch, start, ExtsOf(m.tail)))
            && (ch.truncated <==> m.tail.Short? || (m.tail.Block? && m.tail.cut != []))
  {
    hide Print, TailBytes, TailSound, SaysRest, AddAll, WithTail;
    ReadsFixed(m);
    var start :| FixedFields(start, m) && ParseClientHello(Print(m)) == Ok(WithTail(start, TailBytes(m.tail)));
    ReadsTail(start, m.tail);
    AddAllSays(start, ExtsOf(m.tail));
    NothingAdded(start);
    var ch := ParseClientHello(Print(m)).value;
    TruncatedSays(AddAll(start, ExtsOf(m.tail)), start, ExtsOf(m.tail));
    assert SaysAll(ch, start, ExtsOf(m.tail));
  }

  lemma NothingAdded(ch: Hello)
    ensures AddAll(ch, []) == ch
  {
  }

  /** Being truncated is said of no extension. */
  lemma TruncatedSays(ch: Hello, start: Hello, exts: seq<Ext>)
    requires SaysAll(ch, start, exts)
    ensures SaysAll(ch.(truncated := true), start, exts)
  {
    hide Strip, Host, GroupsOf, AnyGrease, FlagsOf, Codes;
  }
}
