/** ClientHello decoding (internal/tlsparse/clienthello.go and extensions.go). */
module ClientHello {
  import opened Bytes
  import opened Reader
  import opened Grease

  const SERVER_NAME: u16 := 0
  const STATUS_REQUEST: u16 := 5
  const SUPPORTED_GROUPS: u16 := 10
  const SIGNATURE_ALGORITHMS: u16 := 13
  const ALPN: u16 := 16
  const EXTENDED_MASTER_SECRET: u16 := 23
  const SESSION_TICKET: u16 := 35
  const PRE_SHARED_KEY: u16 := 41
  const EARLY_DATA: u16 := 42
  const SUPPORTED_VERSIONS: u16 := 43
  const PSK_KEY_EXCHANGE_MODES: u16 := 45
  const SIGNATURE_ALGORITHMS_CERT: u16 := 50
  const KEY_SHARE: u16 := 51
  const QUIC_TRANSPORT_PARAMS: u16 := 57
  const ENCRYPTED_CLIENT_HELLO: u16 := 0xfe0d
  const RENEGOTIATION_INFO: u16 := 0xff01

  datatype Ech = Ech(outer: bool, kdf: u16, aead: u16, config: byte)

  datatype Hello = Hello(
    legacyVersion: u16,
    sessionIdLen: nat,
    cipherSuites: seq<u16>,
    compression: bytes,
    extensions: seq<u16>,
    serverName: bytes,
    alpn: seq<bytes>,
    supportedVersions: seq<u16>,
    supportedGroups: seq<u16>,
    keyShareGroups: seq<u16>,
    sigAlgs: seq<u16>,
    sigAlgsCert: seq<u16>,
    pskModes: bytes,
    flags: set<Flag>,
    ech: Option<Ech>,
    grease: bool,
    truncated: bool)

  /** The extensions of which only presence is recorded. */
  datatype Flag = PreSharedKey | EarlyData | SessionTicket | ExtendedMasterSecret
                | RenegotiationInfo | StatusRequest | Quic

  datatype Error = Truncated | Malformed
  datatype Result<+T> = Ok(value: T) | Err(error: Error)

  // ---------------------------------------------------------------- single extensions

  /** The first host_name entry of a server name list; the empty name when there is none; `None` when malformed. */
  function HostName(list: bytes): Option<bytes>
    decreases |list|
  {
    if list == [] then Some([])
    else
      var t := ReadU8(list);
      var name := ReadPrefixed16(t.rest);
      if name.Fail? then None
      else if t.value == 0 then Some(name.value)
      else HostName(name.rest)
  }

  function ServerName(body: bytes): Option<bytes> {
    var list := ReadPrefixed16(body);
    if list.Fail? then None else HostName(list.value)
  }

  method ParseServerName(body: bytes) returns (name: Option<bytes>)
    ensures name == ServerName(body)
  {
    var p := ReadPrefixed16(body);
    if p.Fail? {
      return None;
    }
    var list := p.value;
    while list != []
      invariant HostName(p.value) == HostName(list)
      decreases |list|
    {
      var t := ReadU8(list);
      var n := ReadPrefixed16(t.rest);
      if n.Fail? {
        return None;
      }
      if t.value == 0 {
        return Some(n.value);
      }
      list := n.rest;
    }
    return Some([]);
  }

  /** Every name of a protocol name list; `None` when one is cut short. */
  function Names(list: bytes): Option<seq<bytes>>
    decreases |list|
  {
    if list == [] then Some([])
    else
      var name := ReadPrefixed8(list);
      if name.Fail? then None
      else
        var more := Names(name.rest);
        if more.None? then None else Some([name.value] + more.value)
  }

  function Protocols(body: bytes): Option<seq<bytes>> {
    var list := ReadPrefixed16(body);
    if list.Fail? then None else Names(list.value)
  }

  method ParseAlpn(body: bytes) returns (names: Option<seq<bytes>>)
    ensures names == Protocols(body)
  {
    var p := ReadPrefixed16(body);
    if p.Fail? {
      return None;
    }
    var list, out := p.value, [];
    while list != []
      invariant Names(p.value).None? == Names(list).None?
      invariant Names(list).Some? ==> Names(p.value).value == out + Names(list).value
      decreases |list|
    {
      var name := ReadPrefixed8(list);
      if name.Fail? {
        return None;
      }
      if Names(name.rest).Some? {
        assert out + ([name.value] + Names(name.rest).value) == out + [name.value] + Names(name.rest).value;
      }
      out, list := out + [name.value], name.rest;
    }
    assert out + [] == out;
    return Some(out);
  }

  /** The groups of a key share list that are not GREASE (`None` when malformed), and whether GREASE came by first. */
  function Shares(shares: bytes): (r: (Option<seq<u16>>, bool))
    decreases |shares|
  {
    if shares == [] then (Some([]), false)
    else
      var group := ReadU16(shares);
      if group.Fail? || ReadPrefixed16(group.rest).Fail? then (None, false)
      else
        var (more, grease) := Shares(ReadPrefixed16(group.rest).rest);
        if IsGrease(group.value) then (more, true)
        else (if more.None? then None else Some([group.value] + more.value), grease)
  }

  function KeyShare(ch: Hello, body: bytes): Hello {
    var p := ReadPrefixed16(body);
    if p.Fail? then ch
    else
      var (groups, grease) := Shares(p.value);
      ch.(grease := ch.grease || grease, keyShareGroups := if groups.None? then ch.keyShareGroups else groups.value)
  }

  method ParseKeyShare(input: Hello, body: bytes) returns (ch: Hello)
    ensures ch == KeyShare(input, body)
  {
    ch := input;
    var p := ReadPrefixed16(body);
    if p.Fail? {
      return;
    }
    var shares, groups := p.value, [];
    while shares != []
      invariant ch == input.(grease := ch.grease)
      invariant (ch.grease || Shares(shares).1) == (input.grease || Shares(p.value).1)
      invariant Shares(p.value).0.None? == Shares(shares).0.None?
      invariant Shares(shares).0.Some? ==> Shares(p.value).0.value == groups + Shares(shares).0.value
      decreases |shares|
    {
      var group := ReadU16(shares);
      if group.Fail? || ReadPrefixed16(group.rest).Fail? {
        return;
      }
      var rest := ReadPrefixed16(group.rest).rest;
      if IsGrease(group.value) {
        ch := ch.(grease := true);
      } else {
        if Shares(rest).0.Some? {
          assert groups + ([group.value] + Shares(rest).0.value) == groups + [group.value] + Shares(rest).0.value;
        }
        groups := groups + [group.value];
      }
      shares := rest;
    }
    assert groups + [] == groups;
    ch := ch.(keyShareGroups := groups);
  }

  /** The outer form names its suite and config id and carries two vectors; the inner form is a lone 1. */
  function EchOf(body: bytes): Option<Ech> {
    var kind := ReadU8(body);
    if kind.Fail? then None
    else if kind.value == 1 then Some(Ech(false, 0, 0, 0))
    else if kind.value != 0 then None
    else
      var kdf := ReadU16(kind.rest);
      if kdf.Fail? then None else
      var aead := ReadU16(kdf.rest);
      if aead.Fail? then None else
      var config := ReadU8(aead.rest);
      if config.Fail? then None else
      var enc := ReadPrefixed16(config.rest);
      if enc.Fail? || ReadPrefixed16(enc.rest).Fail? then None
      else Some(Ech(true, kdf.value, aead.value, config.value))
  }

  /** The codepoint lists, each read whole and stripped of GREASE; a malformed one leaves the field alone. */
  function CodepointList(ch: Hello, t: u16, body: bytes): Hello {
    if t == SUPPORTED_VERSIONS then
      var vs := ReadU8PrefixedU16List(body);
      if vs.Fail? then ch
      else ch.(supportedVersions := Strip(vs.value), grease := ch.grease || HasGrease(vs.value))
    else
      var vs := ReadU16List(body);
      if vs.Fail? then ch
      else if t == SUPPORTED_GROUPS then
        ch.(supportedGroups := Strip(vs.value), grease := ch.grease || HasGrease(vs.value))
      else if t == SIGNATURE_ALGORITHMS then ch.(sigAlgs := Strip(vs.value), grease := ch.grease || HasGrease(vs.value))
      else if t == SIGNATURE_ALGORITHMS_CERT then ch.(sigAlgsCert := Strip(vs.value))
      else ch
  }

  predicate IsCodepointList(t: u16) {
    t == SUPPORTED_VERSIONS || t == SUPPORTED_GROUPS || t == SIGNATURE_ALGORITHMS || t == SIGNATURE_ALGORITHMS_CERT
  }

  /** The flag an extension type raises, if it is one of the presence-only ones. */
  function FlagOf(t: u16): Option<Flag> {
    if t == PRE_SHARED_KEY then Some(PreSharedKey)
    else if t == EARLY_DATA then Some(EarlyData)
    else if t == SESSION_TICKET then Some(SessionTicket)
    else if t == EXTENDED_MASTER_SECRET then Some(ExtendedMasterSecret)
    else if t == RENEGOTIATION_INFO then Some(RenegotiationInfo)
    else if t == STATUS_REQUEST then Some(StatusRequest)
    else if t == QUIC_TRANSPORT_PARAMS then Some(Quic)
    else None
  }

  /** The `switch` over one extension that is not GREASE. */
  function Decode(ch: Hello, t: u16, body: bytes): Hello {
    if t == SERVER_NAME then
      var name := ServerName(body);
      if name.None? then ch else ch.(serverName := name.value)
    else if t == ALPN then
      var names := Protocols(body);
      if names.None? then ch else ch.(alpn := names.value)
    else if IsCodepointList(t) then CodepointList(ch, t, body)
    else if t == KEY_SHARE then KeyShare(ch, body)
    else if t == PSK_KEY_EXCHANGE_MODES then
      var modes := ReadPrefixed8(body);
      if modes.Fail? then ch else ch.(pskModes := modes.value)
    else if t == ENCRYPTED_CLIENT_HELLO then
      ch.(ech := if EchOf(body).Some? then EchOf(body) else Some(Ech(true, 0, 0, 0)))
    else if FlagOf(t).Some? then ch.(flags := ch.flags + {FlagOf(t).value})
    else ch
  }

  /** One extension: GREASE is only noticed, anything else is listed and then decoded. */
  function Apply(ch: Hello, t: u16, body: bytes): Hello {
    if IsGrease(t) then ch.(grease := true)
    else Decode(ch.(extensions := ch.extensions + [t]), t, body)
  }

  // ---------------------------------------------------------------- the whole message

  function Extensions(ch: Hello, exts: bytes): Hello
    decreases |exts|
  {
    if exts == [] then ch
    else
      var t := ReadU16(exts);
      if t.Fail? || ReadPrefixed16(t.rest).Fail? then ch.(truncated := true)
      else
        var body := ReadPrefixed16(t.rest);
        Extensions(Apply(ch, t.value, body.value), body.rest)
  }

  method ParseExtensions(input: Hello, block: bytes) returns (ch: Hello)
    ensures ch == Extensions(input, block)
  {
    hide Apply;
    ch := input;
    var exts := block;
    while exts != []
      invariant Extensions(input, block) == Extensions(ch, exts)
      decreases |exts|
    {
      var t := ReadU16(exts);
      if t.Fail? || ReadPrefixed16(t.rest).Fail? {
        ch := ch.(truncated := true);
        return;
      }
      var body := ReadPrefixed16(t.rest);
      ch, exts := Apply(ch, t.value, body.value), body.rest;
    }
  }

  /** The fixed fields, before any extension. */
  function Fixed(version: u16, sessionIdLen: nat, suites: seq<u16>, compression: bytes): Hello {
    Hello(version, sessionIdLen, Strip(suites), compression, [], [], [], [], [], [], [], [], [], {}, None,
          HasGrease(suites), false)
  }

  function ParseClientHello(body: bytes): Result<Hello> {
    var version := ReadU16(body);
    if version.Fail? then Err(Truncated) else
    var random := ReadBytes(version.rest, 32);
    if random.Fail? then Err(Truncated) else
    var session := ReadPrefixed8(random.rest);
    if session.Fail? then Err(Truncated) else
    var suites := ReadU16List(session.rest);
    if suites.Fail? then Err(Malformed) else
    var compression := ReadPrefixed8(suites.rest);
    if compression.Fail? then Err(Truncated) else
    var ch := Fixed(version.value, |session.value|, suites.value, compression.value);
    if compression.rest == [] then Ok(ch)
    else
      var exts := ReadPrefixed16(compression.rest);
      Ok(if exts.Fail? then ch.(truncated := true) else Extensions(ch, exts.value))
  }

  /** The largest value of a list, zero when it is empty. */
  function Largest(vs: seq<u16>): u16 {
    if vs == [] then 0
    else
      var before, last := Largest(vs[..|vs| - 1]), vs[|vs| - 1];
      if last > before then last else before
  }

  /** `NegotiatedVersion`: the highest version offered, or the legacy field when none is. */
  function Negotiated(ch: Hello): u16 {
    if Largest(ch.supportedVersions) != 0 then Largest(ch.supportedVersions) else ch.legacyVersion
  }

  method NegotiatedVersion(ch: Hello) returns (max: u16)
    ensures max == Negotiated(ch)
    ensures (exists v :: v in ch.supportedVersions && v != 0) ==>
              max in ch.supportedVersions && forall v :: v in ch.supportedVersions ==> v <= max
    ensures (forall v :: v in ch.supportedVersions ==> v == 0) ==> max == ch.legacyVersion
  {
    var vs := ch.supportedVersions;
    max := 0;
    for i := 0 to |vs|
      invariant max == Largest(vs[..i])
      invariant forall j :: 0 <= j < i ==> vs[j] <= max
      invariant max == 0 || max in vs
    {
      assert vs[..i + 1][..i] == vs[..i];
      if vs[i] > max {
        max := vs[i];
      }
    }
    assert vs[..|vs|] == vs;
    if max != 0 {
      return;
    }
    max := ch.legacyVersion;
  }

  // ---------------------------------------------------------------- no GREASE survives

  /** Every 16-bit list of the record is free of GREASE. */
  predicate GreaseFree(ch: Hello) {
    && !HasGrease(ch.cipherSuites) && !HasGrease(ch.extensions)
    && !HasGrease(ch.supportedVersions) && !HasGrease(ch.supportedGroups) && !HasGrease(ch.keyShareGroups)
    && !HasGrease(ch.sigAlgs) && !HasGrease(ch.sigAlgsCert)
  }

  lemma {:induction false} SharesGreaseFree(shares: bytes)
    ensures Shares(shares).0.Some? ==> !HasGrease(Shares(shares).0.value)
    decreases |shares|
  {
    if shares != [] {
      var group := ReadU16(shares);
      if group.Got? && ReadPrefixed16(group.rest).Got? {
        var rest := ReadPrefixed16(group.rest).rest;
        SharesGreaseFree(rest);
        if Shares(rest).0.Some? {
          HasGreaseCons(group.value, Shares(rest).0.value);
        }
      }
    }
  }

  lemma CodepointListGreaseFree(ch: Hello, t: u16, body: bytes)
    requires GreaseFree(ch)
    ensures GreaseFree(CodepointList(ch, t, body))
  {
    hide HasGrease, Strip, ReadU8PrefixedU16List, ReadU16List;
    var v8, v16 := ReadU8PrefixedU16List(body), ReadU16List(body);
    if v8.Got? { StripIsGreaseFree(v8.value); }
    if v16.Got? { StripIsGreaseFree(v16.value); }
  }

  lemma KeyShareGreaseFree(ch: Hello, body: bytes)
    requires GreaseFree(ch)
    ensures GreaseFree(KeyShare(ch, body))
  {
    hide HasGrease, Shares, ReadPrefixed16;
    if ReadPrefixed16(body).Got? {
      SharesGreaseFree(ReadPrefixed16(body).value);
    }
  }

  lemma ApplyGreaseFree(ch: Hello, t: u16, body: bytes)
    requires GreaseFree(ch)
    ensures GreaseFree(Apply(ch, t, body))
  {
    if !IsGrease(t) {
      var es := ch.extensions + [t];
      assert !HasGrease(es);
      hide HasGrease, CodepointList, KeyShare, ServerName, Protocols, EchOf, ReadPrefixed8;
      var ch' := ch.(extensions := es);
      assert GreaseFree(ch');
      CodepointListGreaseFree(ch', t, body);
      KeyShareGreaseFree(ch', body);
    } else {
      hide HasGrease;
    }
  }

  lemma {:induction false} ExtensionsGreaseFree(ch: Hello, exts: bytes)
    requires GreaseFree(ch)
    ensures GreaseFree(Extensions(ch, exts))
    decreases |exts|
  {
    hide Apply, HasGrease;
    if exts != [] {
      var t := ReadU16(exts);
      if t.Got? && ReadPrefixed16(t.rest).Got? {
        var body := ReadPrefixed16(t.rest);
        ApplyGreaseFree(ch, t.value, body.value);
        ExtensionsGreaseFree(Apply(ch, t.value, body.value), body.rest);
      }
    }
  }

  /** On arbitrary bytes, no list a parsed ClientHello exposes holds a value reserved by RFC 8701. */
  lemma ParsedIsGreaseFree(body: bytes)
    ensures ParseClientHello(body).Ok? ==> GreaseFree(ParseClientHello(body).value)
  {
    hide Extensions, HasGrease, Strip, ReadU16List, ReadPrefixed8, ReadPrefixed16, ReadBytes, ReadU16;
    if ParseClientHello(body).Ok? {
      var session := ReadPrefixed8(ReadBytes(ReadU16(body).rest, 32).rest);
      var suites := ReadU16List(session.rest);
      var compression := ReadPrefixed8(suites.rest);
      StripIsGreaseFree(suites.value);
      EmptyIsGreaseFree();
      var ch := Fixed(ReadU16(body).value, |session.value|, suites.value, compression.value);
      assert GreaseFree(ch);
      var exts := ReadPrefixed16(compression.rest);
      if exts.Got? {
        ExtensionsGreaseFree(ch, exts.value);
      }
    }
  }

  lemma EmptyIsGreaseFree()
    ensures !HasGrease([])
  {
  }
}
