/** ServerHello decoding (internal/tlsparse/serverhello.go). */
module ServerHello {
  import opened Bytes
  import opened Reader
  import opened Grease
  import opened ClientHello

  /** Where a negotiated group was read from. */
  datatype Source = NoSource | FromKeyShare | FromServerKeyExchange

  datatype Reply = Reply(
    legacyVersion: u16,
    cipherSuite: u16,
    compression: byte,
    extensions: seq<u16>,
    selectedVersion: u16,
    group: u16,
    source: Source,
    alpn: bytes,
    isRetry: bool,
    hasPreSharedKey: bool,
    flightComplete: bool,
    chain: seq<bytes>,
    truncated: bool)

  /** The Random that marks a HelloRetryRequest (section 4.1.3 of RFC 8446). */
  const RETRY_RANDOM: bytes := [
    0xcf, 0x21, 0xad, 0x74, 0xe5, 0x9a, 0x61, 0x11, 0xbe, 0x1d, 0x8c, 0x02, 0x1e, 0x65, 0xb8, 0x91,
    0xc2, 0xa2, 0x11, 0x16, 0x7a, 0xbb, 0x8c, 0x5e, 0x07, 0x9e, 0x09, 0xe2, 0xc8, 0xa8, 0x33, 0x9c]

  /** The version in force: supported_versions when present, the legacy field otherwise. */
  function Version(sh: Reply): u16 {
    if sh.selectedVersion != 0 then sh.selectedVersion else sh.legacyVersion
  }

  /** Negotiated as TLS 1.3 or later, by the extension that says so or by the version field in its absence. */
  predicate Tls13(sh: Reply) {
    if sh.selectedVersion == 0 then sh.legacyVersion >= 0x0304 else sh.selectedVersion >= 0x0304
  }

  /** A HelloRetryRequest carries a bare group, a ServerHello a whole entry. */
  function KeyShareOf(sh: Reply, body: bytes): Reply {
    var group := ReadU16(body);
    if group.Fail? || (!sh.isRetry && ReadPrefixed16(group.rest).Fail?) then sh
    else sh.(group := group.value, source := FromKeyShare)
  }

  function Decode(sh: Reply, t: u16, body: bytes): Reply {
    if t == SUPPORTED_VERSIONS then
      var v := ReadU16(body);
      if v.Fail? then sh else sh.(selectedVersion := v.value)
    else if t == KEY_SHARE then KeyShareOf(sh, body)
    else if t == ALPN then
      var names := Protocols(body);
      if names.None? || names.value == [] then sh else sh.(alpn := names.value[0])
    else if t == PRE_SHARED_KEY then sh.(hasPreSharedKey := true)
    else sh
  }

  function Extensions(sh: Reply, exts: bytes): Reply
    decreases |exts|
  {
    if exts == [] then sh
    else
      var t := ReadU16(exts);
      if t.Fail? || ReadPrefixed16(t.rest).Fail? then sh.(truncated := true)
      else
        var body := ReadPrefixed16(t.rest);
        Extensions(if IsGrease(t.value) then sh
                   else Decode(sh.(extensions := sh.extensions + [t.value]), t.value, body.value),
                   body.rest)
  }

  function Fixed(version: u16, random: bytes, suite: u16, compression: byte): Reply {
    Reply(version, suite, compression, [], 0, 0, NoSource, [], random == RETRY_RANDOM, false, false, [], false)
  }

  function ParseServerHello(body: bytes): Result<Reply> {
    var version := ReadU16(body);
    if version.Fail? then Err(Truncated) else
    var random := ReadBytes(version.rest, 32);
    if random.Fail? then Err(Truncated) else
    var session := ReadPrefixed8(random.rest);
    if session.Fail? then Err(Truncated) else
    var suite := ReadU16(session.rest);
    if suite.Fail? then Err(Truncated) else
    var compression := ReadU8(suite.rest);
    if compression.Fail? then Err(Truncated) else
    var sh := Fixed(version.value, random.value, suite.value, compression.value);
    if compression.rest == [] then Ok(sh)
    else
      var exts := ReadPrefixed16(compression.rest);
      Ok(if exts.Fail? then sh.(truncated := true) else Extensions(sh, exts.value))
  }

  method ParseExtensions(input: Reply, block: bytes) returns (sh: Reply)
    ensures sh == Extensions(input, block)
  {
    hide Decode;
    sh := input;
    var exts := block;
    while exts != []
      invariant Extensions(input, block) == Extensions(sh, exts)
      decreases |exts|
    {
      var t := ReadU16(exts);
      if t.Fail? || ReadPrefixed16(t.rest).Fail? {
        sh := sh.(truncated := true);
        return;
      }
      var body := ReadPrefixed16(t.rest);
      exts := body.rest;
      if IsGrease(t.value) {
        continue;
      }
      sh := Decode(sh.(extensions := sh.extensions + [t.value]), t.value, body.value);
    }
  }

  lemma DecodeKeeps(sh: Reply, t: u16, body: bytes)
    ensures Decode(sh, t, body).chain == sh.chain && Decode(sh, t, body).isRetry == sh.isRetry
    ensures Decode(sh, t, body).extensions == sh.extensions && Decode(sh, t, body).flightComplete == sh.flightComplete
  {
    hide Protocols, ReadU16, ReadPrefixed16;
  }

  lemma {:induction false} ExtensionsKeep(sh: Reply, exts: bytes)
    ensures Extensions(sh, exts).chain == sh.chain && Extensions(sh, exts).isRetry == sh.isRetry
    ensures Extensions(sh, exts).flightComplete == sh.flightComplete
    ensures !HasGrease(sh.extensions) ==> !HasGrease(Extensions(sh, exts).extensions)
    decreases |exts|
  {
    hide Decode;
    if exts != [] {
      var t := ReadU16(exts);
      if t.Got? && ReadPrefixed16(t.rest).Got? {
        var body := ReadPrefixed16(t.rest);
        if IsGrease(t.value) {
          ExtensionsKeep(sh, body.rest);
        } else {
          var listed := sh.(extensions := sh.extensions + [t.value]);
          DecodeKeeps(listed, t.value, body.value);
          ExtensionsKeep(Decode(listed, t.value, body.value), body.rest);
        }
      }
    }
  }

  /**
   * On arbitrary bytes: a parsed ServerHello lists no GREASE extension, carries no certificate chain of its own and no
   * end of flight, and is a HelloRetryRequest exactly when its Random is the reserved one.
   */
  lemma ParsedReply(body: bytes)
    requires ParseServerHello(body).Ok?
    ensures var sh := ParseServerHello(body).value;
            && sh.chain == [] && !sh.flightComplete && !HasGrease(sh.extensions)
            && |body| >= 34 && sh.isRetry == (body[2..34] == RETRY_RANDOM)
  {
    hide Extensions, ReadPrefixed8, ReadPrefixed16, RETRY_RANDOM;
    var random := ReadBytes(ReadU16(body).rest, 32);
    assert random.value == body[2..34];
    var suite := ReadU16(ReadPrefixed8(random.rest).rest);
    var compression := ReadU8(suite.rest);
    var sh := Fixed(ReadU16(body).value, random.value, suite.value, compression.value);
    var exts := ReadPrefixed16(compression.rest);
    if exts.Got? {
      ExtensionsKeep(sh, exts.value);
    }
  }

  /** A parsed ServerHello has its group from a key_share extension, if it has one. */
  lemma ParsedSource(body: bytes)
    requires ParseServerHello(body).Ok?
    ensures ParseServerHello(body).value.source != FromServerKeyExchange
  {
    hide Extensions, ReadPrefixed8, ReadPrefixed16, RETRY_RANDOM;
    var random := ReadBytes(ReadU16(body).rest, 32);
    var suite := ReadU16(ReadPrefixed8(random.rest).rest);
    var compression := ReadU8(suite.rest);
    var sh := Fixed(ReadU16(body).value, random.value, suite.value, compression.value);
    var exts := ReadPrefixed16(compression.rest);
    if exts.Got? {
      ExtensionsSource(sh, exts.value);
    }
  }

  lemma {:induction false} ExtensionsSource(sh: Reply, exts: bytes)
    requires sh.source != FromServerKeyExchange
    ensures Extensions(sh, exts).source != FromServerKeyExchange
    decreases |exts|
  {
    hide Protocols;
    if exts != [] {
      var t := ReadU16(exts);
      if t.Got? && ReadPrefixed16(t.rest).Got? {
        var body := ReadPrefixed16(t.rest);
        if IsGrease(t.value) {
          ExtensionsSource(sh, body.rest);
        } else {
          ExtensionsSource(Decode(sh.(extensions := sh.extensions + [t.value]), t.value, body.value), body.rest);
        }
      }
    }
  }

  /** The named curve of an ECDHE ServerKeyExchange; other key exchanges have another shape. */
  function KeyExchangeGroup(body: bytes): Option<u16> {
    var kind := ReadU8(body);
    if kind.Fail? || kind.value != 3 then None
    else
      var group := ReadU16(kind.rest);
      if group.Fail? then None else Some(group.value)
  }

  /** Certificates up to the first one cut short. */
  function Certificates(list: bytes): seq<bytes>
    decreases |list|
  {
    var cert := ReadPrefixed24(list);
    if cert.Fail? then [] else [cert.value] + Certificates(cert.rest)
  }

  /** Whether a certificate list was cut short. */
  predicate CutShort(list: bytes)
    decreases |list|
  {
    list != [] && (ReadPrefixed24(list).Fail? || CutShort(ReadPrefixed24(list).rest))
  }

  /** `ParseCertificateChain`: a chain cut short still counts when anything was read. */
  function CertificateChain(body: bytes): Option<seq<bytes>> {
    var list := ReadPrefixed24(body);
    if list.Fail? || (CutShort(list.value) && Certificates(list.value) == []) then None
    else Some(Certificates(list.value))
  }

  method ParseCertificateChain(body: bytes) returns (chain: seq<bytes>, ok: bool)
    ensures ok == CertificateChain(body).Some?
    ensures ok ==> chain == CertificateChain(body).value
  {
    hide ReadPrefixed24;
    var p := ReadPrefixed24(body);
    if p.Fail? {
      return [], false;
    }
    var list := p.value;
    chain := [];
    while list != []
      invariant chain + Certificates(list) == Certificates(p.value)
      invariant CutShort(list) == CutShort(p.value)
      decreases |list|
    {
      var cert := ReadPrefixed24(list);
      if cert.Fail? {
        assert chain + [] == chain;
        return chain, |chain| > 0;
      }
      assert chain + ([cert.value] + Certificates(cert.rest)) == chain + [cert.value] + Certificates(cert.rest);
      chain, list := chain + [cert.value], cert.rest;
    }
    assert chain + [] == chain;
    return chain, true;
  }
}
