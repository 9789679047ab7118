/** What `EveryHello` says, for the server's messages. */
module EveryReply {
  import opened Bytes
  import opened Reader
  import opened ServerHello
  import opened ReplyWire
  import ClientHello
  import HelloWire
  import EveryHello
  import ServerSynth
  import Synth

  // ---------------------------------------------------------------- extensions

  lemma FindShare(body: bytes) returns (e: Ext)
    requires 2 <= |body| < 0x10000
    ensures Sound(e) && Code(e) == 51 && Body(e) == body
  {
    hide U16, U16Of, Prefixed16, HelloWire.Inside, HelloWire.After;
    EveryHello.SplitsNumber(body);
    var group, rest := U16Of(body[0], body[1]), body[2..];
    if HelloWire.BadVector(rest) {
      e := Bare(group, rest);
    } else {
      EveryHello.SplitsVector(rest);
      e := Share(group, HelloWire.Inside(rest), HelloWire.After(rest));
    }
  }

  lemma FindProtocols(body: bytes) returns (e: Ext)
    requires |body| < 0x10000 && !BadNames(body)
    ensures Sound(e) && Code(e) == 16 && Body(e) == body
  {
    hide Prefixed16, HelloWire.Inside, HelloWire.After, HelloWire.CutNames, Synth.NameList;
    EveryHello.SplitsVector(body);
    var names := EveryHello.FindNames(HelloWire.Inside(body));
    e := Protocols(names, HelloWire.After(body));
  }

  /** Every extension is one of those that `ReplyWire.Applies` is about. */
  lemma FindExt(t: u16, body: bytes) returns (e: Ext)
    requires |body| < 0x10000
    ensures Sound(e) && Code(e) == t && Body(e) == body
  {
    hide BadNames, Synth.NameList, U16, U16Of;
    if (t == 16 && BadNames(body)) || ((t == 43 || t == 51) && |body| < 2) {
      e := Broken(t, body);
    } else if t == 16 {
      e := FindProtocols(body);
    } else if t == 43 {
      EveryHello.SplitsNumber(body);
      e := Selected(U16Of(body[0], body[1]), body[2..]);
    } else if t == 51 {
      e := FindShare(body);
    } else {
      e := if t == 41 then Psk(body) else Other(t, body);
    }
  }

  lemma ConsBlock(e: Ext, more: seq<Ext>, cut: bytes)
    ensures BlockOf([e] + more) + cut == U16(Code(e)) + (Prefixed16(Body(e)) + (BlockOf(more) + cut))
    ensures Sound(e) && AllSound(more) ==> AllSound([e] + more)
  {
    hide Sound, Code, Body, Prefixed16, U16;
    assert ([e] + more)[1..] == more;
  }

  lemma NoBlock(block: bytes)
    ensures BlockOf([]) + block == block && AllSound([])
  {
  }

  lemma {:induction false} FindBlock(block: bytes) returns (exts: seq<Ext>, cut: bytes)
    ensures BlockOf(exts) + cut == block && AllSound(exts) && (cut == [] || HelloWire.CutShort(cut))
    decreases |block|
  {
    hide Sound, Code, Body, Prefixed16, U16, U16Of, BlockOf, AllSound, HelloWire.Inside, HelloWire.After;
    if block == [] || HelloWire.CutShort(block) {
      NoBlock(block);
      return [], block;
    }
    EveryHello.SplitsNumber(block);
    EveryHello.SplitsVector(block[2..]);
    var e := FindExt(U16Of(block[0], block[1]), HelloWire.Inside(block[2..]));
    var more;
    more, cut := FindBlock(HelloWire.After(block[2..]));
    exts := [e] + more;
    ConsBlock(e, more, cut);
  }

  // ---------------------------------------------------------------- messages

  lemma FindTail(b: bytes) returns (t: Tail)
    ensures TailSound(t) && TailBytes(t) == b
  {
    hide Prefixed16, BlockOf, AllSound, HelloWire.Inside, HelloWire.After;
    if b == [] {
      t := Absent;
    } else if HelloWire.BadVector(b) {
      t := Short(b);
    } else {
      EveryHello.SplitsVector(b);
      var exts, cut := FindBlock(HelloWire.Inside(b));
      t := Block(exts, cut, HelloWire.After(b));
    }
  }

  /**
   * On any bytes: accepted when version, random, session ID, suite and compression are there, and truncated otherwise.
   */
  lemma RefusedAs(body: bytes)
    ensures ParseServerHello(body).Ok?
      <==> EveryHello.SessionFits(body) && |EveryHello.AfterSession(body)| >= 3
    ensures ParseServerHello(body).Err? ==> ParseServerHello(body).error == ClientHello.Truncated
  {
    hide ServerHello.Extensions, RETRY_RANDOM;
    if |body| >= 35 {
      var random := ReadBytes(ReadU16(body).rest, 32);
      assert random.rest == body[34..];
      if EveryHello.SessionFits(body) {
        assert ReadPrefixed8(random.rest).rest == EveryHello.AfterSession(body);
      }
    }
  }

  lemma FindMessage(body: bytes) returns (m: Message)
    requires ParseServerHello(body).Ok?
    ensures Printable(m) && Print(m) == body
  {
    hide ParseServerHello, U16, U16Of, Prefixed8, TailBytes, TailSound;
    RefusedAs(body);
    EveryHello.SplitsFront(body);
    var rest := EveryHello.AfterSession(body);
    EveryHello.SplitsNumber(rest);
    var tail := FindTail(rest[3..]);
    assert rest[2..] == [rest[2]] + rest[3..];
    m := Message(U16Of(body[0], body[1]), body[2..34], body[35..35 + body[34]], U16Of(rest[0], rest[1]), rest[2], tail);
  }

  /** A ServerHello is accepted if and only if it is laid out as `ReplyWire.ParsesMessage` has it. */
  lemma AcceptedIff(body: bytes)
    ensures ParseServerHello(body).Ok? <==> exists m :: Printable(m) && Print(m) == body
  {
    hide ParseServerHello, Print, Printable;
    if ParseServerHello(body).Ok? {
      var m := FindMessage(body);
    }
    forall m | Printable(m) && Print(m) == body
      ensures ParseServerHello(body).Ok?
    {
      ParsesMessage(m);
    }
  }

  // ---------------------------------------------------------------- certificates

  function Length24(b: bytes): nat
    requires |b| >= 3
  {
    b[0] as int * 65536 + b[1] as int * 256 + b[2] as int
  }

  lemma SplitsLong(b: bytes)
    requires |b| >= 3 && Length24(b) <= |b| - 3
    ensures b == ServerSynth.Prefixed24(b[3..3 + Length24(b)]) + b[3 + Length24(b)..] && Length24(b) < 0x100_0000
  {
    assert U24(Length24(b)) == [b[0], b[1], b[2]];
  }

  lemma {:induction false} FindChain(list: bytes) returns (chain: seq<bytes>, cut: bytes)
    ensures ServerSynth.DerList(chain) + cut == list && (cut == [] || CertCut(cut))
    decreases |list|
  {
    if list == [] || CertCut(list) {
      return [], list;
    }
    SplitsLong(list);
    hide ServerSynth.Prefixed24;
    var more;
    more, cut := FindChain(list[3 + Length24(list)..]);
    chain := [list[3..3 + Length24(list)]] + more;
    assert chain[1..] == more;
  }

  /** Every Certificate message is one of those that `ReplyWire.ReadsChain` and `CutMessage` are about. */
  lemma EveryChain(body: bytes) returns (chain: seq<bytes>, cut: bytes, after: bytes)
    requires |body| >= 3 && Length24(body) <= |body| - 3
    ensures |ServerSynth.DerList(chain) + cut| < 0x100_0000 && (cut == [] || CertCut(cut))
    ensures body == ServerSynth.Prefixed24(ServerSynth.DerList(chain) + cut) + after
  {
    SplitsLong(body);
    hide ServerSynth.Prefixed24, ServerSynth.DerList;
    after := body[3 + Length24(body)..];
    chain, cut := FindChain(body[3..3 + Length24(body)]);
  }
}
