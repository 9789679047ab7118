/**
 * The layouts of `HelloWire` and `ReplyWire` leave nothing out: whatever bytes arrive, a hello that is accepted is laid
 * out in one of those ways, so what is said there about each field is said of every accepted message.
 */
module EveryHello {
  import opened Bytes
  import opened Reader
  import opened ClientHello
  import opened HelloWire
  import Synth

  // ---------------------------------------------------------------- vectors and lists

  lemma SplitsVector(body: bytes)
    requires !BadVector(body)
    ensures body == Prefixed16(Inside(body)) + After(body) && |Inside(body)| < 0x10000
  {
    var n := body[0] as int * 256 + body[1] as int;
    assert U16(n) == [body[0], body[1]];
  }

  lemma SplitsShortVector(body: bytes)
    requires !BadShortVector(body)
    ensures body == Prefixed8(body[1..1 + body[0]]) + body[1 + body[0]..]
  {
  }

  lemma {:induction false} SplitsPairs(list: bytes)
    requires |list| % 2 == 0
    ensures U16s(Pairs(list)) == list
    decreases |list|
  {
    hide U16, U16Of;
    if list != [] {
      SplitsPairs(list[2..]);
      SplitsNumber(list);
      assert Pairs(list)[1..] == Pairs(list[2..]);
    }
  }

  lemma ConsEntry(e: (byte, bytes), more: seq<(byte, bytes)>)
    ensures EntryList([e] + more) == [e.0] + (Prefixed16(e.1) + EntryList(more))
  {
    hide Prefixed16;
    assert ([e] + more)[1..] == more;
  }

  lemma PrependEntry(e: (byte, bytes), more: seq<(byte, bytes)>, unread: bytes, list: bytes)
    requires list == [e.0] + (Prefixed16(e.1) + (EntryList(more) + unread)) && |list| < 0x10000
    requires |e.1| < 0x10000 && forall i :: 0 <= i < |more| ==> |more[i].1| < 0x10000
    requires unread == [] || e.0 == 0 || HasHost(more)
    ensures NamesFit([e] + more, unread) && EntryList([e] + more) + unread == list
  {
    hide EntryList, Prefixed16;
    ConsEntry(e, more);
    var entries := [e] + more;
    assert EntryList(entries) + unread == list;
    if e.0 == 0 {
      assert entries[0].0 == 0;
    } else if HasHost(more) {
      var i :| 0 <= i < |more| && more[i].0 == 0;
      assert entries[i + 1].0 == 0;
    }
  }

  lemma {:induction false} FindEntries(list: bytes) returns (entries: seq<(byte, bytes)>, unread: bytes)
    requires |list| < 0x10000 && !NoHostRead(list)
    ensures NamesFit(entries, unread) && EntryList(entries) + unread == list
    decreases |list|
  {
    hide EntryList, Prefixed16, Inside, After, HasHost;
    if list == [] {
      NoEntries();
      return [], [];
    }
    var rest := After(list[1..]);
    SplitsVector(list[1..]);
    var more: seq<(byte, bytes)>;
    if list[0] == 0 {
      NoEntries();
      more, unread := [], rest;
    } else {
      more, unread := FindEntries(rest);
    }
    var e := (list[0], Inside(list[1..]));
    assert list == [list[0]] + list[1..];
    PrependEntry(e, more, unread, list);
    entries := [e] + more;
  }

  lemma NoEntries()
    ensures EntryList([]) == []
  {
  }

  lemma {:induction false} FindNames(list: bytes) returns (names: seq<bytes>)
    requires !CutNames(list)
    ensures Synth.NameList(names) == list && forall i :: 0 <= i < |names| ==> |names[i]| < 0x100
    decreases |list|
  {
    if list == [] {
      return [];
    }
    SplitsShortVector(list);
    var more := FindNames(list[1 + list[0]..]);
    hide Prefixed8;
    names := [list[1..1 + list[0]]] + more;
    assert names[1..] == more;
  }

  lemma SplitsNumber(b: bytes)
    requires |b| >= 2
    ensures b == U16(U16Of(b[0], b[1])) + b[2..]
  {
    assert U16(U16Of(b[0], b[1])) == [b[0], b[1]];
  }

  lemma ConsShare(e: (u16, bytes), more: seq<(u16, bytes)>)
    ensures ShareList([e] + more) == U16(e.0) + (Prefixed16(e.1) + ShareList(more))
  {
    hide Prefixed16, U16;
    assert ([e] + more)[1..] == more;
  }

  lemma NoShares(list: bytes)
    ensures ShareList([]) + list == list
  {
  }

  lemma {:induction false} FindShares(list: bytes) returns (shares: seq<(u16, bytes)>, cut: bytes)
    ensures ShareList(shares) + cut == list && SharesFit(shares) && (cut == [] || CutShort(cut))
    decreases |list|
  {
    hide ShareList, Prefixed16, U16, U16Of, Inside, After;
    if list == [] || CutShort(list) {
      NoShares(list);
      return [], list;
    }
    var more;
    more, cut := FindShares(After(list[2..]));
    var share := (U16Of(list[0], list[1]), Inside(list[2..]));
    SplitsNumber(list);
    SplitsVector(list[2..]);
    shares := [share] + more;
    ConsShare(share, more);
  }

  // ---------------------------------------------------------------- extensions

  /** A list of whole codepoints. */
  predicate ListFits(rest: bytes) {
    !BadVector(rest) && rest[1] % 2 == 0
  }

  lemma SplitsList(rest: bytes)
    requires ListFits(rest)
    ensures |Inside(rest)| % 2 == 0
    ensures 2 * |Pairs(Inside(rest))| < 0x10000 && rest == Prefixed16(U16s(Pairs(Inside(rest)))) + After(rest)
  {
    SplitsVector(rest);
    SplitsPairs(Inside(rest));
    hide Prefixed16, After;
  }

  lemma FindList(t: u16, body: bytes) returns (e: Ext)
    requires |body| < 0x10000 && (t == 10 || t == 13 || t == 50) && !DoesNotDecode(t, body)
    ensures Sound(e) && Code(e) == t && Body(e) == body
  {
    hide Pairs, U16s, Inside, After, Prefixed16;
    SplitsList(body);
    var vs, extra := Pairs(Inside(body)), After(body);
    e := if t == 10 then Groups(vs, extra) else if t == 13 then Algorithms(vs, extra) else CertAlgorithms(vs, extra);
  }

  lemma FindShortList(body: bytes) returns (e: Ext)
    requires |body| < 0x10000 && !DoesNotDecode(43, body)
    ensures Sound(e) && Code(e) == 43 && Body(e) == body
  {
    SplitsShortVector(body);
    SplitsPairs(body[1..1 + body[0]]);
    hide Prefixed8;
    e := Versions(Pairs(body[1..1 + body[0]]), body[1 + body[0]..]);
  }

  lemma FindNamed(t: u16, body: bytes) returns (e: Ext)
    requires |body| < 0x10000 && (t == 0 || t == 16 || t == 51) && !DoesNotDecode(t, body)
    ensures Sound(e) && Code(e) == t && Body(e) == body
  {
    SplitsVector(body);
    var list, extra := Inside(body), After(body);
    hide Inside, After, Prefixed16, NoHostRead, CutNames, EntryList, Synth.NameList, ShareList;
    if t == 0 {
      var entries, unread := FindEntries(list);
      e := Names(entries, unread, extra);
    } else if t == 16 {
      var names := FindNames(list);
      e := Protocols(names, extra);
    } else {
      var shares, cut := FindShares(list);
      assert cut == [] ==> ShareList(shares) + cut == ShareList(shares);
      e := if cut == [] then Shares(shares, extra) else CutShares(shares, cut, extra);
    }
  }

  lemma SplitsEch(body: bytes)
    requires |body| >= 6
    ensures body
            == [body[0]] + (U16(U16Of(body[1], body[2])) + (U16(U16Of(body[3], body[4])) + ([body[5]] + body[6..])))
  {
    SplitsNumber(body[1..]);
    SplitsNumber(body[3..]);
    hide U16, U16Of;
    assert body[1..][2..] == body[3..] && body[3..][2..] == body[5..];
    assert body[5..] == [body[5]] + body[6..];
  }

  lemma FindEch(body: bytes) returns (e: Ext)
    requires |body| < 0x10000 && !BadEch(body)
    ensures Sound(e) && Code(e) == 0xfe0d && Body(e) == body
  {
    hide U16, U16Of, Prefixed16, Inside, After;
    if body[0] == 1 {
      assert body == [1] + body[1..];
      return EchInner(body[1..]);
    }
    SplitsEch(body);
    var kdf, aead, config := U16Of(body[1], body[2]), U16Of(body[3], body[4]), body[5];
    var enc, rest := Inside(body[6..]), After(body[6..]);
    SplitsVector(body[6..]);
    SplitsVector(rest);
    e := EchOuter(kdf, aead, config, enc, Inside(rest), After(rest));
  }

  lemma FindFlag(t: u16) returns (f: Flag)
    requires t == 41 || t == 42 || t == 35 || t == 23 || t == 0xff01 || t == 5 || t == 57
    ensures FlagCode(f) == t
  {
    f := if t == 41 then PreSharedKey else if t == 42 then EarlyData else if t == 35 then SessionTicket
         else if t == 23 then ExtendedMasterSecret else if t == 0xff01 then RenegotiationInfo
         else if t == 5 then StatusRequest else Quic;
  }

  /** Every extension is one of those that `HelloWire.Applies` is about. */
  lemma FindExt(t: u16, body: bytes) returns (e: Ext)
    requires |body| < 0x10000
    ensures Sound(e) && Code(e) == t && Body(e) == body
  {
    if DoesNotDecode(t, body) {
      e := Broken(t, body);
    } else if t == 0 || t == 16 || t == 51 {
      e := FindNamed(t, body);
    } else if t == 10 || t == 13 || t == 50 {
      e := FindList(t, body);
    } else if t == 43 {
      e := FindShortList(body);
    } else if t == 45 {
      SplitsShortVector(body);
      hide Prefixed8;
      e := PskModes(body[1..1 + body[0]], body[1 + body[0]..]);
    } else if t == 0xfe0d {
      e := FindEch(body);
    } else if !Known(t) {
      e := Other(t, body);
    } else {
      var f := FindFlag(t);
      e := Presence(f, body);
    }
  }

  lemma ConsBlock(e: Ext, more: seq<Ext>, cut: bytes)
    ensures Synth.Block(ItemsOf([e] + more)) + cut
         == U16(Code(e)) + (Prefixed16(Body(e)) + (Synth.Block(ItemsOf(more)) + cut))
    ensures Sound(e) && AllSound(more) ==> AllSound([e] + more)
  {
    hide Sound, Code, Body, Prefixed16, U16;
    assert ([e] + more)[1..] == more;
    assert ItemsOf([e] + more)[1..] == ItemsOf(more);
  }

  lemma NoBlock(block: bytes)
    ensures Synth.Block(ItemsOf([])) + block == block && AllSound([])
  {
  }

  lemma {:induction false} FindBlock(block: bytes) returns (exts: seq<Ext>, cut: bytes)
    ensures Synth.Block(ItemsOf(exts)) + cut == block && AllSound(exts) && (cut == [] || CutShort(cut))
    decreases |block|
  {
    hide Sound, Code, Body, Prefixed16, U16, U16Of, Synth.Block, ItemsOf, AllSound, Inside, After;
    if block == [] || CutShort(block) {
      NoBlock(block);
      return [], block;
    }
    SplitsNumber(block);
    SplitsVector(block[2..]);
    var e := FindExt(U16Of(block[0], block[1]), Inside(block[2..]));
    var more;
    more, cut := FindBlock(After(block[2..]));
    exts := [e] + more;
    ConsBlock(e, more, cut);
  }

  // ---------------------------------------------------------------- messages

  lemma FindTail(b: bytes) returns (t: Tail)
    ensures TailSound(t) && TailBytes(t) == b
  {
    hide Prefixed16, Synth.Block, ItemsOf, AllSound, Inside, After;
    if b == [] {
      t := Absent;
    } else if BadVector(b) {
      t := Short(b);
    } else {
      SplitsVector(b);
      var exts, cut := FindBlock(Inside(b));
      t := Block(exts, cut, After(b));
    }
  }

  /** Version, random and session ID are there. */
  predicate SessionFits(body: bytes) {
    |body| >= 35 && !BadShortVector(body[34..])
  }

  function AfterSession(body: bytes): bytes
    requires SessionFits(body)
  {
    body[35 + body[34]..]
  }

  lemma FrontReads(body: bytes)
    ensures if |body| < 2 then ReadU16(body).Fail? else ReadU16(body) == Got(U16Of(body[0], body[1]), body[2..])
    ensures |body| >= 2 ==> ReadBytes(body[2..], 32).Got? == (|body| >= 34)
    ensures |body| >= 34 ==> ReadBytes(body[2..], 32).rest == body[34..]
    ensures |body| >= 34 ==> ReadPrefixed8(body[34..]).Got? == SessionFits(body)
    ensures SessionFits(body) ==> ReadPrefixed8(body[34..]).rest == AfterSession(body)
  {
  }

  lemma ListReads(rest: bytes)
    ensures ReadU16List(rest).Got? == ListFits(rest)
    ensures ListFits(rest) ==> ReadU16List(rest).rest == After(rest)
  {
    hide Pairs;
    if !BadVector(rest) {
      ReadsInside(rest);
    }
  }

  lemma ShortReads(b: bytes)
    ensures ReadPrefixed8(b).Fail? <==> BadShortVector(b)
  {
  }

  /** Which error a message is refused with, on any bytes: the suites are malformed, or something else is missing. */
  lemma RefusedAs(body: bytes)
    ensures ParseClientHello(body) == Err(Malformed) <==> SessionFits(body) && !ListFits(AfterSession(body))
    ensures ParseClientHello(body) == Err(Truncated)
      <==> !SessionFits(body) || (ListFits(AfterSession(body)) && BadShortVector(After(AfterSession(body))))
  {
    hide Extensions, Fixed, ReadU16, ReadBytes, ReadPrefixed8, ReadPrefixed16, ReadU16List, ListFits, BadShortVector;
    FrontReads(body);
    if SessionFits(body) {
      ListReads(AfterSession(body));
      if ListFits(AfterSession(body)) {
        ListVector(AfterSession(body));
        ShortReads(After(AfterSession(body)));
      }
    }
  }

  lemma ListVector(rest: bytes)
    requires ListFits(rest)
    ensures !BadVector(rest)
  {
  }

  lemma SplitsFront(body: bytes)
    requires SessionFits(body)
    ensures body == U16(U16Of(body[0], body[1]))
                    + (body[2..34] + (Prefixed8(body[35..35 + body[34]]) + AfterSession(body)))
  {
    SplitsNumber(body);
    SplitsShortVector(body[34..]);
    hide U16, U16Of, Prefixed8;
    assert body[34..][1..1 + body[34]] == body[35..35 + body[34]];
    assert body[2..] == body[2..34] + body[34..];
  }

  lemma FindMessage(body: bytes) returns (m: Message)
    requires ParseClientHello(body).Ok?
    ensures Printable(m) && Print(m) == body
  {
    hide ParseClientHello, U16, U16Of, Prefixed8, Prefixed16, U16s, TailBytes, TailSound, Inside, After, Pairs;
    RefusedAs(body);
    SplitsFront(body);
    var rest := AfterSession(body);
    SplitsList(rest);
    var more := After(rest);
    SplitsShortVector(more);
    var tail := FindTail(more[1 + more[0]..]);
    m := Message(U16Of(body[0], body[1]), body[2..34], body[35..35 + body[34]], Pairs(Inside(rest)),
                 more[1..1 + more[0]], tail);
  }

  /** A ClientHello is accepted if and only if it is laid out as `HelloWire.ParsesMessage` has it. */
  lemma AcceptedIff(body: bytes)
    ensures ParseClientHello(body).Ok? <==> exists m :: Printable(m) && Print(m) == body
  {
    hide ParseClientHello, Print, Printable;
    if ParseClientHello(body).Ok? {
      var m := FindMessage(body);
    }
    forall m | Printable(m) && Print(m) == body
      ensures ParseClientHello(body).Ok?
    {
      ParsesMessage(m);
    }
  }
}
