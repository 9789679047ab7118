/** Splitting a macOS BPF read buffer into packets (`nextBPFPacket` of internal/capture/live_darwin.go). */
module Bpf {
  import opened Bytes

  const HEADER_FIELDS := 18

  /** `bpfWordAlign`: up to the next multiple of four. */
  function Align(x: nat): (y: nat)
    ensures x <= y < x + 4 && y % 4 == 0
  {
    (x + 3) / 4 * 4
  }

  /** Least significant byte first, as on the machines this runs on. */
  function Little(n: nat, v: nat): (b: bytes)
    ensures |b| == n
  {
    if n == 0 then [] else [v % 256] + Little(n - 1, v / 256)
  }

  function LittleValue(b: bytes): nat {
    if b == [] then 0 else b[0] + 256 * LittleValue(b[1..])
  }

  lemma {:induction false} LittleRoundTrip(n: nat, v: nat)
    requires v < Pow256(n)
    ensures LittleValue(Little(n, v)) == v
  {
    if n > 0 {
      LittleRoundTrip(n - 1, v / 256);
      assert Little(n, v)[1..] == Little(n - 1, v / 256);
    }
  }

  /** A 32-bit field read as signed. */
  function Signed(v: nat): int {
    if v >= 0x8000_0000 then v - 0x1_0000_0000 else v
  }

  function Unsigned(v: int): nat
    requires -0x8000_0000 <= v < 0x8000_0000
  {
    if v < 0 then v + 0x1_0000_0000 else v
  }

  /** One captured packet: when, how long it was on the wire, and the bytes kept of it. */
  datatype Packet = Packet(sec: int, usec: int, wireLen: nat, data: bytes)

  /** The packet at the front and what is left, or `None` at the end of what the buffer holds whole. */
  function Next(buf: bytes): (r: Option<(Packet, bytes)>)
    ensures r.Some? ==> |r.value.1| < |buf| && exists at: nat :: SlicedAt(buf, at, r.value.0.data, r.value.1)
  {
    if |buf| < HEADER_FIELDS then None
    else
      var hdrLen := LittleValue(buf[16..18]);
      var end := hdrLen + LittleValue(buf[8..12]);
      if hdrLen < HEADER_FIELDS || end > |buf| then None
      else
        var rest := if Align(end) >= |buf| then [] else buf[Align(end)..];
        assert SlicedAt(buf, hdrLen, buf[hdrLen..end], rest);
        Some((Packet(Signed(LittleValue(buf[0..4])), Signed(LittleValue(buf[4..8])), LittleValue(buf[12..16]),
                     buf[hdrLen..end]),
              rest))
  }

  /** `data` is the slice of the buffer at `at`, behind a header, and `rest` is the end of the buffer after it. */
  predicate SlicedAt(buf: bytes, at: nat, data: bytes, rest: bytes) {
    && HEADER_FIELDS <= at && at + |data| + |rest| <= |buf|
    && data == buf[at..at + |data|] && rest == buf[|buf| - |rest|..]
  }

  function Split(buf: bytes): seq<Packet>
    decreases |buf|
  {
    var n := Next(buf);
    if n.None? then [] else [n.value.0] + Split(n.value.1)
  }

  /** The reading loop: what `Next` hands out until the read buffer is used up. */
  method ReadBuffer(buf: bytes) returns (out: seq<Packet>)
    ensures out == Split(buf)
  {
    hide Next;
    out := [];
    var pending := buf;
    while |pending| > 0
      invariant out + Split(pending) == Split(buf)
      decreases |pending|
    {
      var n := Next(pending);
      if n.None? {
        pending := [];
        break;
      }
      assert out + ([n.value.0] + Split(n.value.1)) == out + [n.value.0] + Split(n.value.1);
      out, pending := out + [n.value.0], n.value.1;
    }
    assert |pending| == 0;
    NextOfNothing();
  }

  lemma NextOfNothing()
    ensures Next([]).None?
  {
  }

  // ---------------------------------------------------------------- how the kernel lays packets out

  /** A packet with the padding its header carries and the padding after it. */
  datatype Laid = Laid(packet: Packet, headerPad: bytes, fill: bytes)

  predicate Fits(l: Laid) {
    && -0x8000_0000 <= l.packet.sec < 0x8000_0000 && -0x8000_0000 <= l.packet.usec < 0x8000_0000
    && l.packet.wireLen < 0x1_0000_0000 && |l.packet.data| < 0x1_0000_0000
    && HEADER_FIELDS + |l.headerPad| < 0x1_0000
  }

  function Extent(l: Laid): nat {
    HEADER_FIELDS + |l.headerPad| + |l.packet.data|
  }

  function Fields(l: Laid): (b: bytes)
    requires Fits(l)
    ensures |b| == HEADER_FIELDS
  {
    Little(4, Unsigned(l.packet.sec)) + Little(4, Unsigned(l.packet.usec)) + Little(4, |l.packet.data|)
    + Little(4, l.packet.wireLen) + Little(2, HEADER_FIELDS + |l.headerPad|)
  }

  function Lay(l: Laid): (b: bytes)
    requires Fits(l)
    ensures |b| == Extent(l) + |l.fill|
  {
    Fields(l) + l.headerPad + l.packet.data + l.fill
  }

  /** Every packet is padded to a word boundary; after the last one there may be less padding, or none. */
  ghost predicate WellLaid(ls: seq<Laid>) {
    && (forall i :: 0 <= i < |ls| ==> Fits(ls[i]))
    && (forall i :: 0 <= i < |ls| - 1 ==> Extent(ls[i]) + |ls[i].fill| == Align(Extent(ls[i])))
    && (ls != [] ==> Extent(ls[|ls| - 1]) + |ls[|ls| - 1].fill| <= Align(Extent(ls[|ls| - 1])))
  }

  function LayAll(ls: seq<Laid>): bytes
    requires forall i :: 0 <= i < |ls| ==> Fits(ls[i])
  {
    if ls == [] then [] else Lay(ls[0]) + LayAll(ls[1..])
  }

  function Packets(ls: seq<Laid>): seq<Packet> {
    if ls == [] then [] else [ls[0].packet] + Packets(ls[1..])
  }

  lemma Powers()
    ensures Pow256(2) == 0x1_0000 && Pow256(4) == 0x1_0000_0000
  {
    assert Pow256(2) == 256 * Pow256(1) == 65536 * Pow256(0);
    assert Pow256(4) == 256 * Pow256(3) == 65536 * Pow256(2);
  }

  /** The five fields of a laid-out header read back. */
  lemma FieldsRead(l: Laid, buf: bytes)
    requires Fits(l) && |buf| >= HEADER_FIELDS && buf[..HEADER_FIELDS] == Fields(l)
    ensures Signed(LittleValue(buf[0..4])) == l.packet.sec && Signed(LittleValue(buf[4..8])) == l.packet.usec
    ensures LittleValue(buf[8..12]) == |l.packet.data| && LittleValue(buf[12..16]) == l.packet.wireLen
    ensures LittleValue(buf[16..18]) == HEADER_FIELDS + |l.headerPad|
  {
    hide LittleValue, Little;
    FieldSlices(l, buf);
    Powers();
    LittleRoundTrip(4, Unsigned(l.packet.sec));
    LittleRoundTrip(4, Unsigned(l.packet.usec));
    LittleRoundTrip(4, |l.packet.data|);
    LittleRoundTrip(4, l.packet.wireLen);
    LittleRoundTrip(2, HEADER_FIELDS + |l.headerPad|);
  }

  lemma FieldSlices(l: Laid, buf: bytes)
    requires Fits(l) && |buf| >= HEADER_FIELDS && buf[..HEADER_FIELDS] == Fields(l)
    ensures buf[0..4] == Little(4, Unsigned(l.packet.sec)) && buf[4..8] == Little(4, Unsigned(l.packet.usec))
    ensures buf[8..12] == Little(4, |l.packet.data|) && buf[12..16] == Little(4, l.packet.wireLen)
    ensures buf[16..18] == Little(2, HEADER_FIELDS + |l.headerPad|)
  {
    hide Little;
    var f := Fields(l);
    assert buf[0..4] == f[0..4] && buf[4..8] == f[4..8] && buf[8..12] == f[8..12] && buf[12..16] == f[12..16]
           && buf[16..18] == f[16..18];
  }

  /** A laid-out packet in front of `rest`: it is taken off whole, and `rest` is left if it starts on the boundary. */
  lemma NextOfLaid(l: Laid, rest: bytes)
    requires Fits(l)
    requires if rest == [] then Extent(l) + |l.fill| <= Align(Extent(l)) else Extent(l) + |l.fill| == Align(Extent(l))
    ensures Next(Lay(l) + rest) == Some((l.packet, rest))
  {
    hide LittleValue, Fields;
    var buf := Lay(l) + rest;
    var hdrLen := HEADER_FIELDS + |l.headerPad|;
    assert buf[..HEADER_FIELDS] == Fields(l);
    FieldsRead(l, buf);
    assert buf[hdrLen..Extent(l)] == l.packet.data;
    assert rest != [] ==> buf[Align(Extent(l))..] == rest;
  }

  /** Whatever was laid out comes back out: the same packets, in the same order, and nothing else. */
  lemma {:induction false} SplitInvertsLayout(ls: seq<Laid>)
    requires WellLaid(ls)
    ensures Split(LayAll(ls)) == Packets(ls)
    decreases |ls|
  {
    hide Next, Lay;
    if ls == [] {
      NextOfNothing();
    } else {
      var rest := LayAll(ls[1..]);
      assert |ls| > 1 ==> rest != [] by {
        if |ls| > 1 { assert ls[1..][0] == ls[1]; }
      }
      NextOfLaid(ls[0], rest);
      assert forall i :: 0 <= i < |ls[1..]| ==> ls[1..][i] == ls[i + 1];
      SplitInvertsLayout(ls[1..]);
    }
  }
}
