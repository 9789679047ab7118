/** QUIC variable-length integers (section 16 of RFC 9000): the decoder and the independent encoder. */
module Varint {
  import opened Bytes

  /** Values and encoded lengths a read can produce. */
  datatype Read = NoVarint | Varint(value: nat, n: nat)

  /** `1 << (first >> 6)`: the length announced by the top two bits. */
  function EncodedLen(first: byte): (n: nat)
    ensures n == 1 || n == 2 || n == 4 || n == 8
  {
    if first < 64 then 1 else if first < 128 then 2 else if first < 192 then 4 else 8
  }

  /** What `readVarint` returns on `b`: the low six bits of the first byte followed by the rest of the encoding. */
  function ReadVarint(b: bytes): (r: Read)
    ensures r.Varint? ==> 0 < r.n <= |b| && r.n <= 8
  {
    if |b| == 0 || |b| < EncodedLen(b[0]) then NoVarint
    else
      var n := EncodedLen(b[0]);
      Varint(Value([b[0] % 64] + b[1..n]), n)
  }

  method Decode(b: bytes) returns (value: nat, n: nat, ok: bool)
    ensures ok == ReadVarint(b).Varint?
    ensures ok ==> ReadVarint(b) == Varint(value, n)
    ensures !ok ==> value == 0 && n == 0
  {
    hide Value;
    if |b| == 0 {
      return 0, 0, false;
    }
    n := EncodedLen(b[0]);
    if |b| < n {
      return 0, 0, false;
    }
    value := b[0] % 64;
    ValueOne(value);
    assert [b[0] % 64] + b[1..1] == [value];
    for i := 1 to n
      invariant value == Value([b[0] % 64] + b[1..i])
    {
      assert [b[0] % 64] + b[1..i+1] == [b[0] % 64] + b[1..i] + [b[i]];
      ValueSnoc([b[0] % 64] + b[1..i], b[i]);
      value := value * 256 + b[i];
    }
    return value, n, true;
  }

  const MAX_VARINT: nat := 0x4000_0000_0000_0000

  /** `quicVarint`: the shortest of the four forms that holds `v`, its length in the top two bits. */
  function Encode(v: nat): (b: bytes)
    requires v < MAX_VARINT
    ensures 0 < |b| <= 8
  {
    if v < 0x40 then [v]
    else if v < 0x4000 then BigEndian(2, v + 0x4000)
    else if v < 0x4000_0000 then BigEndian(4, v + 0x8000_0000)
    else BigEndian(8, v + 0xc000_0000_0000_0000)
  }

  /** The length tag `k` in the top two bits of an `n`-byte number. */
  function Tag(n: nat, k: nat): nat
    requires n > 0
  {
    if n == 1 then 64 * k else 256 * Tag(n - 1, k)
  }

  /** One more byte on the right does not touch the tag. */
  lemma UntagStep(c: bytes, x: byte, b: bytes)
    requires c != [] && b == c + [x]
    ensures b[0] == c[0] && Value([b[0] % 64] + b[1..]) == Value([c[0] % 64] + c[1..]) * 256 + x
  {
    assert [b[0] % 64] + b[1..] == ([c[0] % 64] + c[1..]) + [x];
    ValueSnoc([c[0] % 64] + c[1..], x);
  }

  /** Masking the tag bits off an encoding leaves the value: what the decoder's mask relies on. */
  lemma {:induction false} Untag(n: nat, v: nat, k: nat)
    requires n > 0 && k < 4 && v < 64 * Pow256(n - 1)
    ensures var b := BigEndian(n, v + Tag(n, k));
            b[0] / 64 == k && Value([b[0] % 64] + b[1..]) == v
  {
    var w := v + Tag(n, k);
    var b := BigEndian(n, w);
    if n == 1 {
      assert BigEndian(0, w / 256) == [];
      assert b == [w];
      assert [b[0] % 64] + b[1..] == [v];
      ValueSnoc([], v);
      assert [] + [v] == [v];
    } else {
      assert w / 256 == v / 256 + Tag(n - 1, k) && w % 256 == v % 256;
      Untag(n - 1, v / 256, k);
      UntagStep(BigEndian(n - 1, w / 256), v % 256, b);
    }
  }

  lemma Constants()
    ensures Pow256(1) == 0x100 && Pow256(3) == 0x100_0000 && Pow256(7) == 0x100_0000_0000_0000
    ensures Tag(2, 1) == 0x4000 && Tag(4, 2) == 0x8000_0000 && Tag(8, 3) == 0xc000_0000_0000_0000
  {
    assert Pow256(3) == 256 * Pow256(2) == 65536 * Pow256(1);
    assert Pow256(5) == 256 * Pow256(4) == 65536 * Pow256(3);
    assert Pow256(7) == 256 * Pow256(6) == 65536 * Pow256(5);
    assert Tag(4, 2) == 256 * Tag(3, 2) == 65536 * Tag(2, 2);
    assert Tag(4, 3) == 256 * Tag(3, 3) == 65536 * Tag(2, 3);
    assert Tag(6, 3) == 256 * Tag(5, 3) == 65536 * Tag(4, 3);
    assert Tag(8, 3) == 256 * Tag(7, 3) == 65536 * Tag(6, 3);
  }

  /** Every value below 2^62 survives the wire, whatever follows it. */
  lemma RoundTrip(v: nat, rest: bytes)
    requires v < MAX_VARINT
    ensures ReadVarint(Encode(v) + rest) == Varint(v, |Encode(v)|)
  {
    var e := Encode(v);
    if v < 0x40 {
      assert [(e + rest)[0] % 64] + (e + rest)[1..1] == [] + [v];
      ValueSnoc([], v);
    } else {
      Constants();
      var n := if v < 0x4000 then 2 else if v < 0x4000_0000 then 4 else 8;
      Untag(n, v, if v < 0x4000 then 1 else if v < 0x4000_0000 then 2 else 3);
      assert (e + rest)[1..n] == e[1..];
    }
  }

  /** No read exceeds 62 bits, and the encoder's form is never longer than the form that was read. */
  lemma ShortestForm(b: bytes)
    requires ReadVarint(b).Varint?
    ensures ReadVarint(b).value < MAX_VARINT
    ensures |Encode(ReadVarint(b).value)| <= ReadVarint(b).n
  {
    Constants();
    assert Pow256(0) == 1;
    ValueBound([b[0] % 64] + b[1..EncodedLen(b[0])]);
  }
}
