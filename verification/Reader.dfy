/** Reading and building length-prefixed fields, as golang.org/x/crypto/cryptobyte does. */
module Reader {
  import opened Bytes

  /** What one read takes off the front of a string, and what it leaves. */
  datatype Read<+T> = Fail | Got(value: T, rest: bytes)

  function ReadU8(s: bytes): (r: Read<byte>)
    ensures r.Got? ==> |r.rest| < |s|
  {
    if |s| < 1 then Fail else Got(s[0], s[1..])
  }

  function ReadU16(s: bytes): (r: Read<u16>)
    ensures r.Got? ==> |r.rest| < |s|
  {
    if |s| < 2 then Fail else Got(U16Of(s[0], s[1]), s[2..])
  }

  function ReadBytes(s: bytes, n: nat): (r: Read<bytes>)
    ensures r.Got? ==> |r.rest| <= |s|
  {
    if |s| < n then Fail else Got(s[..n], s[n..])
  }

  function ReadPrefixed8(s: bytes): (r: Read<bytes>)
    ensures r.Got? ==> |r.rest| < |s|
  {
    if |s| < 1 then Fail else ReadBytes(s[1..], s[0])
  }

  function ReadPrefixed16(s: bytes): (r: Read<bytes>)
    ensures r.Got? ==> |r.rest| < |s|
  {
    if |s| < 2 then Fail else ReadBytes(s[2..], U16Of(s[0], s[1]))
  }

  function ReadPrefixed24(s: bytes): (r: Read<bytes>)
    ensures r.Got? ==> |r.rest| < |s|
  {
    if |s| < 3 then Fail else ReadBytes(s[3..], U24Of(s[0], s[1], s[2]))
  }

  function Prefixed8(b: bytes): (p: bytes)
    ensures |p| == 1 + |b|
  {
    [|b| % 256] + b
  }

  function Prefixed16(b: bytes): (p: bytes)
    ensures |p| == 2 + |b|
  {
    U16(|b|) + b
  }

  lemma ReadsU16(v: u16, rest: bytes)
    ensures ReadU16(U16(v) + rest) == Got(v, rest)
  {
    assert (U16(v) + rest)[2..] == rest;
  }

  lemma ReadsBytes(b: bytes, rest: bytes)
    ensures ReadBytes(b + rest, |b|) == Got(b, rest)
  {
    assert (b + rest)[..|b|] == b && (b + rest)[|b|..] == rest;
  }

  lemma ReadsPrefixed8(b: bytes, rest: bytes)
    requires |b| < 0x100
    ensures ReadPrefixed8(Prefixed8(b) + rest) == Got(b, rest)
  {
    assert (Prefixed8(b) + rest)[1..] == b + rest;
    ReadsBytes(b, rest);
  }

  lemma ReadsPrefixed16(b: bytes, rest: bytes)
    requires |b| < 0x10000
    ensures ReadPrefixed16(Prefixed16(b) + rest) == Got(b, rest)
  {
    assert (Prefixed16(b) + rest)[2..] == b + rest;
    ReadsBytes(b, rest);
  }

  // ---------------------------------------------------------------- lists of 16-bit values

  function U16s(vs: seq<u16>): (b: bytes)
    ensures |b| == 2 * |vs|
  {
    if vs == [] then [] else U16(vs[0]) + U16s(vs[1..])
  }

  /** The values of an even-length string; `None` when the length is odd. */
  function Collect(v: bytes): Option<seq<u16>> {
    if |v| % 2 != 0 then None else Some(Pairs(v))
  }

  function Pairs(v: bytes): seq<u16>
    requires |v| % 2 == 0
  {
    if v == [] then [] else [U16Of(v[0], v[1])] + Pairs(v[2..])
  }

  method CollectUint16(input: bytes) returns (out: Option<seq<u16>>)
    ensures out == Collect(input)
  {
    if |input| % 2 != 0 {
      return None;
    }
    var v, list := input, [];
    while v != []
      invariant |v| % 2 == 0 && list + Pairs(v) == Pairs(input)
      decreases |v|
    {
      var x := ReadU16(v);
      assert list + ([x.value] + Pairs(x.rest)) == list + [x.value] + Pairs(x.rest);
      list, v := list + [x.value], x.rest;
    }
    assert list + [] == list;
    return Some(list);
  }

  lemma {:induction false} PairsInvertsU16s(vs: seq<u16>)
    ensures Pairs(U16s(vs)) == vs
  {
    if vs != [] {
      assert U16s(vs)[2..] == U16s(vs[1..]);
      PairsInvertsU16s(vs[1..]);
    }
  }

  lemma CollectInvertsU16s(vs: seq<u16>)
    ensures Collect(U16s(vs)) == Some(vs)
  {
    hide Pairs, U16s;
    PairsInvertsU16s(vs);
  }

  /** A 16-bit-prefixed vector of 16-bit values; an odd length fails like a short one. */
  function ReadU16List(s: bytes): (r: Read<seq<u16>>)
    ensures r.Got? ==> |r.rest| < |s|
  {
    var p := ReadPrefixed16(s);
    if p.Fail? || Collect(p.value).None? then Fail else Got(Collect(p.value).value, p.rest)
  }

  /** An 8-bit-prefixed vector of 16-bit values, as supported_versions uses. */
  function ReadU8PrefixedU16List(s: bytes): (r: Read<seq<u16>>)
    ensures r.Got? ==> |r.rest| < |s|
  {
    var p := ReadPrefixed8(s);
    if p.Fail? || Collect(p.value).None? then Fail else Got(Collect(p.value).value, p.rest)
  }

  lemma ReadsU16List(vs: seq<u16>, rest: bytes)
    requires 2 * |vs| < 0x10000
    ensures ReadU16List(Prefixed16(U16s(vs)) + rest) == Got(vs, rest)
  {
    hide Collect, U16s, ReadPrefixed16, Prefixed16;
    ReadsPrefixed16(U16s(vs), rest);
    CollectInvertsU16s(vs);
  }

  lemma ReadsU8PrefixedU16List(vs: seq<u16>, rest: bytes)
    requires 2 * |vs| < 0x100
    ensures ReadU8PrefixedU16List(Prefixed8(U16s(vs)) + rest) == Got(vs, rest)
  {
    hide Collect, U16s, ReadPrefixed8, Prefixed8;
    ReadsPrefixed8(U16s(vs), rest);
    CollectInvertsU16s(vs);
  }
}
