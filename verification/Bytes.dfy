/** Bytes, and the big-endian encodings shared by TLS and QUIC. */
module Bytes {

  type byte = x: int | 0 <= x < 256
  type bytes = seq<byte>
  type u16 = x: int | 0 <= x < 0x10000

  datatype Option<+T> = None | Some(value: T)

  /** The two bytes of `v`, most significant first; a larger `v` is truncated as a Go conversion would. */
  function U16(v: nat): (b: bytes)
    ensures |b| == 2
  {
    [v / 256 % 256, v % 256]
  }

  function U24(v: nat): (b: bytes)
    ensures |b| == 3
  {
    [v / 65536 % 256, v / 256 % 256, v % 256]
  }

  function U16Of(hi: byte, lo: byte): u16 {
    hi * 256 + lo
  }

  function U24Of(hi: byte, mid: byte, lo: byte): nat {
    hi * 65536 + mid * 256 + lo
  }

  /** The low two bytes of a number spell its remainder. */
  lemma LowTwoBytes(n: nat)
    ensures n / 256 % 256 * 256 + n % 256 == n % 0x10000
  {
    var q := n / 256;
    assert n == 256 * q + n % 256 && q == 256 * (q / 256) + q % 256;
    assert n == 0x10000 * (q / 256) + (256 * (q % 256) + n % 256);
    SmallRemainder(n, q / 256, 256 * (q % 256) + n % 256);
  }

  lemma SmallRemainder(n: nat, q: nat, r: nat)
    requires n == 0x10000 * q + r && r < 0x10000
    ensures n % 0x10000 == r
  {
  }

  lemma U24Value(v: nat)
    requires v < 0x100_0000
    ensures U24Of(U24(v)[0], U24(v)[1], U24(v)[2]) == v
  {
    assert v / 65536 % 256 == v / 65536;
    assert v / 256 == v / 65536 * 256 + v / 256 % 256;
  }

  function Zeros(n: nat): (z: bytes)
    ensures |z| == n
  {
    seq(n, i => 0)
  }

  /** The first `n` elements, or everything when there are fewer. */
  function Take<T>(s: seq<T>, n: nat): (t: seq<T>)
    ensures |t| == if |s| <= n then |s| else n
    ensures t <= s
  {
    if |s| <= n then s else s[..n]
  }

  lemma SubsetSize<T>(a: set<T>, b: set<T>)
    requires a <= b
    ensures |a| <= |b|
  {
    assert b == a + (b - a);
  }

  /** 256 to the power `n`. */
  function Pow256(n: nat): (p: nat)
    ensures p > 0
  {
    if n == 0 then 1 else 256 * Pow256(n - 1)
  }

  /** The number a byte string spells, most significant byte first. */
  function Value(b: bytes): nat {
    if b == [] then 0 else Value(b[..|b|-1]) * 256 + b[|b|-1]
  }

  /** The low `n` bytes of `v`, most significant first. */
  function BigEndian(n: nat, v: nat): (b: bytes)
    ensures |b| == n
  {
    if n == 0 then [] else BigEndian(n - 1, v / 256) + [v % 256]
  }

  /** Reading one more byte multiplies by 256 and adds it: the step of a decoding loop. */
  lemma ValueSnoc(b: bytes, x: byte)
    ensures Value(b + [x]) == Value(b) * 256 + x
  {
    assert (b + [x])[..|b|] == b;
  }

  lemma ValueOne(x: byte)
    ensures Value([x]) == x
  {
    assert [x][..0] == [];
  }

  lemma {:induction false} ValueBigEndian(n: nat, v: nat)
    requires v < Pow256(n)
    ensures Value(BigEndian(n, v)) == v
  {
    if n > 0 {
      ValueBigEndian(n - 1, v / 256);
      ValueSnoc(BigEndian(n - 1, v / 256), v % 256);
    }
  }

  /** A string whose first byte is below 64 spells less than 64 * 256^(n-1). */
  lemma {:induction false} ValueBound(b: bytes)
    requires b != [] && b[0] < 64
    ensures Value(b) < 64 * Pow256(|b| - 1)
  {
    if |b| == 1 {
      assert b[..0] == [];
    } else {
      ValueBound(b[..|b|-1]);
    }
  }
}
