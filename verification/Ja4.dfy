/** JA4 client fingerprints (internal/tlsparse/ja4.go). SHA-256 is a parameter; the strings it is applied to are not. */
module Ja4 {
  import opened Bytes
  import opened ClientHello

  // ---------------------------------------------------------------- hexadecimal lists

  const DIGITS := "0123456789abcdef"

  function Digit(n: nat): char
    requires n < 16
  {
    DIGITS[n]
  }

  function Hex4(v: u16): (h: string)
    ensures |h| == 4
  {
    [Digit(v / 4096), Digit(v / 256 % 16), Digit(v / 16 % 16), Digit(v % 16)]
  }

  /** Four digits per value, commas between. */
  function JoinHex(vs: seq<u16>): (s: string)
    ensures |s| == if vs == [] then 0 else 5 * |vs| - 1
  {
    if vs == [] then "" else if |vs| == 1 then Hex4(vs[0]) else Hex4(vs[0]) + "," + JoinHex(vs[1..])
  }

  method WriteHex(vs: seq<u16>) returns (s: string)
    ensures s == JoinHex(vs)
  {
    hide Hex4;
    s := "";
    if vs == [] {
      return;
    }
    s := Hex4(vs[0]);
    for i := 1 to |vs|
      invariant JoinHex(vs) == if i == |vs| then s else s + "," + JoinHex(vs[i..])
    {
      if i + 1 < |vs| {
        assert vs[i..][1..] == vs[i + 1..];
        assert s + "," + (Hex4(vs[i]) + "," + JoinHex(vs[i + 1..]))
               == s + "," + Hex4(vs[i]) + "," + JoinHex(vs[i + 1..]);
      }
      s := s + "," + Hex4(vs[i]);
    }
  }

  lemma DigitInjective(a: nat, b: nat)
    requires a < 16 && b < 16 && Digit(a) == Digit(b)
    ensures a == b
  {
  }

  lemma Hex4Injective(a: u16, b: u16)
    requires Hex4(a) == Hex4(b)
    ensures a == b
  {
    var x, y := Hex4(a), Hex4(b);
    assert x[0] == y[0] && x[1] == y[1] && x[2] == y[2] && x[3] == y[3];
    DigitInjective(a / 4096, b / 4096);
    DigitInjective(a / 256 % 16, b / 256 % 16);
    DigitInjective(a / 16 % 16, b / 16 % 16);
    DigitInjective(a % 16, b % 16);
    hide Digit, Hex4;
    Nibbles(a);
    Nibbles(b);
  }

  lemma Nibbles(v: u16)
    ensures v == v / 4096 * 4096 + v / 256 % 16 * 256 + v / 16 % 16 * 16 + v % 16
  {
    assert v / 256 == v / 4096 * 16 + v / 256 % 16;
    assert v / 16 == v / 256 * 16 + v / 16 % 16;
  }

  /** Different lists print differently. */
  lemma {:induction false} JoinHexInjective(a: seq<u16>, b: seq<u16>)
    requires JoinHex(a) == JoinHex(b)
    ensures a == b
  {
    hide Hex4;
    var s := JoinHex(a);
    assert |a| == |b|;
    if a != [] {
      assert s[..4] == Hex4(a[0]) == Hex4(b[0]);
      Hex4Injective(a[0], b[0]);
      if |a| > 1 {
        assert s[5..] == JoinHex(a[1..]) == JoinHex(b[1..]);
        JoinHexInjective(a[1..], b[1..]);
      } else {
        assert a == [a[0]] && b == [b[0]];
      }
      assert a == [a[0]] + a[1..] && b == [b[0]] + b[1..];
    }
  }

  lemma {:induction false} JoinHexPlain(vs: seq<u16>)
    ensures '_' !in JoinHex(vs)
  {
    if vs != [] {
      Hex4Plain(vs[0]);
      JoinHexPlain(vs[1..]);
      hide Hex4;
    }
  }

  lemma DigitPlain(n: nat)
    requires n < 16
    ensures Digit(n) != '_'
  {
  }

  lemma Hex4Plain(v: u16)
    ensures '_' !in Hex4(v)
  {
    DigitPlain(v / 4096);
    DigitPlain(v / 256 % 16);
    DigitPlain(v / 16 % 16);
    DigitPlain(v % 16);
    hide Digit;
  }

  // ---------------------------------------------------------------- sorting

  predicate Ascending(vs: seq<u16>) {
    forall i, j :: 0 <= i < j < |vs| ==> vs[i] <= vs[j]
  }

  function Insert(v: u16, vs: seq<u16>): seq<u16> {
    if vs == [] || v <= vs[0] then [v] + vs else [vs[0]] + Insert(v, vs[1..])
  }

  /** The values in ascending order. */
  function Sorted(vs: seq<u16>): seq<u16> {
    if vs == [] then [] else Insert(vs[0], Sorted(vs[1..]))
  }

  lemma {:induction false} InsertPermutes(v: u16, vs: seq<u16>)
    ensures multiset(Insert(v, vs)) == multiset(vs) + multiset{v}
    decreases |vs|
  {
    if vs != [] && v > vs[0] {
      InsertPermutes(v, vs[1..]);
      assert vs == [vs[0]] + vs[1..];
    }
  }

  /** Putting something no larger in front of an ascending list keeps it ascending. */
  lemma ConsAscends(x: u16, vs: seq<u16>)
    requires Ascending(vs) && (vs != [] ==> x <= vs[0])
    ensures Ascending([x] + vs)
  {
    var all := [x] + vs;
    assert forall i :: 0 < i < |all| ==> all[i] == vs[i - 1] && x <= all[i];
  }

  lemma {:induction false} InsertAscends(v: u16, vs: seq<u16>)
    requires Ascending(vs)
    ensures Ascending(Insert(v, vs)) && Insert(v, vs) != []
    ensures Insert(v, vs)[0] == if vs == [] || v <= vs[0] then v else vs[0]
    decreases |vs|
  {
    if vs != [] && v > vs[0] {
      InsertAscends(v, vs[1..]);
      hide Ascending;
      TailAscends(vs);
      ConsAscends(vs[0], Insert(v, vs[1..]));
    } else {
      ConsAscends(v, vs);
    }
  }

  lemma TailAscends(vs: seq<u16>)
    requires Ascending(vs) && vs != []
    ensures Ascending(vs[1..]) && (|vs| > 1 ==> vs[0] <= vs[1..][0])
  {
  }

  lemma {:induction false} SortedSorts(vs: seq<u16>)
    ensures Ascending(Sorted(vs)) && multiset(Sorted(vs)) == multiset(vs)
  {
    if vs != [] {
      SortedSorts(vs[1..]);
      InsertAscends(vs[0], Sorted(vs[1..]));
      InsertPermutes(vs[0], Sorted(vs[1..]));
      assert vs == [vs[0]] + vs[1..];
    }
  }

  /** There is only one ascending order, so which sorting algorithm is used does not matter. */
  lemma {:induction false} AscendingUnique(a: seq<u16>, b: seq<u16>)
    requires Ascending(a) && Ascending(b) && multiset(a) == multiset(b)
    ensures a == b
    decreases |a|
  {
    assert |a| == |multiset(a)| == |multiset(b)| == |b|;
    if a != [] {
      FirstIsLeast(a, b);
      FirstIsLeast(b, a);
      assert a == [a[0]] + a[1..] && b == [b[0]] + b[1..];
      assert multiset(a[1..]) == multiset(a) - multiset{a[0]};
      assert multiset(b[1..]) == multiset(b) - multiset{b[0]};
      AscendingUnique(a[1..], b[1..]);
    }
  }

  lemma FirstIsLeast(a: seq<u16>, b: seq<u16>)
    requires Ascending(a) && multiset(a) == multiset(b) && a != [] && b != []
    ensures a[0] <= b[0]
  {
    assert b[0] in multiset(b);
    assert b[0] in multiset(a);
    var i :| 0 <= i < |a| && a[i] == b[0];
  }

  lemma SortedIffPermutation(a: seq<u16>, b: seq<u16>)
    ensures Sorted(a) == Sorted(b) <==> multiset(a) == multiset(b)
  {
    hide Sorted;
    SortedSorts(a);
    SortedSorts(b);
    if multiset(a) == multiset(b) {
      AscendingUnique(Sorted(a), Sorted(b));
    }
  }

  // ---------------------------------------------------------------- the strings that are hashed

  function CipherText(ch: Hello): string {
    JoinHex(Sorted(ch.cipherSuites))
  }

  /** Extensions without SNI and ALPN. */
  function Hashed(exts: seq<u16>): seq<u16> {
    if exts == [] then []
    else if exts[0] == SERVER_NAME || exts[0] == ALPN then Hashed(exts[1..])
    else [exts[0]] + Hashed(exts[1..])
  }

  function ExtensionText(ch: Hello): string {
    JoinHex(Sorted(Hashed(ch.extensions))) + (if ch.sigAlgs != [] then "_" + JoinHex(ch.sigAlgs) else "")
  }

  method FilterExtensions(exts: seq<u16>) returns (out: seq<u16>)
    ensures out == Hashed(exts)
  {
    out := [];
    assert exts[0..] == exts;
    for i := 0 to |exts|
      invariant out + Hashed(exts[i..]) == Hashed(exts)
    {
      assert exts[i..][1..] == exts[i + 1..];
      if exts[i] == SERVER_NAME || exts[i] == ALPN {
        continue;
      }
      assert out + ([exts[i]] + Hashed(exts[i + 1..])) == out + [exts[i]] + Hashed(exts[i + 1..]);
      out := out + [exts[i]];
    }
    assert out + [] == out;
  }

  /** Two clients' cipher strings are equal exactly when they offered the same suites equally often. */
  lemma CipherTextInjective(a: Hello, b: Hello)
    ensures CipherText(a) == CipherText(b) <==> multiset(a.cipherSuites) == multiset(b.cipherSuites)
  {
    hide JoinHex, Sorted;
    SortedIffPermutation(a.cipherSuites, b.cipherSuites);
    if CipherText(a) == CipherText(b) {
      JoinHexInjective(Sorted(a.cipherSuites), Sorted(b.cipherSuites));
    }
  }

  /** A string without '_' followed by nothing or by '_' and more can be taken apart again. */
  lemma SplitsAtUnderscore(e1: string, x1: string, e2: string, x2: string)
    requires '_' !in e1 && '_' !in e2 && e1 + x1 == e2 + x2
    requires (x1 == "" || x1[0] == '_') && (x2 == "" || x2[0] == '_')
    ensures e1 == e2 && x1 == x2
  {
    NotShorter(e1, x1, e2, x2);
    NotShorter(e2, x2, e1, x1);
    var s := e1 + x1;
    assert e1 == s[..|e1|] && e2 == s[..|e1|];
    assert x1 == s[|e1|..] && x2 == s[|e1|..];
  }

  lemma NotShorter(e1: string, x1: string, e2: string, x2: string)
    requires '_' !in e2 && e1 + x1 == e2 + x2 && (x1 == "" || x1[0] == '_')
    ensures |e1| >= |e2|
  {
    assert forall i :: 0 <= i < |e2| ==> (e2 + x2)[i] == e2[i];
    assert x1 != "" ==> (e1 + x1)[|e1|] == '_';
  }

  /** Two clients' extension strings are equal exactly for equal extension multisets and equal signature algorithms. */
  lemma ExtensionTextInjective(a: Hello, b: Hello)
    ensures ExtensionText(a) == ExtensionText(b)
      <==> multiset(Hashed(a.extensions)) == multiset(Hashed(b.extensions)) && a.sigAlgs == b.sigAlgs
  {
    hide JoinHex, Sorted, Hashed;
    var ea, eb := Hashed(a.extensions), Hashed(b.extensions);
    SortedIffPermutation(ea, eb);
    if ExtensionText(a) == ExtensionText(b) {
      JoinHexPlain(Sorted(ea));
      JoinHexPlain(Sorted(eb));
      var xa := if a.sigAlgs != [] then "_" + JoinHex(a.sigAlgs) else "";
      var xb := if b.sigAlgs != [] then "_" + JoinHex(b.sigAlgs) else "";
      SplitsAtUnderscore(JoinHex(Sorted(ea)), xa, JoinHex(Sorted(eb)), xb);
      JoinHexInjective(Sorted(ea), Sorted(eb));
      if a.sigAlgs != [] {
        assert xa[1..] == JoinHex(a.sigAlgs) && xb[1..] == JoinHex(b.sigAlgs);
        JoinHexInjective(a.sigAlgs, b.sigAlgs);
      }
    }
  }

  // ---------------------------------------------------------------- the fingerprint

  function Cap99(n: nat): nat {
    if n > 99 then 99 else n
  }

  function TwoDigits(n: nat): string
    requires n <= 99
  {
    [Digit(n / 10), Digit(n % 10)]
  }

  function VersionCode(v: u16): string {
    if v == 0x0304 then "13" else if v == 0x0303 then "12" else if v == 0x0302 then "11" else if v == 0x0301 then "10"
    else if v == 0x0300 then "s3" else if v == 0x0002 then "s2" else "00"
  }

  function AlpnCode(alpn: seq<bytes>): string {
    if alpn == [] || alpn[0] == [] then "00" else [alpn[0][0] as char, alpn[0][|alpn[0]| - 1] as char]
  }

  function PartA(ch: Hello): string {
    (if Quic in ch.flags then "q" else "t") + VersionCode(Negotiated(ch)) + (if ch.serverName != [] then "d" else "i")
    + TwoDigits(Cap99(|ch.cipherSuites|)) + TwoDigits(Cap99(|ch.extensions|)) + AlpnCode(ch.alpn)
  }

  /** Twelve zeroes for nothing; otherwise `hash` gives the first twelve hexadecimal digits of the digest. */
  function TruncHash(hash: string -> string, s: string): string {
    if s == "" then "000000000000" else hash(s)
  }

  function Ja4(hash: string -> string, ch: Hello): string {
    PartA(ch) + "_" + TruncHash(hash, CipherText(ch)) + "_" + TruncHash(hash, ExtensionText(ch))
  }

  /** The number two decimal digits spell. */
  function Decimal(s: string): int
    requires |s| == 2
  {
    (s[0] as int - '0' as int) * 10 + (s[1] as int - '0' as int)
  }

  lemma DigitSpells(n: nat)
    requires n < 16
    ensures n < 10 ==> Digit(n) as int == '0' as int + n
    ensures n >= 10 ==> Digit(n) as int == 'a' as int + (n - 10)
  {
    assert DIGITS[..10] == "0123456789" && DIGITS[10..] == "abcdef";
  }

  lemma TwoDigitsSpell(n: nat)
    requires n <= 99
    ensures |TwoDigits(n)| == 2 && Decimal(TwoDigits(n)) == n
  {
    DigitSpells(n / 10);
    DigitSpells(n % 10);
    hide Digit;
  }

  /** The value of a lower-case hexadecimal digit. */
  function HexValue(c: char): int {
    if '0' <= c <= '9' then c as int - '0' as int else c as int - 'a' as int + 10
  }

  /** Four lower-case hexadecimal digits, most significant first, that spell the codepoint. */
  lemma Hex4Spells(v: u16)
    ensures var h := Hex4(v);
            && (forall i :: 0 <= i < 4 ==> '0' <= h[i] <= '9' || 'a' <= h[i] <= 'f')
            && ((HexValue(h[0]) * 16 + HexValue(h[1])) * 16 + HexValue(h[2])) * 16 + HexValue(h[3]) == v
  {
    DigitSpells(v / 4096);
    DigitSpells(v / 256 % 16);
    DigitSpells(v / 16 % 16);
    DigitSpells(v % 16);
    hide Digit;
    Nibbles(v);
  }

  /** Two characters for the version: TLS 1.x as its number, the SSL versions by name, anything else as zeroes. */
  lemma VersionCodeReads(v: u16)
    ensures |VersionCode(v)| == 2
    ensures 0x0301 <= v <= 0x0304 ==> VersionCode(v)[0] == '1' && VersionCode(v)[1] as int == '0' as int + (v - 0x0301)
    ensures (v == 0x0300 ==> VersionCode(v) == "s3") && (v == 2 ==> VersionCode(v) == "s2")
    ensures v != 2 && !(0x0300 <= v <= 0x0304) ==> VersionCode(v) == "00"
  {
  }

  /**
   * The readable part of the fingerprint, position by position: transport, version, whether a name was asked for, the
   * numbers of suites and extensions up to 99, and the ends of the first protocol name.
   */
  lemma PartAReads(ch: Hello)
    ensures var a := PartA(ch);
            && |a| == 10
            && a[0] == (if Quic in ch.flags then 'q' else 't') && a[1..3] == VersionCode(Negotiated(ch))
            && a[3] == (if ch.serverName == [] then 'i' else 'd')
            && Decimal(a[4..6]) == (if |ch.cipherSuites| <= 99 then |ch.cipherSuites| else 99)
            && Decimal(a[6..8]) == (if |ch.extensions| <= 99 then |ch.extensions| else 99)
            && (ch.alpn == [] || ch.alpn[0] == [] ==> a[8..] == "00")
            && (ch.alpn != [] && ch.alpn[0] != [] ==>
                  && a[8] as int == ch.alpn[0][0] && a[9] as int == ch.alpn[0][|ch.alpn[0]| - 1])
  {
    hide VersionCode, Negotiated, TwoDigits;
    VersionCodeReads(Negotiated(ch));
    TwoDigitsSpell(Cap99(|ch.cipherSuites|));
    TwoDigitsSpell(Cap99(|ch.extensions|));
    var v, c, e := VersionCode(Negotiated(ch)), TwoDigits(Cap99(|ch.cipherSuites|)), TwoDigits(Cap99(|ch.extensions|));
    var a := PartA(ch);
    assert a[1..3] == v && a[4..6] == c && a[6..8] == e;
  }

  /** The signature algorithms are set off by an underscore, which is there exactly when there are any. */
  lemma UnderscoreIff(ch: Hello)
    ensures '_' in ExtensionText(ch) <==> ch.sigAlgs != []
    ensures ch.cipherSuites == [] <==> CipherText(ch) == ""
  {
    hide Hashed, JoinHex, Sorted;
    JoinHexPlain(Sorted(Hashed(ch.extensions)));
    JoinHexPlain(ch.sigAlgs);
    SortedSorts(ch.cipherSuites);
    JoinHexEmpty(Sorted(ch.cipherSuites));
    SameSize(Sorted(ch.cipherSuites), ch.cipherSuites);
    if ch.sigAlgs != [] {
      assert ExtensionText(ch)[|JoinHex(Sorted(Hashed(ch.extensions)))|] == '_';
    }
  }

  /**
   * Position by position: every fifth character from the fifth on is a comma, and between them stand the codepoints.
   */
  lemma {:induction false} JoinHexAt(vs: seq<u16>, i: nat)
    requires i < |vs|
    ensures JoinHex(vs)[5 * i..5 * i + 4] == Hex4(vs[i]) && (i + 1 < |vs| ==> JoinHex(vs)[5 * i + 4] == ',')
    decreases |vs|
  {
    hide Hex4;
    var s := JoinHex(vs);
    if |vs| == 1 {
      assert s == Hex4(vs[0]);
    } else {
      var rest := JoinHex(vs[1..]);
      assert s == Hex4(vs[0]) + "," + rest;
      if i > 0 {
        JoinHexAt(vs[1..], i - 1);
        assert s[5..] == rest;
        assert s[5 * i..5 * i + 4] == rest[5 * (i - 1)..5 * (i - 1) + 4];
      }
    }
  }

  /** The fingerprint: the readable part, then both hashed parts, or twelve zeroes where there was nothing to hash. */
  lemma Ja4Reads(hash: string -> string, ch: Hello)
    ensures var rest := Ja4(hash, ch)[10..];
            && Ja4(hash, ch)[..10] == PartA(ch)
            && (ch.cipherSuites == [] ==> rest == "_000000000000_" + TruncHash(hash, ExtensionText(ch)))
            && (ch.cipherSuites != [] ==> rest == "_" + hash(CipherText(ch)) + "_" + TruncHash(hash, ExtensionText(ch)))
  {
    hide PartA, CipherText, ExtensionText;
    PartAReads(ch);
    UnderscoreIff(ch);
    var b, c := TruncHash(hash, CipherText(ch)), TruncHash(hash, ExtensionText(ch));
    assert Ja4(hash, ch) == PartA(ch) + ("_" + b + "_" + c);
    assert "_" + "000000000000" + "_" == "_000000000000_";
  }

  lemma SameSize(a: seq<u16>, b: seq<u16>)
    requires multiset(a) == multiset(b)
    ensures |a| == |b|
  {
    assert |multiset(a)| == |a| && |multiset(b)| == |b|;
  }

  lemma JoinHexEmpty(vs: seq<u16>)
    ensures JoinHex(vs) == "" <==> vs == []
  {
  }

  lemma {:induction false} HashedCount(exts: seq<u16>, x: u16)
    ensures multiset(Hashed(exts))[x] == if x == SERVER_NAME || x == ALPN then 0 else multiset(exts)[x]
  {
    if exts != [] {
      HashedCount(exts[1..], x);
      assert exts == [exts[0]] + exts[1..];
    }
  }

  lemma HashedPermutes(a: seq<u16>, b: seq<u16>)
    requires multiset(a) == multiset(b)
    ensures multiset(Hashed(a)) == multiset(Hashed(b))
  {
    hide Hashed;
    forall x: u16
      ensures multiset(Hashed(a))[x] == multiset(Hashed(b))[x]
    {
      HashedCount(a, x);
      HashedCount(b, x);
    }
  }

  /** Shuffling the cipher suites and the extensions between connections does not change the fingerprint. */
  lemma OrderIrrelevant(hash: string -> string, ch: Hello, ciphers: seq<u16>, exts: seq<u16>)
    requires multiset(ciphers) == multiset(ch.cipherSuites) && multiset(exts) == multiset(ch.extensions)
    ensures Ja4(hash, ch.(cipherSuites := ciphers, extensions := exts)) == Ja4(hash, ch)
  {
    var other := ch.(cipherSuites := ciphers, extensions := exts);
    assert |ciphers| == |multiset(ciphers)| == |ch.cipherSuites|;
    assert |exts| == |multiset(exts)| == |ch.extensions|;
    CipherTextInjective(other, ch);
    HashedPermutes(exts, ch.extensions);
    ExtensionTextInjective(other, ch);
    hide CipherText, ExtensionText, Digit;
  }

  /** The truncated hash does not collide on these two strings. */
  predicate TellsApart(hash: string -> string, s: string, t: string) {
    TruncHash(hash, s) == TruncHash(hash, t) ==> s == t
  }

  /**
   * Short of a collision between the two clients at hand, the hashed parts of their fingerprints agree exactly when
   * they offered the same suites, the same extensions, and the same signature algorithms in the same order.
   */
  lemma HashedPartsFaithful(hash: string -> string, a: Hello, b: Hello)
    requires TellsApart(hash, CipherText(a), CipherText(b)) && TellsApart(hash, ExtensionText(a), ExtensionText(b))
    ensures TruncHash(hash, CipherText(a)) == TruncHash(hash, CipherText(b))
      <==> multiset(a.cipherSuites) == multiset(b.cipherSuites)
    ensures TruncHash(hash, ExtensionText(a)) == TruncHash(hash, ExtensionText(b))
      <==> multiset(Hashed(a.extensions)) == multiset(Hashed(b.extensions)) && a.sigAlgs == b.sigAlgs
  {
    hide CipherText, ExtensionText, Hashed;
    CipherTextInjective(a, b);
    ExtensionTextInjective(a, b);
  }
}
