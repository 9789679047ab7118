/** GREASE codepoints (RFC 8701) and their removal (internal/tlsparse/grease.go). */
module Grease {
  import opened Bytes

  /** Both bytes equal, low nibble 0xa. */
  predicate IsGrease(v: u16) {
    v / 256 == v % 256 && v % 16 == 10
  }

  /** The sixteen values of section 2 of RFC 8701, written out from the standard. */
  predicate Reserved(v: u16) {
    || v == 0x0a0a || v == 0x1a1a || v == 0x2a2a || v == 0x3a3a || v == 0x4a4a || v == 0x5a5a
    || v == 0x6a6a || v == 0x7a7a || v == 0x8a8a || v == 0x9a9a || v == 0xaaaa || v == 0xbaba
    || v == 0xcaca || v == 0xdada || v == 0xeaea || v == 0xfafa
  }

  lemma GreaseIsReserved(v: u16)
    ensures IsGrease(v) <==> Reserved(v)
  {
    if IsGrease(v) {
      var low := v % 256;
      assert low == 16 * (low / 16) + 10;
      assert v == 257 * low;
    }
  }

  predicate HasGrease(vs: seq<u16>) {
    exists i :: 0 <= i < |vs| && IsGrease(vs[i])
  }

  /** The values that are not GREASE, in order. */
  function Strip(vs: seq<u16>): seq<u16> {
    if vs == [] then []
    else if IsGrease(vs[0]) then Strip(vs[1..])
    else [vs[0]] + Strip(vs[1..])
  }

  lemma {:induction false} StripIsGreaseFree(vs: seq<u16>)
    ensures !HasGrease(Strip(vs))
    ensures !HasGrease(vs) ==> Strip(vs) == vs
  {
    if vs != [] {
      StripIsGreaseFree(vs[1..]);
      if !HasGrease(vs) {
        assert !IsGrease(vs[0]);
        assert !HasGrease(vs[1..]);
      }
    }
  }

  lemma {:induction false} StripAppend(a: seq<u16>, b: seq<u16>)
    ensures Strip(a + b) == Strip(a) + Strip(b)
  {
    if a == [] {
      assert a + b == b;
    } else {
      assert (a + b)[1..] == a[1..] + b;
      StripAppend(a[1..], b);
    }
  }

  lemma HasGreaseCons(v: u16, vs: seq<u16>)
    ensures HasGrease([v] + vs) == (IsGrease(v) || HasGrease(vs))
  {
    if HasGrease(vs) {
      var i :| 0 <= i < |vs| && IsGrease(vs[i]);
      assert IsGrease(([v] + vs)[i + 1]);
    }
    if IsGrease(v) {
      assert IsGrease(([v] + vs)[0]);
    }
  }

  /** A GREASE value put in front of a list, as the builders do, disappears again and is noticed. */
  lemma StripInjected(g: u16, vs: seq<u16>)
    requires IsGrease(g)
    ensures Strip([g] + vs) == Strip(vs) && HasGrease([g] + vs)
  {
    assert ([g] + vs)[1..] == vs;
    HasGreaseCons(g, vs);
  }

  method StripGrease(input: seq<u16>) returns (out: seq<u16>, found: bool)
    ensures out == Strip(input) && found == HasGrease(input)
  {
    for i := 0 to |input|
      invariant !HasGrease(input[..i])
    {
      if IsGrease(input[i]) {
        assert input == input[..i] + input[i..] && input[i..][1..] == input[i + 1..];
        StripAppend(input[..i], input[i..]);
        StripIsGreaseFree(input[..i]);
        out := input[..i];
        for j := i + 1 to |input|
          invariant Strip(input) == out + Strip(input[j..])
        {
          assert input[j..][0] == input[j] && input[j..][1..] == input[j + 1..];
          if !IsGrease(input[j]) {
            assert out + ([input[j]] + Strip(input[j + 1..])) == out + [input[j]] + Strip(input[j + 1..]);
            out := out + [input[j]];
          }
        }
        return out, true;
      }
    }
    assert input[..|input|] == input;
    StripIsGreaseFree(input);
    return input, false;
  }
}
