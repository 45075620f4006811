/** Bytes, UTF-8 and percent-decoding (crs/transform.rs, rete/working_memory.rs). */
module Bytes {
  import opened Wrappers

  type Byte = x: int | 0 <= x < 256

  const BACKSLASH: Byte := 92
  const PERCENT: Byte := 37

  /** The value of a hexadecimal digit. */
  function Hex(b: Byte): (v: Option<nat>)
    ensures v.Some? ==> v.value < 16
  {
    if 48 <= b <= 57 then Some(b - 48)
    else if 97 <= b <= 102 then Some(b - 97 + 10)
    else if 65 <= b <= 70 then Some(b - 65 + 10)
    else None
  }

  // ----- UTF-8 -----

  /** `char::encode_utf8`. */
  function EncodeChar(c: char): (bytes: seq<Byte>)
    ensures |bytes| >= 1
    ensures |bytes| == 1 <==> c as int < 128
    ensures c as int < 128 ==> bytes == [c as int]
  {
    var n := c as int;
    if n < 0x80 then [n]
    else if n < 0x800 then [0xC0 + n / 64, 0x80 + n % 64]
    else if n < 0x10000 then [0xE0 + n / 4096, 0x80 + n / 64 % 64, 0x80 + n % 64]
    else [0xF0 + n / 262144, 0x80 + n / 4096 % 64, 0x80 + n / 64 % 64, 0x80 + n % 64]
  }

  /** The bytes of a text. */
  function Utf8(s: string): seq<Byte> {
    if s == "" then [] else EncodeChar(s[0]) + Utf8(s[1..])
  }

  predicate IsAscii(s: string) { forall c <- s :: c as int < 128 }

  /** A text has as many bytes as characters exactly if it is ASCII. */
  lemma {:induction false} Utf8Length(s: string)
    ensures |Utf8(s)| >= |s|
    ensures |Utf8(s)| == |s| <==> IsAscii(s)
    ensures IsAscii(s) ==> forall i | 0 <= i < |s| :: Utf8(s)[i] == s[i] as int
  {
    if s != "" {
      Utf8Length(s[1..]);
      assert s[0] in s && forall c <- s[1..] :: c in s;
      assert forall c <- s :: c == s[0] || c in s[1..];
      assert IsAscii(s) <==> s[0] as int < 128 && IsAscii(s[1..]);
    }
  }

  // ----- percent-decoding -----

  /** The byte decoded at the front of `s`, and how many bytes of `s` it takes up. */
  function UrlStep(s: seq<Byte>): (r: (Byte, nat))
    requires s != []
    ensures 1 <= r.1 <= |s|
  {
    if s[0] == PERCENT && |s| > 2 && Hex(s[1]).Some? && Hex(s[2]).Some?
    then (16 * Hex(s[1]).value + Hex(s[2]).value, 3)
    else (s[0], 1)
  }

  function UrlDecode(s: seq<Byte>): seq<Byte> {
    if s == [] then [] else [UrlStep(s).0] + UrlDecode(s[UrlStep(s).1..])
  }

  method UrlDecodeUni(bytes: seq<Byte>) returns (out: seq<Byte>)
    ensures out == UrlDecode(bytes)
  {
    hide UrlStep;
    out := [];
    var i := 0;
    while i < |bytes|
      invariant i <= |bytes|
      invariant out + UrlDecode(bytes[i..]) == UrlDecode(bytes)
    {
      var b, n := UrlDecodeAt(bytes, i);
      assert bytes[i..][n..] == bytes[i + n..];
      out := out + [b];
      i := i + n;
    }
  }

  method UrlDecodeAt(bytes: seq<Byte>, i: nat) returns (b: Byte, n: nat)
    requires i < |bytes|
    ensures (b, n) == UrlStep(bytes[i..])
  {
    if bytes[i] == PERCENT && i + 2 < |bytes| {
      var h, l := Hex(bytes[i + 1]), Hex(bytes[i + 2]);
      if h.Some? && l.Some? { return 16 * h.value + l.value, 3; }
    }
    return bytes[i], 1;
  }

  lemma {:induction false} UrlDecodeWithoutPercent(s: seq<Byte>)
    requires PERCENT !in s
    ensures UrlDecode(s) == s
  {
    if s != [] {
      UrlDecodeWithoutPercent(s[1..]);
    }
  }

  /** A hexadecimal digit, in capitals or not. */
  function HexDigit(v: nat, capital: bool): Byte
    requires v < 16
  {
    if v < 10 then 48 + v else if capital then 55 + v else 87 + v
  }

  lemma HexOfDigit(v: nat, capital: bool)
    requires v < 16
    ensures Hex(HexDigit(v, capital)) == Some(v)
  {
  }

  /** Percent-encoding (section 2.1 of RFC 3986) of the bytes chosen by `escaped`, with
      capital digits for those chosen by `capital`. */
  function UrlEncode(s: seq<Byte>, escaped: Byte -> bool, capital: Byte -> bool): seq<Byte> {
    if s == [] then []
    else
      (if escaped(s[0]) then [PERCENT, HexDigit(s[0] / 16, capital(s[0])), HexDigit(s[0] % 16, capital(s[0]))] else [s[0]])
      + UrlEncode(s[1..], escaped, capital)
  }

  /** Decoding inverts every percent-encoding that encodes the percent sign. */
  lemma {:induction false} UrlRoundTrip(s: seq<Byte>, escaped: Byte -> bool, capital: Byte -> bool)
    requires escaped(PERCENT)
    ensures UrlDecode(UrlEncode(s, escaped, capital)) == s
  {
    if s != [] {
      var b, rest := s[0], UrlEncode(s[1..], escaped, capital);
      UrlRoundTrip(s[1..], escaped, capital);
      if escaped(b) {
        var e := UrlEncode(s, escaped, capital);
        HexOfDigit(b / 16, capital(b));
        HexOfDigit(b % 16, capital(b));
        assert e == [PERCENT, HexDigit(b / 16, capital(b)), HexDigit(b % 16, capital(b))] + rest;
        assert e[3..] == rest;
      } else {
        assert UrlEncode(s, escaped, capital)[1..] == rest;
      }
    }
  }

  /** At `i` stands a percent sign with two hexadecimal digits. */
  predicate EscapeAt(s: seq<Byte>, i: nat) {
    i + 2 < |s| && s[i] == PERCENT && Hex(s[i + 1]).Some? && Hex(s[i + 2]).Some?
  }

  /** Decoding changes a text exactly if it has a complete escape; malformed and truncated
      ones stay. */
  lemma {:induction false} UrlUnchangedExactly(s: seq<Byte>)
    ensures |UrlDecode(s)| <= |s|
    ensures UrlDecode(s) == s <==> forall i | 0 <= i < |s| :: !EscapeAt(s, i)
  {
    if s != [] {
      if EscapeAt(s, 0) {
        UrlUnchangedExactly(s[3..]);
      } else {
        UrlUnchangedExactly(s[1..]);
        assert UrlDecode(s) == [s[0]] + UrlDecode(s[1..]);
        hide UrlDecode, Hex;
        assert forall i | 0 <= i < |s[1..]| :: EscapeAt(s[1..], i) == EscapeAt(s, i + 1);
        assert forall i | 0 < i < |s| :: EscapeAt(s, i) == EscapeAt(s[1..], i - 1);
        assert s == [s[0]] + s[1..];
      }
    }
  }

  // ----- reading UTF-8 -----

  /** The number of bytes that a lead byte announces (section 3 of RFC 3629). */
  function SequenceLength(lead: Byte): nat {
    if lead < 0x80 then 1
    else if 0xC2 <= lead <= 0xDF then 2
    else if 0xE0 <= lead <= 0xEF then 3
    else if 0xF0 <= lead <= 0xF4 then 4
    else 0
  }

  /** The number that a sequence of bytes encodes: the free bits of the lead byte, then six
      of each continuation byte. */
  function SequenceValue(s: seq<Byte>): int
    requires 1 <= |s| <= 4
  {
    var at := (i: nat) requires i < |s| => s[i] as int;
    if |s| == 1 then at(0)
    else if |s| == 2 then (at(0) - 0xC0) * 64 + (at(1) - 0x80)
    else if |s| == 3 then (at(0) - 0xE0) * 4096 + (at(1) - 0x80) * 64 + (at(2) - 0x80)
    else (at(0) - 0xF0) * 262144 + (at(1) - 0x80) * 4096 + (at(2) - 0x80) * 64 + (at(3) - 0x80)
  }

  /** A character's bytes are a sequence of RFC 3629 for its code: the length its lead byte
      announces, continuation bytes after it, and the code as value. */
  lemma EncodedCharacter(c: char)
    ensures var s := EncodeChar(c);
            && 1 <= |s| <= 4 && SequenceLength(s[0]) == |s|
            && (forall i | 1 <= i < |s| :: 0x80 <= s[i] < 0xC0)
            && SequenceValue(s) == c as int
  {
    var n := c as int;
    assert n == 4096 * (n / 4096) + 64 * (n / 64 % 64) + n % 64;
    assert n / 4096 == 64 * (n / 262144) + n / 4096 % 64;
  }

  /** The bytes of a text determine the text. */
  lemma {:induction false} Utf8Injective(s: string, t: string)
    requires Utf8(s) == Utf8(t)
    ensures s == t
  {
    Utf8Length(s);
    Utf8Length(t);
    if s != "" && t != "" {
      var a, b := EncodeChar(s[0]), EncodeChar(t[0]);
      EncodedCharacter(s[0]);
      EncodedCharacter(t[0]);
      assert Utf8(s)[0] == a[0] && Utf8(t)[0] == b[0];
      assert |a| == |b|;
      assert a == Utf8(s)[..|a|] && b == Utf8(t)[..|b|];
      assert Utf8(s[1..]) == Utf8(s)[|a|..] && Utf8(t[1..]) == Utf8(t)[|b|..];
      Utf8Injective(s[1..], t[1..]);
      assert s == [s[0]] + s[1..] && t == [t[0]] + t[1..];
    }
  }
}
