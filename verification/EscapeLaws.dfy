/** What the escapes stand for, in both decoders of crs/transform.rs. */
module EscapeLaws {
  import opened Wrappers
  import opened Bytes
  import opened Escapes

  /** Codes of characters below 0x10000. */
  predicate IsShort(c: char) { c as int < 0x10000 }

  /** `\uHHHH` for a character, each digit in capitals or not. */
  function UnicodeEscape(c: char, capital: nat -> bool): (s: seq<Byte>)
    requires IsShort(c)
    ensures |s| == 6
  {
    var n := c as int;
    [BACKSLASH, 'u' as int,
     HexDigit(n / 4096, capital(0)), HexDigit(n / 256 % 16, capital(1)),
     HexDigit(n / 16 % 16, capital(2)), HexDigit(n % 16, capital(3))]
  }

  /** `\xHH` for a byte. */
  function ByteEscape(b: Byte, capital: nat -> bool): (s: seq<Byte>)
    ensures |s| == 4
  {
    [BACKSLASH, 'x' as int, HexDigit(b / 16, capital(0)), HexDigit(b % 16, capital(1))]
  }

  // ----- one escape, before any text -----

  lemma QuadOfCharacter(c: char, capital: nat -> bool, s: seq<Byte>)
    requires IsShort(c) && s == UnicodeEscape(c, capital)[2..6]
    ensures HexQuad(s) == Some(c as int)
  {
    var n := c as int;
    HexOfDigit(n / 4096, capital(0));
    HexOfDigit(n / 256 % 16, capital(1));
    HexOfDigit(n / 16 % 16, capital(2));
    HexOfDigit(n % 16, capital(3));
    hide Hex, HexDigit;
    FourDigits(n);
  }

  lemma FourDigits(n: nat)
    ensures n == 4096 * (n / 4096) + 256 * (n / 256 % 16) + 16 * (n / 16 % 16) + n % 16
  {
    assert n / 16 == 16 * (n / 256) + n / 16 % 16;
    assert n / 256 == 16 * (n / 4096) + n / 256 % 16;
  }

  lemma UnicodeEscapeDecodes(c: char, capital: nat -> bool, after: seq<Byte>)
    requires IsShort(c)
    ensures JsDecode(UnicodeEscape(c, capital) + after) == [c] + JsDecode(after)
    ensures EscapeSeqDecode(UnicodeEscape(c, capital) + after) == EncodeChar(c) + EscapeSeqDecode(after)
  {
    var e := UnicodeEscape(c, capital);
    var s := e + after;
    assert s[2..6] == e[2..6] && s[6..] == after && s[0] == BACKSLASH && s[1] == 'u' as int;
    QuadOfCharacter(c, capital, s[2..6]);
    hide HexQuad, EncodeChar, Hex, HexDigit;
    assert IsScalar(c as int);
    assert JsStep(s) == (c, 6);
    assert EscapeStep(s) == (EncodeChar(c), 6);
  }

  lemma ByteEscapeDecodes(b: Byte, capital: nat -> bool, after: seq<Byte>)
    ensures JsDecode(ByteEscape(b, capital) + after) == [b as char] + JsDecode(after)
    ensures EscapeSeqDecode(ByteEscape(b, capital) + after) == [b] + EscapeSeqDecode(after)
  {
    var s := ByteEscape(b, capital) + after;
    HexOfDigit(b / 16, capital(0));
    HexOfDigit(b % 16, capital(1));
    assert s[4..] == after && s[0] == BACKSLASH && s[1] == 'x' as int;
    assert Hex(s[2]) == Some(b / 16) && Hex(s[3]) == Some(b % 16);
    hide HexQuad, EncodeChar, Hex, HexDigit;
    assert JsStep(s) == (b as char, 4);
    assert EscapeStep(s) == ([b], 4);
  }

  lemma ControlEscapeDecodes(after: seq<Byte>)
    ensures var n := [BACKSLASH, 'n' as int] + after;
            JsDecode(n) == ['\n'] + JsDecode(after) && EscapeSeqDecode(n) == [10] + EscapeSeqDecode(after)
    ensures var r := [BACKSLASH, 'r' as int] + after;
            JsDecode(r) == ['\r'] + JsDecode(after) && EscapeSeqDecode(r) == [13] + EscapeSeqDecode(after)
    ensures var t := [BACKSLASH, 't' as int] + after;
            JsDecode(t) == ['\t'] + JsDecode(after) && EscapeSeqDecode(t) == [9] + EscapeSeqDecode(after)
  {
    var n, r, t := [BACKSLASH, 'n' as int] + after, [BACKSLASH, 'r' as int] + after, [BACKSLASH, 't' as int] + after;
    assert n[2..] == after && r[2..] == after && t[2..] == after;
    assert JsStep(n) == ('\n', 2) && JsStep(r) == ('\r', 2) && JsStep(t) == ('\t', 2);
    assert EscapeStep(n) == ([10], 2) && EscapeStep(r) == ([13], 2) && EscapeStep(t) == ([9], 2);
    hide JsStep, EscapeStep;
  }

  /** Any other byte stays, as does a backslash before a letter that starts no escape. */
  lemma OtherBytesStay(b: Byte, letter: Byte, after: seq<Byte>)
    ensures b != BACKSLASH ==>
              JsDecode([b] + after) == [b as char] + JsDecode(after) && EscapeSeqDecode([b] + after) == [b] + EscapeSeqDecode(after)
    ensures letter !in {'n' as int, 'r' as int, 't' as int, 'x' as int, 'u' as int} ==>
              var s := [BACKSLASH, letter] + after;
              && JsDecode(s) == [BACKSLASH as char] + JsDecode([letter] + after)
              && EscapeSeqDecode(s) == [BACKSLASH] + EscapeSeqDecode([letter] + after)
  {
    assert ([b] + after)[1..] == after;
    assert ([BACKSLASH, letter] + after)[1..] == [letter] + after;
  }

  /** So does the backslash of an escape that is cut short, has other characters for digits,
      or names a surrogate. */
  lemma MalformedEscapesStay(s: seq<Byte>)
    requires |s| >= 2 && s[0] == BACKSLASH
    requires || (s[1] == 'x' as int && (|s| < 4 || Hex(s[2]).None? || Hex(s[3]).None?))
             || (s[1] == 'u' as int && (|s| < 6 || HexQuad(s[2..6]).None? || 0xD800 <= HexQuad(s[2..6]).value <= 0xDFFF))
    ensures JsDecode(s) == [BACKSLASH as char] + JsDecode(s[1..])
    ensures EscapeSeqDecode(s) == [BACKSLASH] + EscapeSeqDecode(s[1..])
  {
    hide Hex, HexQuad;
  }

  // ----- behind any text that ends no escape early -----

  /** No escape can begin in the last five bytes. */
  predicate Settled(s: seq<Byte>) { forall i | 0 <= i < |s| && |s| - 5 <= i :: s[i] != BACKSLASH }

  lemma StepsInFront(s: seq<Byte>, rest: seq<Byte>)
    requires s != [] && Settled(s)
    ensures EscapeStep(s + rest) == EscapeStep(s) && JsStep(s + rest) == JsStep(s)
  {
    if s[0] == BACKSLASH {
      assert |s| > 5;
      assert (s + rest)[2..6] == s[2..6];
      assert forall i | 0 <= i < 6 :: (s + rest)[i] == s[i];
      hide Hex, HexQuad, EncodeChar;
    }
  }

  /** What stands behind such a text is decoded by itself. */
  lemma {:induction false} DecodesInParts(s: seq<Byte>, rest: seq<Byte>)
    requires Settled(s)
    ensures EscapeSeqDecode(s + rest) == EscapeSeqDecode(s) + EscapeSeqDecode(rest)
    ensures JsDecode(s + rest) == JsDecode(s) + JsDecode(rest)
    decreases |s|
  {
    if s == [] {
      assert s + rest == rest;
    } else {
      StepsInFront(s, rest);
      StepCompared(s);
      var k := EscapeStep(s).1;
      hide EscapeStep, JsStep;
      assert (s + rest)[k..] == s[k..] + rest;
      DecodesInParts(s[k..], rest);
      JoinParts(EscapeStep(s).0, EscapeSeqDecode(s[k..]), EscapeSeqDecode(rest));
      JoinParts([JsStep(s).0], JsDecode(s[k..]), JsDecode(rest));
    }
  }

  lemma JoinParts<T>(a: seq<T>, b: seq<T>, c: seq<T>)
    ensures a + (b + c) == a + b + c
  {
  }

  /** An escaped character anywhere. */
  lemma EscapeInText(before: seq<Byte>, c: char, capital: nat -> bool, after: seq<Byte>)
    requires Settled(before) && IsShort(c)
    ensures JsDecode(before + (UnicodeEscape(c, capital) + after)) == JsDecode(before) + ([c] + JsDecode(after))
    ensures EscapeSeqDecode(before + (UnicodeEscape(c, capital) + after))
            == EscapeSeqDecode(before) + (EncodeChar(c) + EscapeSeqDecode(after))
  {
    hide UnicodeEscape;
    DecodesInParts(before, UnicodeEscape(c, capital) + after);
    UnicodeEscapeDecodes(c, capital, after);
  }

  // ----- whole texts -----

  /** Every character as a `\u` escape. */
  function EscapeAll(s: string, capital: nat -> bool): seq<Byte>
    requires forall c <- s :: IsShort(c)
  {
    if s == "" then [] else UnicodeEscape(s[0], capital) + EscapeAll(s[1..], capital)
  }

  /** Both decoders invert the escaper. */
  lemma {:induction false} EscapeRoundTrip(s: string, capital: nat -> bool)
    requires forall c <- s :: IsShort(c)
    ensures JsDecode(EscapeAll(s, capital)) == s
    ensures EscapeSeqDecode(EscapeAll(s, capital)) == Utf8(s)
  {
    if s != "" {
      assert s[0] in s;
      EscapeRoundTrip(s[1..], capital);
      hide UnicodeEscape;
      UnicodeEscapeDecodes(s[0], capital, EscapeAll(s[1..], capital));
      assert s == [s[0]] + s[1..];
    }
  }

  /** Every byte as a `\x` escape. */
  function EscapeBytes(s: seq<Byte>, capital: nat -> bool): seq<Byte> {
    if s == [] then [] else ByteEscape(s[0], capital) + EscapeBytes(s[1..], capital)
  }

  lemma {:induction false} ByteEscapeRoundTrip(s: seq<Byte>, capital: nat -> bool)
    ensures EscapeSeqDecode(EscapeBytes(s, capital)) == s
  {
    if s != [] {
      ByteEscapeRoundTrip(s[1..], capital);
      hide ByteEscape;
      ByteEscapeDecodes(s[0], capital, EscapeBytes(s[1..], capital));
    }
  }
}
