/** The two backslash-escape decoders of crs/transform.rs: `escape_seq_decode`, which
    emits bytes, and `js_decode`, which emits characters. */
module Escapes {
  import opened Wrappers
  import opened Bytes

  /** Is `n` the code of a character (not a surrogate)? */
  predicate IsScalar(n: nat) { n < 0xD800 || 0xE000 <= n < 0x110000 }

  /** Four hexadecimal digits as a number. */
  function HexQuad(s: seq<Byte>): (n: Option<nat>)
    requires |s| == 4
    ensures n.Some? ==> n.value < 0x10000
    ensures n.Some? ==> forall b <- s :: Hex(b).Some?
  {
    match (Hex(s[0]), Hex(s[1]), Hex(s[2]), Hex(s[3]))
    case (Some(a), Some(b), Some(c), Some(d)) => Some(4096 * a + 256 * b + 16 * c + d)
    case _ => None
  }

  // ----- escape_seq_decode -----

  /** The bytes emitted for the front of `s`, and how many bytes of `s` they use up. */
  function EscapeStep(s: seq<Byte>): (r: (seq<Byte>, nat))
    requires s != []
    ensures 1 <= r.1 <= |s|
  {
    if s[0] == BACKSLASH && |s| > 1 then
      if s[1] == 'n' as int then ([10], 2)
      else if s[1] == 'r' as int then ([13], 2)
      else if s[1] == 't' as int then ([9], 2)
      else if s[1] == 'x' as int && |s| > 3 then
        match (Hex(s[2]), Hex(s[3]))
        case (Some(h), Some(l)) => ([16 * h + l], 4)
        case _ => ([s[0]], 1)
      else if s[1] == 'u' as int && |s| > 5 then
        match HexQuad(s[2..6])
        case Some(n) => if IsScalar(n) then (EncodeChar(n as char), 6) else ([s[0]], 1)
        case None => ([s[0]], 1)
      else ([s[0]], 1)
    else ([s[0]], 1)
  }

  function EscapeSeqDecode(s: seq<Byte>): seq<Byte> {
    if s == [] then [] else EscapeStep(s).0 + EscapeSeqDecode(s[EscapeStep(s).1..])
  }

  method EscapeSeqDecodeLoop(b: seq<Byte>) returns (out: seq<Byte>)
    ensures out == EscapeSeqDecode(b)
  {
    hide EscapeStep;
    out := [];
    var i := 0;
    while i < |b|
      invariant i <= |b|
      invariant out + EscapeSeqDecode(b[i..]) == EscapeSeqDecode(b)
    {
      var emitted, n := EscapeAt(b, i);
      assert b[i..][n..] == b[i + n..];
      out := out + emitted;
      i := i + n;
    }
  }

  method EscapeAt(b: seq<Byte>, i: nat) returns (emitted: seq<Byte>, n: nat)
    requires i < |b|
    ensures (emitted, n) == EscapeStep(b[i..])
  {
    hide Hex, HexQuad, EncodeChar;
    emitted, n := [b[i]], 1;
    if b[i] == BACKSLASH && i + 1 < |b| {
      if b[i + 1] == 'n' as int { emitted, n := [10], 2; }
      else if b[i + 1] == 'r' as int { emitted, n := [13], 2; }
      else if b[i + 1] == 't' as int { emitted, n := [9], 2; }
      else if b[i + 1] == 'x' as int && i + 3 < |b| {
        var h, l := Hex(b[i + 2]), Hex(b[i + 3]);
        if h.Some? && l.Some? { emitted, n := [16 * h.value + l.value], 4; }
      } else if b[i + 1] == 'u' as int && i + 5 < |b| {
        assert b[i..][2..6] == b[i + 2..i + 6];
        var code := HexQuad(b[i + 2..i + 6]);
        if code.Some? && IsScalar(code.value) { emitted, n := EncodeChar(code.value as char), 6; }
      }
    }
  }

  // ----- js_decode -----

  /** The character emitted for the front of `s`, and how many bytes of `s` it uses up. */
  function JsStep(s: seq<Byte>): (r: (char, nat))
    requires s != []
    ensures 1 <= r.1 <= |s|
  {
    if s[0] != BACKSLASH || |s| == 1 then (s[0] as char, 1)
    else if s[1] == 'x' as int && |s| > 3 && Hex(s[2]).Some? && Hex(s[3]).Some? then
      ((16 * Hex(s[2]).value + Hex(s[3]).value) as char, 4)
    else if s[1] == 'u' as int && |s| > 5 && HexQuad(s[2..6]).Some? && IsScalar(HexQuad(s[2..6]).value) then
      (HexQuad(s[2..6]).value as char, 6)
    else if s[1] == 'n' as int then ('\n', 2)
    else if s[1] == 'r' as int then ('\r', 2)
    else if s[1] == 't' as int then ('\t', 2)
    else (s[0] as char, 1)
  }

  function JsDecode(s: seq<Byte>): string {
    if s == [] then "" else [JsStep(s).0] + JsDecode(s[JsStep(s).1..])
  }

  method JsDecodeLoop(bytes: seq<Byte>) returns (out: string)
    ensures out == JsDecode(bytes)
  {
    hide JsStep;
    out := "";
    var i := 0;
    while i < |bytes|
      invariant i <= |bytes|
      invariant out + JsDecode(bytes[i..]) == JsDecode(bytes)
    {
      var c, n := JsAt(bytes, i);
      assert bytes[i..][n..] == bytes[i + n..];
      out := out + [c];
      i := i + n;
    }
  }

  method JsAt(bytes: seq<Byte>, i: nat) returns (c: char, n: nat)
    requires i < |bytes|
    ensures (c, n) == JsStep(bytes[i..])
  {
    hide Hex, HexQuad;
    if bytes[i] == BACKSLASH && i + 1 < |bytes| {
      if bytes[i + 1] == 'x' as int && i + 3 < |bytes| {
        var h, l := Hex(bytes[i + 2]), Hex(bytes[i + 3]);
        if h.Some? && l.Some? { return (16 * h.value + l.value) as char, 4; }
      } else if bytes[i + 1] == 'u' as int && i + 5 < |bytes| {
        assert bytes[i..][2..6] == bytes[i + 2..i + 6];
        var code := HexQuad(bytes[i + 2..i + 6]);
        if code.Some? && IsScalar(code.value) { return code.value as char, 6; }
      } else if bytes[i + 1] == 'n' as int { return '\n', 2; }
      else if bytes[i + 1] == 'r' as int { return '\r', 2; }
      else if bytes[i + 1] == 't' as int { return '\t', 2; }
    }
    return bytes[i] as char, 1;
  }

  // ----- where the two agree -----

  /** A complete `\xHH` escape stands at position `i` and names a byte above 0x7f. */
  predicate HighEscapeAt(s: seq<Byte>, i: nat) {
    && i + 3 < |s| && s[i] == BACKSLASH && s[i + 1] == 'x' as int
    && Hex(s[i + 2]).Some? && Hex(s[i + 3]).Some? && Hex(s[i + 2]).value >= 8
  }

  /** Only ASCII bytes, written out or escaped. */
  predicate PlainEscapes(s: seq<Byte>) {
    && (forall b <- s :: b < 128)
    && (forall i | 0 <= i < |s| :: !HighEscapeAt(s, i))
  }

  /** No escape's letters and digits contain the start of another escape. */
  lemma PlainAfter(s: seq<Byte>, k: nat)
    requires 1 <= k <= |s|
    requires forall j | 1 <= j < k :: s[j] != BACKSLASH && s[j] < 128
    ensures PlainEscapes(s) <==> s[0] < 128 && !HighEscapeAt(s, 0) && PlainEscapes(s[k..])
  {
    hide Hex;
    var t := s[k..];
    assert s == s[..k] + t;
    forall i | 0 <= i < |t|
      ensures HighEscapeAt(t, i) <==> HighEscapeAt(s, k + i)
    {
      assert t[i] == s[k + i];
    }
    assert forall i | k <= i < |s| :: HighEscapeAt(s, i) <==> HighEscapeAt(t, i - k);
    assert forall i | 1 <= i < k :: !HighEscapeAt(s, i);
    assert forall b <- s[1..k] :: b < 128;
    assert forall b <- s :: b == s[0] || b in s[1..k] || b in t;
    assert s[0] in s && forall b <- t :: b in s;
    if PlainEscapes(s) {
      assert !HighEscapeAt(s, 0);
    }
    if PlainEscapes(t) && s[0] < 128 && !HighEscapeAt(s, 0) {
      assert forall i | 0 <= i < |s| :: !HighEscapeAt(s, i);
    }
  }

  lemma HexIsPlain(b: Byte)
    requires Hex(b).Some?
    ensures b != BACKSLASH && b < 128
  {
  }

  lemma StepIsPlain(s: seq<Byte>)
    requires s != []
    ensures forall j | 1 <= j < EscapeStep(s).1 :: s[j] != BACKSLASH && s[j] < 128
  {
    forall j | 1 <= j < EscapeStep(s).1
      ensures s[j] != BACKSLASH && s[j] < 128
    {
      if j >= 2 {
        assert EscapeStep(s).1 == 6 ==> s[j] == s[2..6][j - 2] && s[j] in s[2..6];
        HexIsPlain(s[j]);
      }
    }
  }

  /** One step: both decoders use up the same bytes.  They emit the same character when
      it is ASCII or comes from a `\u` escape; otherwise the byte decoder emits less. */
  lemma StepCompared(s: seq<Byte>)
    requires s != []
    ensures EscapeStep(s).1 == JsStep(s).1
    ensures s[0] < 128 && !HighEscapeAt(s, 0) ==> EscapeStep(s).0 == EncodeChar(JsStep(s).0)
    ensures !(s[0] < 128 && !HighEscapeAt(s, 0)) ==> |EscapeStep(s).0| < |EncodeChar(JsStep(s).0)|
  {
  }

  lemma {:induction false} DecodersCompared(s: seq<Byte>)
    ensures PlainEscapes(s) ==> EscapeSeqDecode(s) == Utf8(JsDecode(s))
    ensures !PlainEscapes(s) ==> |EscapeSeqDecode(s)| < |Utf8(JsDecode(s))|
    decreases |s|
  {
    if s != [] {
      var k := EscapeStep(s).1;
      DecodersCompared(s[k..]);
      StepIsPlain(s);
      PlainAfter(s, k);
      StepCompared(s);
      hide EscapeStep, JsStep, EncodeChar, PlainEscapes, HighEscapeAt;
      assert JsDecode(s)[1..] == JsDecode(s[k..]);
      assert Utf8(JsDecode(s)) == EncodeChar(JsStep(s).0) + Utf8(JsDecode(s[k..]));
    }
  }

  /** The byte decoder's output is the character decoder's output in UTF-8 exactly on
      inputs whose bytes, written out or escaped as `\xHH`, are all ASCII. */
  lemma DecodersAgreeExactly(s: seq<Byte>)
    ensures EscapeSeqDecode(s) == Utf8(JsDecode(s)) <==> PlainEscapes(s)
  {
    DecodersCompared(s);
  }
}
