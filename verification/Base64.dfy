/** The lenient Base64 decoder of crs/transform.rs, over bytes, and the padded encoder
    of section 4 of RFC 4648. */
module Base64 {
  import opened Wrappers

  type Byte = bv8

  const PAD: Byte := 61  // '='

  /** The alphabet of section 4 of RFC 4648. */
  function Symbol(v: Byte): Byte
    requires v < 64
  {
    if v < 26 then v + 65
    else if v < 52 then v + 71
    else if v < 62 then v - 4
    else if v == 62 then 43
    else 47
  }

  /** The decoder's table: the value of an alphabet byte. */
  function Value(b: Byte): (v: Option<Byte>)
    ensures v.Some? ==> v.value < 64
  {
    if 65 <= b <= 90 then Some(b - 65)
    else if 97 <= b <= 122 then Some(b - 71)
    else if 48 <= b <= 57 then Some(b + 4)
    else if b == 43 then Some(62)
    else if b == 47 then Some(63)
    else None
  }

  lemma SymbolValue(v: Byte)
    requires v < 64
    ensures Value(Symbol(v)) == Some(v)
  {
  }

  // ----- decoding -----

  predicate Kept(b: Byte) { Value(b).Some? || b == PAD }

  /** The bytes the decoder looks at. */
  function Clean(s: seq<Byte>): (r: seq<Byte>)
    ensures forall b <- r :: Kept(b)
  {
    if s == [] then [] else Clean(s[..|s| - 1]) + (if Kept(s[|s| - 1]) then [s[|s| - 1]] else [])
  }

  /** The bytes of one group of four, `None` standing for padding. */
  function Group(a: Byte, b: Byte, c: Option<Byte>, d: Option<Byte>): seq<Byte> {
    [(a << 2) | ((b & 0x30) >> 4)]
    + match c
      case None => []
      case Some(c) =>
        [((b & 0x0f) << 4) | ((c & 0x3c) >> 2)]
        + match d
          case None => []
          case Some(d) => [((c & 0x03) << 6) | d]
  }

  /** Groups of four until one starts with padding or fewer than four bytes are left. */
  function DecodeGroups(s: seq<Byte>): seq<Byte> {
    if |s| < 4 then []
    else
      match (Value(s[0]), Value(s[1]))
      case (Some(a), Some(b)) => Group(a, b, Value(s[2]), Value(s[3])) + DecodeGroups(s[4..])
      case _ => []
  }

  function Decode(s: seq<Byte>): seq<Byte> { DecodeGroups(Clean(s)) }

  method Base64Decode(s: seq<Byte>) returns (out: seq<Byte>)
    ensures out == Decode(s)
  {
    var clean := Filter(s);
    hide Value, Group, Clean;
    out := [];
    var i := 0;
    while i + 3 < |clean|
      invariant i <= |clean|
      invariant out + DecodeGroups(clean[i..]) == DecodeGroups(clean)
    {
      var a, b, c, d := Value(clean[i]), Value(clean[i + 1]), Value(clean[i + 2]), Value(clean[i + 3]);
      assert clean[i..][4..] == clean[i + 4..];
      if a.None? || b.None? { break; }
      out := PushGroup(out, a.value, b.value, c, d);
      i := i + 4;
    }
  }

  method Filter(s: seq<Byte>) returns (clean: seq<Byte>)
    ensures clean == Clean(s)
  {
    hide Kept;
    clean := [];
    for k := 0 to |s|
      invariant clean == Clean(s[..k])
    {
      assert s[..k + 1][..k] == s[..k];
      if Kept(s[k]) { clean := clean + [s[k]]; }
    }
    assert s[..|s|] == s;
  }

  method PushGroup(out: seq<Byte>, a: Byte, b: Byte, c: Option<Byte>, d: Option<Byte>) returns (r: seq<Byte>)
    ensures r == out + Group(a, b, c, d)
  {
    r := out + [(a << 2) | ((b & 0x30) >> 4)];
    if c.Some? {
      r := r + [((b & 0x0f) << 4) | ((c.value & 0x3c) >> 2)];
      if d.Some? {
        r := r + [((c.value & 0x03) << 6) | d.value];
      }
    }
  }

  // ----- encoding -----

  function EncodeThree(x: Byte, y: Byte, z: Byte): (s: seq<Byte>)
    ensures |s| == 4
  {
    [Symbol(x >> 2),
     Symbol(((x & 0x03) << 4) | (y >> 4)),
     Symbol(((y & 0x0f) << 2) | (z >> 6)),
     Symbol(z & 0x3f)]
  }

  /** Section 4 of RFC 4648, with padding. */
  function Encode(bytes: seq<Byte>): seq<Byte> {
    if |bytes| == 0 then []
    else if |bytes| == 1 then EncodeThree(bytes[0], 0, 0)[..2] + [PAD, PAD]
    else if |bytes| == 2 then EncodeThree(bytes[0], bytes[1], 0)[..3] + [PAD]
    else EncodeThree(bytes[0], bytes[1], bytes[2]) + Encode(bytes[3..])
  }

  /** The encoding without its padding. */
  function EncodeUnpadded(bytes: seq<Byte>): seq<Byte> {
    if |bytes| == 0 then []
    else if |bytes| == 1 then EncodeThree(bytes[0], 0, 0)[..2]
    else if |bytes| == 2 then EncodeThree(bytes[0], bytes[1], 0)[..3]
    else EncodeThree(bytes[0], bytes[1], bytes[2]) + EncodeUnpadded(bytes[3..])
  }

  // ----- round trips -----

  lemma {:induction false} CleanConcat(s: seq<Byte>, t: seq<Byte>)
    ensures Clean(s + t) == Clean(s) + Clean(t)
  {
    if t == [] {
      assert s + t == s;
    } else {
      assert (s + t)[..|s + t| - 1] == s + t[..|t| - 1];
      CleanConcat(s, t[..|t| - 1]);
    }
  }

  lemma {:induction false} CleanKept(s: seq<Byte>)
    requires forall b <- s :: Kept(b)
    ensures Clean(s) == s
  {
    if s != [] {
      CleanKept(s[..|s| - 1]);
    }
  }

  lemma {:induction false} CleanDropped(s: seq<Byte>)
    requires forall b <- s :: !Kept(b)
    ensures Clean(s) == []
  {
    if s != [] {
      CleanDropped(s[..|s| - 1]);
    }
  }

  lemma Shifts(x: Byte, y: Byte, z: Byte)
    ensures x >> 2 < 64 && ((x & 0x03) << 4) | (y >> 4) < 64
    ensures ((y & 0x0f) << 2) | (z >> 6) < 64 && z & 0x3f < 64
  {
  }

  /** The three bytes come back from the four six-bit values. */
  lemma Regroup(x: Byte, y: Byte, z: Byte)
    ensures var a, b, c, d := x >> 2, ((x & 0x03) << 4) | (y >> 4), ((y & 0x0f) << 2) | (z >> 6), z & 0x3f;
            && (a << 2) | ((b & 0x30) >> 4) == x
            && ((b & 0x0f) << 4) | ((c & 0x3c) >> 2) == y
            && ((c & 0x03) << 6) | d == z
  {
  }

  lemma EncodeThreeValues(x: Byte, y: Byte, z: Byte)
    ensures var s := EncodeThree(x, y, z);
            && (forall b <- s :: Kept(b))
            && Value(s[0]) == Some(x >> 2)
            && Value(s[1]) == Some(((x & 0x03) << 4) | (y >> 4))
            && Value(s[2]) == Some(((y & 0x0f) << 2) | (z >> 6))
            && Value(s[3]) == Some(z & 0x3f)
  {
    Shifts(x, y, z);
    SymbolValue(x >> 2);
    SymbolValue(((x & 0x03) << 4) | (y >> 4));
    SymbolValue(((y & 0x0f) << 2) | (z >> 6));
    SymbolValue(z & 0x3f);
  }

  lemma {:induction false} EncodeIsKept(bytes: seq<Byte>)
    ensures forall b <- Encode(bytes) :: Kept(b)
    ensures forall b <- EncodeUnpadded(bytes) :: Kept(b)
  {
    if |bytes| >= 3 {
      EncodeThreeValues(bytes[0], bytes[1], bytes[2]);
      EncodeIsKept(bytes[3..]);
    } else if |bytes| > 0 {
      EncodeThreeValues(bytes[0], if |bytes| == 2 then bytes[1] else 0, 0);
    }
  }

  /** A group of four symbols, the last one or two padding, decodes to what was encoded. */
  lemma GroupRoundTrip(x: Byte, y: Byte, z: Byte)
    ensures var s := EncodeThree(x, y, z);
            && Value(s[0]).Some? && Value(s[1]).Some?
            && Group(Value(s[0]).value, Value(s[1]).value, Value(s[2]), Value(s[3])) == [x, y, z]
            && Group(Value(s[0]).value, Value(s[1]).value, Value(s[2]), None) == [x, y]
            && Group(Value(s[0]).value, Value(s[1]).value, None, None) == [x]
  {
    EncodeThreeValues(x, y, z);
    Regroup(x, y, z);
    hide EncodeThree, Value, Symbol;
  }

  /** One encoded group, whole or padded, at the front of a text. */
  lemma DecodeFirstGroup(bytes: seq<Byte>, rest: seq<Byte>)
    requires 0 < |bytes| <= 3
    ensures DecodeGroups(Encode(bytes) + rest) == bytes + DecodeGroups(rest)
  {
    hide EncodeThree, Symbol, Value, Group;
    var s := Encode(bytes) + rest;
    GroupRoundTrip(bytes[0], if |bytes| > 1 then bytes[1] else 0, if |bytes| > 2 then bytes[2] else 0);
    PadIsNoValue();
    assert |bytes| == 3 ==> Encode(bytes[3..]) == [];
    assert |Encode(bytes)| == 4;
    assert s[4..] == rest;
    assert |bytes| == 3 ==> bytes == [bytes[0], bytes[1], bytes[2]];
  }

  lemma {:induction false} DecodeGroupsEncode(bytes: seq<Byte>, rest: seq<Byte>)
    ensures DecodeGroups(Encode(bytes) + rest) == bytes + DecodeGroups(rest)
  {
    hide EncodeThree, Symbol, Value, Group, DecodeGroups;
    if |bytes| > 3 {
      var front, back := bytes[..3], bytes[3..];
      DecodeFirstGroup(front, Encode(back) + rest);
      DecodeGroupsEncode(back, rest);
      assert Encode(front) == EncodeThree(bytes[0], bytes[1], bytes[2]) + [] by { assert front[3..] == []; }
      assert Encode(bytes) + rest == Encode(front) + (Encode(back) + rest);
      assert bytes == front + back;
    } else if |bytes| > 0 {
      DecodeFirstGroup(bytes, rest);
    } else {
      assert Encode(bytes) + rest == rest;
    }
  }

  lemma PadIsNoValue()
    ensures Value(PAD) == None
  {
  }

  /** The decoder inverts the encoder whatever bytes outside the alphabet and the
      padding character are scattered through the text. */
  lemma DecodeEncode(bytes: seq<Byte>, noisy: seq<Byte>)
    requires Clean(noisy) == Encode(bytes)
    ensures Decode(noisy) == bytes
    ensures Decode(Encode(bytes)) == bytes
  {
    EncodeIsKept(bytes);
    CleanKept(Encode(bytes));
    DecodeGroupsEncode(bytes, []);
    assert Encode(bytes) + [] == Encode(bytes);
  }

  /** Padding ends a group, not the text: what follows an encoding is decoded as well. */
  lemma DecodeConcatenation(bytes: seq<Byte>, rest: seq<Byte>)
    ensures Decode(Encode(bytes) + rest) == bytes + Decode(rest)
  {
    EncodeIsKept(bytes);
    CleanKept(Encode(bytes));
    CleanConcat(Encode(bytes), rest);
    DecodeGroupsEncode(bytes, Clean(rest));
  }

  /** Bytes outside the alphabet and the padding character change nothing, anywhere. */
  lemma InsertedNoise(s: seq<Byte>, noise: seq<Byte>, t: seq<Byte>)
    requires forall b <- noise :: !Kept(b)
    ensures Decode(s + noise + t) == Decode(s + t)
  {
    CleanConcat(s + noise, t);
    CleanConcat(s, noise);
    assert Clean(s) + [] == Clean(s);
    CleanConcat(s, t);
    CleanDropped(noise);
  }

  /** Without its padding, an encoding decodes to the bytes of its whole groups only:
      the decoder returns all of them exactly when there was no padding to drop. */
  lemma {:induction false} DecodeUnpadded(bytes: seq<Byte>)
    ensures Decode(EncodeUnpadded(bytes)) == bytes[..|bytes| - |bytes| % 3]
    ensures Decode(EncodeUnpadded(bytes)) == bytes <==> |bytes| % 3 == 0
  {
    EncodeIsKept(bytes);
    CleanKept(EncodeUnpadded(bytes));
    DecodeGroupsUnpadded(bytes);
  }

  lemma {:induction false} DecodeGroupsUnpadded(bytes: seq<Byte>)
    ensures DecodeGroups(EncodeUnpadded(bytes)) == bytes[..|bytes| - |bytes| % 3]
  {
    hide EncodeThree, Symbol, Value, Group;
    if |bytes| >= 3 {
      GroupRoundTrip(bytes[0], bytes[1], bytes[2]);
      DecodeGroupsUnpadded(bytes[3..]);
      assert EncodeUnpadded(bytes)[4..] == EncodeUnpadded(bytes[3..]);
      var n := |bytes| - |bytes| % 3;
      assert bytes[..n] == bytes[..3] + bytes[3..][..n - 3];
    }
  }

  // ----- texts that no encoder writes -----

  /** Padding in the first or second place of a group ends the decoding. */
  lemma PaddingStops(bytes: seq<Byte>, group: seq<Byte>, rest: seq<Byte>)
    requires |group| == 4 && (forall b <- group :: Kept(b)) && (group[0] == PAD || group[1] == PAD)
    ensures Decode(Encode(bytes) + (group + rest)) == bytes
  {
    DecodeConcatenation(bytes, group + rest);
    CleanConcat(group, rest);
    CleanKept(group);
    PadIsNoValue();
    hide Encode, Value, Clean;
    assert DecodeGroups(group + Clean(rest)) == [];
  }

  /** Padding in the third place decides alone: what stands in the fourth is not looked at. */
  lemma PaddingInside(bytes: seq<Byte>, x: Byte, y: Byte, z: Byte, rest: seq<Byte>)
    requires Value(x).Some? && Value(y).Some? && Kept(z)
    ensures Decode(Encode(bytes) + ([x, y, PAD, z] + rest)) == Decode(Encode(bytes) + ([x, y, PAD, PAD] + rest))
  {
    var g, h := [x, y, PAD, z], [x, y, PAD, PAD];
    DecodeConcatenation(bytes, g + rest);
    DecodeConcatenation(bytes, h + rest);
    CleanConcat(g, rest);
    CleanConcat(h, rest);
    CleanKept(g);
    CleanKept(h);
    PadIsNoValue();
    hide Encode, Value, Clean;
    assert (g + Clean(rest))[4..] == (h + Clean(rest))[4..];
  }

  /** Bits that an encoder leaves zero before padding are not looked at. */
  lemma SpareBits(x: Byte, y: Byte, spare: Byte)
    requires spare < 16
    ensures ((x & 0x03) << 4) | spare < 64
    ensures Decode([Symbol(x >> 2), Symbol(((x & 0x03) << 4) | spare), PAD, PAD]) == [x]
    ensures ((y & 0x0f) << 2) | (spare & 0x03) < 64
    ensures Decode([Symbol(x >> 2), Symbol(((x & 0x03) << 4) | (y >> 4)), Symbol(((y & 0x0f) << 2) | (spare & 0x03)), PAD])
            == [x, y]
  {
    Shifts(x, y, 0);
    SpareValues(x, y, spare);
    var a, b, b', c := x >> 2, ((x & 0x03) << 4) | spare, ((x & 0x03) << 4) | (y >> 4), ((y & 0x0f) << 2) | (spare & 0x03);
    SymbolValue(a);
    SymbolValue(b);
    SymbolValue(b');
    SymbolValue(c);
    PadIsNoValue();
    OneGroup(Symbol(a), Symbol(b), PAD, PAD);
    OneGroup(Symbol(a), Symbol(b'), Symbol(c), PAD);
    hide Symbol, Value, Clean, Decode;
  }

  lemma SpareValues(x: Byte, y: Byte, spare: Byte)
    requires spare < 16
    ensures var a, b, b', c := x >> 2, ((x & 0x03) << 4) | spare, ((x & 0x03) << 4) | (y >> 4), ((y & 0x0f) << 2) | (spare & 0x03);
            && b < 64 && c < 64
            && (a << 2) | ((b & 0x30) >> 4) == x
            && (a << 2) | ((b' & 0x30) >> 4) == x && ((b' & 0x0f) << 4) | ((c & 0x3c) >> 2) == y
  {
  }

  lemma OneGroup(s0: Byte, s1: Byte, s2: Byte, s3: Byte)
    requires Value(s0).Some? && Value(s1).Some? && Kept(s2) && Kept(s3)
    ensures Decode([s0, s1, s2, s3]) == Group(Value(s0).value, Value(s1).value, Value(s2), Value(s3))
  {
    var s := [s0, s1, s2, s3];
    CleanKept(s);
    hide Value, Group, Clean;
    assert s[4..] == [] && DecodeGroups(s[4..]) == [];
  }
}
