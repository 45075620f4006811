/** What the single transforms of crs/transform.rs compute. */
module TransformLaws {
  import opened Text
  import opened Wrappers
  import opened Bytes
  import opened Strings
  import opened Transforms
  import Base64
  import Escapes
  import EscapeLaws

  // ----- replacement in general -----

  /** The text before the first place where the pattern can match is kept. */
  lemma {:induction false} ReplaceSkips(a: string, rest: string, pattern: string, with: string)
    requires pattern != "" && forall i | 0 <= i < |a| :: !(pattern <= (a + rest)[i..])
    ensures Replace(a + rest, pattern, with) == a + Replace(rest, pattern, with)
  {
    if a == "" {
      assert a + rest == rest;
    } else {
      assert (a + rest)[0..] == a + rest && (a + rest)[1..] == a[1..] + rest;
      forall i | 0 <= i < |a[1..]|
        ensures !(pattern <= (a[1..] + rest)[i..])
      {
        assert (a[1..] + rest)[i..] == (a + rest)[i + 1..];
      }
      ReplaceSkips(a[1..], rest, pattern, with);
      assert a == [a[0]] + a[1..];
    }
  }

  lemma ReplaceHere(rest: string, pattern: string, with: string)
    requires pattern != ""
    ensures Replace(pattern + rest, pattern, with) == with + Replace(rest, pattern, with)
  {
    assert (pattern + rest)[|pattern|..] == rest;
  }

  lemma {:induction false} ReplaceNone(s: string, pattern: string, with: string)
    requires pattern != "" && !Contains(s, pattern)
    ensures Replace(s, pattern, with) == s
  {
    assert s + "" == s;
    ReplaceSkips(s, "", pattern, with);
  }

  lemma {:induction false} ReplaceShrinks(s: string, pattern: string, with: string)
    requires |with| < |pattern|
    ensures |Replace(s, pattern, with)| <= |s|
    ensures Contains(s, pattern) ==> |Replace(s, pattern, with)| < |s|
  {
    if s != "" {
      ContainsCons(s, pattern);
      if pattern <= s {
        ReplaceShrinks(s[|pattern|..], pattern, with);
      } else {
        ReplaceShrinks(s[1..], pattern, with);
      }
    }
  }

  // ----- character entities -----

  /** `&...;` with neither `&` nor `;` inside. */
  predicate IsEntity(e: string) {
    |e| >= 2 && e[0] == '&' && e[|e| - 1] == ';' && forall i | 0 < i < |e| - 1 :: e[i] != '&' && e[i] != ';'
  }

  /** Where an entity stands, only that entity is read. */
  lemma EntityReads(e: string, f: string, rest: string)
    requires IsEntity(e) && IsEntity(f) && f <= e + rest
    ensures f == e
  {
    var t := e + rest;
    assert forall i | 0 <= i < |f| :: f[i] == t[i];
    assert forall i | 0 <= i < |e| :: e[i] == t[i];
    assert |e| == |f|;
  }

  /** No entity begins inside another one. */
  lemma NoEntityInside(e: string, f: string, rest: string, i: nat)
    requires IsEntity(e) && IsEntity(f) && 0 < i < |e|
    ensures !(f <= (e + rest)[i..])
  {
    assert (e + rest)[i..][0] == e[i] != '&';
  }

  /** The text with each character written as `code` gives it. */
  function Encoded(s: string, code: char -> string): string {
    if s == "" then "" else code(s[0]) + Encoded(s[1..], code)
  }

  /** A character is written as itself or as an entity. */
  ghost predicate IsCode(code: char -> string) { forall c :: code(c) == [c] || IsEntity(code(c)) }

  function Plainly(code: char -> string, ch: char): char -> string { c => if c == ch then [ch] else code(c) }

  /** While ampersands are written as entities, decoding one entity decodes one character. */
  lemma {:induction false} DecodeOne(s: string, code: char -> string, ch: char)
    requires IsCode(code) && IsEntity(code('&')) && IsEntity(code(ch))
    requires forall c | c != ch :: code(c) != code(ch)
    ensures Replace(Encoded(s, code), code(ch), [ch]) == Encoded(s, Plainly(code, ch))
  {
    if s != "" {
      var c, e, rest := s[0], code(ch), Encoded(s[1..], code);
      DecodeOne(s[1..], code, ch);
      hide Encoded, Replace, IsEntity;
      assert Encoded(s, code) == code(c) + rest by { EncodedCons(s, code); }
      EncodedCons(s, Plainly(code, ch));
      if c == ch {
        ReplaceHere(rest, e, [ch]);
      } else {
        SkipCode(c, code, e, rest);
        ReplaceSkips(code(c), rest, e, [ch]);
      }
    }
  }

  lemma EncodedCons(s: string, code: char -> string)
    requires s != ""
    ensures Encoded(s, code) == code(s[0]) + Encoded(s[1..], code)
  {
  }

  lemma SkipCode(c: char, code: char -> string, e: string, rest: string)
    requires IsCode(code) && IsEntity(e) && code(c) != e && code(c) != "&"
    ensures forall i | 0 <= i < |code(c)| :: !(e <= (code(c) + rest)[i..])
  {
    forall i | 0 <= i < |code(c)|
      ensures !(e <= (code(c) + rest)[i..])
    {
      if IsEntity(code(c)) {
        assert (code(c) + rest)[0..] == code(c) + rest;
        if e <= code(c) + rest { EntityReads(code(c), e, rest); }
        if i > 0 { NoEntityInside(code(c), e, rest, i); }
      } else {
        assert (code(c) + rest)[0] == c != '&';
        assert (code(c) + rest)[0..] == code(c) + rest;
      }
    }
  }

  /** A text without `&` stands in front of a coded one only if it stood in front of it. */
  lemma {:induction false} PlainPrefix(t: string, s: string, code: char -> string)
    requires IsCode(code) && '&' !in t && t <= Encoded(s, code)
    ensures t <= s
  {
    if t != "" {
      var u := Encoded(s, code);
      assert t[0] in t && t[0] == u[0];
      assert s != "" && u == code(s[0]) + Encoded(s[1..], code);
      assert code(s[0]) == [s[0]];
      assert t[1..] <= u[1..] == Encoded(s[1..], code) by {
        assert forall i | 0 <= i < |t[1..]| :: t[1..][i] == t[i + 1] == u[i + 1];
        assert u[1..] == Encoded(s[1..], code);
      }
      PlainPrefix(t[1..], s[1..], code);
      assert t == [t[0]] + t[1..] && s == [s[0]] + s[1..];
      assert forall i | 0 <= i < |t| :: t[i] == s[i];
    }
  }

  lemma {:induction false} EncodedPlain(t: string, rest: string, code: char -> string)
    requires forall c <- t :: code(c) == [c]
    ensures Encoded(t + rest, code) == t + Encoded(rest, code)
  {
    if t == "" {
      assert t + rest == rest;
    } else {
      assert t[0] in t && (t + rest)[1..] == t[1..] + rest;
      EncodedPlain(t[1..], rest, code);
      assert t == [t[0]] + t[1..];
    }
  }

  /** Once ampersands are plain, decoding an entity also decodes it where the text itself
      had it. */
  lemma {:induction false} DecodeLate(s: string, code: char -> string, ch: char)
    requires IsCode(code) && IsEntity(code(ch))
    requires (forall c | c != ch :: code(c) != code(ch)) && forall c <- code(ch) :: code(c) == [c]
    ensures Replace(Encoded(s, code), code(ch), [ch]) == Encoded(Replace(s, code(ch), [ch]), Plainly(code, ch))
    decreases |s|
  {
    if s != "" {
      var e := code(ch);
      if e <= s {
        var rest := s[|e|..];
        assert s == e + rest;
        DecodeLate(rest, code, ch);
        EncodedPlain(e, rest, code);
        hide Encoded, IsEntity;
        ReplaceHere(Encoded(rest, code), e, [ch]);
        ReplaceHere(rest, e, [ch]);
        EncodedFirst(ch, Replace(rest, e, [ch]), Plainly(code, ch));
      } else {
        var c, rest := s[0], Encoded(s[1..], code);
        DecodeLate(s[1..], code, ch);
        EncodedCons(s, code);
        EncodedFirst(c, Replace(s[1..], e, [ch]), Plainly(code, ch));
        assert Replace(s, e, [ch]) == [c] + Replace(s[1..], e, [ch]);
        if c == ch {
          ReplaceHere(rest, e, [ch]);
        } else {
          if c == '&' && code(c) == "&" {
            SkipAmpersand(s, code, e);
          } else {
            SkipCode(c, code, e, rest);
          }
          hide Encoded, IsEntity, Replace;
          ReplaceSkips(code(c), rest, e, [ch]);
        }
      }
    }
  }

  lemma EncodedFirst(c: char, rest: string, code: char -> string)
    ensures Encoded([c] + rest, code) == code(c) + Encoded(rest, code)
  {
    assert ([c] + rest)[1..] == rest;
  }

  lemma SkipAmpersand(s: string, code: char -> string, e: string)
    requires IsCode(code) && IsEntity(e) && s != "" && s[0] == '&' && code('&') == "&" && !(e <= s)
    ensures forall i | 0 <= i < |code(s[0])| :: !(e <= (code(s[0]) + Encoded(s[1..], code))[i..])
  {
    var u := "&" + Encoded(s[1..], code);
    assert u[0..] == u;
    if e <= u {
      AmpersandPrefix(e, s, code);
      assert false;
    }
  }

  lemma AmpersandPrefix(e: string, s: string, code: char -> string)
    requires IsCode(code) && IsEntity(e) && s != "" && s[0] == '&' && e <= "&" + Encoded(s[1..], code)
    ensures e <= s
  {
    var u := "&" + Encoded(s[1..], code);
    assert u[1..] == Encoded(s[1..], code);
    assert forall i | 0 <= i < |e[1..]| :: e[1..][i] == e[i + 1] == u[i + 1];
    assert '&' !in e[1..];
    PlainPrefix(e[1..], s[1..], code);
    assert e == ['&'] + e[1..] && s == ['&'] + s[1..];
    PrefixCons('&', e[1..], '&', s[1..]);
  }

  lemma {:induction false} EncodedAsIs(s: string, code: char -> string)
    requires forall c :: code(c) == [c]
    ensures Encoded(s, code) == s
  {
    if s != "" { EncodedAsIs(s[1..], code); }
  }

  // ----- the decoder against an encoder -----

  /** The five characters that markup escapes. */
  function EntityCode(c: char): string {
    if c == '<' then "&lt;" else if c == '>' then "&gt;" else if c == '&' then "&amp;"
    else if c == '\"' then "&quot;" else if c == '\'' then "&#x27;" else [c]
  }

  function EncodeEntities(s: string): string { Encoded(s, EntityCode) }

  /** The entities that are decoded after `&amp;`. */
  const LATE: seq<string> := ["&quot;", "&#x27;", "&#39;", "&apos;", "&#x3C;", "&#x3E;", "&nbsp;"]

  /** Different characters are written differently. */
  ghost predicate Distinguishes(code: char -> string) { forall c, d | c != d :: code(c) != code(d) }

  lemma EntityCodesDiffer()
    ensures IsCode(EntityCode) && Distinguishes(EntityCode)
  {
  }

  lemma PlainlyKeeps(code: char -> string, ch: char)
    requires IsCode(code) && Distinguishes(code)
    ensures IsCode(Plainly(code, ch)) && Distinguishes(Plainly(code, ch))
  {
    var g := Plainly(code, ch);
    forall c, d | c != d
      ensures g(c) != g(d)
    {
      assert IsEntity(code(c)) ==> |code(c)| >= 2;
      assert IsEntity(code(d)) ==> |code(d)| >= 2;
    }
  }

  /** The codes after `&lt;`, `&gt;` and `&amp;` have been decoded. */
  function EarlyDone(): char -> string { Plainly(Plainly(Plainly(EntityCode, '<'), '>'), '&') }

  lemma EarlyStages(s: string)
    ensures Replace(Replace(Replace(EncodeEntities(s), "&lt;", "<"), "&gt;", ">"), "&amp;", "&") == Encoded(s, EarlyDone())
  {
    var f0: char -> string := EntityCode;
    var f1 := Plainly(f0, '<');
    var f2 := Plainly(f1, '>');
    EntityCodesDiffer();
    PlainlyKeeps(f0, '<');
    PlainlyKeeps(f1, '>');
    assert f0('<') == "&lt;" && f1('>') == "&gt;" && f2('&') == "&amp;";
    assert f0('&') == f1('&') == "&amp;";
    hide Encoded, Replace, Plainly;
    DecodeOne(s, f0, '<');
    DecodeOne(s, f1, '>');
    DecodeOne(s, f2, '&');
  }

  lemma EarlyDoneFits()
    ensures IsCode(EarlyDone()) && Distinguishes(EarlyDone())
  {
    var f1 := Plainly(EntityCode, '<');
    var f2 := Plainly(f1, '>');
    EntityCodesDiffer();
    PlainlyKeeps(EntityCode, '<');
    PlainlyKeeps(f1, '>');
    PlainlyKeeps(f2, '&');
    hide IsCode, Distinguishes, EntityCode, Plainly;
    assert EarlyDone() == Plainly(f2, '&');
    assert IsCode(Plainly(f2, '&'));
    assert IsCode(EarlyDone());
  }

  /** Only quotes are still coded then. */
  lemma EarlyDoneIs(c: char)
    ensures EarlyDone()(c) == if c == '\"' then "&quot;" else if c == '\'' then "&#x27;" else [c]
  {
    var f1 := Plainly(EntityCode, '<');
    var f2 := Plainly(f1, '>');
    assert f1(c) == if c == '<' then [c] else EntityCode(c);
    assert f2(c) == if c == '>' then [c] else f1(c);
    assert EarlyDone()(c) == if c == '&' then [c] else f2(c);
  }

  /** Decoding one entity that is written in plain characters. */
  lemma LateStage(s: string, code: char -> string, ch: char, next: char -> string)
    requires IsCode(code) && Distinguishes(code) && next == Plainly(code, ch)
    requires IsEntity(code(ch)) && forall c <- code(ch) :: code(c) == [c]
    ensures Replace(Encoded(s, code), code(ch), [ch]) == Encoded(Replace(s, code(ch), [ch]), next)
    ensures IsCode(next) && Distinguishes(next)
  {
    PlainlyKeeps(code, ch);
    CodesDiffer(code, ch);
    hide *;
    DecodeLate(s, code, ch);
  }

  /** What is left of the code after each of the two entities. */
  lemma LateCodes(f4: char -> string, f5: char -> string)
    requires f4 == Plainly(EarlyDone(), '\"') && f5 == Plainly(f4, '\'')
    ensures EarlyDone()('\"') == "&quot;" && forall c <- "&quot;" :: EarlyDone()(c) == [c]
    ensures f4('\'') == "&#x27;" && forall c <- "&#x27;" :: f4(c) == [c]
    ensures forall c :: f5(c) == [c]
  {
    forall c { EarlyDoneIs(c); }
    hide EarlyDone;
    assert forall c :: f4(c) == if c == '\'' then "&#x27;" else [c];
  }

  lemma LateStages(s: string)
    ensures Replace(Replace(Encoded(s, EarlyDone()), "&quot;", "\""), "&#x27;", "'")
            == Replace(Replace(s, "&quot;", "\""), "&#x27;", "'")
  {
    var f3 := EarlyDone();
    var f4: char -> string := Plainly(f3, '\"');
    var f5 := Plainly(f4, '\'');
    var q := Replace(s, "&quot;", "\"");
    EarlyDoneFits();
    LateCodes(f4, f5);
    assert IsEntity("&quot;") && IsEntity("&#x27;");
    hide *;
    LateStage(s, f3, '\"', f4);
    LateStage(q, f4, '\'', f5);
    EncodedAsIs(Replace(q, "&#x27;", "'"), f5);
  }

  lemma CodesDiffer(code: char -> string, ch: char)
    requires Distinguishes(code)
    ensures forall c | c != ch :: code(c) != code(ch)
  {
  }

  /** Decoding an encoded text decodes, besides, what the text itself has of entities that
      are replaced after `&amp;`. */
  lemma DecodeEncoded(s: string)
    ensures ReplaceEntities(EncodeEntities(s), ENTITIES) == ReplaceEntities(s, ENTITIES[3..])
  {
    EarlyStages(s);
    LateStages(s);
    hide *;
    var a := Replace(EncodeEntities(s), "&lt;", "<");
    var b := Replace(a, "&gt;", ">");
    var c := Replace(b, "&amp;", "&");
    var d := Replace(c, "&quot;", "\"");
    var q := Replace(s, "&quot;", "\"");
    var x := Replace(q, "&#x27;", "'");
    TableSteps(EncodeEntities(s), a, b, c, d, x);
    LateSteps(s, q, x);
  }

  lemma FirstEntity(s: string, es: seq<(string, string)>)
    requires es != [] && es[0].0 != ""
    ensures ReplaceEntities(s, es) == ReplaceEntities(Replace(s, es[0].0, es[0].1), es[1..])
  {
  }

  lemma TableSteps(s: string, a: string, b: string, c: string, d: string, e: string)
    requires a == Replace(s, "&lt;", "<") && b == Replace(a, "&gt;", ">") && c == Replace(b, "&amp;", "&")
    requires d == Replace(c, "&quot;", "\"") && e == Replace(d, "&#x27;", "'")
    ensures ReplaceEntities(s, ENTITIES) == ReplaceEntities(e, ENTITIES[5..])
  {
    hide Replace, ReplaceEntities;
    FirstEntity(s, ENTITIES);
    FirstEntity(a, ENTITIES[1..]);
    FirstEntity(b, ENTITIES[2..]);
    FirstEntity(c, ENTITIES[3..]);
    FirstEntity(d, ENTITIES[4..]);
    assert ENTITIES[1..][1..] == ENTITIES[2..] && ENTITIES[2..][1..] == ENTITIES[3..];
    assert ENTITIES[3..][1..] == ENTITIES[4..] && ENTITIES[4..][1..] == ENTITIES[5..];
  }

  lemma LateSteps(s: string, q: string, x: string)
    requires q == Replace(s, "&quot;", "\"") && x == Replace(q, "&#x27;", "'")
    ensures ReplaceEntities(s, ENTITIES[3..]) == ReplaceEntities(x, ENTITIES[5..])
  {
    hide Replace, ReplaceEntities;
    FirstEntity(s, ENTITIES[3..]);
    FirstEntity(q, ENTITIES[4..]);
    assert ENTITIES[3..][1..] == ENTITIES[4..] && ENTITIES[4..][1..] == ENTITIES[5..];
  }

  lemma {:induction false} UnchangedExactly(s: string, es: seq<(string, string)>)
    requires forall e <- es :: |e.1| < |e.0|
    ensures |ReplaceEntities(s, es)| <= |s|
    ensures ReplaceEntities(s, es) == s <==> forall e <- es :: !Contains(s, e.0)
    decreases |es|
  {
    if es != [] {
      var (entity, character) := es[0];
      assert es[0] in es && forall e <- es :: e == es[0] || e in es[1..];
      ReplaceShrinks(s, entity, character);
      UnchangedExactly(Replace(s, entity, character), es[1..]);
      FirstEntity(s, es);
      if !Contains(s, entity) { ReplaceNone(s, entity, character); }
      hide Contains, Replace, ReplaceEntities;
    }
  }

  /** Decoding gives a text back from its encoding exactly if the text has none of the
      entities that are replaced after `&amp;`: those are decoded a second time. */
  lemma EntityRoundTrip(s: string, lib: TextLib)
    ensures Apply(HtmlEntityDecode, EncodeEntities(s), lib) == s <==> forall e <- LATE :: !Contains(s, e)
  {
    DecodeEncoded(s);
    LateTable();
    UnchangedExactly(s, ENTITIES[3..]);
    ApplyIs(EncodeEntities(s), lib);
    LateNames(s, ENTITIES[3..]);
    hide *;
  }

  lemma LateNames(s: string, es: seq<(string, string)>)
    requires |es| == |LATE| == 7 && forall i | 0 <= i < 7 :: es[i].0 == LATE[i]
    ensures (forall e <- es :: !Contains(s, e.0)) <==> (forall e <- LATE :: !Contains(s, e))
  {
    hide Contains, LATE;
    assert forall i | 0 <= i < 7 :: LATE[i] in LATE && es[i] in es;
  }

  lemma ApplyIs(s: string, lib: TextLib)
    ensures Apply(HtmlEntityDecode, s, lib) == ReplaceEntities(s, ENTITIES)
    ensures Apply(JsDecode, s, lib) == Escapes.JsDecode(Utf8(s))
    ensures Apply(EscapeSeqDecode, s, lib) == lib.fromUtf8Lossy(Escapes.EscapeSeqDecode(Utf8(s)))
    ensures Apply(Base64Decode, s, lib) == lib.fromUtf8Lossy(FromBits(Base64.Decode(ToBits(Utf8(s)))))
    ensures Apply(UrlDecodeUni, s, lib) == lib.fromUtf8Lossy(UrlDecode(Utf8(s)))
    ensures Apply(CompressWhitespace, s, lib) == Compress(s, lib.isSpace)
  {
    hide ReplaceEntities, ENTITIES, Escapes.JsDecode, Escapes.EscapeSeqDecode, Base64.Decode, UrlDecode, Compress, Utf8;
  }

  lemma LateTable()
    ensures |ENTITIES[3..]| == |LATE| == 7
    ensures forall i | 0 <= i < 7 :: ENTITIES[3..][i].0 == LATE[i]
    ensures forall e <- ENTITIES[3..] :: |e.1| < |e.0|
  {
  }

  /** A text that comes back changed: the quotation mark it wrote as an entity is decoded. */
  lemma EntityDecodedTwice(lib: TextLib)
    ensures Apply(HtmlEntityDecode, EncodeEntities("&quot;"), lib) != "&quot;"
  {
    EntityRoundTrip("&quot;", lib);
    assert "&quot;"[0..] == "&quot;" && "&quot;" in LATE;
    assert Contains("&quot;", "&quot;");
  }

  // ----- the entities one by one -----

  lemma OnlyAmpersand(a: string, e: string, b: string)
    requires '&' !in a && '&' !in b && IsEntity(e)
    ensures forall i | 0 <= i < |a + e + b| :: (a + e + b)[i] == '&' ==> i == |a|
  {
    assert forall k | 0 <= k < |a| :: a[k] in a;
    assert forall k | 0 <= k < |b| :: b[k] in b;
    assert forall k | 0 < k < |e| :: e[k] != '&';
  }

  lemma OnlyHere(a: string, e: string, b: string, f: string)
    requires '&' !in a && '&' !in b && IsEntity(e) && IsEntity(f) && f != e
    ensures !Contains(a + e + b, f)
  {
    var t := a + e + b;
    OnlyAmpersand(a, e, b);
    forall i | 0 <= i <= |t|
      ensures !(f <= t[i..])
    {
      if f <= t[i..] {
        assert t[i] == t[i..][0] == f[0] == '&';
        assert t[i..] == e + b;
        EntityReads(e, f, b);
      }
    }
  }

  lemma {:induction false} NoSemicolonNoEntity(s: string, es: seq<(string, string)>)
    requires ';' !in s && forall e <- es :: IsEntity(e.0)
    ensures ReplaceEntities(s, es) == s
    decreases |es|
  {
    if es != [] {
      assert es[0] in es;
      assert es[0].0[|es[0].0| - 1] in es[0].0;
      ReplaceWithout(s, es[0].0, es[0].1, ';');
      NoSemicolonNoEntity(s, es[1..]);
    }
  }

  lemma {:induction false} EntityInText(a: string, k: nat, b: string, es: seq<(string, string)>)
    requires '&' !in a && '&' !in b && ';' !in a && ';' !in b && k < |es|
    requires (forall e <- es :: IsEntity(e.0)) && ';' !in es[k].1
    requires forall i, j | 0 <= i < j < |es| :: es[i].0 != es[j].0
    ensures ReplaceEntities(a + es[k].0 + b, es) == a + es[k].1 + b
    decreases |es|
  {
    assert es[0] in es && es[k] in es;
    var e := es[k].0;
    if k == 0 {
      HereOnly(a, e, b, es[0].1);
      NoSemicolonNoEntity(a + es[0].1 + b, es[1..]);
    } else {
      OnlyHere(a, e, b, es[0].0);
      ReplaceNone(a + e + b, es[0].0, es[0].1);
      hide Contains, IsEntity;
      EntityInText(a, k - 1, b, es[1..]);
    }
  }

  lemma HereOnly(a: string, e: string, b: string, with: string)
    requires '&' !in a && '&' !in b && IsEntity(e)
    ensures Replace(a + e + b, e, with) == a + with + b
  {
    assert a + e + b == a + (e + b);
    forall i | 0 <= i < |a|
      ensures !(e <= (a + (e + b))[i..])
    {
      assert (a + (e + b))[i..][0] == a[i] && a[i] in a;
    }
    ReplaceSkips(a, e + b, e, with);
    ReplaceHere(b, e, with);
    ReplaceWithout(b, e, with, '&');
    assert a + (with + b) == a + with + b;
  }

  /** What the entities stand for. */
  const MEANINGS: map<string, string> :=
    map["&amp;" := "&", "&lt;" := "<", "&#x3C;" := "<", "&gt;" := ">", "&#x3E;" := ">", "&quot;" := "\"",
        "&apos;" := "'", "&#39;" := "'", "&#x27;" := "'", "&nbsp;" := " "]

  lemma EntitiesDecode(a: string, entity: string, b: string, lib: TextLib)
    requires '&' !in a && '&' !in b && ';' !in a && ';' !in b && entity in MEANINGS
    ensures Apply(HtmlEntityDecode, a + entity + b, lib) == a + MEANINGS[entity] + b
  {
    TableIsFine();
    NoSemicolons();
    EntriesDiffer();
    var k := Listed(entity);
    ApplyIs(a + entity + b, lib);
    hide *;
    EntityInText(a, k, b, ENTITIES);
  }

  lemma Listed(entity: string) returns (k: nat)
    requires entity in MEANINGS
    ensures k < |ENTITIES| && ENTITIES[k] == (entity, MEANINGS[entity])
  {
    k := if entity == "&lt;" then 0 else if entity == "&gt;" then 1 else if entity == "&amp;" then 2
         else if entity == "&quot;" then 3 else if entity == "&#x27;" then 4 else if entity == "&#39;" then 5
         else if entity == "&apos;" then 6 else if entity == "&#x3C;" then 7 else if entity == "&#x3E;" then 8 else 9;
  }

  lemma TableIsFine()
    ensures forall e <- ENTITIES :: IsEntity(e.0)
  {
  }

  lemma NoSemicolons()
    ensures forall k: nat | k < |ENTITIES| :: ';' !in ENTITIES[k].1
  {
  }

  lemma EntriesDiffer()
    ensures forall i, j | 0 <= i < j < |ENTITIES| :: ENTITIES[i].0 != ENTITIES[j].0
  {
  }

  // ----- dropped characters -----

  lemma FirstOfThree(a: string, b: string, c: string)
    ensures a + (b + c) == a + b + c
  {
  }

  lemma {:induction false} FilterConcat(s: string, t: string, keep: char -> bool)
    ensures Filter(s + t, keep) == Filter(s, keep) + Filter(t, keep)
  {
    if s == "" {
      assert s + t == t;
    } else {
      var first := if keep(s[0]) then [s[0]] else "";
      assert (s + t)[1..] == s[1..] + t;
      FilterConcat(s[1..], t, keep);
      assert Filter(s + t, keep) == first + Filter(s[1..] + t, keep);
      hide Filter;
      FirstOfThree(first, Filter(s[1..], keep), Filter(t, keep));
    }
  }

  /** Removing nulls or white space works part by part: exactly those characters go, the
      others stay in order. */
  lemma RemovesExactly(s: string, c: char, t: string, lib: TextLib)
    ensures Apply(RemoveNulls, s + [c] + t, lib)
            == Apply(RemoveNulls, s, lib) + (if c == '\0' then "" else [c]) + Apply(RemoveNulls, t, lib)
    ensures Apply(RemoveWhitespace, s + [c] + t, lib)
            == Apply(RemoveWhitespace, s, lib) + (if lib.isSpace(c) then "" else [c]) + Apply(RemoveWhitespace, t, lib)
    ensures Apply(RemoveNulls, "", lib) == "" && Apply(RemoveWhitespace, "", lib) == ""
  {
    FilterConcat(s + [c], t, c => c != '\0');
    FilterConcat(s, [c], c => c != '\0');
    FilterConcat(s + [c], t, c => !lib.isSpace(c));
    FilterConcat(s, [c], c => !lib.isSpace(c));
    assert [c][1..] == "";
  }

  // ----- white space -----

  /** A run of white space between other characters becomes one space; a text without white
      space stays. */
  lemma CompressesRuns(a: string, run: string, b: string, lib: TextLib)
    requires run != "" && forall c <- run :: lib.isSpace(c)
    requires (a == "" || !lib.isSpace(a[|a| - 1])) && (b == "" || !lib.isSpace(b[0]))
    ensures Apply(CompressWhitespace, a + run + b, lib)
            == Apply(CompressWhitespace, a, lib) + " " + Apply(CompressWhitespace, b, lib)
  {
    hide *;
    CompressConcat(a, run + b, lib.isSpace);
    CompressRun(run, b, lib.isSpace);
    ApplyIs(a, lib);
    ApplyIs(b, lib);
    ApplyIs(a + run + b, lib);
    assert a + run + b == a + (run + b);
    Appended(Compress(a, lib.isSpace), Compress(b, lib.isSpace));
  }

  lemma Appended(x: string, y: string)
    ensures x + (" " + y) == x + " " + y
  {
  }

  /** Behind a text that ends in no white space, the rest is compressed on its own. */
  lemma {:induction false} CompressConcat(a: string, rest: string, isSpace: char -> bool)
    requires a == "" || !isSpace(a[|a| - 1])
    ensures Compress(a + rest, isSpace) == Compress(a, isSpace) + Compress(rest, isSpace)
  {
    if a == "" {
      assert a + rest == rest;
    } else {
      assert (a + rest)[1..] == a[1..] + rest;
      CompressConcat(a[1..], rest, isSpace);
      CompressStep(a, rest, isSpace);
      hide Compress;
    }
  }

  /** The first character of a text that ends in no white space is treated alike whatever
      follows the text. */
  lemma CompressStep(a: string, rest: string, isSpace: char -> bool)
    requires a != "" && !isSpace(a[|a| - 1])
    ensures exists x :: Compress(a + rest, isSpace) == x + Compress((a + rest)[1..], isSpace)
                        && Compress(a, isSpace) == x + Compress(a[1..], isSpace)
  {
    var x := if isSpace(a[0]) then (if |a| > 1 && isSpace(a[1]) then "" else " ") else [a[0]];
    assert |a| == 1 ==> !isSpace(a[0]);
    assert Compress(a + rest, isSpace) == x + Compress((a + rest)[1..], isSpace);
    assert Compress(a, isSpace) == x + Compress(a[1..], isSpace);
  }

  lemma {:induction false} CompressRun(run: string, b: string, isSpace: char -> bool)
    requires run != "" && forall c <- run :: isSpace(c)
    requires b == "" || !isSpace(b[0])
    ensures Compress(run + b, isSpace) == " " + Compress(b, isSpace)
  {
    assert run[0] in run && (run + b)[1..] == run[1..] + b;
    if |run| > 1 {
      assert run[1] in run;
      CompressRun(run[1..], b, isSpace);
    } else {
      assert run[1..] + b == b;
    }
  }

  lemma {:induction false} CompressesNothing(s: string, lib: TextLib)
    requires forall c <- s :: !lib.isSpace(c)
    ensures Apply(CompressWhitespace, s, lib) == s
  {
    if s != "" {
      assert s[0] in s;
      CompressesNothing(s[1..], lib);
    }
  }

  /** Trimming drops the white space at both ends and nothing else. */
  lemma TrimsEnds(a: string, t: string, b: string, lib: TextLib)
    requires (forall c <- a + b :: lib.isSpace(c)) && t != "" && !lib.isSpace(t[0]) && !lib.isSpace(t[|t| - 1])
    ensures Apply(Trim, a + t + b, lib) == t
  {
    TrimsBoth(a, t, b, lib.isSpace);
  }

  lemma TrimsBlank(a: string, lib: TextLib)
    requires forall c <- a :: lib.isSpace(c)
    ensures Apply(Trim, a, lib) == ""
  {
    assert a + "" == a;
    TrimsStart(a, "", lib.isSpace);
  }

  // ----- the other transforms -----

  /** `length` writes the number of characters in decimal. */
  lemma LengthCounts(s: string, lib: TextLib)
    requires |s| <= I64_MAX
    ensures ParseInt(Apply(Length, s, lib)) == Some(|s|)
  {
    ParseIntPrintInt(|s|);
  }

  /** Decoders undo the encodings they are named for. */
  lemma UrlDecodes(s: string, t: string, lib: TextLib)
    requires Sound(lib) && Utf8(s) == UrlEncode(Utf8(t), b => b == PERCENT, b => true)
    ensures Apply(UrlDecodeUni, s, lib) == t
  {
    UrlRoundTrip(Utf8(t), b => b == PERCENT, b => true);
    hide UrlDecode, UrlEncode, Utf8;
  }

  lemma Base64Decodes(s: string, t: string, bits: seq<Base64.Byte>, lib: TextLib)
    requires Sound(lib) && Utf8(t) == FromBits(bits) && Utf8(s) == FromBits(Base64.Encode(bits))
    ensures Apply(Base64Decode, s, lib) == t
  {
    Base64.EncodeIsKept(bits);
    Base64.CleanKept(Base64.Encode(bits));
    Base64.DecodeEncode(bits, Base64.Encode(bits));
    BitsBack(Base64.Encode(bits));
    ApplyIs(s, lib);
    assert lib.fromUtf8Lossy(Utf8(t)) == t;
    hide *;
  }

  lemma EscapesDecode(s: string, t: string, capital: nat -> bool, lib: TextLib)
    requires Sound(lib) && (forall c <- t :: EscapeLaws.IsShort(c)) && Utf8(s) == EscapeLaws.EscapeAll(t, capital)
    ensures Apply(JsDecode, s, lib) == t && Apply(EscapeSeqDecode, s, lib) == t
  {
    EscapeLaws.EscapeRoundTrip(t, capital);
    ApplyIs(s, lib);
    assert lib.fromUtf8Lossy(Utf8(t)) == t;
    hide *;
  }

  lemma BitsBack(s: seq<Base64.Byte>)
    ensures ToBits(FromBits(s)) == s
  {
    assert forall i | 0 <= i < |s| :: (s[i] as int) as Base64.Byte == s[i];
  }

  /** Two transforms do nothing to a text, and path normalisation nothing to one without
      percent signs, parent steps and double slashes. */
  lemma LeftAlone(s: string, lib: TextLib)
    requires Sound(lib)
    ensures Apply(Utf8ToUnicode, s, lib) == s && Apply(CssDecode, s, lib) == s
    ensures '%' !in s && !Contains(s, "../") && !Contains(s, "..\\") && !Contains(s, "//") ==> Apply(NormalizePath, s, lib) == s
  {
    if '%' !in s && !Contains(s, "../") && !Contains(s, "..\\") && !Contains(s, "//") {
      PercentFree(s);
      ReplaceNone(s, "../", "/");
      ReplaceNone(s, "..\\", "\\");
      NoDoubleSlash(s);
      CollapseFrontIsCollapsed(s);
      hide Contains, Replace, Collapsed;
    }
  }
}
