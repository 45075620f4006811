/** The transformation chain applied before operator matching, with its
    copy-avoiding fast paths (crs/transform.rs). */
module Transforms {
  import opened Text
  import opened Wrappers
  import opened Bytes
  import opened Strings
  import Escapes
  import Base64

  /** Unicode tables and lossy decoding, from the standard library. */
  datatype TextLib = TextLib(
    isSpace: char -> bool,
    toLowercase: string -> string,
    fromUtf8Lossy: seq<Byte> -> string)

  /** What the standard library promises of them: valid UTF-8 comes back unchanged, and
      lowercasing leaves ASCII texts without capitals alone. */
  ghost predicate Sound(lib: TextLib) {
    && (forall s :: lib.fromUtf8Lossy(Utf8(s)) == s)
    && (forall s | IsAscii(s) && !HasAsciiUpper(s) :: lib.toLowercase(s) == s)
  }

  predicate HasAsciiUpper(s: string) { exists c <- s :: 'A' <= c <= 'Z' }

  datatype Transform =
    | Lowercase | UrlDecodeUni | RemoveNulls | Utf8ToUnicode | CompressWhitespace
    | NormalizePath | HtmlEntityDecode | JsDecode | CssDecode | Base64Decode | Trim
    | RemoveWhitespace | ReplaceComments | Length | EscapeSeqDecode

  // ----- the single transforms -----

  const ENTITIES: seq<(string, string)> :=
    [("&lt;", "<"), ("&gt;", ">"), ("&amp;", "&"), ("&quot;", "\""), ("&#x27;", "'"),
     ("&#39;", "'"), ("&apos;", "'"), ("&#x3C;", "<"), ("&#x3E;", ">"), ("&nbsp;", " ")]

  function ReplaceEntities(s: string, entities: seq<(string, string)>): string
    decreases |entities|
  {
    if entities == [] then s
    else
      var (entity, character) := entities[0];
      ReplaceEntities(if entity == "" then s else Replace(s, entity, character), entities[1..])
  }

  /** The position of the first `*` `/` pair. */
  function CommentEnd(s: seq<Byte>): (end: Option<nat>)
    ensures end.Some? ==> end.value + 2 <= |s|
  {
    if |s| < 2 then None
    else if s[0] == '*' as int && s[1] == '/' as int then Some(0)
    else
      match CommentEnd(s[1..])
      case Some(n) => Some(n + 1)
      case None => None
  }

  predicate IsLineFeed(b: Byte) { b == 10 }

  /** From the next line feed on. */
  function RestOfText(s: seq<Byte>): (r: seq<Byte>)
    ensures |r| <= |s|
    ensures s != [] && !IsLineFeed(s[0]) ==> |r| < |s|
  {
    if s == [] || IsLineFeed(s[0]) then s else RestOfText(s[1..])
  }

  predicate StartsWith(s: seq<Byte>, a: char, b: char) {
    |s| > 1 && s[0] == a as int && s[1] == b as int
  }

  /** What the front of `s` becomes, and the bytes after it: a comment becomes nothing,
      any other byte the character of that code. */
  function CommentStep(s: seq<Byte>): (r: (string, seq<Byte>))
    requires s != []
    ensures |r.1| < |s|
  {
    if StartsWith(s, '/', '*') then
      match CommentEnd(s[2..])
      case Some(end) => ("", s[2 + end + 2..])
      case None => ("", [])
    else if StartsWith(s, '-', '-') then ("", RestOfText(s))
    else ([s[0] as char], s[1..])
  }

  /** The text without its comments. */
  function WithoutComments(s: seq<Byte>): string
    decreases |s|
  {
    if s == [] then "" else CommentStep(s).0 + WithoutComments(CommentStep(s).1)
  }

  method ReplaceCommentsLoop(bytes: seq<Byte>) returns (out: string)
    ensures out == WithoutComments(bytes)
  {
    hide CommentStep;
    out := "";
    var i := 0;
    while i < |bytes|
      invariant i <= |bytes|
      invariant out + WithoutComments(bytes[i..]) == WithoutComments(bytes)
    {
      var emitted;
      emitted, i := CommentAt(bytes, i);
      out := out + emitted;
    }
  }

  method CommentAt(bytes: seq<Byte>, start: nat) returns (emitted: string, i: nat)
    requires start < |bytes|
    ensures start < i <= |bytes| && (emitted, bytes[i..]) == CommentStep(bytes[start..])
  {
    emitted, i := "", start;
    ghost var front := bytes[start..];
    assert forall k | 0 <= k <= |front| :: front[k..] == bytes[start + k..];
    assert bytes[|bytes|..] == [];
    if bytes[i] == '/' as int && i + 1 < |bytes| && bytes[i + 1] == '*' as int {
      var end := CommentEnd(bytes[i + 2..]);
      if end.Some? {
        i := i + 2 + end.value + 2;
      } else {
        i := |bytes|;
      }
    } else if bytes[i] == '-' as int && i + 1 < |bytes| && bytes[i + 1] == '-' as int {
      i := SkipLine(bytes, i);
    } else {
      emitted, i := [bytes[i] as char], i + 1;
    }
  }

  method SkipLine(bytes: seq<Byte>, start: nat) returns (i: nat)
    requires start <= |bytes|
    ensures start <= i <= |bytes| && bytes[i..] == RestOfText(bytes[start..])
  {
    i := start;
    while i < |bytes| && !IsLineFeed(bytes[i])
      invariant start <= i <= |bytes|
      invariant RestOfText(bytes[i..]) == RestOfText(bytes[start..])
    {
      assert bytes[i..][1..] == bytes[i + 1..];
      i := i + 1;
    }
  }

  /** Every run of white space replaced by one space. */
  function Compress(s: string, isSpace: char -> bool): string {
    if s == "" then ""
    else if isSpace(s[0]) then
      (if |s| > 1 && isSpace(s[1]) then "" else " ") + Compress(s[1..], isSpace)
    else [s[0]] + Compress(s[1..], isSpace)
  }

  function Normalize(s: string, lib: TextLib): string {
    var decoded := lib.fromUtf8Lossy(UrlDecode(Utf8(s)));
    Collapsed(Replace(Replace(decoded, "../", "/"), "..\\", "\\"))
  }

  /** The normal form has no double slash; it still has a parent step exactly if the
      decoded text has one with four dots, of which the single pass removes two. */
  method NormalizePathLoop(s: string, lib: TextLib) returns (out: string)
    ensures out == Normalize(s, lib)
    ensures !Contains(out, "//")
    ensures Contains(out, "../") <==> Contains(lib.fromUtf8Lossy(UrlDecode(Utf8(s))), "..../")
    ensures Contains(out, "..\\") <==> Contains(lib.fromUtf8Lossy(UrlDecode(Utf8(s))), "....\\")
  {
    var decoded := Bytes.UrlDecodeUni(Utf8(s));
    var d := lib.fromUtf8Lossy(decoded);
    var t := Replace(Replace(d, "../", "/"), "..\\", "\\");
    out := CollapseSlashes(t);
    ParentStepsLeft(d);
  }

  lemma ParentStepsLeft(d: string)
    ensures var out := Collapsed(Replace(Replace(d, "../", "/"), "..\\", "\\"));
            && (Contains(out, "../") <==> Contains(d, "..../"))
            && (Contains(out, "..\\") <==> Contains(d, "....\\"))
  {
    var t := StripParents(d, '/');
    var r := StripParents(t, '\\');
    assert DotsThen(2, '/') == "../" && DotsThen(2, '\\') == "..\\";
    assert DotsThen(2, '/') == "../" ==> DotsThen(4, '/') == "..../";
    assert DotsThen(2, '\\') == "..\\" ==> DotsThen(4, '\\') == "....\\";
    CollapseFrontIsCollapsed(r);
    ParentsCollapsed(r, 2, '/');
    ParentsCollapsed(r, 2, '\\');
    ParentsLeft(d, '/');
    OtherParentsKept(t, 2, '\\', '/');
    ParentsLeft(t, '\\');
    OtherParentsKept(d, 4, '/', '\\');
    hide Contains, Replace, Collapsed, DotsThen;
  }

  /** `....//` is normalised to a parent step. */
  lemma ParentStepSurvives(lib: TextLib)
    requires Sound(lib)
    ensures Normalize("....//", lib) == "../"
  {
    PercentFree("....//");
    OnePassOfFourDots();
    ReplaceWithout("..//", "..\\", "\\", '\\');
    CollapsedParent();
    hide Replace, Collapsed, UrlDecode, Utf8;
  }

  lemma OnePassOfFourDots()
    ensures Replace("....//", "../", "/") == "..//"
  {
    assert "....//"[1..] == "...//" && "...//"[1..] == "..//" && "..//"[3..] == "/";
    assert Replace("/", "../", "/") == "/" + Replace("", "../", "/");
    assert Replace("..//", "../", "/") == "/" + Replace("/", "../", "/");
    assert Replace("...//", "../", "/") == "." + Replace("..//", "../", "/");
    assert Replace("....//", "../", "/") == "." + Replace("...//", "../", "/");
  }

  lemma CollapsedParent()
    ensures Collapsed("..//") == "../"
  {
    assert "..//"[..3] == "../" && "../"[..2] == ".." && ".."[..1] == ".";
    assert Collapsed("../") == Collapsed("..") + "/";
    assert Collapsed("..//") == Collapsed("../");
  }

  function ToBits(s: seq<Byte>): seq<Base64.Byte> {
    seq(|s|, i requires 0 <= i < |s| => s[i] as Base64.Byte)
  }

  function FromBits(s: seq<Base64.Byte>): seq<Byte> {
    seq(|s|, i requires 0 <= i < |s| => s[i] as Byte)
  }

  /** A transform, always applied. */
  function Apply(t: Transform, s: string, lib: TextLib): string {
    match t
    case Utf8ToUnicode => s
    case CssDecode => s
    case RemoveNulls => Filter(s, c => c != '\0')
    case Trim => Strings.Trim(s, lib.isSpace)
    case Lowercase => lib.toLowercase(s)
    case UrlDecodeUni => lib.fromUtf8Lossy(UrlDecode(Utf8(s)))
    case HtmlEntityDecode => ReplaceEntities(s, ENTITIES)
    case ReplaceComments => WithoutComments(Utf8(s))
    case CompressWhitespace => Compress(s, lib.isSpace)
    case NormalizePath => Normalize(s, lib)
    case JsDecode => Escapes.JsDecode(Utf8(s))
    case Base64Decode => lib.fromUtf8Lossy(FromBits(Base64.Decode(ToBits(Utf8(s)))))
    case RemoveWhitespace => Filter(s, c => !lib.isSpace(c))
    case Length => PrintInt(|s|)
    case EscapeSeqDecode => lib.fromUtf8Lossy(Escapes.EscapeSeqDecode(Utf8(s)))
  }

  // ----- the chain with its fast paths -----

  /** A text borrowed from the caller, or one the chain has built. */
  datatype Cow = Borrowed(text: string) | Owned(text: string)

  /** Does the transform hand its input on without looking further? */
  predicate PassesOn(t: Transform, s: string, lib: TextLib) {
    match t
    case Utf8ToUnicode => true
    case CssDecode => true
    case RemoveNulls => '\0' !in s
    case Trim => |Strings.Trim(s, lib.isSpace)| == |s|
    case Lowercase => !HasAsciiUpper(s)
    case UrlDecodeUni => '%' !in s
    case HtmlEntityDecode => '&' !in s
    case ReplaceComments => !Contains(s, "/*") && !Contains(s, "--")
    case _ => false
  }

  function Step(t: Transform, c: Cow, lib: TextLib): Cow {
    if PassesOn(t, c.text, lib) then c else Owned(Apply(t, c.text, lib))
  }

  function ApplyAll(ts: seq<Transform>, c: Cow, lib: TextLib): Cow {
    if ts == [] then c else ApplyAll(ts[1..], Step(ts[0], c, lib), lib)
  }

  method ApplyTransforms(s: string, ts: seq<Transform>, lib: TextLib) returns (result: Cow)
    ensures result == ApplyAll(ts, Borrowed(s), lib)
  {
    hide Apply, PassesOn;
    result := Borrowed(s);
    for i := 0 to |ts|
      invariant ApplyAll(ts[i..], result, lib) == ApplyAll(ts, Borrowed(s), lib)
    {
      assert ts[i..][1..] == ts[i + 1..];
      if !PassesOn(ts[i], result.text, lib) {
        result := Owned(Apply(ts[i], result.text, lib));
      }
    }
  }

  /** The chain without any fast path. */
  function Fold(ts: seq<Transform>, s: string, lib: TextLib): string {
    if ts == [] then s else Fold(ts[1..], Apply(ts[0], s, lib), lib)
  }

  // ----- when a fast path is right -----

  /** The step does not take a fast path that the full transform would contradict: no
      passed-on text has non-ASCII capitals under `Lowercase`, or any non-ASCII character
      under `ReplaceComments`. */
  predicate SafeStep(t: Transform, s: string, lib: TextLib) {
    && (t.Lowercase? && !HasAsciiUpper(s) ==> lib.toLowercase(s) == s)
    && (t.ReplaceComments? && !Contains(s, "/*") && !Contains(s, "--") ==> IsAscii(s))
  }

  /** A step with its fast path gives what the full transform gives exactly when it is
      safe. */
  lemma StepExact(t: Transform, c: Cow, lib: TextLib)
    requires Sound(lib)
    ensures Step(t, c, lib).text == Apply(t, c.text, lib) <==> SafeStep(t, c.text, lib)
  {
    var s := c.text;
    if PassesOn(t, s, lib) {
      match t {
        case RemoveNulls => FilterAll(s, c => c != '\0');
        case Trim => TrimKeepsLength(s, lib.isSpace);
        case UrlDecodeUni => PercentFree(s);
        case HtmlEntityDecode => NoEntities(s, ENTITIES);
        case ReplaceComments => CommentFree(s);
        case _ =>
      }
    }
  }

  lemma {:induction false} TrimStartSuffix(s: string, isSpace: char -> bool)
    ensures |TrimStart(s, isSpace)| <= |s|
    ensures |TrimStart(s, isSpace)| == |s| ==> TrimStart(s, isSpace) == s
  {
    if s != "" { TrimStartSuffix(s[1..], isSpace); }
  }

  lemma {:induction false} TrimEndPrefix(s: string, isSpace: char -> bool)
    ensures |TrimEnd(s, isSpace)| <= |s|
    ensures |TrimEnd(s, isSpace)| == |s| ==> TrimEnd(s, isSpace) == s
  {
    if s != "" { TrimEndPrefix(s[..|s| - 1], isSpace); }
  }

  lemma TrimKeepsLength(s: string, isSpace: char -> bool)
    requires |Strings.Trim(s, isSpace)| == |s|
    ensures Strings.Trim(s, isSpace) == s
  {
    TrimStartSuffix(s, isSpace);
    TrimEndPrefix(TrimStart(s, isSpace), isSpace);
  }

  lemma {:induction false} PercentFreeBytes(s: string)
    requires '%' !in s
    ensures PERCENT !in Utf8(s)
  {
    if s != "" {
      assert s[0] in s;
      PercentFreeBytes(s[1..]);
      OnlyPercentEncodesPercent(s[0]);
    }
  }

  lemma OnlyPercentEncodesPercent(c: char)
    requires c != '%'
    ensures PERCENT !in EncodeChar(c)
  {
    if c as int < 128 {
      assert c as int == PERCENT ==> c == '%';
    }
  }

  lemma PercentFree(s: string)
    requires '%' !in s
    ensures UrlDecode(Utf8(s)) == Utf8(s)
  {
    PercentFreeBytes(s);
    UrlDecodeWithoutPercent(Utf8(s));
  }

  lemma {:induction false} NoEntities(s: string, entities: seq<(string, string)>)
    requires '&' !in s
    requires forall e <- entities :: e.0 != "" && e.0[0] == '&'
    ensures ReplaceEntities(s, entities) == s
  {
    if entities != [] {
      assert entities[0] in entities;
      ReplaceAbsentChar(s, entities[0].0, entities[0].1);
      NoEntities(s, entities[1..]);
    }
  }

  // ----- comment-free texts -----

  predicate OpensComment(s: seq<Byte>, i: nat) {
    i + 1 < |s| && ((s[i] == '/' as int && s[i + 1] == '*' as int) || (s[i] == '-' as int && s[i + 1] == '-' as int))
  }

  /** Without a comment opener, every byte becomes one character. */
  lemma {:induction false} NothingToDrop(s: seq<Byte>)
    requires forall i | 0 <= i < |s| :: !OpensComment(s, i)
    ensures |WithoutComments(s)| == |s|
    ensures forall i | 0 <= i < |s| :: WithoutComments(s)[i] as int == s[i]
  {
    if s != [] {
      assert !OpensComment(s, 0);
      forall i | 0 <= i < |s[1..]|
        ensures !OpensComment(s[1..], i)
      {
        assert !OpensComment(s, i + 1);
      }
      NothingToDrop(s[1..]);
    }
  }

  // ----- what becomes of comments -----

  /** Each byte as the character of that code. */
  function Latin(s: seq<Byte>): (r: string)
    ensures |r| == |s|
    ensures forall i | 0 <= i < |s| :: r[i] as int == s[i]
  {
    seq(|s|, i requires 0 <= i < |s| => s[i] as char)
  }

  const BLOCK_OPENER: seq<Byte> := ['/' as int, '*' as int]
  const BLOCK_CLOSER: seq<Byte> := ['*' as int, '/' as int]
  const LINE_OPENER: seq<Byte> := ['-' as int, '-' as int]

  /** The block comment that starts with `body` is not closed inside it. */
  predicate Unclosed(body: seq<Byte>) {
    forall i | 0 <= i < |body| - 1 :: !(body[i] == '*' as int && body[i + 1] == '/' as int)
  }

  /** No comment opens in `s` before `rest`, not even with the first byte of `rest`. */
  predicate OpensNothing(s: seq<Byte>, rest: seq<Byte>) {
    forall i | 0 <= i < |s| :: !OpensComment(s + rest, i)
  }

  lemma FirstByteKept(s: seq<Byte>)
    requires s != [] && !OpensComment(s, 0)
    ensures WithoutComments(s) == [s[0] as char] + WithoutComments(s[1..])
  {
    assert CommentStep(s) == ([s[0] as char], s[1..]);
    hide CommentStep;
  }

  lemma OpensNothingTail(s: seq<Byte>, rest: seq<Byte>)
    requires s != [] && OpensNothing(s, rest)
    ensures OpensNothing(s[1..], rest)
  {
    assert (s + rest)[1..] == s[1..] + rest;
    forall i | 0 <= i < |s[1..]|
      ensures !OpensComment(s[1..] + rest, i)
    {
      assert !OpensComment(s + rest, i + 1);
    }
  }

  lemma LatinCons(s: seq<Byte>, w: string)
    requires s != []
    ensures Latin(s) + w == [s[0] as char] + (Latin(s[1..]) + w)
  {
    assert Latin(s) == [s[0] as char] + Latin(s[1..]);
  }

  /** Up to where the first comment opens, the bytes are kept. */
  lemma {:induction false} KeptUpToComment(s: seq<Byte>, rest: seq<Byte>)
    requires OpensNothing(s, rest)
    ensures WithoutComments(s + rest) == Latin(s) + WithoutComments(rest)
  {
    if s == [] {
      assert s + rest == rest;
      assert Latin(s) + WithoutComments(rest) == WithoutComments(rest) by { hide WithoutComments; }
    } else {
      assert !OpensComment(s + rest, 0);
      hide *;
      FirstByteKept(s + rest);
      OpensNothingTail(s, rest);
      assert (s + rest)[1..] == s[1..] + rest;
      KeptUpToComment(s[1..], rest);
      LatinCons(s, WithoutComments(rest));
    }
  }

  lemma {:induction false} FirstCloser(body: seq<Byte>, rest: seq<Byte>)
    requires Unclosed(body)
    ensures CommentEnd(body + BLOCK_CLOSER + rest) == Some(|body|)
    ensures CommentEnd(body) == None
  {
    var t := body + BLOCK_CLOSER + rest;
    if body != [] {
      assert t[1..] == body[1..] + BLOCK_CLOSER + rest;
      assert |body| > 1 ==> !(body[0] == '*' as int && body[1] == '/' as int);
      FirstCloser(body[1..], rest);
    }
  }

  lemma AfterStep(s: seq<Byte>, rest: seq<Byte>)
    requires s != [] && CommentStep(s) == ("", rest)
    ensures WithoutComments(s) == WithoutComments(rest)
  {
    hide CommentStep;
  }

  lemma BlockStep(body: seq<Byte>, after: seq<Byte>)
    requires Unclosed(body)
    ensures CommentStep(BLOCK_OPENER + body + BLOCK_CLOSER + after) == ("", after)
  {
    var t := BLOCK_OPENER + body + BLOCK_CLOSER + after;
    FirstCloser(body, after);
    hide CommentEnd, Unclosed;
    assert t[2..] == body + BLOCK_CLOSER + after;
    assert t[2 + |body| + 2..] == after;
  }

  /** A closed block comment vanishes; what follows it is treated afresh. */
  lemma BlockCommentVanishes(before: seq<Byte>, body: seq<Byte>, after: seq<Byte>)
    requires OpensNothing(before, BLOCK_OPENER + body + BLOCK_CLOSER + after) && Unclosed(body)
    ensures WithoutComments(before + (BLOCK_OPENER + body + BLOCK_CLOSER + after)) == Latin(before) + WithoutComments(after)
  {
    hide *;
    var t := BLOCK_OPENER + body + BLOCK_CLOSER + after;
    KeptUpToComment(before, t);
    BlockStep(body, after);
    AfterStep(t, after);
  }

  /** A block comment that is never closed takes the rest of the text with it. */
  lemma UnclosedCommentVanishes(before: seq<Byte>, body: seq<Byte>)
    requires OpensNothing(before, BLOCK_OPENER + body) && Unclosed(body)
    ensures WithoutComments(before + (BLOCK_OPENER + body)) == Latin(before)
  {
    var t := BLOCK_OPENER + body;
    KeptUpToComment(before, t);
    FirstCloser(body, []);
    assert t[2..] == body;
    assert CommentStep(t) == ("", []);
  }

  lemma {:induction false} RestAfterLine(line: seq<Byte>, after: seq<Byte>)
    requires (forall b <- line :: !IsLineFeed(b)) && (after == [] || IsLineFeed(after[0]))
    ensures RestOfText(line + after) == after
  {
    if line == [] {
      assert line + after == after;
    } else {
      assert line[0] in line && (line + after)[1..] == line[1..] + after;
      RestAfterLine(line[1..], after);
    }
  }

  /** A line comment vanishes up to its line feed, which stays, or to the text's end. */
  lemma LineCommentVanishes(before: seq<Byte>, body: seq<Byte>, after: seq<Byte>)
    requires OpensNothing(before, LINE_OPENER + body + after)
    requires (forall b <- body :: !IsLineFeed(b)) && (after == [] || IsLineFeed(after[0]))
    ensures WithoutComments(before + (LINE_OPENER + body + after)) == Latin(before) + WithoutComments(after)
  {
    var t := LINE_OPENER + body + after;
    KeptUpToComment(before, t);
    LineStep(body, after);
    AfterStep(t, after);
    hide *;
  }

  lemma LineStep(body: seq<Byte>, after: seq<Byte>)
    requires (forall b <- body :: !IsLineFeed(b)) && (after == [] || IsLineFeed(after[0]))
    ensures CommentStep(LINE_OPENER + body + after) == ("", after)
  {
    RestAfterLine(LINE_OPENER + body, after);
    hide CommentEnd, RestOfText;
  }

  /** An ASCII byte of an encoded text is the encoding of a character. */
  lemma {:induction false} OpenerInText(s: string, i: nat)
    requires OpensComment(Utf8(s), i)
    ensures Contains(s, "/*") || Contains(s, "--")
  {
    var u, head, rest := Utf8(s), EncodeChar(s[0]), Utf8(s[1..]);
    assert u == head + rest;
    if i >= |head| {
      assert rest[i - |head|] == u[i];
      assert i + 1 - |head| < |rest| ==> rest[i + 1 - |head|] == u[i + 1];
      OpenerInText(s[1..], i - |head|);
      ContainsInTail(s, "/*");
      ContainsInTail(s, "--");
    } else {
      AsciiStart(s[0], i);
      assert |s| > 1;
      assert u[1] == rest[0] == EncodeChar(s[1])[0];
      AsciiStart(s[1], 0);
      assert s[0..] == s && s == [s[0], s[1]] + s[2..];
    }
  }

  lemma AsciiStart(c: char, i: nat)
    requires i < |EncodeChar(c)| && EncodeChar(c)[i] < 128
    ensures i == 0 && EncodeChar(c) == [c as int]
  {
  }

  lemma ContainsInTail(s: string, pattern: string)
    requires s != ""
    ensures Contains(s[1..], pattern) ==> Contains(s, pattern)
  {
    if i :| 0 <= i <= |s[1..]| && pattern <= s[1..][i..] {
      assert s[1..][i..] == s[i + 1..];
    }
  }

  /** On a text without comments, the full transform is the identity exactly for ASCII. */
  lemma CommentFree(s: string)
    requires !Contains(s, "/*") && !Contains(s, "--")
    ensures WithoutComments(Utf8(s)) == s <==> IsAscii(s)
  {
    forall i | 0 <= i < |Utf8(s)|
      ensures !OpensComment(Utf8(s), i)
    {
      if OpensComment(Utf8(s), i) { OpenerInText(s, i); }
    }
    NothingToDrop(Utf8(s));
    Utf8Length(s);
  }

  // ----- whole chains -----

  /** The text before each step of the chain without fast paths. */
  function Before(ts: seq<Transform>, k: nat, s: string, lib: TextLib): string
    requires k <= |ts|
  {
    Fold(ts[..k], s, lib)
  }

  /** If every step is safe, the fast paths change nothing. */
  lemma {:induction false} FastPathsAreSound(ts: seq<Transform>, c: Cow, lib: TextLib)
    requires Sound(lib)
    requires forall k | 0 <= k < |ts| :: SafeStep(ts[k], Before(ts, k, c.text, lib), lib)
    ensures ApplyAll(ts, c, lib).text == Fold(ts, c.text, lib)
  {
    if ts != [] {
      assert ts[..0] == [];
      assert SafeStep(ts[0], Before(ts, 0, c.text, lib), lib);
      StepExact(ts[0], c, lib);
      var next := Step(ts[0], c, lib);
      hide Apply, SafeStep;
      forall k | 0 <= k < |ts[1..]|
        ensures SafeStep(ts[1..][k], Before(ts[1..], k, next.text, lib), lib)
      {
        assert SafeStep(ts[k + 1], Before(ts, k + 1, c.text, lib), lib);
        assert ts[..k + 1][0] == ts[0] && ts[..k + 1][1..] == ts[1..][..k];
      }
      FastPathsAreSound(ts[1..], next, lib);
    }
  }

  /** ASCII texts are safe at every step. */
  lemma AsciiIsSafe(t: Transform, s: string, lib: TextLib)
    requires Sound(lib) && IsAscii(s)
    ensures SafeStep(t, s, lib)
  {
  }

  /** On chains whose intermediate texts are ASCII, the fast paths change nothing. */
  lemma FastPathsOnAscii(ts: seq<Transform>, s: string, lib: TextLib)
    requires Sound(lib)
    requires forall k | 0 <= k < |ts| :: IsAscii(Before(ts, k, s, lib))
    ensures ApplyAll(ts, Borrowed(s), lib).text == Fold(ts, s, lib)
  {
    hide SafeStep, Apply, IsAscii;
    forall k | 0 <= k < |ts|
      ensures SafeStep(ts[k], Before(ts, k, s, lib), lib)
    {
      AsciiIsSafe(ts[k], Before(ts, k, s, lib), lib);
    }
    FastPathsAreSound(ts, Borrowed(s), lib);
  }

  /** Outside ASCII the fast path of `ReplaceComments` shows: it hands `é` on, while the
      full transform would turn its two bytes into two characters. */
  lemma CommentFastPathShows(lib: TextLib)
    requires Sound(lib)
    ensures var s := [0xE9 as char];
            ApplyAll([ReplaceComments], Borrowed(s), lib).text != Fold([ReplaceComments], s, lib)
  {
    var s := [0xE9 as char];
    var ts := [ReplaceComments];
    assert ts[1..] == [];
    StepExact(ReplaceComments, Borrowed(s), lib);
    assert s[0] in s && !IsAscii(s);
  }

  /** So does that of `Lowercase`: it hands the capital `É` on, as it is no ASCII capital. */
  lemma LowercaseFastPathShows(lib: TextLib)
    requires Sound(lib) && lib.toLowercase([0xC9 as char]) == [0xE9 as char]
    ensures var s := [0xC9 as char];
            && ApplyAll([Lowercase], Borrowed(s), lib) == Borrowed(s)
            && Fold([Lowercase], s, lib) == [0xE9 as char]
  {
    assert [Lowercase][1..] == [];
  }

  /** The result is the caller's own text exactly when every transform hands it on; a
      chain that ends up with an equal text may still have built a new one. */
  lemma {:induction false} BorrowedExactly(ts: seq<Transform>, s: string, lib: TextLib)
    ensures ApplyAll(ts, Borrowed(s), lib).Borrowed? <==> forall t <- ts :: PassesOn(t, s, lib)
    ensures ApplyAll(ts, Borrowed(s), lib).Borrowed? ==> ApplyAll(ts, Borrowed(s), lib).text == s
  {
    hide Apply, PassesOn;
    if ts != [] {
      assert forall t <- ts :: t == ts[0] || t in ts[1..];
      assert ts[0] in ts && forall t <- ts[1..] :: t in ts;
      if PassesOn(ts[0], s, lib) {
        BorrowedExactly(ts[1..], s, lib);
      } else {
        OwnedStaysOwned(ts[1..], Step(ts[0], Borrowed(s), lib), lib);
      }
    }
  }

  lemma {:induction false} OwnedStaysOwned(ts: seq<Transform>, c: Cow, lib: TextLib)
    requires c.Owned?
    ensures ApplyAll(ts, c, lib).Owned?
  {
    hide Apply, PassesOn;
    if ts != [] { OwnedStaysOwned(ts[1..], Step(ts[0], c, lib), lib); }
  }

  lemma UnchangedButOwned(lib: TextLib)
    ensures ApplyAll([RemoveWhitespace], Borrowed(""), lib) == Owned("")
  {
    assert [RemoveWhitespace][1..] == [];
  }
}
