/** The `chain` action a rule line declares, against the test that the state machine uses
    to recognise it on lines it cannot parse (crs/parser.rs). */
module CrsChains {
  import opened Wrappers
  import opened Strings
  import opened CrsParser

  // ----- the actions field -----

  /** The text cut at the commas outside single quotes, starting inside them or not. */
  function Tokens(s: string, quoted: bool): (ts: seq<string>)
    ensures ts != []
  {
    if s == "" then [""]
    else
      var ts := Tokens(s[1..], quoted != (s[0] == '\''));
      if s[0] == ',' && !quoted then [""] + ts else [[s[0]] + ts[0]] + ts[1..]
  }

  /** Tokens done, and the one in hand joined with the first of those to come. */
  function Joined(tokens: seq<string>, cur: string, ts: seq<string>): seq<string>
    requires ts != []
  {
    tokens + [cur + ts[0]] + ts[1..]
  }

  lemma JoinedStep(tokens: seq<string>, cur: string, s: string, quoted: bool)
    requires s != ""
    ensures var us := Tokens(s[1..], quoted != (s[0] == '\''));
            Joined(tokens, cur, Tokens(s, quoted)) ==
              if s[0] == ',' && !quoted then Joined(tokens + [cur], "", us) else Joined(tokens, cur + [s[0]], us)
  {
    var us := Tokens(s[1..], quoted != (s[0] == '\''));
    assert us == [us[0]] + us[1..];
    assert cur + "" == cur && "" + us[0] == us[0];
    assert cur + ([s[0]] + us[0]) == cur + [s[0]] + us[0];
  }

  method SplitActions(s: string) returns (tokens: seq<string>)
    ensures Tokens(s, false) == tokens || Tokens(s, false) == tokens + [""]
  {
    tokens := [];
    var cur, inSq := "", false;
    assert s[0..] == s;
    assert Joined([], "", Tokens(s, false)) == Tokens(s, false) by {
      assert "" + Tokens(s, false)[0] == Tokens(s, false)[0];
    }
    for i := 0 to |s|
      invariant Tokens(s, false) == Joined(tokens, cur, Tokens(s[i..], inSq))
    {
      assert s[i..][1..] == s[i + 1..];
      JoinedStep(tokens, cur, s[i..], inSq);
      if s[i] == '\'' {
        inSq := !inSq;
        cur := cur + [s[i]];
      } else if s[i] == ',' && !inSq {
        tokens := tokens + [cur];
        cur := "";
      } else {
        cur := cur + [s[i]];
      }
    }
    assert Tokens(s[|s|..], inSq) == [""] && cur + "" == cur;
    if cur != "" { tokens := tokens + [cur]; }
  }

  /** The field has a `chain` token. */
  predicate DeclaresChain(actions: string, isSpace: char -> bool) {
    exists token <- Tokens(actions, false) :: IsChainWord(token, isSpace)
  }

  /** The chain flag as the action loop sets it. */
  method ReadChain(actions: string, isSpace: char -> bool) returns (isChain: bool)
    ensures isChain == DeclaresChain(actions, isSpace)
  {
    var tokens := SplitActions(actions);
    isChain := false;
    for i := 0 to |tokens|
      invariant isChain <==> exists token <- tokens[..i] :: IsChainWord(token, isSpace)
    {
      assert tokens[..i + 1] == tokens[..i] + [tokens[i]];
      assert forall t <- tokens[..i + 1] :: t in tokens[..i] || t == tokens[i];
      assert tokens[i] in tokens[..i + 1] && forall t <- tokens[..i] :: t in tokens[..i + 1];
      var token := Trim(tokens[i], isSpace);
      if token == "" { continue; }
      if ':' in token {
        NoColonInChain(token);
        continue;
      }
      if EqIgnoreAsciiCase(token, "chain") { isChain := true; }
    }
    assert tokens[..|tokens|] == tokens;
    assert !IsChainWord("", isSpace);
  }

  lemma NoColonInChain(token: string)
    requires ':' in token
    ensures !EqIgnoreAsciiCase(token, "chain")
  {
    var i :| 0 <= i < |token| && token[i] == ':';
    assert i < 5 ==> "chain"[i] in "chain" && ToAsciiLower("chain"[i]) != ToAsciiLower(':');
  }

  // ----- the field's chain tokens, by position -----

  predicate OddQuotes(s: string) { s != "" && ((s[0] == '\'') != OddQuotes(s[1..])) }

  /** Does the piece at `i` of a text cut at all commas begin inside single quotes? */
  predicate QuotedAt(pieces: seq<string>, i: nat, quoted: bool)
    requires i <= |pieces|
  {
    if i == 0 then quoted else QuotedAt(pieces[1..], i - 1, quoted != OddQuotes(pieces[0]))
  }

  /** The piece at `i` is `chain` and begins outside single quotes. */
  predicate ChainPiece(pieces: seq<string>, i: nat, quoted: bool, isSpace: char -> bool)
    requires i < |pieces|
  {
    IsChainWord(pieces[i], isSpace) && !QuotedAt(pieces, i, quoted)
  }

  lemma {:induction false} TrimStartKeeps(s: string, c: char, isSpace: char -> bool)
    requires c in s && !isSpace(c)
    ensures c in TrimStart(s, isSpace)
  {
    if s != "" && isSpace(s[0]) { TrimStartKeeps(s[1..], c, isSpace); }
  }

  lemma {:induction false} TrimEndKeeps(s: string, c: char, isSpace: char -> bool)
    requires c in s && !isSpace(c)
    ensures c in TrimEnd(s, isSpace)
  {
    if s != "" && isSpace(s[|s| - 1]) { TrimEndKeeps(s[..|s| - 1], c, isSpace); }
  }

  lemma NoQuoteInChain(token: string, isSpace: char -> bool)
    requires !isSpace('\'') && IsChainWord(token, isSpace)
    ensures '\'' !in token
  {
    assert forall i | 0 <= i < 5 :: ToAsciiLower(Trim(token, isSpace)[i]) == ToAsciiLower("chain"[i]);
    assert '\'' !in Trim(token, isSpace);
    if '\'' in token { QuoteStays(token, isSpace); }
  }

  lemma QuoteStays(token: string, isSpace: char -> bool)
    requires !isSpace('\'') && '\'' in token
    ensures '\'' in Trim(token, isSpace)
  {
    TrimStartKeeps(token, '\'', isSpace);
    TrimEndKeeps(TrimStart(token, isSpace), '\'', isSpace);
  }

  /** Outside quotes the first token is the first piece, or goes on past a quote in it. */
  lemma {:induction false} FirstToken(s: string)
    ensures var p, t := SplitOn(s, ',')[0], Tokens(s, false)[0];
            if '\'' in p then '\'' in t else p == t
  {
    if s != "" && s[0] != ',' && s[0] != '\'' {
      FirstToken(s[1..]);
      var p := SplitOn(s[1..], ',')[0];
      assert '\'' in [s[0]] + p <==> '\'' in p;
      var t := Tokens(s[1..], false)[0];
      assert '\'' in t ==> '\'' in [s[0]] + t;
    } else if s != "" && s[0] == '\'' {
      assert Tokens(s, false)[0][0] == '\'';
      assert SplitOn(s, ',')[0][0] == '\'';
    }
  }

  predicate LaterToken(s: string, quoted: bool, isSpace: char -> bool) {
    exists k | 1 <= k < |Tokens(s, quoted)| :: IsChainWord(Tokens(s, quoted)[k], isSpace)
  }

  predicate LaterPiece(s: string, quoted: bool, isSpace: char -> bool) {
    exists i | 1 <= i < |SplitOn(s, ',')| :: ChainPiece(SplitOn(s, ','), i, quoted, isSpace)
  }

  lemma LaterTokenStep(s: string, quoted: bool, isSpace: char -> bool)
    requires s != ""
    ensures LaterToken(s, quoted, isSpace) <==>
              || (s[0] == ',' && !quoted && IsChainWord(Tokens(s[1..], false)[0], isSpace))
              || LaterToken(s[1..], quoted != (s[0] == '\''), isSpace)
  {
    var q := quoted != (s[0] == '\'');
    var ts, us := Tokens(s, quoted), Tokens(s[1..], q);
    hide IsChainWord;
    if s[0] == ',' && !quoted {
      assert ts == [""] + us;
      assert forall k | 1 <= k < |ts| :: ts[k] == us[k - 1];
      assert forall k | 0 <= k < |us| :: us[k] == ts[k + 1];
    } else {
      assert ts == [[s[0]] + us[0]] + us[1..];
      assert forall k | 1 <= k < |ts| :: ts[k] == us[k];
    }
  }

  lemma LaterPieceStep(s: string, quoted: bool, isSpace: char -> bool)
    requires s != ""
    ensures LaterPiece(s, quoted, isSpace) <==>
              || (s[0] == ',' && !quoted && IsChainWord(SplitOn(s[1..], ',')[0], isSpace))
              || LaterPiece(s[1..], quoted != (s[0] == '\''), isSpace)
  {
    var q := quoted != (s[0] == '\'');
    var ps, us := SplitOn(s, ','), SplitOn(s[1..], ',');
    hide IsChainWord;
    if s[0] == ',' {
      assert ps == [""] + us && ps[1..] == us && !OddQuotes("");
      assert ChainPiece(us, 0, quoted, isSpace) == (IsChainWord(us[0], isSpace) && !quoted);
      assert ps[1] == us[0] && ChainPiece(ps, 1, quoted, isSpace) == ChainPiece(us, 0, quoted, isSpace);
      assert forall i | 1 <= i < |ps| :: ChainPiece(ps, i, quoted, isSpace) == ChainPiece(us, i - 1, quoted, isSpace);
      assert forall i | 0 <= i < |us| :: ChainPiece(us, i, quoted, isSpace) == ChainPiece(ps, i + 1, quoted, isSpace);
    } else {
      assert ps == [[s[0]] + us[0]] + us[1..] && ps[1..] == us[1..];
      assert ([s[0]] + us[0])[1..] == us[0];
      assert OddQuotes(ps[0]) == ((s[0] == '\'') != OddQuotes(us[0]));
      assert forall i | 1 <= i < |ps| :: ps[i] == us[i] && QuotedAt(ps, i, quoted) == QuotedAt(us, i, q);
      assert forall i | 1 <= i < |ps| :: ChainPiece(ps, i, quoted, isSpace) == ChainPiece(us, i, q, isSpace);
    }
  }

  lemma {:induction false} LaterAgree(s: string, quoted: bool, isSpace: char -> bool)
    requires !isSpace('\'')
    ensures LaterToken(s, quoted, isSpace) == LaterPiece(s, quoted, isSpace)
  {
    if s != "" {
      LaterTokenStep(s, quoted, isSpace);
      LaterPieceStep(s, quoted, isSpace);
      LaterAgree(s[1..], quoted != (s[0] == '\''), isSpace);
      FirstIsChain(s[1..], isSpace);
      hide LaterToken, LaterPiece, IsChainWord;
    }
  }

  lemma FirstIsChain(s: string, isSpace: char -> bool)
    requires !isSpace('\'')
    ensures IsChainWord(Tokens(s, false)[0], isSpace) == IsChainWord(SplitOn(s, ',')[0], isSpace)
  {
    FirstToken(s);
    var p, t := SplitOn(s, ',')[0], Tokens(s, false)[0];
    if IsChainWord(p, isSpace) { NoQuoteInChain(p, isSpace); }
    if IsChainWord(t, isSpace) { NoQuoteInChain(t, isSpace); }
  }

  /** A field declares `chain` exactly if, of its pieces between commas, some `chain` begins
      outside single quotes. */
  lemma DeclaresChainExactly(actions: string, isSpace: char -> bool)
    requires !isSpace('\'')
    ensures var ps := SplitOn(actions, ',');
            DeclaresChain(actions, isSpace) <==> exists i | 0 <= i < |ps| :: ChainPiece(ps, i, false, isSpace)
  {
    var ts, ps := Tokens(actions, false), SplitOn(actions, ',');
    LaterAgree(actions, false, isSpace);
    FirstIsChain(actions, isSpace);
    assert ChainPiece(ps, 0, false, isSpace) == IsChainWord(ps[0], isSpace);
    hide IsChainWord;
    assert DeclaresChain(actions, isSpace) <==> IsChainWord(ts[0], isSpace) || LaterToken(actions, false, isSpace) by {
      assert forall t <- ts :: t == ts[0] || exists k | 1 <= k < |ts| :: ts[k] == t;
    }
  }

  // ----- what the parser's test looks at -----

  function AfterLastQuote(s: string): string {
    match FindLast(s, '\"')
    case None => s
    case Some(i) => s[i + 1..]
  }

  /** The last quoted text of a line whose fields are followed by `after`. */
  function Inspected(actions: string, after: string): string {
    match FindLast(after, '\"')
    case None => AfterLastQuote(actions)
    case Some(i) => AfterLastQuote(after[..i])
  }

  lemma CutAtLast(s: string, i: nat)
    requires FindLast(s, '\"') == Some(i)
    ensures s == s[..i] + "\"" + s[i + 1..] && '\"' !in s[i + 1..]
  {
  }

  lemma LastQuotedText(before: string, text: string, after: string, isSpace: char -> bool)
    requires '\"' !in after
    ensures HasChain(before + "\"" + text + "\"" + after, isSpace) == AnyChainToken(AfterLastQuote(text), isSpace)
  {
    hide HasChain, AnyChainToken;
    match FindLast(text, '\"')
    case None =>
      HasChainReadsLastQuoted(before, text, after, isSpace);
    case Some(i) =>
      CutAtLast(text, i);
      HasChainReadsLastQuoted(before + "\"" + text[..i], text[i + 1..], after, isSpace);
      assert before + "\"" + text[..i] + "\"" + text[i + 1..] == before + "\"" + text;
  }

  lemma {:induction false} TrimStartIsSuffix(s: string, isSpace: char -> bool)
    ensures |TrimStart(s, isSpace)| <= |s| && s == s[..|s| - |TrimStart(s, isSpace)|] + TrimStart(s, isSpace)
  {
    if s != "" && isSpace(s[0]) {
      TrimStartIsSuffix(s[1..], isSpace);
      var n := |s| - |TrimStart(s, isSpace)|;
      assert s[..n] == [s[0]] + s[1..][..n - 1];
    }
  }

  lemma QuotedIsPart(s: string, isSpace: char -> bool) returns (before: string)
    requires Quoted(s, isSpace).Some?
    ensures var (text, after) := Quoted(s, isSpace).value; s == before + "\"" + text + "\"" + after
  {
    var t := TrimStart(s, isSpace);
    TrimStartIsSuffix(s, isSpace);
    before := s[..|s| - |t|];
    OpeningQuote(t, QuoteEnd(t[1..], false).value);
    hide TrimStart, QuoteEnd;
    JoinQuoted(before, t, Quoted(s, isSpace).value.0, Quoted(s, isSpace).value.1);
  }

  lemma OpeningQuote(t: string, i: nat)
    requires t != "" && t[0] == '\"' && i < |t[1..]| && t[1..][i] == '\"'
    ensures t == "\"" + t[1..][..i] + "\"" + t[1..][i + 1..]
  {
    var inner := t[1..];
    CutAt(inner, i);
    assert t == "\"" + inner;
    Regroup("\"", inner[..i] + "\"", inner[i + 1..]);
    Regroup("\"", inner[..i], "\"");
  }

  lemma JoinQuoted(before: string, t: string, text: string, after: string)
    requires t == "\"" + text + "\"" + after
    ensures before + t == before + "\"" + text + "\"" + after
  {
  }

  lemma CutAt(s: string, i: nat)
    requires i < |s| && s[i] == '\"'
    ensures s == s[..i] + "\"" + s[i + 1..]
  {
  }

  lemma QuotedAfterSpaceIsPart(s: string, isSpace: char -> bool) returns (before: string)
    requires Quoted(TrimStart(s, isSpace), isSpace).Some?
    ensures var (text, after) := Quoted(TrimStart(s, isSpace), isSpace).value; s == before + "\"" + text + "\"" + after
  {
    var t := TrimStart(s, isSpace);
    TrimStartIsSuffix(s, isSpace);
    var b := QuotedIsPart(t, isSpace);
    before := s[..|s| - |t|] + b;
    hide Quoted, TrimStart;
  }

  lemma FieldsAreParts(rest: string, isSpace: char -> bool) returns (before: string)
    requires FieldsOf(rest, isSpace).Some?
    ensures var f := FieldsOf(rest, isSpace).value; rest == before + "\"" + f.actions + "\"" + f.after
  {
    var end := FirstSpace(rest, isSpace).value;
    var (operator, rest1) := Quoted(TrimStart(rest[end..], isSpace), isSpace).value;
    var b1 := QuotedAfterSpaceIsPart(rest[end..], isSpace);
    var b2 := QuotedAfterSpaceIsPart(rest1, isSpace);
    before := rest[..end] + b1 + "\"" + operator + "\"" + b2;
    var f := FieldsOf(rest, isSpace).value;
    assert Quoted(TrimStart(rest1, isSpace), isSpace) == Some((f.actions, f.after));
    hide *;
    Glue(rest[..end], b1 + "\"" + operator + "\"", b2, "\"" + f.actions + "\"" + f.after);
    Glue3(b2, "\"", f.actions, "\"", f.after);
    Glue3(before, "\"", f.actions, "\"", f.after);
    assert rest == rest[..end] + rest[end..];
    Glue4(rest[..end], b1, "\"", operator, "\"", b2);
  }

  lemma Glue(a: string, b: string, c: string, d: string)
    ensures a + (b + (c + d)) == a + b + c + d
  {
  }

  lemma Glue3(a: string, b: string, c: string, d: string, e: string)
    ensures a + (b + c + d + e) == a + b + c + d + e
  {
  }

  lemma Glue4(a: string, b: string, c: string, d: string, e: string, f: string)
    ensures a + (b + c + d + e) + f == a + b + c + d + e + f
  {
  }

  /** On a line with all its fields the test looks for `chain` in the last quoted text; the
      field declares it by its pieces outside single quotes.  So the two agree exactly when
      the inspected text has a `chain` piece just if the field has one outside quotes. */
  lemma ChainTestExactly(rest: string, isSpace: char -> bool)
    requires FieldsOf(rest, isSpace).Some? && !isSpace('\'')
    ensures var f := FieldsOf(rest, isSpace).value;
            var ps := SplitOn(f.actions, ',');
            && HasChain(rest, isSpace) == AnyChainToken(Inspected(f.actions, f.after), isSpace)
            && (HasChain(rest, isSpace) == DeclaresChain(f.actions, isSpace) <==>
                  (AnyChainToken(Inspected(f.actions, f.after), isSpace) <==>
                     exists i | 0 <= i < |ps| :: ChainPiece(ps, i, false, isSpace)))
  {
    var f := FieldsOf(rest, isSpace).value;
    DeclaresChainExactly(f.actions, isSpace);
    InspectsLastQuoted(rest, isSpace);
    hide HasChain, AnyChainToken, DeclaresChain, ChainPiece, FieldsOf, SplitOn, Inspected;
  }

  lemma InspectsLastQuoted(rest: string, isSpace: char -> bool)
    requires FieldsOf(rest, isSpace).Some?
    ensures var f := FieldsOf(rest, isSpace).value;
            HasChain(rest, isSpace) == AnyChainToken(Inspected(f.actions, f.after), isSpace)
  {
    var f := FieldsOf(rest, isSpace).value;
    var before := FieldsAreParts(rest, isSpace);
    hide HasChain, AnyChainToken, FieldsOf, AfterLastQuote;
    match FindLast(f.after, '\"')
    case None =>
      hide FindLast;
      LastQuotedText(before, f.actions, f.after, isSpace);
    case Some(i) =>
      CutAtLast(f.after, i);
      hide FindLast;
      LastQuotedText(before + "\"" + f.actions, f.after[..i], f.after[i + 1..], isSpace);
      LongerLine(before + "\"" + f.actions + "\"", f.after, f.after[..i], f.after[i + 1..]);
  }

  lemma LongerLine(before: string, after: string, u: string, v: string)
    requires after == u + "\"" + v
    ensures before + after == before + u + "\"" + v
  {
  }

  /** In particular they agree on lines without single quotes in the actions field and
      without further double quotes in or after it. */
  lemma PlainChainTest(rest: string, isSpace: char -> bool)
    requires FieldsOf(rest, isSpace).Some? && !isSpace('\'')
    requires var f := FieldsOf(rest, isSpace).value;
             '\'' !in f.actions && '\"' !in f.actions && '\"' !in f.after
    ensures HasChain(rest, isSpace) == DeclaresChain(FieldsOf(rest, isSpace).value.actions, isSpace)
  {
    var f := FieldsOf(rest, isSpace).value;
    var ps := SplitOn(f.actions, ',');
    ChainTestExactly(rest, isSpace);
    PiecesOf(f.actions, '\'');
    assert forall p <- ps :: '\'' !in p;
    hide HasChain, DeclaresChain, FieldsOf, SplitOn, IsChainWord;
    assert Inspected(f.actions, f.after) == f.actions;
    forall i | 0 <= i < |ps|
      ensures ChainPiece(ps, i, false, isSpace) == IsChainWord(ps[i], isSpace)
    {
      NeverQuoted(ps, i);
    }
    assert forall i | 0 <= i < |ps| :: ps[i] in ps;
  }

  lemma {:induction false} PiecesOf(s: string, c: char)
    requires c !in s
    ensures forall p <- SplitOn(s, ',') :: c !in p
  {
    if s != "" {
      assert s[0] in s && forall x <- s[1..] :: x in s;
      PiecesOf(s[1..], c);
    }
  }

  lemma {:induction false} NeverQuoted(pieces: seq<string>, i: nat)
    requires i <= |pieces| && forall p <- pieces :: '\'' !in p
    ensures !QuotedAt(pieces, i, false)
  {
    if i > 0 {
      assert pieces[0] in pieces;
      EvenWithout(pieces[0]);
      NeverQuoted(pieces[1..], i - 1);
    }
  }

  lemma {:induction false} EvenWithout(s: string)
    requires '\'' !in s
    ensures !OddQuotes(s)
  {
    if s != "" {
      assert s[0] in s;
      EvenWithout(s[1..]);
    }
  }

  // ----- members of declared chains -----

  predicate Declares(rest: string, isSpace: char -> bool) {
    match FieldsOf(rest, isSpace)
    case None => false
    case Some(f) => DeclaresChain(f.actions, isSpace)
  }

  /** The rule at `i` continues a chain that the rule before it declares. */
  predicate DeclaredMember(lines: seq<string>, i: nat, isSpace: char -> bool)
    requires i < |lines|
  {
    match PreviousRule(lines, i, isSpace)
    case None => false
    case Some(j) => LineAt(lines, i, isSpace).SecRule? && Declares(LineAt(lines, j, isSpace).rest, isSpace)
  }

  /** A declared member comes out without the rule it continues exactly if that rule is
      dropped, the test does not see its `chain`, and the member parses. */
  lemma OrphansExactly<Op>(lines: seq<string>, i: nat, syntax: Syntax<Op>)
    requires i < |lines| && DeclaredMember(lines, i, syntax.isSpace)
    ensures var j := PreviousRule(lines, i, syntax.isSpace).value;
            Emitted(lines, i, syntax) && !Emitted(lines, j, syntax) <==>
            !Emitted(lines, j, syntax) && !HasChain(LineAt(lines, j, syntax.isSpace).rest, syntax.isSpace) && Parses(lines, i, syntax)
  {
    hide HasChain, FieldsOf, Classify;
  }

  /** So a file has no orphans if the test sees every declared chain. */
  lemma NoDeclaredOrphans<Op>(lines: seq<string>, syntax: Syntax<Op>)
    requires forall j | 0 <= j < |lines| && LineAt(lines, j, syntax.isSpace).SecRule? ::
               Declares(LineAt(lines, j, syntax.isSpace).rest, syntax.isSpace) ==>
                 HasChain(LineAt(lines, j, syntax.isSpace).rest, syntax.isSpace)
    ensures forall i | 0 <= i < |lines| && DeclaredMember(lines, i, syntax.isSpace) ::
              Emitted(lines, i, syntax) ==> Emitted(lines, PreviousRule(lines, i, syntax.isSpace).value, syntax)
  {
    hide HasChain, Declares, Classify, Emitted;
    forall i | 0 <= i < |lines| && DeclaredMember(lines, i, syntax.isSpace)
      ensures Emitted(lines, i, syntax) ==> Emitted(lines, PreviousRule(lines, i, syntax.isSpace).value, syntax)
    {
      OrphansExactly(lines, i, syntax);
    }
  }

  // ----- concrete lines -----

  /** Visible ASCII characters are no white space, the space is. */
  ghost predicate UsualSpaces(isSpace: char -> bool) {
    isSpace(' ') && forall c: char | 33 <= c as int < 127 :: !isSpace(c)
  }

  /** No quote stands unescaped in `s`, and no backslash at its end escapes. */
  predicate Enclosed(s: string, escaped: bool) {
    if s == "" then !escaped
    else !(s[0] == '\"' && !escaped) && Enclosed(s[1..], s[0] == '\\' && !escaped)
  }

  lemma {:induction false} QuoteEndAfter(s: string, x: string, escaped: bool)
    requires Enclosed(s, escaped)
    ensures QuoteEnd(s + "\"" + x, escaped) == Some(|s|)
  {
    var t := s + "\"" + x;
    if s != "" {
      assert t[1..] == s[1..] + "\"" + x;
      QuoteEndAfter(s[1..], x, s[0] == '\\' && !escaped);
    }
  }

  lemma {:induction false} PlainIsEnclosed(s: string, t: string)
    requires '\"' !in s && '\\' !in s && Enclosed(t, false)
    ensures Enclosed(s + t, false)
  {
    if s == "" {
      assert s + t == t;
    } else {
      assert s[0] in s && (s + t)[1..] == s[1..] + t;
      PlainIsEnclosed(s[1..], t);
    }
  }

  lemma EscapedQuoteIsEnclosed(t: string)
    requires Enclosed(t, false)
    ensures Enclosed("\\\"" + t, false)
  {
    assert ("\\\"" + t)[1..] == "\"" + t && ("\"" + t)[1..] == t;
  }

  lemma QuotedAtFront(text: string, x: string, isSpace: char -> bool)
    requires Enclosed(text, false) && !isSpace('\"')
    ensures Quoted(InQuotes(text, x), isSpace) == Some((text, x))
  {
    var t := InQuotes(text, x);
    QuoteEndAfter(text, x, false);
    var inner := text + "\"" + x;
    assert t[1..] == inner && inner[..|text|] == text && inner[|text| + 1..] == x;
    assert TrimStart(t, isSpace) == t;
    hide QuoteEnd, Enclosed, TrimStart;
  }

  function InQuotes(text: string, after: string): string { "\"" + text + "\"" + after }

  /** A rule line's text: `TARGETS "operator" "actions"`. */
  function RuleText(targets: string, operator: string, actions: string): string {
    targets + (" " + InQuotes(operator, " " + InQuotes(actions, "")))
  }

  /** The fields of a line written the usual way. */
  lemma FieldsOfRule(targets: string, operator: string, actions: string, isSpace: char -> bool)
    requires UsualSpaces(isSpace) && forall c <- targets :: !isSpace(c)
    requires Enclosed(operator, false) && Enclosed(actions, false)
    ensures FieldsOf(RuleText(targets, operator, actions), isSpace) == Some(Fields(targets, operator, actions, ""))
  {
    var x2 := InQuotes(actions, "");
    var x1 := InQuotes(operator, " " + x2);
    var rest := targets + (" " + x1);
    FirstSpaceAfter(targets, x1, isSpace);
    assert rest[|targets|..] == " " + x1 && rest[..|targets|] == targets;
    TrimOneSpace(x1, isSpace);
    QuotedAtFront(operator, " " + x2, isSpace);
    TrimOneSpace(x2, isSpace);
    QuotedAtFront(actions, "", isSpace);
    hide Quoted, FirstSpace, TrimStart, Enclosed, InQuotes;
  }

  lemma TrimOneSpace(x: string, isSpace: char -> bool)
    requires UsualSpaces(isSpace) && x != "" && x[0] == '\"'
    ensures TrimStart(" " + x, isSpace) == x
  {
    assert (" " + x)[1..] == x;
  }

  lemma {:induction false} FirstSpaceAfter(s: string, x: string, isSpace: char -> bool)
    requires isSpace(' ') && forall c <- s :: !isSpace(c)
    ensures FirstSpace(s + (" " + x), isSpace) == Some(|s|)
  {
    if s != "" {
      assert s[0] in s && (s + (" " + x))[1..] == s[1..] + (" " + x);
      FirstSpaceAfter(s[1..], x, isSpace);
    }
  }

  lemma RuleLine(rest: string, isSpace: char -> bool)
    requires UsualSpaces(isSpace)
    requires rest != "" && !isSpace(rest[0]) && !isSpace(rest[|rest| - 1])
    ensures Classify("SecRule " + rest, isSpace) == SecRule(rest)
  {
    var line := "SecRule " + rest;
    assert line[|line| - 1] == rest[|rest| - 1];
    assert Trim(line, isSpace) == line;
    assert line[..7] == "SecRule" <= line;
    assert line[7..] == [' '] + rest && line[7..][1..] == rest;
    assert TrimStart(line[7..], isSpace) == TrimStart(rest, isSpace) == rest;
  }

  lemma {:induction false} SplitAt(a: string, b: string)
    requires ',' !in a
    ensures SplitOn(a + "," + b, ',') == [a] + SplitOn(b, ',')
  {
    var s := a + "," + b;
    if a == "" {
      assert s[1..] == b;
    } else {
      assert a[0] in a && s[1..] == a[1..] + "," + b;
      SplitAt(a[1..], b);
      assert [a[0]] + a[1..] == a;
    }
  }

  lemma {:induction false} SplitNothing(s: string)
    requires ',' !in s
    ensures SplitOn(s, ',') == [s]
  {
    if s != "" {
      assert s[0] in s;
      SplitNothing(s[1..]);
      assert [s[0]] + s[1..] == s;
    }
  }

  lemma ChainWord(isSpace: char -> bool)
    requires UsualSpaces(isSpace)
    ensures IsChainWord("chain", isSpace)
  {
    assert Trim("chain", isSpace) == "chain";
  }

  /** Two rule lines, the second continuing the first if that declares a chain. */
  lemma TwoLines<Op>(lines: seq<string>, head: string, member: string, syntax: Syntax<Op>)
    requires |lines| == 2
    requires LineAt(lines, 0, syntax.isSpace) == SecRule(head) && LineAt(lines, 1, syntax.isSpace) == SecRule(member)
    ensures PreviousRule(lines, 1, syntax.isSpace) == Some(0)
    ensures var h, m := ParseSecRule(head, syntax), ParseSecRule(member, syntax);
            ItemsBefore(lines, 2, syntax) ==
              (if h.Some? then [RuleItem(h.value)] else [])
              + (if m.Some? && (h.Some? || !HasChain(head, syntax.isSpace)) then [RuleItem(m.value)] else [])
  {
    hide HasChain, LineAt, ParseSecRule;
    assert PreviousRule(lines, 0, syntax.isSpace) == None;
    assert PreviousRule(lines, 1, syntax.isSpace) == Some(0);
    assert ItemsBefore(lines, 1, syntax) == ItemsBefore(lines, 0, syntax) + ItemsAt(lines, 0, syntax);
    assert ItemsBefore(lines, 2, syntax) == ItemsBefore(lines, 1, syntax) + ItemsAt(lines, 1, syntax);
  }

  lemma PlainField(s: string)
    requires '\"' !in s && '\\' !in s
    ensures Enclosed(s, false)
  {
    PlainIsEnclosed(s, "");
    assert s + "" == s;
  }

  lemma NothingToTrim(s: string, isSpace: char -> bool)
    requires s != "" && !isSpace(s[0]) && !isSpace(s[|s| - 1])
    ensures Trim(s, isSpace) == s
  {
  }

  /** A field that goes on with `,chain` after an unquoted first piece declares a chain. */
  lemma DeclaredByPieces(first: string, more: string, isSpace: char -> bool)
    requires UsualSpaces(isSpace) && ',' !in first && '\'' !in first
    requires more == "" || more[0] == ','
    ensures DeclaresChain(first + ",chain" + more, isSpace)
  {
    var actions := first + ",chain" + more;
    var ps := SplitOn(actions, ',');
    PiecesOfDeclaration(first, more);
    EvenWithout(first);
    ChainWord(isSpace);
    DeclaresChainExactly(actions, isSpace);
    hide SplitOn, IsChainWord, DeclaresChain, OddQuotes;
    assert QuotedAt(ps, 1, false) == QuotedAt(ps[1..], 0, false != OddQuotes(ps[0])) == false;
    assert ChainPiece(ps, 1, false, isSpace);
  }

  lemma PiecesOfDeclaration(first: string, more: string)
    requires ',' !in first && (more == "" || more[0] == ',')
    ensures var ps := SplitOn(first + ",chain" + more, ','); |ps| >= 2 && ps[0] == first && ps[1] == "chain"
  {
    assert first + ",chain" + more == first + "," + ("chain" + more);
    SplitAt(first, "chain" + more);
    hide SplitOn;
    if more == "" {
      assert "chain" + more == "chain";
      SplitNothing("chain");
    } else {
      assert "chain" + more == "chain" + "," + more[1..];
      SplitAt("chain", more[1..]);
    }
  }

  /** Two rules written the usual way. */
  lemma TwoRuleTexts<Op>(operator: string, actions: string, operator': string, actions': string, syntax: Syntax<Op>)
    requires UsualSpaces(syntax.isSpace)
    requires Enclosed(operator, false) && Enclosed(actions, false) && Enclosed(operator', false) && Enclosed(actions', false)
    requires Trim(operator, syntax.isSpace) == operator && Trim(operator', syntax.isSpace) == operator'
    requires DeclaresChain(actions, syntax.isSpace)
    ensures var head, member := RuleText("ARGS", operator, actions), RuleText("ARGS", operator', actions');
            var lines := ["SecRule " + head, "SecRule " + member];
            var h, m := syntax.parseOperator(operator), syntax.parseOperator(operator');
            && FieldsOf(head, syntax.isSpace) == Some(Fields("ARGS", operator, actions, ""))
            && DeclaredMember(lines, 1, syntax.isSpace)
            && ItemsBefore(lines, 2, syntax) ==
                 (if h.Some? then [RuleItem(Rule("ARGS", h.value, actions))] else [])
                 + (if m.Some? && (h.Some? || !HasChain(head, syntax.isSpace)) then [RuleItem(Rule("ARGS", m.value, actions'))] else [])
  {
    var head, member := RuleText("ARGS", operator, actions), RuleText("ARGS", operator', actions');
    var lines := ["SecRule " + head, "SecRule " + member];
    FieldsOfRule("ARGS", operator, actions, syntax.isSpace);
    FieldsOfRule("ARGS", operator', actions', syntax.isSpace);
    RuleTextLine(operator, actions, syntax.isSpace);
    RuleTextLine(operator', actions', syntax.isSpace);
    hide FieldsOf, Classify, HasChain, DeclaresChain, Trim, RuleText, Enclosed, UsualSpaces;
    TwoLines(lines, head, member, syntax);
  }

  lemma RuleTextLine(operator: string, actions: string, isSpace: char -> bool)
    requires UsualSpaces(isSpace)
    ensures Classify("SecRule " + RuleText("ARGS", operator, actions), isSpace) == SecRule(RuleText("ARGS", operator, actions))
  {
    var rest := RuleText("ARGS", operator, actions);
    assert rest[0] == 'A' && rest[|rest| - 1] == '\"';
    hide Classify, RuleText;
    RuleLine(rest, isSpace);
  }

  /** A head whose operator is supported before a member whose operator is not: the head
      comes out alone. */
  lemma HeadWithoutMember<Op>(syntax: Syntax<Op>)
    requires UsualSpaces(syntax.isSpace)
    requires syntax.parseOperator("@rx a").Some? && syntax.parseOperator("@validateByteRange 1-255").None?
    ensures var lines := ["SecRule " + RuleText("ARGS", "@rx a", "id:1,chain"),
                          "SecRule " + RuleText("ARGS", "@validateByteRange 1-255", "id:2")];
            && DeclaredMember(lines, 1, syntax.isSpace)
            && ItemsBefore(lines, 2, syntax)
               == [RuleItem(Rule("ARGS", syntax.parseOperator("@rx a").value, "id:1,chain"))]
  {
    hide Enclosed, Trim, DeclaresChain, RuleText, FieldsOf, ItemsBefore, HasChain, DeclaredMember;
    HeadTexts();
    NothingToTrim("@rx a", syntax.isSpace);
    NothingToTrim("@validateByteRange 1-255", syntax.isSpace);
    assert "id:1" + ",chain" + "" == "id:1,chain";
    DeclaredByPieces("id:1", "", syntax.isSpace);
    hide *;
    TwoRuleTexts("@rx a", "id:1,chain", "@validateByteRange 1-255", "id:2", syntax);
  }

  lemma HeadTexts()
    ensures Enclosed("@rx a", false) && Enclosed("id:1,chain", false)
    ensures Enclosed("@validateByteRange 1-255", false) && Enclosed("id:2", false)
  {
    hide Enclosed;
    PlainField("@rx a");
    PlainField("id:1,chain");
    PlainField("@validateByteRange 1-255");
    PlainField("id:2");
  }

  const ESCAPED_QUOTE := "\\\""

  /** A text with a part of it in escaped double quotes. */
  function Quoting(a: string, b: string, c: string): string { a + (ESCAPED_QUOTE + (b + (ESCAPED_QUOTE + c))) }

  lemma QuotingIsEnclosed(a: string, b: string, c: string)
    requires '\"' !in a + b + c && '\\' !in a + b + c
    ensures Enclosed(Quoting(a, b, c), false)
  {
    assert forall x <- a :: x in a + b + c;
    assert forall x <- b :: x in a + b + c;
    assert forall x <- c :: x in a + b + c;
    PlainField(c);
    EscapedQuoteIsEnclosed(c);
    hide Enclosed;
    PlainIsEnclosed(b, ESCAPED_QUOTE + c);
    EscapedQuoteIsEnclosed(b + (ESCAPED_QUOTE + c));
    PlainIsEnclosed(a, ESCAPED_QUOTE + (b + (ESCAPED_QUOTE + c)));
  }

  lemma QuotingEnds(a: string, b: string, c: string)
    requires '\"' !in c
    ensures AfterLastQuote(Quoting(a, b, c)) == c
  {
    var before := a + ESCAPED_QUOTE + b + "\\";
    assert ESCAPED_QUOTE == "\\" + "\"";
    assert Quoting(a, b, c) == before + ['\"'] + c;
    FindLastUnique(before, '\"', c);
    assert (before + ['\"'] + c)[|before| + 1..] == c;
    hide FindLast;
  }

  /** `id:1,chain,msg:'say \"hi\" now'` */
  function Saying(): string { Quoting("id:1,chain,msg:'say ", "hi", " now'") }

  /** A head that declares a chain, has an unsupported operator, and quotes a word in its
      message: the test looks at the end of the message, and the member comes out alone. */
  lemma MemberWithoutHead<Op>(syntax: Syntax<Op>)
    requires UsualSpaces(syntax.isSpace)
    requires syntax.parseOperator("@foo x").None? && syntax.parseOperator("@rx a").Some?
    ensures var lines := ["SecRule " + RuleText("ARGS", "@foo x", Saying()),
                          "SecRule " + RuleText("ARGS", "@rx a", "id:2")];
            && DeclaredMember(lines, 1, syntax.isSpace)
            && ItemsBefore(lines, 2, syntax) == [RuleItem(Rule("ARGS", syntax.parseOperator("@rx a").value, "id:2"))]
  {
    hide Enclosed, Trim, DeclaresChain, RuleText, FieldsOf, ItemsBefore, HasChain, DeclaredMember, Quoting;
    PlainField("@foo x");
    PlainField("@rx a");
    PlainField("id:2");
    QuotingIsEnclosed("id:1,chain,msg:'say ", "hi", " now'");
    NothingToTrim("@foo x", syntax.isSpace);
    NothingToTrim("@rx a", syntax.isSpace);
    SayingDeclares(syntax.isSpace);
    hide *;
    TwoRuleTexts("@foo x", Saying(), "@rx a", "id:2", syntax);
    TestMissesChain(RuleText("ARGS", "@foo x", Saying()), syntax.isSpace);
  }

  lemma SayingDeclares(isSpace: char -> bool)
    requires UsualSpaces(isSpace)
    ensures DeclaresChain(Saying(), isSpace)
  {
    var more := Quoting(",msg:'say ", "hi", " now'");
    assert "id:1,chain,msg:'say " == "id:1" + ",chain" + ",msg:'say ";
    Regroup("id:1" + ",chain", ",msg:'say ", ESCAPED_QUOTE + ("hi" + (ESCAPED_QUOTE + " now'")));
    DeclaredByPieces("id:1", more, isSpace);
    hide DeclaresChain;
  }

  lemma Regroup(a: string, b: string, c: string)
    ensures a + (b + c) == a + b + c
  {
  }

  lemma TestMissesChain(rest: string, isSpace: char -> bool)
    requires UsualSpaces(isSpace) && FieldsOf(rest, isSpace).Some?
    requires FieldsOf(rest, isSpace).value.actions == Saying() && FieldsOf(rest, isSpace).value.after == ""
    ensures !HasChain(rest, isSpace)
  {
    ChainTestExactly(rest, isSpace);
    QuotingEnds("id:1,chain,msg:'say ", "hi", " now'");
    LastPieceIsNoChain(isSpace);
    hide HasChain, FieldsOf, AnyChainToken, AfterLastQuote, DeclaresChain, ChainPiece, SplitOn, Quoting;
  }

  lemma LastPieceIsNoChain(isSpace: char -> bool)
    requires UsualSpaces(isSpace)
    ensures !AnyChainToken(" now'", isSpace)
  {
    SplitNothing(" now'");
    assert " now'"[1..] == "now'";
    assert Trim(" now'", isSpace) == "now'";
  }
}
