/** What crs/parser.rs makes of single lines, and of a file put together from parts. */
module CrsLaws {
  import opened Wrappers
  import opened Strings
  import opened CrsParser
  import opened CrsChains

  predicate Blank(s: string, isSpace: char -> bool) { forall c <- s :: isSpace(c) }

  /** Not blank, and with no white space at either end. */
  predicate Trimmed(s: string, isSpace: char -> bool) {
    s != "" && !isSpace(s[0]) && !isSpace(s[|s| - 1])
  }

  // ----- kinds of lines -----

  lemma OuterSpace(a: string, t: string, b: string, isSpace: char -> bool)
    requires Blank(a, isSpace) && Blank(b, isSpace) && Trimmed(t, isSpace)
    ensures Trim(a + t + b, isSpace) == t
  {
    assert forall c <- a + b :: c in a || c in b;
    TrimsBoth(a, t, b, isSpace);
  }

  lemma BlankLine(a: string, isSpace: char -> bool)
    requires Blank(a, isSpace)
    ensures Classify(a, isSpace) == Ignored
  {
    assert a + "" == a;
    TrimsStart(a, "", isSpace);
  }

  lemma RuleOrMarker(t: string)
    ensures !("SecRule" <= t && "SecMarker" <= t)
  {
    assert "SecRule" <= t ==> t[3] == "SecRule"[3] == 'R';
    assert "SecMarker" <= t ==> t[3] == "SecMarker"[3] == 'M';
  }

  /** Comments and directives other than rules and markers are ignored. */
  lemma OtherLine(a: string, t: string, b: string, isSpace: char -> bool)
    requires Blank(a, isSpace) && Blank(b, isSpace) && Trimmed(t, isSpace)
    requires t[0] == '#' || !("Sec" <= t) || ("SecRule" <= t && (|t| == 7 || !isSpace(t[7])))
    ensures Classify(a + t + b, isSpace) == Ignored
  {
    OuterSpace(a, t, b, isSpace);
    assert "SecRule"[..3] == "SecMarker"[..3] == "Sec";
    assert "SecRule" <= t || "SecMarker" <= t ==> t[..3] == "Sec" <= t;
    RuleOrMarker(t);
    hide Trim;
  }

  /** `SecRule`, white space, and the rest of a rule. */
  lemma RuleLineSpaced(a: string, gap: string, rest: string, b: string, isSpace: char -> bool)
    requires UsualSpaces(isSpace)
    requires Blank(a, isSpace) && Blank(gap, isSpace) && Blank(b, isSpace) && gap != "" && Trimmed(rest, isSpace)
    ensures Classify(a + ("SecRule" + gap + rest) + b, isSpace) == SecRule(rest)
  {
    var t := "SecRule" + gap + rest;
    assert t[0] == 'S' && t[|t| - 1] == rest[|rest| - 1];
    OuterSpace(a, t, b, isSpace);
    assert gap[0] in gap && t[7] == gap[0];
    assert t[..7] == "SecRule" <= t;
    assert t[7..] == gap + rest;
    TrimsStart(gap, rest, isSpace);
    hide Trim, TrimStart;
  }

  /** `SecMarker` and a name in double quotes, with white space inside and outside them. */
  lemma MarkerLine(a: string, gap: string, pad: string, name: string, pad': string, b: string, isSpace: char -> bool)
    requires UsualSpaces(isSpace) && Blank(a, isSpace) && Blank(gap, isSpace) && Blank(b, isSpace)
    requires Blank(pad, isSpace) && Blank(pad', isSpace)
    requires Trimmed(name, isSpace) && name[0] != '\"' && name[|name| - 1] != '\"'
    ensures Classify(a + ("SecMarker" + (gap + ("\"" + (pad + name + pad') + "\""))) + b, isSpace) == SecMarker(name)
  {
    var inside := pad + name + pad';
    var x := "\"" + inside + "\"";
    MarkerText(a, gap + x, b, isSpace);
    assert gap + x == gap + x + "";
    OuterSpace(gap, x, "", isSpace);
    assert inside[0] != '\"' && inside[|inside| - 1] != '\"' by {
      assert inside[0] == (if pad == "" then name[0] else pad[0]);
      assert inside[|inside| - 1] == if pad' == "" then name[|name| - 1] else pad'[|pad'| - 1];
      assert !isSpace('\"');
    }
    TrimsBoth("\"", inside, "\"", c => c == '\"');
    OuterSpace(pad, name, pad', isSpace);
    hide Trim, Classify;
  }

  /** Its quotes may be missing. */
  lemma PlainMarkerLine(a: string, gap: string, name: string, b: string, isSpace: char -> bool)
    requires UsualSpaces(isSpace) && Blank(a, isSpace) && Blank(gap, isSpace) && Blank(b, isSpace)
    requires Trimmed(name, isSpace) && name[0] != '\"' && name[|name| - 1] != '\"'
    ensures Classify(a + ("SecMarker" + (gap + name)) + b, isSpace) == SecMarker(name)
  {
    MarkerText(a, gap + name, b, isSpace);
    assert gap + name == gap + name + "" && name == "" + name + "";
    OuterSpace(gap, name, "", isSpace);
    TrimsBoth("", name, "", c => c == '\"');
    OuterSpace("", name, "", isSpace);
    hide Classify, Trim;
  }

  /** A marker may have the empty name. */
  lemma NamelessMarkerLine(a: string, gap: string, b: string, isSpace: char -> bool)
    requires UsualSpaces(isSpace) && Blank(a, isSpace) && Blank(gap, isSpace) && Blank(b, isSpace)
    ensures Classify(a + ("SecMarker" + (gap + "\"\"")) + b, isSpace) == SecMarker("")
  {
    MarkerText(a, gap + "\"\"", b, isSpace);
    assert gap + "\"\"" == gap + "\"\"" + "" && "\"\"" + "" == "\"\"";
    OuterSpace(gap, "\"\"", "", isSpace);
    TrimsStart("\"\"", "", c => c == '\"');
    hide Classify;
  }

  lemma MarkerText(a: string, x: string, b: string, isSpace: char -> bool)
    requires UsualSpaces(isSpace) && Blank(a, isSpace) && Blank(b, isSpace) && x != "" && !isSpace(x[|x| - 1])
    ensures Classify(a + ("SecMarker" + x) + b, isSpace)
            == SecMarker(Trim(Trim(Trim(x, isSpace), c => c == '\"'), isSpace))
  {
    var t := "SecMarker" + x;
    assert t[0] == 'S' && t[|t| - 1] == x[|x| - 1];
    OuterSpace(a, t, b, isSpace);
    assert t[..9] == "SecMarker" <= t && t[9..] == x;
    hide Trim;
  }

  // ----- the fields of a rule -----

  lemma {:induction false} EndsUnescaped(s: string, escaped: bool)
    requires QuoteEnd(s, escaped).Some?
    ensures Enclosed(s[..QuoteEnd(s, escaped).value], escaped)
  {
    if !(s[0] == '\"' && !escaped) {
      EndsUnescaped(s[1..], s[0] == '\\' && !escaped);
      var n := QuoteEnd(s, escaped).value;
      assert s[..n][1..] == s[1..][..n - 1];
    }
  }

  /** The text of a rule's fields: the targets, and two texts in double quotes. */
  function FieldsText(f: Fields, gap: string, gap': string): string {
    f.targets + (gap + InQuotes(f.operator, gap' + InQuotes(f.actions, f.after)))
  }

  predicate ProperFields(f: Fields, gap: string, gap': string, isSpace: char -> bool) {
    && (forall c <- f.targets :: !isSpace(c))
    && gap != "" && Blank(gap, isSpace) && Blank(gap', isSpace)
    && Enclosed(f.operator, false) && Enclosed(f.actions, false)
  }

  lemma SkipsSpace(gap: string, text: string, x: string, isSpace: char -> bool)
    requires UsualSpaces(isSpace) && Blank(gap, isSpace) && Enclosed(text, false)
    ensures Quoted(TrimStart(gap + InQuotes(text, x), isSpace), isSpace) == Some((text, x))
  {
    TrimsStart(gap, InQuotes(text, x), isSpace);
    QuotedAtFront(text, x, isSpace);
    hide Quoted, Enclosed, TrimStart;
  }

  /** Fields written in this form are read back, whatever the white space between them. */
  lemma FieldsReadBack(f: Fields, gap: string, gap': string, isSpace: char -> bool)
    requires UsualSpaces(isSpace) && ProperFields(f, gap, gap', isSpace)
    ensures FieldsOf(FieldsText(f, gap, gap'), isSpace) == Some(f)
  {
    var rest1 := gap' + InQuotes(f.actions, f.after);
    var x := gap + InQuotes(f.operator, rest1);
    var rest := f.targets + x;
    assert gap[0] in gap && x[0] == gap[0];
    FirstSpaceOf(f.targets, x, isSpace);
    assert rest[|f.targets|..] == x && rest[..|f.targets|] == f.targets;
    SkipsSpace(gap, f.operator, rest1, isSpace);
    SkipsSpace(gap', f.actions, f.after, isSpace);
    hide Quoted, FirstSpace, TrimStart, Enclosed, InQuotes;
  }

  lemma {:induction false} FirstSpaceOf(s: string, x: string, isSpace: char -> bool)
    requires x != "" && isSpace(x[0]) && forall c <- s :: !isSpace(c)
    ensures FirstSpace(s + x, isSpace) == Some(|s|)
  {
    if s != "" {
      assert s[0] in s && (s + x)[1..] == s[1..] + x;
      FirstSpaceOf(s[1..], x, isSpace);
    }
  }

  lemma {:induction false} SpaceInFront(s: string, isSpace: char -> bool) returns (gap: string)
    ensures Blank(gap, isSpace) && s == gap + TrimStart(s, isSpace)
    ensures s != "" && isSpace(s[0]) ==> gap != ""
  {
    gap := "";
    if s != "" && isSpace(s[0]) {
      var g := SpaceInFront(s[1..], isSpace);
      gap := [s[0]] + g;
    }
  }

  lemma QuotedForm(s: string, isSpace: char -> bool) returns (gap: string)
    requires Quoted(TrimStart(s, isSpace), isSpace).Some?
    ensures var (text, after) := Quoted(TrimStart(s, isSpace), isSpace).value;
            Blank(gap, isSpace) && Enclosed(text, false) && s == gap + InQuotes(text, after)
    ensures s != "" && isSpace(s[0]) ==> gap != ""
  {
    var t := TrimStart(s, isSpace);
    gap := SpaceInFront(s, isSpace);
    TrimStartTwice(s, isSpace);
    EndsUnescaped(t[1..], false);
    OpeningQuote(t, QuoteEnd(t[1..], false).value);
    hide Enclosed, QuoteEnd, TrimStart;
  }

  lemma {:induction false} TrimStartTwice(s: string, isSpace: char -> bool)
    ensures TrimStart(TrimStart(s, isSpace), isSpace) == TrimStart(s, isSpace)
  {
    if s != "" { TrimStartTwice(s[1..], isSpace); }
  }

  /** A line has the fields `f` exactly if it is written in this form. */
  lemma FieldsExactly(rest: string, f: Fields, isSpace: char -> bool)
    requires UsualSpaces(isSpace)
    ensures FieldsOf(rest, isSpace) == Some(f) <==>
            exists gap, gap' :: ProperFields(f, gap, gap', isSpace) && rest == FieldsText(f, gap, gap')
  {
    if FieldsOf(rest, isSpace) == Some(f) {
      var gap, gap' := FieldsForm(rest, isSpace);
    }
    forall gap, gap' | ProperFields(f, gap, gap', isSpace) && rest == FieldsText(f, gap, gap')
      ensures FieldsOf(rest, isSpace) == Some(f)
    {
      FieldsReadBack(f, gap, gap', isSpace);
    }
    hide FieldsOf, ProperFields, FieldsText;
  }

  lemma FieldsForm(rest: string, isSpace: char -> bool) returns (gap: string, gap': string)
    requires FieldsOf(rest, isSpace).Some?
    ensures var f := FieldsOf(rest, isSpace).value;
            ProperFields(f, gap, gap', isSpace) && rest == FieldsText(f, gap, gap')
  {
    var end := FirstSpace(rest, isSpace).value;
    var x := rest[end..];
    var (operator, rest1) := Quoted(TrimStart(x, isSpace), isSpace).value;
    gap := QuotedForm(x, isSpace);
    gap' := QuotedForm(rest1, isSpace);
    assert x[0] == rest[end] && rest == rest[..end] + x;
    hide Quoted, FirstSpace, TrimStart, Enclosed, InQuotes;
  }

  /** So a rule is read with these targets and actions exactly if its line has this form
      and the text of its operator, white space aside, is one that is supported. */
  lemma RuleExactly<Op>(rest: string, rule: Rule<Op>, syntax: Syntax<Op>)
    requires UsualSpaces(syntax.isSpace)
    ensures ParseSecRule(rest, syntax) == Some(rule) <==>
            exists f, gap, gap' ::
              && ProperFields(f, gap, gap', syntax.isSpace) && rest == FieldsText(f, gap, gap')
              && f.targets == rule.targets && f.actions == rule.actions
              && syntax.parseOperator(Trim(f.operator, syntax.isSpace)) == Some(rule.operator)
  {
    if ParseSecRule(rest, syntax) == Some(rule) {
      FieldsExactly(rest, FieldsOf(rest, syntax.isSpace).value, syntax.isSpace);
    }
    forall f, gap, gap' | ProperFields(f, gap, gap', syntax.isSpace) && rest == FieldsText(f, gap, gap')
      ensures FieldsOf(rest, syntax.isSpace) == Some(f)
    {
      FieldsExactly(rest, f, syntax.isSpace);
    }
    hide FieldsOf, ProperFields, FieldsText, Trim;
  }

  /** A token is `chain` in capitals or not, white space around it aside. */
  lemma ChainWordExactly(a: string, t: string, b: string, isSpace: char -> bool)
    requires Blank(a, isSpace) && Blank(b, isSpace) && Trimmed(t, isSpace)
    ensures IsChainWord(a + t + b, isSpace) <==>
            |t| == 5 && t[0] in "cC" && t[1] in "hH" && t[2] in "aA" && t[3] in "iI" && t[4] in "nN"
  {
    OuterSpace(a, t, b, isSpace);
    hide Trim;
    var chain := "chain";
    assert forall c: char :: ToAsciiLower(c) == 'c' <==> c in "cC";
    assert forall c: char :: ToAsciiLower(c) == 'h' <==> c in "hH";
    assert forall c: char :: ToAsciiLower(c) == 'a' <==> c in "aA";
    assert forall c: char :: ToAsciiLower(c) == 'i' <==> c in "iI";
    assert forall c: char :: ToAsciiLower(c) == 'n' <==> c in "nN";
    hide ToAsciiLower;
  }

  // ----- files from parts -----

  /** The rule before position `i` is the nearest line that is not ignored. */
  lemma {:induction false} PreviousRuleExactly(lines: seq<string>, i: nat, j: nat, isSpace: char -> bool)
    requires j < i <= |lines|
    ensures PreviousRule(lines, i, isSpace) == Some(j) <==>
            LineAt(lines, j, isSpace).SecRule? && forall k | j < k < i :: LineAt(lines, k, isSpace).Ignored?
  {
    hide LineAt;
    if j < i - 1 && LineAt(lines, i - 1, isSpace).Ignored? {
      PreviousRuleExactly(lines, i - 1, j, isSpace);
    }
  }

  /** A rule with no rule between it and the marker before it comes out exactly if it
      parses, whatever was dropped before the marker. */
  lemma RuleAfterMarker<Op>(lines: seq<string>, m: nat, i: nat, syntax: Syntax<Op>)
    requires m < i < |lines| && LineAt(lines, m, syntax.isSpace).SecMarker?
    requires forall k | m < k < i :: LineAt(lines, k, syntax.isSpace).Ignored?
    ensures Emitted(lines, i, syntax) <==> Parses(lines, i, syntax)
  {
    hide HasChain, Classify;
    if PreviousRule(lines, i, syntax.isSpace).Some? {
      PreviousRuleExactly(lines, i, PreviousRule(lines, i, syntax.isSpace).value, syntax.isSpace);
      assert false;
    }
  }

  /** At the end of `lines` the chain of a dropped rule is still open. */
  predicate DropOpen<Op>(lines: seq<string>, syntax: Syntax<Op>) {
    && Continues(lines, |lines|, syntax.isSpace)
    && !ParsesUpTo(lines, PreviousRule(lines, |lines|, syntax.isSpace).value, syntax)
  }

  lemma {:induction false} PreviousInPrefix(a: seq<string>, b: seq<string>, i: nat, isSpace: char -> bool)
    requires i <= |a|
    ensures PreviousRule(a + b, i, isSpace) == PreviousRule(a, i, isSpace)
  {
    if i > 0 { PreviousInPrefix(a, b, i - 1, isSpace); }
  }

  lemma {:induction false} ParsesInPrefix<Op>(a: seq<string>, b: seq<string>, i: nat, syntax: Syntax<Op>)
    requires i < |a|
    ensures ParsesUpTo(a + b, i, syntax) == ParsesUpTo(a, i, syntax)
  {
    hide HasChain, Classify, ParseSecRule;
    PreviousInPrefix(a, b, i, syntax.isSpace);
    if PreviousRule(a, i, syntax.isSpace).Some? {
      ParsesInPrefix(a, b, PreviousRule(a, i, syntax.isSpace).value, syntax);
    }
  }

  /** Behind `a`, the previous rule of a line is the one in its own part, or, before any
      rule and marker of that, the one that the end of `a` sees. */
  lemma {:induction false} PreviousInSuffix(a: seq<string>, b: seq<string>, i: nat, isSpace: char -> bool)
    requires i <= |b|
    ensures var p, q := PreviousRule(a + b, |a| + i, isSpace), PreviousRule(b, i, isSpace);
            && (q.Some? ==> p == Some(|a| + q.value))
            && (q.None? ==> p == None || p == PreviousRule(a, |a|, isSpace))
  {
    hide Classify;
    if i == 0 {
      PreviousInPrefix(a, b, |a|, isSpace);
    } else {
      assert (a + b)[|a| + i - 1] == b[i - 1];
      PreviousInSuffix(a, b, i - 1, isSpace);
    }
  }

  lemma {:induction false} ParsesInSuffix<Op>(a: seq<string>, b: seq<string>, i: nat, syntax: Syntax<Op>)
    requires i < |b| && !DropOpen(a, syntax)
    ensures ParsesUpTo(a + b, |a| + i, syntax) == ParsesUpTo(b, i, syntax)
  {
    hide HasChain, Classify, ParseSecRule;
    assert (a + b)[|a| + i] == b[i];
    PreviousInSuffix(a, b, i, syntax.isSpace);
    var p, q := PreviousRule(a + b, |a| + i, syntax.isSpace), PreviousRule(b, i, syntax.isSpace);
    if q.Some? {
      assert (a + b)[|a| + q.value] == b[q.value];
      ParsesInSuffix(a, b, q.value, syntax);
    } else if p.Some? {
      assert (a + b)[p.value] == a[p.value];
      ParsesInPrefix(a, b, p.value, syntax);
    }
  }

  lemma {:induction false} ItemsOfPrefix<Op>(a: seq<string>, b: seq<string>, n: nat, syntax: Syntax<Op>)
    requires n <= |a|
    ensures ItemsBefore(a + b, n, syntax) == ItemsBefore(a, n, syntax)
  {
    hide Classify, ParseSecRule, ParsesUpTo;
    if n > 0 {
      ParsesInPrefix(a, b, n - 1, syntax);
      ItemsOfPrefix(a, b, n - 1, syntax);
    }
  }

  lemma {:induction false} ItemsOfSuffix<Op>(a: seq<string>, b: seq<string>, n: nat, syntax: Syntax<Op>)
    requires n <= |b| && !DropOpen(a, syntax)
    ensures ItemsBefore(a + b, |a| + n, syntax) == ItemsBefore(a, |a|, syntax) + ItemsBefore(b, n, syntax)
  {
    hide *;
    if n == 0 {
      ItemsOfPrefix(a, b, |a|, syntax);
      NoItems(b, syntax);
    } else {
      ItemsOfSuffix(a, b, n - 1, syntax);
      ItemsAtSuffix(a, b, n - 1, syntax);
      LastItems(a + b, |a| + n, syntax);
      LastItems(b, n, syntax);
      Regrouped(ItemsBefore(a, |a|, syntax), ItemsBefore(b, n - 1, syntax), ItemsAt(b, n - 1, syntax));
    }
  }

  lemma NoItems<Op>(lines: seq<string>, syntax: Syntax<Op>)
    ensures ItemsBefore(lines, 0, syntax) == []
  {
  }

  lemma LastItems<Op>(lines: seq<string>, n: nat, syntax: Syntax<Op>)
    requires 0 < n <= |lines|
    ensures ItemsBefore(lines, n, syntax) == ItemsBefore(lines, n - 1, syntax) + ItemsAt(lines, n - 1, syntax)
  {
  }

  lemma Regrouped<T>(a: seq<T>, b: seq<T>, c: seq<T>)
    ensures (a + b) + c == a + (b + c)
  {
  }

  lemma ItemsAtSuffix<Op>(a: seq<string>, b: seq<string>, i: nat, syntax: Syntax<Op>)
    requires i < |b| && !DropOpen(a, syntax)
    ensures ItemsAt(a + b, |a| + i, syntax) == ItemsAt(b, i, syntax)
  {
    assert (a + b)[|a| + i] == b[i];
    ParsesInSuffix(a, b, i, syntax);
    hide Classify, ParseSecRule, ParsesUpTo, DropOpen;
  }

  /** Cutting a file where no dropped rule's chain is open cuts its items: the parts are
      parsed on their own. */
  lemma FileOfParts<Op>(a: seq<string>, b: seq<string>, syntax: Syntax<Op>)
    requires !DropOpen(a, syntax)
    ensures ItemsBefore(a + b, |a + b|, syntax) == ItemsBefore(a, |a|, syntax) + ItemsBefore(b, |b|, syntax)
  {
    ItemsOfSuffix(a, b, |b|, syntax);
  }

  /** A marker may always be cut behind, a line that is ignored wherever it may be cut in
      front, and a rule if it comes out or has no `chain`. */
  lemma DropOpenExactly<Op>(a: seq<string>, line: string, syntax: Syntax<Op>)
    ensures !DropOpen<Op>([], syntax)
    ensures DropOpen(a + [line], syntax) <==>
            match Classify(line, syntax.isSpace)
            case Ignored => DropOpen(a, syntax)
            case SecMarker(_) => false
            case SecRule(rest) =>
              HasChain(rest, syntax.isSpace) && (DropOpen(a, syntax) || ParseSecRule(rest, syntax).None?)
  {
    hide HasChain, Classify, ParseSecRule;
    var b := a + [line];
    PreviousInPrefix(a, [line], |a|, syntax.isSpace);
    var p := PreviousRule(a, |a|, syntax.isSpace);
    assert b[|a|] == line;
    if p.Some? {
      assert b[p.value] == a[p.value];
      ParsesInPrefix(a, [line], p.value, syntax);
    }
  }

  /** While a dropped rule's chain is open, the next rule contributes nothing. */
  lemma OpenDropTakes<Op>(a: seq<string>, line: string, syntax: Syntax<Op>)
    requires DropOpen(a, syntax) && Classify(line, syntax.isSpace).SecRule?
    ensures ItemsBefore(a + [line], |a| + 1, syntax) == ItemsBefore(a, |a|, syntax)
  {
    hide HasChain, Classify, ParseSecRule;
    var b := a + [line];
    PreviousInPrefix(a, [line], |a|, syntax.isSpace);
    var p := PreviousRule(a, |a|, syntax.isSpace).value;
    assert b[p] == a[p] && b[|a|] == line;
    ParsesInPrefix(a, [line], p, syntax);
    ItemsOfPrefix(a, [line], |a|, syntax);
  }
}
