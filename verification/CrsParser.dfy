/** The rule-file parser (crs/parser.rs): the tokeniser of a rule line, and the line-level
    state machine that drops the members of chains whose earlier lines it could not parse. */
module CrsParser {
  import opened Wrappers
  import opened Strings

  /** The parser of a rule's operator, and the table of white space. */
  datatype Syntax<!Op> = Syntax(parseOperator: string -> Option<Op>, isSpace: char -> bool)

  /** A parsed rule; its targets and actions are read further, but never rejected. */
  datatype Rule<Op> = Rule(targets: string, operator: Op, actions: string)

  datatype Item<Op> = RuleItem(rule: Rule<Op>) | Marker(name: string)

  /** What a logical line is to the state machine. */
  datatype Line = Ignored | SecRule(rest: string) | SecMarker(name: string)

  function Classify(line: string, isSpace: char -> bool): Line {
    var t := Trim(line, isSpace);
    if t == "" || t[0] == '#' then Ignored
    else if "SecRule" <= t && |t| > 7 && isSpace(t[7]) then SecRule(TrimStart(t[7..], isSpace))
    else if "SecMarker" <= t then
      SecMarker(Trim(Trim(Trim(t[9..], isSpace), c => c == '\"'), isSpace))
    else Ignored
  }

  // ----- the tokeniser -----

  /** The position of the first white space. */
  function FirstSpace(s: string, isSpace: char -> bool): (i: Option<nat>)
    ensures i.Some? ==> i.value < |s| && isSpace(s[i.value]) && forall c <- s[..i.value] :: !isSpace(c)
    ensures i.None? ==> forall c <- s :: !isSpace(c)
  {
    if s == "" then None
    else if isSpace(s[0]) then Some(0)
    else
      match FirstSpace(s[1..], isSpace)
      case Some(n) =>
        assert s[..n + 1] == [s[0]] + s[1..][..n];
        Some(n + 1)
      case None => None
  }

  /** The position of the first double quote that no backslash escapes, when the character
      before `s` was an escaping backslash or not. */
  function QuoteEnd(s: string, escaped: bool): (i: Option<nat>)
    ensures i.Some? ==> i.value < |s| && s[i.value] == '\"'
  {
    if s == "" then None
    else if s[0] == '\"' && !escaped then Some(0)
    else
      match QuoteEnd(s[1..], s[0] == '\\' && !escaped)
      case Some(n) => Some(n + 1)
      case None => None
  }

  /** A quoted text at the front, white space aside, and what follows its closing quote. */
  function Quoted(s: string, isSpace: char -> bool): Option<(string, string)> {
    var t := TrimStart(s, isSpace);
    if t == "" || t[0] != '\"' then None
    else
      match QuoteEnd(t[1..], false)
      case Some(i) => Some((t[1..][..i], t[1..][i + 1..]))
      case None => None
  }

  method ParseDquoted(s: string, isSpace: char -> bool) returns (r: Option<(string, string)>)
    ensures r == Quoted(s, isSpace)
  {
    var t := TrimStart(s, isSpace);
    if t == "" || t[0] != '\"' { return None; }
    var inner := t[1..];
    var prevBs := false;
    for i := 0 to |inner|
      invariant QuoteEnd(inner, false) ==
                  match QuoteEnd(inner[i..], prevBs)
                  case Some(n) => Some(i + n)
                  case None => None
    {
      assert inner[i..][1..] == inner[i + 1..];
      if inner[i] == '\"' && !prevBs { return Some((inner[..i], inner[i + 1..])); }
      prevBs := inner[i] == '\\' && !prevBs;
    }
    return None;
  }

  /** The three fields of a rule, and what follows them. */
  datatype Fields = Fields(targets: string, operator: string, actions: string, after: string)

  function FieldsOf(rest: string, isSpace: char -> bool): Option<Fields> {
    match FirstSpace(rest, isSpace)
    case None => None
    case Some(end) =>
      match Quoted(TrimStart(rest[end..], isSpace), isSpace)
      case None => None
      case Some((operator, rest1)) =>
        match Quoted(TrimStart(rest1, isSpace), isSpace)
        case None => None
        case Some((actions, after)) => Some(Fields(rest[..end], operator, actions, after))
  }

  function ParseSecRule<Op>(rest: string, syntax: Syntax<Op>): Option<Rule<Op>> {
    match FieldsOf(rest, syntax.isSpace)
    case None => None
    case Some(f) =>
      match syntax.parseOperator(Trim(f.operator, syntax.isSpace))
      case None => None
      case Some(operator) => Some(Rule(f.targets, operator, f.actions))
  }

  // ----- the chain action -----

  /** The position of the last `c`. */
  function FindLast(s: string, c: char): (i: Option<nat>)
    ensures i.Some? ==> i.value < |s| && s[i.value] == c && c !in s[i.value + 1..]
    ensures i.None? ==> c !in s
  {
    if s == "" then None
    else if s[|s| - 1] == c then Some(|s| - 1)
    else
      match FindLast(s[..|s| - 1], c)
      case Some(k) =>
        assert s[k + 1..] == s[..|s| - 1][k + 1..] + [s[|s| - 1]];
        Some(k)
      case None => None
  }

  predicate IsChainWord(token: string, isSpace: char -> bool) {
    EqIgnoreAsciiCase(Trim(token, isSpace), "chain")
  }

  /** Some comma-separated token of `actions` is `chain`. */
  predicate AnyChainToken(actions: string, isSpace: char -> bool) {
    exists token <- SplitOn(actions, ',') :: IsChainWord(token, isSpace)
  }

  /** Does the text between the last two double quotes list a `chain` action? */
  predicate HasChain(rest: string, isSpace: char -> bool) {
    match FindLast(rest, '\"')
    case None => false
    case Some(last) =>
      match FindLast(rest[..last], '\"')
      case None => false
      case Some(open) => AnyChainToken(rest[open + 1..last], isSpace)
  }

  lemma {:induction false} FindLastUnique(a: string, c: char, b: string)
    requires c !in b
    ensures FindLast(a + [c] + b, c) == Some(|a|)
  {
    var s := a + [c] + b;
    if b != "" {
      FindLastUnique(a, c, b[..|b| - 1]);
      assert s[..|s| - 1] == a + [c] + b[..|b| - 1];
      assert s[|s| - 1] == b[|b| - 1] && b[|b| - 1] in b;
    }
  }

  /** The actions looked at are the last quoted text of the line. */
  lemma HasChainReadsLastQuoted(before: string, actions: string, after: string, isSpace: char -> bool)
    requires '\"' !in actions && '\"' !in after
    ensures HasChain(before + "\"" + actions + "\"" + after, isSpace) == AnyChainToken(actions, isSpace)
  {
    var rest := before + "\"" + actions + "\"" + after;
    var open := before + "\"" + actions;
    hide FindLast;
    assert rest == open + ['\"'] + after;
    FindLastUnique(open, '\"', after);
    assert rest[..|open|] == before + ['\"'] + actions;
    FindLastUnique(before, '\"', actions);
    assert rest[|before| + 1..|open|] == actions;
  }

  // ----- chains, as the parser's test sees them -----

  function LineAt(lines: seq<string>, i: nat, isSpace: char -> bool): Line
    requires i < |lines|
  {
    Classify(lines[i], isSpace)
  }

  /** The nearest rule before position `i` with no marker in between. */
  function PreviousRule(lines: seq<string>, i: nat, isSpace: char -> bool): (j: Option<nat>)
    requires i <= |lines|
    ensures j.Some? ==> j.value < i && LineAt(lines, j.value, isSpace).SecRule?
  {
    if i == 0 then None
    else
      match LineAt(lines, i - 1, isSpace)
      case SecRule(_) => Some(i - 1)
      case SecMarker(_) => None
      case Ignored => PreviousRule(lines, i - 1, isSpace)
  }

  /** A rule at position `i` would continue the chain of the rule at `PreviousRule`. */
  predicate Continues(lines: seq<string>, i: nat, isSpace: char -> bool)
    requires i <= |lines|
  {
    match PreviousRule(lines, i, isSpace)
    case None => false
    case Some(j) => HasChain(LineAt(lines, j, isSpace).rest, isSpace)
  }

  predicate Parses<Op>(lines: seq<string>, i: nat, syntax: Syntax<Op>)
    requires i < |lines|
  {
    var line := LineAt(lines, i, syntax.isSpace);
    line.SecRule? && ParseSecRule(line.rest, syntax).Some?
  }

  /** The rule at `i` and all rules before it in its chain parse. */
  predicate ParsesUpTo<Op>(lines: seq<string>, i: nat, syntax: Syntax<Op>)
    requires i < |lines|
  {
    && Parses(lines, i, syntax)
    && (Continues(lines, i, syntax.isSpace) ==>
          ParsesUpTo(lines, PreviousRule(lines, i, syntax.isSpace).value, syntax))
  }

  /** What the line at `i` contributes to the parsed file. */
  function ItemsAt<Op>(lines: seq<string>, i: nat, syntax: Syntax<Op>): seq<Item<Op>>
    requires i < |lines|
  {
    match LineAt(lines, i, syntax.isSpace)
    case Ignored => []
    case SecMarker(name) => if name == "" then [] else [Marker(name)]
    case SecRule(rest) => if ParsesUpTo(lines, i, syntax) then [RuleItem(ParseSecRule(rest, syntax).value)] else []
  }

  function ItemsBefore<Op>(lines: seq<string>, n: nat, syntax: Syntax<Op>): seq<Item<Op>>
    requires n <= |lines|
  {
    if n == 0 then [] else ItemsBefore(lines, n - 1, syntax) + ItemsAt(lines, n - 1, syntax)
  }

  // ----- the parser -----

  /** The parsed file lists, in order, the named markers and exactly those rules that
      parse along with every earlier rule of their chain. */
  method ParseConf<Op>(lines: seq<string>, syntax: Syntax<Op>) returns (items: seq<Item<Op>>)
    ensures items == ItemsBefore(lines, |lines|, syntax)
  {
    hide HasChain, Classify;
    items := [];
    var skipChainMembers: nat := 0;
    for i := 0 to |lines|
      invariant items == ItemsBefore(lines, i, syntax)
      invariant skipChainMembers <= 1
      invariant skipChainMembers == 1 <==>
                  && Continues(lines, i, syntax.isSpace)
                  && !ParsesUpTo(lines, PreviousRule(lines, i, syntax.isSpace).value, syntax)
    {
      match LineAt(lines, i, syntax.isSpace) {
        case Ignored =>
        case SecRule(rest) =>
          if skipChainMembers > 0 {
            var chainsFurther := HasChain(rest, syntax.isSpace);
            skipChainMembers := skipChainMembers - 1;
            if chainsFurther { skipChainMembers := skipChainMembers + 1; }
            continue;
          }
          match ParseSecRule(rest, syntax) {
            case Some(rule) =>
              items := items + [RuleItem(rule)];
            case None =>
              if HasChain(rest, syntax.isSpace) { skipChainMembers := 1; }
          }
        case SecMarker(name) =>
          skipChainMembers := 0;
          if name != "" { items := items + [Marker(name)]; }
      }
    }
  }

  // ----- chains are kept up to their first unparsable line -----

  predicate Emitted<Op>(lines: seq<string>, i: nat, syntax: Syntax<Op>)
    requires i < |lines|
  {
    LineAt(lines, i, syntax.isSpace).SecRule? && ItemsAt(lines, i, syntax) != []
  }

  /** A rule that continues a chain, as the parser's test sees it, never comes out without
      the rule it continues. */
  lemma NoOrphans<Op>(lines: seq<string>, i: nat, syntax: Syntax<Op>)
    requires i < |lines| && Emitted(lines, i, syntax) && Continues(lines, i, syntax.isSpace)
    ensures Emitted(lines, PreviousRule(lines, i, syntax.isSpace).value, syntax)
  {
  }

  /** Positions of consecutive rules of one chain, from its head. */
  ghost predicate IsChain(lines: seq<string>, chain: seq<nat>, isSpace: char -> bool) {
    && chain != []
    && (forall k | 0 <= k < |chain| :: chain[k] < |lines| && LineAt(lines, chain[k], isSpace).SecRule?)
    && !Continues(lines, chain[0], isSpace)
    && (forall k | 0 < k < |chain| ::
          && Continues(lines, chain[k], isSpace)
          && PreviousRule(lines, chain[k], isSpace) == Some(chain[k - 1]))
  }

  /** Of every chain, the lines before the first that does not parse come out. */
  lemma {:induction false} LongestParsingPrefix<Op>(lines: seq<string>, chain: seq<nat>, k: nat, syntax: Syntax<Op>)
    requires IsChain(lines, chain, syntax.isSpace) && k < |chain|
    ensures Emitted(lines, chain[k], syntax) <==> forall m | 0 <= m <= k :: Parses(lines, chain[m], syntax)
  {
    hide HasChain, Classify;
    if k > 0 {
      LongestParsingPrefix(lines, chain, k - 1, syntax);
    }
  }

  /** A chain comes out whole or not at all exactly when its head does not parse or all
      of its lines do. */
  lemma WholeOrNothing<Op>(lines: seq<string>, chain: seq<nat>, syntax: Syntax<Op>)
    requires IsChain(lines, chain, syntax.isSpace)
    ensures (|| (forall k | 0 <= k < |chain| :: Emitted(lines, chain[k], syntax))
             || (forall k | 0 <= k < |chain| :: !Emitted(lines, chain[k], syntax)))
            <==>
            (Parses(lines, chain[0], syntax) ==> forall k | 0 <= k < |chain| :: Parses(lines, chain[k], syntax))
  {
    forall k | 0 <= k < |chain|
      ensures Emitted(lines, chain[k], syntax) <==> forall m | 0 <= m <= k :: Parses(lines, chain[m], syntax)
    {
      LongestParsingPrefix(lines, chain, k, syntax);
    }
    assert Emitted(lines, chain[0], syntax) <==> Parses(lines, chain[0], syntax);
  }
}
