/** What the answers of the priority-ordered engine say of the loaded rules and of the
    request: which rules take part, what condition trees mean, and what a leaf looks at
    (optimized_rule/mod.rs, optimized_rule/condition.rs). */
module LinearLaws {
  import opened Wrappers
  import opened Strings
  import opened LinearConditions
  import opened LinearLoader
  import opened LinearEvaluator

  // ----- the match -----

  /** A match carries the data of one of the loaded rules, and `system` for a source that
      was left out. */
  lemma AnswerCarriesRule(raw: seq<RuleRaw>, ctx: RequestContext, skip: seq<string>, lib: Lib, m: RuleMatch)
    requires IsAnswer(raw, ctx, skip, lib, Some(m))
    ensures exists r <- raw ::
              && m.ruleId == r.id && m.description == r.description && m.action == r.action
              && m.riskScoreDelta == r.riskScoreDelta
              && (r.source == Some(m.source) || (r.source == None && m.source == "system"))
              && m.action != Log && m.ruleId !in skip
  {
    var r :| Wins(r, raw, ctx, skip, lib) && m == RawMatch(r);
    hide NaiveEval;
    assert r in raw;
  }

  // ----- which rules take part -----

  /** The rule may answer this request, if its condition holds. */
  predicate Live(r: RuleRaw, ctx: RequestContext, skip: seq<string>, lib: Lib) {
    && r.enabled && r.id !in skip && r.action != Log
    && (r.tier.Some? ==>
          lib.toLowercase(r.tier.value) == "global" || lib.toLowercase(r.tier.value) == lib.toLowercase(ctx.tierKey))
  }

  /** The rules for which `keep` holds, in order. */
  function Kept(raw: seq<RuleRaw>, keep: RuleRaw -> bool): seq<RuleRaw> {
    if raw == [] then []
    else Kept(raw[..|raw| - 1], keep) + (if keep(raw[|raw| - 1]) then [raw[|raw| - 1]] else [])
  }

  lemma {:induction false} KeptMembers(raw: seq<RuleRaw>, keep: RuleRaw -> bool)
    ensures forall r :: r in Kept(raw, keep) <==> r in raw && keep(r)
  {
    if raw != [] {
      KeptMembers(raw[..|raw| - 1], keep);
      assert raw == raw[..|raw| - 1] + [raw[|raw| - 1]];
    }
  }

  /** Disabled rules, skipped rules, rules of another tier and rules that only log are as
      good as absent. */
  lemma OnlyLiveRulesAnswer(raw: seq<RuleRaw>, ctx: RequestContext, skip: seq<string>, lib: Lib, m: Option<RuleMatch>)
    ensures IsAnswer(raw, ctx, skip, lib, m) <==>
            IsAnswer(Kept(raw, r => Live(r, ctx, skip, lib)), ctx, skip, lib, m)
  {
    var live := Kept(raw, r => Live(r, ctx, skip, lib));
    KeptMembers(raw, r => Live(r, ctx, skip, lib));
    hide NaiveEval, RawMatch, Kept;
    assert forall r :: RawAnswers(r, ctx, skip, lib) ==> Live(r, ctx, skip, lib);
    assert forall r :: Wins(r, raw, ctx, skip, lib) <==> Wins(r, live, ctx, skip, lib);
  }

  /** A live rule of smallest priority of all answers with its own match whenever its
      condition matches. */
  lemma LeastLiveRuleAnswers(raw: seq<RuleRaw>, r: RuleRaw, ctx: RequestContext, skip: seq<string>, lib: Lib,
                             m: Option<RuleMatch>)
    requires r in raw && Live(r, ctx, skip, lib)
    requires forall q <- raw :: q != r ==> q.priority > r.priority
    requires IsAnswer(raw, ctx, skip, lib, m)
    ensures Matches(r, r.condition, ctx, skip, lib) ==> m == Some(RawMatch(r))
  {
    hide NaiveEval, RawMatch;
    if Matches(r, r.condition, ctx, skip, lib) {
      assert r.(condition := r.condition) == r;
      assert Wins(r, [r], ctx, skip, lib) by { MatchesExactly(r, r.condition, ctx, skip, lib); }
      assert RawAnswers(r, ctx, skip, lib);
    }
  }

  // ----- condition trees -----

  /** The rule, loaded alone with this condition, answers the request. */
  ghost predicate Matches(r: RuleRaw, c: ConditionNode, ctx: RequestContext, skip: seq<string>, lib: Lib) {
    exists m :: IsAnswer([r.(condition := c)], ctx, skip, lib, Some(m))
  }

  /** A rule alone that answers gives its own match. */
  lemma MatchesExactly(r: RuleRaw, c: ConditionNode, ctx: RequestContext, skip: seq<string>, lib: Lib)
    ensures Matches(r, c, ctx, skip, lib) <==> Live(r, ctx, skip, lib) && NaiveEval(c, ctx, lib)
    ensures Matches(r, c, ctx, skip, lib) <==> IsAnswer([r.(condition := c)], ctx, skip, lib, Some(RawMatch(r)))
    ensures Matches(r, c, ctx, skip, lib) <==> !IsAnswer([r.(condition := c)], ctx, skip, lib, None)
  {
    hide NaiveEval;
    var q := r.(condition := c);
    assert RawAnswers(q, ctx, skip, lib) <==> Live(r, ctx, skip, lib) && NaiveEval(c, ctx, lib);
    assert RawMatch(q) == RawMatch(r);
    assert q in [q];
    if RawAnswers(q, ctx, skip, lib) {
      assert Wins(q, [q], ctx, skip, lib);
      assert IsAnswer([q], ctx, skip, lib, Some(RawMatch(r)));
    }
  }

  /** A rule with a conjunction matches exactly when it matches with every part, and with a
      disjunction exactly when it does with some part. */
  lemma TreesMean(r: RuleRaw, parts: seq<ConditionNode>, ctx: RequestContext, skip: seq<string>, lib: Lib)
    requires Live(r, ctx, skip, lib)
    ensures Matches(r, ConditionNode.And(parts), ctx, skip, lib) <==> forall p <- parts :: Matches(r, p, ctx, skip, lib)
    ensures Matches(r, ConditionNode.Or(parts), ctx, skip, lib) <==> exists p <- parts :: Matches(r, p, ctx, skip, lib)
  {
    MatchesExactly(r, ConditionNode.And(parts), ctx, skip, lib);
    MatchesExactly(r, ConditionNode.Or(parts), ctx, skip, lib);
    forall p <- parts
      ensures Matches(r, p, ctx, skip, lib) == NaiveEval(p, ctx, lib)
    {
      MatchesExactly(r, p, ctx, skip, lib);
    }
    hide Matches;
  }

  /** The empty conjunction always matches, the empty disjunction never does. */
  lemma EmptyTrees(r: RuleRaw, ctx: RequestContext, skip: seq<string>, lib: Lib)
    requires Live(r, ctx, skip, lib)
    ensures Matches(r, ConditionNode.And([]), ctx, skip, lib) && !Matches(r, ConditionNode.Or([]), ctx, skip, lib)
  {
    hide Matches;
    TreesMean(r, [], ctx, skip, lib);
  }

  function Negated(leaf: ConditionLeaf): ConditionLeaf { leaf.(negate := !leaf.negate) }

  /** A negated leaf matches exactly when the leaf does not. */
  lemma NegationMeans(r: RuleRaw, leaf: ConditionLeaf, ctx: RequestContext, skip: seq<string>, lib: Lib)
    requires Live(r, ctx, skip, lib)
    ensures Matches(r, Leaf(Negated(leaf)), ctx, skip, lib) <==> !Matches(r, Leaf(leaf), ctx, skip, lib)
  {
    MatchesExactly(r, Leaf(leaf), ctx, skip, lib);
    MatchesExactly(r, Leaf(Negated(leaf)), ctx, skip, lib);
    SameComparison(leaf, Negated(leaf), lib);
    hide Matches, MatchValue, Live;
    assert NaiveEval(Leaf(leaf), ctx, lib) == EvalLeaf(leaf, ctx, lib, Recompiling(lib));
    assert NaiveEval(Leaf(Negated(leaf)), ctx, lib) == EvalLeaf(Negated(leaf), ctx, lib, Recompiling(lib));
  }

  /** Comparing with a text looks at the kind of match, the value and the case rule only. */
  lemma SameComparison(a: ConditionLeaf, b: ConditionLeaf, lib: Lib)
    requires a.matchType == b.matchType && a.value == b.value && a.caseSensitive == b.caseSensitive
    ensures forall text :: MatchValue(text, a, lib, Recompiling(lib)) == MatchValue(text, b, lib, Recompiling(lib))
  {
    forall text
      ensures MatchValue(text, a, lib, Recompiling(lib)) == MatchValue(text, b, lib, Recompiling(lib))
    {
      if a.matchType.Regex? {
        RegexComparison(text, a, lib);
        RegexComparison(text, b, lib);
      }
      hide Recompiling;
    }
  }

  lemma RegexComparison(text: string, leaf: ConditionLeaf, lib: Lib)
    requires leaf.matchType.Regex?
    ensures MatchValue(text, leaf, lib, Recompiling(lib)) <==>
            lib.validRegex(Pattern(leaf)) && lib.isMatch(Pattern(leaf), text)
  {
  }

  function Leaves(leaves: seq<ConditionLeaf>): (ns: seq<ConditionNode>)
    ensures |ns| == |leaves|
    ensures forall i | 0 <= i < |leaves| :: ns[i] == Leaf(leaves[i])
  {
    seq(|leaves|, i requires 0 <= i < |leaves| => Leaf(leaves[i]))
  }

  function AllNegated(leaves: seq<ConditionLeaf>): (ns: seq<ConditionLeaf>)
    ensures |ns| == |leaves|
    ensures forall i | 0 <= i < |leaves| :: ns[i] == Negated(leaves[i])
  {
    seq(|leaves|, i requires 0 <= i < |leaves| => Negated(leaves[i]))
  }

  /** De Morgan's laws. */
  lemma DeMorgan(r: RuleRaw, leaves: seq<ConditionLeaf>, ctx: RequestContext, skip: seq<string>, lib: Lib)
    requires Live(r, ctx, skip, lib)
    ensures Matches(r, ConditionNode.Or(Leaves(AllNegated(leaves))), ctx, skip, lib)
            <==> !Matches(r, ConditionNode.And(Leaves(leaves)), ctx, skip, lib)
    ensures Matches(r, ConditionNode.And(Leaves(AllNegated(leaves))), ctx, skip, lib)
            <==> !Matches(r, ConditionNode.Or(Leaves(leaves)), ctx, skip, lib)
  {
    hide Matches, Negated, Live;
    var ps, ns := Leaves(leaves), Leaves(AllNegated(leaves));
    TreesMean(r, ps, ctx, skip, lib);
    TreesMean(r, ns, ctx, skip, lib);
    forall i | 0 <= i < |leaves|
      ensures Matches(r, ns[i], ctx, skip, lib) <==> !Matches(r, ps[i], ctx, skip, lib)
    {
      NegationMeans(r, leaves[i], ctx, skip, lib);
    }
    assert forall i | 0 <= i < |leaves| :: ps[i] in ps && ns[i] in ns;
    assert forall p <- ps :: exists i | 0 <= i < |leaves| :: ps[i] == p;
    assert forall n <- ns :: exists i | 0 <= i < |leaves| :: ns[i] == n;
  }

  // ----- leaves -----

  /** The rule with this leaf matches requests whose text is `text`, stated for each way of
      comparing. */
  ghost predicate ComparesWith(matched: bool, text: string, leaf: ConditionLeaf, lib: Lib) {
    && (leaf.matchType.Exact? && leaf.caseSensitive ==> (matched <==> text == leaf.value))
    && (leaf.matchType.Exact? && !leaf.caseSensitive ==>
          (matched <==> |text| == |leaf.value| && forall i | 0 <= i < |text| :: SameLetter(text[i], leaf.value[i])))
    && (leaf.matchType.Wildcard? ==> (matched <==> lib.globMatch(leaf.value, !leaf.caseSensitive, text)))
    && (leaf.matchType.Cidr? ==> (matched <==> lib.cidrContains(leaf.value, text)))
    && (leaf.matchType.Presence? ==> (matched <==> |text| > 0))
    && (leaf.matchType.Absence? ==> (matched <==> |text| == 0))
    && (leaf.matchType.Regex? && (leaf.caseSensitive || "(?i)" <= leaf.value) ==>
          (matched <==> lib.validRegex(leaf.value) && lib.isMatch(leaf.value, text)))
    && (leaf.matchType.Regex? && !leaf.caseSensitive && !("(?i)" <= leaf.value) ==>
          (matched <==> lib.validRegex("(?i)" + leaf.value) && lib.isMatch("(?i)" + leaf.value, text)))
  }

  /** Equal, or the two cases of one ASCII letter. */
  predicate SameLetter(c: char, d: char) {
    || c == d
    || ('a' <= c <= 'z' && d as int == c as int - 32)
    || ('A' <= c <= 'Z' && d as int == c as int + 32)
  }

  lemma Comparing(text: string, leaf: ConditionLeaf, lib: Lib)
    ensures ComparesWith(MatchValue(text, leaf, lib, Recompiling(lib)), text, leaf, lib)
  {
    if leaf.matchType.Regex? { RegexComparison(text, leaf, lib); }
    IgnoringCase(text, leaf.value);
    hide Recompiling, EqIgnoreAsciiCase, SameLetter;
  }

  lemma IgnoringCase(s: string, t: string)
    ensures EqIgnoreAsciiCase(s, t) <==> |s| == |t| && forall i | 0 <= i < |s| :: SameLetter(s[i], t[i])
  {
    forall c, d
      ensures ToAsciiLower(c) == ToAsciiLower(d) <==> SameLetter(c, d)
    {
    }
    hide ToAsciiLower, SameLetter;
  }

  /** Which text of the request a leaf compares, field by field; a missing header, cookie or
      content type is the empty text, and a payload that is not UTF-8 is present but compares
      as the empty text. */
  lemma LeafLooksAt(r: RuleRaw, leaf: ConditionLeaf, ctx: RequestContext, skip: seq<string>, lib: Lib)
    requires Live(r, ctx, skip, lib) && !leaf.negate
    ensures var matched := Matches(r, Leaf(leaf), ctx, skip, lib);
            && (leaf.field.Ip? ==> ComparesWith(matched, ctx.ip, leaf, lib))
            && (leaf.field.Path? ==> ComparesWith(matched, ctx.path, leaf, lib))
            && (leaf.field.Method? ==> ComparesWith(matched, ctx.method_, leaf, lib))
            && (leaf.field.SessionId? ==> ComparesWith(matched, ctx.sessionId, leaf, lib))
            && (leaf.field.DeviceFp? ==> ComparesWith(matched, ctx.deviceFp, leaf, lib))
            && (leaf.field.ContentType? && ctx.contentType.Some? ==> ComparesWith(matched, ctx.contentType.value, leaf, lib))
            && (leaf.field.ContentType? && ctx.contentType.None? ==> ComparesWith(matched, "", leaf, lib))
  {
    MatchesExactly(r, Leaf(leaf), ctx, skip, lib);
    var matched := Matches(r, Leaf(leaf), ctx, skip, lib);
    hide Matches, Live, ComparesWith, MatchValue;
    assert matched == EvalLeaf(leaf, ctx, lib, Recompiling(lib));
    forall text
      ensures ComparesWith(MatchValue(text, leaf, lib, Recompiling(lib)), text, leaf, lib)
    {
      Comparing(text, leaf, lib);
    }
  }

  lemma LeafLooksInside(r: RuleRaw, leaf: ConditionLeaf, ctx: RequestContext, skip: seq<string>, lib: Lib)
    requires Live(r, ctx, skip, lib) && !leaf.negate
    ensures var matched := Matches(r, Leaf(leaf), ctx, skip, lib);
            && (leaf.field.Header? && leaf.headerName.Some? && ctx.headers(leaf.headerName.value).Some? ==>
                  ComparesWith(matched, ctx.headers(leaf.headerName.value).value, leaf, lib))
            && (leaf.field.Header? && leaf.headerName.Some? && ctx.headers(leaf.headerName.value).None? ==>
                  ComparesWith(matched, "", leaf, lib))
            && (leaf.field.Cookie? && leaf.cookieName.Some? && leaf.cookieName.value in ctx.cookies ==>
                  ComparesWith(matched, ctx.cookies[leaf.cookieName.value], leaf, lib))
            && (leaf.field.Cookie? && leaf.cookieName.Some? && leaf.cookieName.value !in ctx.cookies ==>
                  ComparesWith(matched, "", leaf, lib))
            && (leaf.field.Payload? && leaf.matchType.Presence? ==> (matched <==> |ctx.payload| > 0))
            && (leaf.field.Payload? && leaf.matchType.Absence? ==> (matched <==> |ctx.payload| == 0))
            && (leaf.field.Payload? && !leaf.matchType.Presence? && !leaf.matchType.Absence? ==>
                  ComparesWith(matched, ctx.payloadText, leaf, lib))
  {
    MatchesExactly(r, Leaf(leaf), ctx, skip, lib);
    var matched := Matches(r, Leaf(leaf), ctx, skip, lib);
    hide Matches, Live, ComparesWith, MatchValue;
    assert matched == EvalLeaf(leaf, ctx, lib, Recompiling(lib));
    forall text
      ensures ComparesWith(MatchValue(text, leaf, lib, Recompiling(lib)), text, leaf, lib)
    {
      Comparing(text, leaf, lib);
    }
  }

  /** A header or cookie leaf without a name asks for the one with the empty name. */
  lemma NamelessLeaf(r: RuleRaw, leaf: ConditionLeaf, ctx: RequestContext, skip: seq<string>, lib: Lib)
    ensures leaf.field.Header? && leaf.headerName.None? ==>
              Matches(r, Leaf(leaf), ctx, skip, lib) == Matches(r, Leaf(leaf.(headerName := Some(""))), ctx, skip, lib)
    ensures leaf.field.Cookie? && leaf.cookieName.None? ==>
              Matches(r, Leaf(leaf), ctx, skip, lib) == Matches(r, Leaf(leaf.(cookieName := Some(""))), ctx, skip, lib)
  {
    MatchesExactly(r, Leaf(leaf), ctx, skip, lib);
    MatchesExactly(r, Leaf(leaf.(headerName := Some(""))), ctx, skip, lib);
    MatchesExactly(r, Leaf(leaf.(cookieName := Some(""))), ctx, skip, lib);
    var h, c := leaf.(headerName := Some("")), leaf.(cookieName := Some(""));
    hide Matches, Live;
    SameComparison(h, leaf, lib);
    SameComparison(c, leaf, lib);
    hide MatchValue;
    assert NaiveEval(Leaf(leaf), ctx, lib) == EvalLeaf(leaf, ctx, lib, Recompiling(lib));
    assert NaiveEval(Leaf(h), ctx, lib) == EvalLeaf(h, ctx, lib, Recompiling(lib));
    assert NaiveEval(Leaf(c), ctx, lib) == EvalLeaf(c, ctx, lib, Recompiling(lib));
  }

  /** A regex leaf that ignores case is decided as the same leaf with `(?i)` written out. */
  lemma IgnoringCaseWrittenOut(r: RuleRaw, leaf: ConditionLeaf, ctx: RequestContext, skip: seq<string>, lib: Lib)
    requires leaf.matchType.Regex? && !leaf.caseSensitive && !("(?i)" <= leaf.value)
    ensures Matches(r, Leaf(leaf), ctx, skip, lib)
            <==> Matches(r, Leaf(leaf.(value := "(?i)" + leaf.value, caseSensitive := true)), ctx, skip, lib)
  {
    MatchesExactly(r, Leaf(leaf), ctx, skip, lib);
    var written := leaf.(value := "(?i)" + leaf.value, caseSensitive := true);
    MatchesExactly(r, Leaf(written), ctx, skip, lib);
    hide Matches, Live;
    forall text
      ensures MatchValue(text, written, lib, Recompiling(lib)) == MatchValue(text, leaf, lib, Recompiling(lib))
    {
      RegexComparison(text, leaf, lib);
      RegexComparison(text, written, lib);
    }
    hide MatchValue;
    assert NaiveEval(Leaf(leaf), ctx, lib) == EvalLeaf(leaf, ctx, lib, Recompiling(lib));
    assert NaiveEval(Leaf(written), ctx, lib) == EvalLeaf(written, ctx, lib, Recompiling(lib));
  }

  // ----- end to end -----

  /** Load rules and answer one request. */
  method LoadAndEvaluate(raw: seq<RuleRaw>, ctx: RequestContext, skip: seq<string>, lib: Lib)
    returns (loaded: bool, m: Option<RuleMatch>)
    ensures loaded == Acceptable(raw, lib)
    ensures loaded ==> IsAnswer(raw, ctx, skip, lib, m)
    ensures loaded && |raw| == 1 ==> (m.Some? <==> Matches(raw[0], raw[0].condition, ctx, skip, lib))
  {
    var set_, keys := Compile(raw, lib);
    loaded, m := set_.Success?, None;
    if set_.Success? {
      var evaluator := new RuleEvaluator(set_.value);
      m := evaluator.Evaluate(ctx, skip, lib, raw, keys);
      if |raw| == 1 {
        assert raw == [raw[0]] && raw[0].(condition := raw[0].condition) == raw[0];
        MatchesExactly(raw[0], raw[0].condition, ctx, skip, lib);
      }
    }
  }
}
