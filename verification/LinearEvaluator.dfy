/** First match by priority, over the compiled rules with the regex cache
    (optimized_rule/mod.rs) and over the rules as loaded, recompiling every regex
    (rule/mod.rs). */
module LinearEvaluator {
  import opened Wrappers
  import opened LinearConditions
  import opened LinearLoader
  import opened StableSort

  datatype RuleMatch = RuleMatch(
    ruleId: string, description: string, action: Action, riskScoreDelta: int, source: string)

  function MatchOf(r: Rule): RuleMatch {
    RuleMatch(r.id, r.description, r.action, r.riskScoreDelta, r.source)
  }

  predicate TierApplies(tier: Option<string>, ctx: RequestContext, lib: Lib) {
    match tier
    case None => true
    case Some(t) => lib.toLowercase(t) == "global" || lib.toLowercase(t) == lib.toLowercase(ctx.tierKey)
  }

  /** The rule answers the request: enabled, not skipped, of the request's tier, not a
      log rule, and its condition holds. */
  predicate Answers(r: Rule, ctx: RequestContext, skip: seq<string>, lib: Lib, regex: RegexTest) {
    && r.enabled && r.id !in skip && TierApplies(r.tier, ctx, lib)
    && EvalNode(r.condition, ctx, lib, regex)
    && r.action != Log
  }

  /** `m` is the match of the first rule that answers. */
  ghost predicate IsFirstMatch(rules: seq<Rule>, ctx: RequestContext, skip: seq<string>, lib: Lib, regex: RegexTest,
                               m: Option<RuleMatch>) {
    match m
    case None => forall r <- rules :: !Answers(r, ctx, skip, lib, regex)
    case Some(found) =>
      exists i | 0 <= i < |rules| ::
        && Answers(rules[i], ctx, skip, lib, regex)
        && (forall j | 0 <= j < i :: !Answers(rules[j], ctx, skip, lib, regex))
        && found == MatchOf(rules[i])
  }

  method FirstMatch(rules: seq<Rule>, ctx: RequestContext, skip: seq<string>, lib: Lib, regex: RegexTest)
    returns (m: Option<RuleMatch>)
    ensures IsFirstMatch(rules, ctx, skip, lib, regex, m)
  {
    for i := 0 to |rules|
      invariant forall j | 0 <= j < i :: !Answers(rules[j], ctx, skip, lib, regex)
    {
      var rule := rules[i];
      if !rule.enabled { continue; }
      if rule.id in skip { continue; }
      if !TierApplies(rule.tier, ctx, lib) { continue; }
      if EvalNode(rule.condition, ctx, lib, regex) {
        var matched := MatchOf(rule);
        if rule.action == Log { continue; }
        return Some(matched);
      }
    }
    return None;
  }

  /** The evaluator, whose rule set a reload replaces as a whole. */
  class RuleEvaluator {
    var ruleset: RuleSet

    constructor (ruleset: RuleSet)
      ensures this.ruleset == ruleset
    {
      this.ruleset := ruleset;
    }

    method UpdateRuleset(next: RuleSet)
      modifies this
      ensures ruleset == next
    {
      ruleset := next;
    }

    /** On a compiled rule set the answer is one for the rules as loaded. */
    method Evaluate(ctx: RequestContext, skip: seq<string>, lib: Lib,
                    ghost raw: seq<RuleRaw>, ghost keys: map<string, string>)
      returns (m: Option<RuleMatch>)
      requires IsRuleSetOf(ruleset, raw, keys, lib)
      ensures IsAnswer(raw, ctx, skip, lib, m)
    {
      m := FirstMatch(ruleset.rules, ctx, skip, lib, Cached(ruleset.compiledRegexes, lib));
      CachedAnswers(ruleset, raw, keys, ctx, skip, lib, m);
    }
  }

  // ----- answers, in terms of the rules as loaded -----

  predicate RawAnswers(r: RuleRaw, ctx: RequestContext, skip: seq<string>, lib: Lib) {
    && r.enabled && r.id !in skip && TierApplies(r.tier, ctx, lib)
    && NaiveEval(r.condition, ctx, lib)
    && r.action != Log
  }

  function RawMatch(r: RuleRaw): RuleMatch {
    RuleMatch(r.id, r.description, r.action, r.riskScoreDelta, r.source.GetOr("system"))
  }

  /** `r` answers, and no rule that answers has a smaller priority. */
  ghost predicate Wins(r: RuleRaw, raw: seq<RuleRaw>, ctx: RequestContext, skip: seq<string>, lib: Lib) {
    && r in raw && RawAnswers(r, ctx, skip, lib)
    && forall q <- raw :: RawAnswers(q, ctx, skip, lib) ==> r.priority <= q.priority
  }

  /** `m` is the match of a rule of minimal priority among those that answer. */
  ghost predicate IsAnswer(raw: seq<RuleRaw>, ctx: RequestContext, skip: seq<string>, lib: Lib, m: Option<RuleMatch>) {
    match m
    case None => forall r <- raw :: !RawAnswers(r, ctx, skip, lib)
    case Some(found) => exists r :: Wins(r, raw, ctx, skip, lib) && found == RawMatch(r)
  }

  /** `rules` is a priority-sorted arrangement of the finished raw rules, and `regex`
      decides their conditions as recompiling decides the raw ones. */
  ghost predicate Represents(rules: seq<Rule>, raw: seq<RuleRaw>, keys: map<string, string>, ctx: RequestContext,
                             lib: Lib, regex: RegexTest) {
    && Sorted(rules)
    && multiset(rules) == multiset(FinishAll(raw, keys))
    && forall r <- raw :: EvalNode(WithKeys(r.condition, keys), ctx, lib, regex) == NaiveEval(r.condition, ctx, lib)
  }

  lemma FinishedAnswers(r: RuleRaw, keys: map<string, string>, ctx: RequestContext, skip: seq<string>, lib: Lib,
                        regex: RegexTest)
    requires EvalNode(WithKeys(r.condition, keys), ctx, lib, regex) == NaiveEval(r.condition, ctx, lib)
    ensures Answers(Finish(r, keys), ctx, skip, lib, regex) == RawAnswers(r, ctx, skip, lib)
    ensures MatchOf(Finish(r, keys)) == RawMatch(r)
    ensures Finish(r, keys).priority == r.priority
  {
  }

  /** In a sorted arrangement, the first rule that answers has minimal priority. */
  lemma FirstIsLeast(rules: seq<Rule>, i: nat, raw: seq<RuleRaw>, keys: map<string, string>, ctx: RequestContext,
                     skip: seq<string>, lib: Lib, regex: RegexTest)
    requires Represents(rules, raw, keys, ctx, lib, regex)
    requires i < |rules| && Answers(rules[i], ctx, skip, lib, regex)
    requires forall j | 0 <= j < i :: !Answers(rules[j], ctx, skip, lib, regex)
    ensures exists r :: Wins(r, raw, ctx, skip, lib) && RawMatch(r) == MatchOf(rules[i])
  {
    var r := OriginOf(rules, i, raw, keys, ctx, skip, lib, regex);
    hide Represents, Answers, RawAnswers, MatchOf, RawMatch;
    forall q <- raw | RawAnswers(q, ctx, skip, lib)
      ensures r.priority <= q.priority
    {
      var j := PlaceOf(rules, q, raw, keys, ctx, skip, lib, regex);
      assert i <= j;
      SortedAt(rules, i, j, raw, keys, ctx, lib, regex);
    }
    assert Wins(r, raw, ctx, skip, lib);
  }

  lemma SortedAt(rules: seq<Rule>, i: nat, j: nat, raw: seq<RuleRaw>, keys: map<string, string>, ctx: RequestContext,
                 lib: Lib, regex: RegexTest)
    requires Represents(rules, raw, keys, ctx, lib, regex) && i <= j < |rules|
    ensures rules[i].priority <= rules[j].priority
  {
  }

  /** The raw rule a rule of the arrangement was made from. */
  lemma OriginOf(rules: seq<Rule>, i: nat, raw: seq<RuleRaw>, keys: map<string, string>, ctx: RequestContext,
                 skip: seq<string>, lib: Lib, regex: RegexTest) returns (r: RuleRaw)
    requires Represents(rules, raw, keys, ctx, lib, regex) && i < |rules|
    ensures r in raw && rules[i].priority == r.priority && MatchOf(rules[i]) == RawMatch(r)
    ensures Answers(rules[i], ctx, skip, lib, regex) == RawAnswers(r, ctx, skip, lib)
  {
    hide Finish;
    assert rules[i] in multiset(FinishAll(raw, keys));
    var j :| 0 <= j < |raw| && FinishAll(raw, keys)[j] == rules[i];
    r := raw[j];
    FinishedAnswers(r, keys, ctx, skip, lib, regex);
  }

  /** Where the rule made from a raw rule stands. */
  lemma PlaceOf(rules: seq<Rule>, r: RuleRaw, raw: seq<RuleRaw>, keys: map<string, string>, ctx: RequestContext,
                skip: seq<string>, lib: Lib, regex: RegexTest) returns (i: nat)
    requires Represents(rules, raw, keys, ctx, lib, regex) && r in raw
    ensures i < |rules| && rules[i].priority == r.priority
    ensures Answers(rules[i], ctx, skip, lib, regex) == RawAnswers(r, ctx, skip, lib)
  {
    hide Finish;
    var j :| 0 <= j < |raw| && raw[j] == r;
    assert FinishAll(raw, keys)[j] in multiset(rules);
    i :| 0 <= i < |rules| && rules[i] == Finish(r, keys);
    FinishedAnswers(r, keys, ctx, skip, lib, regex);
  }

  /** The first match in a sorted arrangement, whatever it does with ties, is an answer. */
  lemma FirstMatchIsAnswer(rules: seq<Rule>, raw: seq<RuleRaw>, keys: map<string, string>, ctx: RequestContext,
                           skip: seq<string>, lib: Lib, regex: RegexTest, m: Option<RuleMatch>)
    requires Represents(rules, raw, keys, ctx, lib, regex)
    requires IsFirstMatch(rules, ctx, skip, lib, regex, m)
    ensures IsAnswer(raw, ctx, skip, lib, m)
  {
    hide EvalNode, Finish, Answers, RawAnswers, MatchOf, RawMatch;
    if m.Some? {
      var i :| 0 <= i < |rules| && Answers(rules[i], ctx, skip, lib, regex)
               && (forall j | 0 <= j < i :: !Answers(rules[j], ctx, skip, lib, regex)) && m.value == MatchOf(rules[i]);
      FirstIsLeast(rules, i, raw, keys, ctx, skip, lib, regex);
    } else {
      forall r <- raw
        ensures !RawAnswers(r, ctx, skip, lib)
      {
        var j := PlaceOf(rules, r, raw, keys, ctx, skip, lib, regex);
        assert rules[j] in rules;
      }
    }
  }

  // ----- the two engines -----

  lemma CachedAnswers(set_: RuleSet, raw: seq<RuleRaw>, keys: map<string, string>, ctx: RequestContext,
                      skip: seq<string>, lib: Lib, m: Option<RuleMatch>)
    requires IsRuleSetOf(set_, raw, keys, lib)
    requires IsFirstMatch(set_.rules, ctx, skip, lib, Cached(set_.compiledRegexes, lib), m)
    ensures IsAnswer(raw, ctx, skip, lib, m)
  {
    forall r <- raw
      ensures CachedEval(WithKeys(r.condition, keys), ctx, lib, set_.compiledRegexes) == NaiveEval(r.condition, ctx, lib)
    {
      CacheAgrees(r.condition, keys, set_.compiledRegexes, ctx, lib);
    }
    FirstMatchIsAnswer(set_.rules, raw, keys, ctx, skip, lib, Cached(set_.compiledRegexes, lib), m);
  }

  lemma {:induction false} NoKeysNoChange(node: ConditionNode)
    ensures WithKeys(node, map[]) == node
  {
    match node
    case Leaf(_) =>
    case _ =>
      var cs, ds := node.children, WithKeys(node, map[]).children;
      forall i | 0 <= i < |cs|
        ensures ds[i] == cs[i]
      {
        NoKeysNoChange(cs[i]);
      }
      assert ds == cs;
  }

  /** The naive engine keeps the conditions as loaded. */
  lemma NaiveAnswers(rules: seq<Rule>, raw: seq<RuleRaw>, ctx: RequestContext, skip: seq<string>, lib: Lib,
                     m: Option<RuleMatch>)
    requires Sorted(rules) && multiset(rules) == multiset(FinishAll(raw, map[]))
    requires IsFirstMatch(rules, ctx, skip, lib, Recompiling(lib), m)
    ensures IsAnswer(raw, ctx, skip, lib, m)
  {
    forall r <- raw
      ensures EvalNode(WithKeys(r.condition, map[]), ctx, lib, Recompiling(lib)) == NaiveEval(r.condition, ctx, lib)
    {
      NoKeysNoChange(r.condition);
    }
    FirstMatchIsAnswer(rules, raw, map[], ctx, skip, lib, Recompiling(lib), m);
  }

  /** A request's answer is the same however ties fall exactly when all rules of minimal
      priority that answer it give the same match. */
  lemma AnswerUniqueExactly(raw: seq<RuleRaw>, ctx: RequestContext, skip: seq<string>, lib: Lib)
    ensures (forall m, n :: IsAnswer(raw, ctx, skip, lib, m) && IsAnswer(raw, ctx, skip, lib, n) ==> m == n)
            <==> (forall r, q :: Wins(r, raw, ctx, skip, lib) && Wins(q, raw, ctx, skip, lib) ==> RawMatch(r) == RawMatch(q))
  {
    hide RawAnswers, RawMatch;
    if forall m, n :: IsAnswer(raw, ctx, skip, lib, m) && IsAnswer(raw, ctx, skip, lib, n) ==> m == n {
      forall r, q | Wins(r, raw, ctx, skip, lib) && Wins(q, raw, ctx, skip, lib)
        ensures RawMatch(r) == RawMatch(q)
      {
        assert IsAnswer(raw, ctx, skip, lib, Some(RawMatch(r)));
        assert IsAnswer(raw, ctx, skip, lib, Some(RawMatch(q)));
      }
    }
  }

  // ----- every answer arises from some order of ties -----

  /** A key that descends as priorities ascend. */
  function Urgency(r: Rule): int { -(r.priority as int) }

  lemma FinishConcat(a: seq<RuleRaw>, b: seq<RuleRaw>, keys: map<string, string>)
    ensures FinishAll(a + b, keys) == FinishAll(a, keys) + FinishAll(b, keys)
  {
    hide Finish;
  }

  /** Putting one rule in front rearranges the finished rules. */
  lemma FinishAt(raw: seq<RuleRaw>, k: nat, keys: map<string, string>)
    requires k < |raw|
    ensures multiset([Finish(raw[k], keys)] + FinishAll(raw[..k] + raw[k + 1..], keys)) == multiset(FinishAll(raw, keys))
  {
    var a, x, b := raw[..k], [raw[k]], raw[k + 1..];
    assert raw == a + (x + b);
    FinishConcat(a, b, keys);
    FinishConcat(a, x + b, keys);
    FinishConcat(x, b, keys);
    assert FinishAll(x, keys) == [Finish(raw[k], keys)];
    hide Finish, FinishAll;
  }

  /** The rules sorted by ascending priority, ties in the order given. */
  lemma SortedByPriority(rules: seq<Rule>)
    ensures var key := Urgency;
            Sorted(SortDesc(rules, key)) && multiset(SortDesc(rules, key)) == multiset(rules)
  {
    SortDescIsStable(rules, Urgency);
  }

  /** A rule put in front of all others comes first among those of its priority. */
  lemma FirstOfItsPriority(first: Rule, rest: seq<Rule>) returns (i: nat)
    ensures var sorted := SortDesc([first] + rest, Urgency);
            && i < |sorted| && sorted[i] == first
            && forall j | 0 <= j < i :: sorted[j].priority < first.priority
  {
    var key := Urgency;
    var rules := [first] + rest;
    var sorted := SortDesc(rules, key);
    SortDescIsStable(rules, key);
    var k := key(first);
    assert WithKey(sorted, k, key) == WithKey(rules, k, key);
    assert rules[..1] == [first] && [first][..0] == [];
    assert WithKey([first], k, key) == [first];
    WithKeyPrefix(rules, 1, k, key);
    var run := WithKey(sorted, k, key);
    assert run[..1] == [first] && run[0] == first;
    i := FirstOfRun(sorted, k, key);
    hide WithKey, SortDesc;
    assert forall j | 0 <= j < i :: key(sorted[j]) >= key(sorted[i]) && key(sorted[j]) != k;
  }

  /** Where a run of equal key begins. */
  lemma {:induction false} FirstOfRun(rules: seq<Rule>, k: int, key: Rule -> int) returns (i: nat)
    requires WithKey(rules, k, key) != []
    ensures i < |rules| && rules[i] == WithKey(rules, k, key)[0]
    ensures key(rules[i]) == k && forall j | 0 <= j < i :: key(rules[j]) != k
  {
    var n := |rules| - 1;
    if WithKey(rules[..n], k, key) != [] {
      i := FirstOfRun(rules[..n], k, key);
    } else {
      i := n;
      WithKeyEmpty(rules[..n], k, key);
      assert forall j | 0 <= j < n :: rules[j] == rules[..n][j] && rules[..n][j] in rules[..n];
    }
  }

  /** A match is an answer exactly if some arrangement by priority that the unstable sort
      may produce has it as its first match. */
  lemma AnswersAreFirstMatches(raw: seq<RuleRaw>, keys: map<string, string>, ctx: RequestContext, skip: seq<string>,
                               lib: Lib, regex: RegexTest, m: Option<RuleMatch>)
    requires forall r <- raw :: EvalNode(WithKeys(r.condition, keys), ctx, lib, regex) == NaiveEval(r.condition, ctx, lib)
    ensures IsAnswer(raw, ctx, skip, lib, m) <==>
            exists rules :: Represents(rules, raw, keys, ctx, lib, regex) && IsFirstMatch(rules, ctx, skip, lib, regex, m)
  {
    if rules :| Represents(rules, raw, keys, ctx, lib, regex) && IsFirstMatch(rules, ctx, skip, lib, regex, m) {
      FirstMatchIsAnswer(rules, raw, keys, ctx, skip, lib, regex, m);
    }
    if IsAnswer(raw, ctx, skip, lib, m) {
      var rules := ArrangementFor(raw, keys, ctx, skip, lib, regex, m);
    }
  }

  lemma ArrangementFor(raw: seq<RuleRaw>, keys: map<string, string>, ctx: RequestContext, skip: seq<string>,
                       lib: Lib, regex: RegexTest, m: Option<RuleMatch>) returns (rules: seq<Rule>)
    requires forall r <- raw :: EvalNode(WithKeys(r.condition, keys), ctx, lib, regex) == NaiveEval(r.condition, ctx, lib)
    requires IsAnswer(raw, ctx, skip, lib, m)
    ensures Represents(rules, raw, keys, ctx, lib, regex) && IsFirstMatch(rules, ctx, skip, lib, regex, m)
  {
    hide EvalNode, Finish, Answers, RawAnswers, MatchOf, RawMatch, SortDesc;
    match m
    case None =>
      rules := SortDesc(FinishAll(raw, keys), Urgency);
      SortedByPriority(FinishAll(raw, keys));
      forall i | 0 <= i < |rules|
        ensures !Answers(rules[i], ctx, skip, lib, regex)
      {
        var r := OriginOf(rules, i, raw, keys, ctx, skip, lib, regex);
      }
    case Some(found) =>
      var r :| Wins(r, raw, ctx, skip, lib) && found == RawMatch(r);
      var k :| 0 <= k < |raw| && raw[k] == r;
      var rest := FinishAll(raw[..k] + raw[k + 1..], keys);
      rules := SortDesc([Finish(r, keys)] + rest, Urgency);
      SortedByPriority([Finish(r, keys)] + rest);
      FinishAt(raw, k, keys);
      var i := FirstOfItsPriority(Finish(r, keys), rest);
      FinishedAnswers(r, keys, ctx, skip, lib, regex);
      forall j | 0 <= j < i
        ensures !Answers(rules[j], ctx, skip, lib, regex)
      {
        var q := OriginOf(rules, j, raw, keys, ctx, skip, lib, regex);
      }
  }

  ghost predicate PrioritiesDistinct(raw: seq<RuleRaw>) {
    forall i, j | 0 <= i < j < |raw| :: raw[i].priority != raw[j].priority
  }

  /** With distinct priorities, the order in which the rules were loaded, the order ties
      would fall in, and the choice of engine make no difference. */
  lemma LoadOrderDoesNotMatter(raw: seq<RuleRaw>, raw': seq<RuleRaw>, ctx: RequestContext, skip: seq<string>, lib: Lib,
                               m: Option<RuleMatch>, n: Option<RuleMatch>)
    requires multiset(raw) == multiset(raw') && PrioritiesDistinct(raw)
    requires IsAnswer(raw, ctx, skip, lib, m) && IsAnswer(raw', ctx, skip, lib, n)
    ensures m == n
  {
    SameMembers(raw, raw');
    hide RawAnswers, RawMatch;
    if m.Some? && n.Some? {
      var r :| Wins(r, raw, ctx, skip, lib) && m.value == RawMatch(r);
      var q :| Wins(q, raw', ctx, skip, lib) && n.value == RawMatch(q);
      assert r.priority == q.priority;
      var i :| 0 <= i < |raw| && raw[i] == r;
      var j :| 0 <= j < |raw| && raw[j] == q;
      assert i == j;
    }
  }

  /** Load a list of rules, answer a request, reload the same rules in another order, and
      answer it again: both lists are accepted or neither, and with distinct priorities
      both answers are the same. */
  method ReloadReordered(raw: seq<RuleRaw>, raw': seq<RuleRaw>, ctx: RequestContext, skip: seq<string>, lib: Lib)
    returns (loaded: bool, loaded': bool, m: Option<RuleMatch>, m': Option<RuleMatch>)
    requires multiset(raw) == multiset(raw')
    ensures loaded == loaded' == Acceptable(raw, lib)
    ensures loaded ==> IsAnswer(raw, ctx, skip, lib, m) && IsAnswer(raw', ctx, skip, lib, m')
    ensures loaded && PrioritiesDistinct(raw) ==> m == m'
  {
    var first, keys := Compile(raw, lib);
    var second, keys' := Compile(raw', lib);
    loaded, loaded', m, m' := first.Success?, second.Success?, None, None;
    if Acceptable(raw, lib) { AcceptanceIgnoresOrder(raw, raw', lib); }
    if Acceptable(raw', lib) { AcceptanceIgnoresOrder(raw', raw, lib); }
    hide *;
    if first.Success? && second.Success? {
      var evaluator := new RuleEvaluator(first.value);
      m := evaluator.Evaluate(ctx, skip, lib, raw, keys);
      evaluator.UpdateRuleset(second.value);
      m' := evaluator.Evaluate(ctx, skip, lib, raw', keys');
      if PrioritiesDistinct(raw) {
        LoadOrderDoesNotMatter(raw, raw', ctx, skip, lib, m, m');
      }
    }
  }

  lemma SameMembers(raw: seq<RuleRaw>, raw': seq<RuleRaw>)
    requires multiset(raw) == multiset(raw')
    ensures forall r :: r in raw <==> r in raw'
  {
    assert forall r :: r in raw <==> r in multiset(raw);
    assert forall r :: r in raw' <==> r in multiset(raw');
  }

  /** Whether rules are accepted does not depend on their order either. */
  lemma AcceptanceIgnoresOrder(raw: seq<RuleRaw>, raw': seq<RuleRaw>, lib: Lib)
    requires multiset(raw) == multiset(raw') && Acceptable(raw, lib)
    ensures Acceptable(raw', lib)
  {
    SameMembers(raw, raw');
    forall p <- AllPatterns(raw')
      ensures lib.validRegex(p)
    {
      var r := PatternOrigin(raw', p);
      var i :| 0 <= i < |raw| && raw[i] == r;
      AllPatternsOfMember(raw, i);
    }
    DistinctIdsIgnoreOrder(raw, raw');
  }

  lemma {:induction false} PatternOrigin(raw: seq<RuleRaw>, p: string) returns (r: RuleRaw)
    requires p in AllPatterns(raw)
    ensures r in raw && p in Patterns(r.condition)
  {
    var last := raw[|raw| - 1];
    if p in Patterns(last.condition) {
      r := last;
    } else {
      r := PatternOrigin(raw[..|raw| - 1], p);
    }
  }

  /** A repeated id shows in the multiset of rules. */
  lemma DistinctIdsIgnoreOrder(raw: seq<RuleRaw>, raw': seq<RuleRaw>)
    requires multiset(raw) == multiset(raw') && IdsDistinct(raw)
    ensures IdsDistinct(raw')
  {
    forall i, j | 0 <= i < j < |raw'|
      ensures raw'[i].id != raw'[j].id
    {
      SameMembers(raw, raw');
      if raw'[i] == raw'[j] {
        TwiceInMultiset(raw', i, j);
        OnceInMultiset(raw, raw'[i]);
      } else {
        assert raw'[i] in raw' && raw'[j] in raw';
        var a :| 0 <= a < |raw| && raw[a] == raw'[i];
        var b :| 0 <= b < |raw| && raw[b] == raw'[j];
      }
    }
  }

  lemma TwiceInMultiset(xs: seq<RuleRaw>, i: nat, j: nat)
    requires i < j < |xs| && xs[i] == xs[j]
    ensures multiset(xs)[xs[i]] >= 2
  {
    assert xs == xs[..j] + xs[j..];
    assert xs[i] in multiset(xs[..j]) by { assert xs[..j][i] == xs[i]; }
    assert xs[j] in multiset(xs[j..]) by { assert xs[j..][0] == xs[j]; }
  }

  lemma {:induction false} OnceInMultiset(xs: seq<RuleRaw>, x: RuleRaw)
    requires IdsDistinct(xs)
    ensures multiset(xs)[x] <= 1
  {
    if xs != [] {
      var init, last := xs[..|xs| - 1], xs[|xs| - 1];
      assert xs == init + [last];
      OnceInMultiset(init, x);
      if x == last {
        assert x !in init;
        assert x !in multiset(init);
      }
    }
  }
}
