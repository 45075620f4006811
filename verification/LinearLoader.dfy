/** Loading of the priority-ordered rules: the two passes that fill the regex cache and
    hand out its keys, validation, and sorting (optimized_rule/loader.rs). */
module LinearLoader {
  import opened Text
  import opened Wrappers
  import opened LinearConditions

  datatype Action = Allow | Block | Challenge | RateLimit | Log

  datatype RuleRaw = RuleRaw(
    id: string,
    source: Option<string>,
    description: string,
    enabled: bool,
    priority: nat,
    condition: ConditionNode,
    action: Action,
    riskScoreDelta: int,
    tier: Option<string>)

  datatype Rule = Rule(
    id: string,
    source: string,
    description: string,
    enabled: bool,
    priority: nat,
    condition: ConditionNode,
    action: Action,
    riskScoreDelta: int,
    tier: Option<string>)

  datatype RuleSet = RuleSet(rules: seq<Rule>, compiledRegexes: CompiledRegexes)

  datatype RuleError =
    | RegexError(id: string)
    | DuplicateId(id: string)
    | RiskScoreError(id: string)
    | PriorityError(id: string)
    | KeyError(id: string)

  // ----- the cache, as the list of its patterns -----

  function KeyName(n: nat): string { "regex_" + Numeral(n, 10) }

  lemma KeyNameInjective(m: nat, n: nat)
    requires KeyName(m) == KeyName(n)
    ensures m == n
  {
    assert Numeral(m, 10) == KeyName(m)[6..] == KeyName(n)[6..] == Numeral(n, 10);
    NumeralInjective(m, n, 10);
  }

  function AddPattern(patterns: seq<string>, p: string): seq<string> {
    if p in patterns then patterns else patterns + [p]
  }

  /** `patterns`, then each of `more` that is new. */
  function AddPatterns(patterns: seq<string>, more: seq<string>): seq<string> {
    if more == [] then patterns else AddPattern(AddPatterns(patterns, more[..|more| - 1]), more[|more| - 1])
  }

  lemma AddOne(patterns: seq<string>, p: string)
    ensures AddPatterns(patterns, [p]) == AddPattern(patterns, p)
    ensures (patterns + [p])[..|patterns|] == patterns
  {
    assert [p][..0] == [];
  }

  lemma {:induction false} AddPatternsConcat(patterns: seq<string>, a: seq<string>, b: seq<string>)
    ensures AddPatterns(AddPatterns(patterns, a), b) == AddPatterns(patterns, a + b)
  {
    if b == [] {
      assert a + b == a;
    } else {
      AddPatternsConcat(patterns, a, b[..|b| - 1]);
      assert (a + b)[..|a + b| - 1] == a + b[..|b| - 1];
    }
  }

  lemma {:induction false} AddPatternsMembers(patterns: seq<string>, more: seq<string>)
    ensures forall p :: p in AddPatterns(patterns, more) <==> p in patterns || p in more
  {
    if more != [] {
      AddPatternsMembers(patterns, more[..|more| - 1]);
      assert more == more[..|more| - 1] + [more[|more| - 1]];
    }
  }

  ghost predicate Distinct(patterns: seq<string>) {
    forall i, j | 0 <= i < j < |patterns| :: patterns[i] != patterns[j]
  }

  /** Pattern to key, numbered in order. */
  function KeysOf(patterns: seq<string>): map<string, string> {
    if patterns == [] then map[]
    else KeysOf(patterns[..|patterns| - 1])[patterns[|patterns| - 1] := KeyName(|patterns| - 1)]
  }

  /** Key to the regex compiled for it. */
  function CompiledOf(patterns: seq<string>): CompiledRegexes {
    if patterns == [] then map[]
    else CompiledOf(patterns[..|patterns| - 1])[KeyName(|patterns| - 1) := patterns[|patterns| - 1]]
  }

  lemma MapsGrow(patterns: seq<string>, p: string)
    ensures KeysOf(patterns + [p]) == KeysOf(patterns)[p := KeyName(|patterns|)]
    ensures CompiledOf(patterns + [p]) == CompiledOf(patterns)[KeyName(|patterns|) := p]
  {
    assert (patterns + [p])[..|patterns|] == patterns;
  }

  /** The first `n` keys. */
  function KeyNames(n: nat): set<string> {
    if n == 0 then {} else KeyNames(n - 1) + {KeyName(n - 1)}
  }

  lemma {:induction false} KeyNamesAreNew(m: nat, n: nat)
    requires m <= n
    ensures KeyName(n) !in KeyNames(m)
  {
    if m > 0 {
      KeyNamesAreNew(m - 1, n);
      if KeyName(n) == KeyName(m - 1) { KeyNameInjective(n, m - 1); }
    }
  }

  /** The cache has one key per pattern, and no others. */
  lemma {:induction false} CompiledKeys(patterns: seq<string>)
    ensures CompiledOf(patterns).Keys == KeyNames(|patterns|)
    ensures |CompiledOf(patterns)| == |patterns|
  {
    if patterns != [] {
      hide KeyName;
      CompiledKeys(patterns[..|patterns| - 1]);
      KeyNamesAreNew(|patterns| - 1, |patterns| - 1);
    }
  }

  lemma {:induction false} CompiledLeadsBack(patterns: seq<string>, i: nat)
    requires i < |patterns|
    ensures KeyName(i) in CompiledOf(patterns) && CompiledOf(patterns)[KeyName(i)] == patterns[i]
  {
    var n := |patterns| - 1;
    if i < n {
      CompiledLeadsBack(patterns[..n], i);
      if KeyName(i) == KeyName(n) { KeyNameInjective(i, n); }
    }
  }

  /** Each pattern's key leads back to the pattern. */
  lemma {:induction false} KeysLeadBack(patterns: seq<string>)
    requires Distinct(patterns)
    ensures forall p :: p in KeysOf(patterns) <==> p in patterns
    ensures forall i | 0 <= i < |patterns| :: KeysOf(patterns)[patterns[i]] == KeyName(i)
  {
    if patterns != [] {
      KeysLeadBack(patterns[..|patterns| - 1]);
      assert patterns == patterns[..|patterns| - 1] + [patterns[|patterns| - 1]];
    }
  }

  /** A new pattern gets the next key. */
  lemma AddNew(patterns: seq<string>, p: string)
    requires Distinct(patterns)
    ensures p in KeysOf(patterns) <==> p in patterns
    ensures KeysOf(patterns + [p]) == KeysOf(patterns)[p := KeyName(|patterns|)]
    ensures CompiledOf(patterns + [p]) == CompiledOf(patterns)[KeyName(|patterns|) := p]
  {
    KeysLeadBack(patterns);
    MapsGrow(patterns, p);
    hide *;
  }

  /** Adding a pattern keeps them distinct, and all valid if it is valid itself. */
  lemma AddKeeps(patterns: seq<string>, p: string, lib: Lib)
    requires Distinct(patterns)
    ensures Distinct(AddPattern(patterns, p))
    ensures AllValid(AddPattern(patterns, p), lib) <==> AllValid(patterns, lib) && lib.validRegex(p)
  {
    if p !in patterns {
      assert p in patterns + [p] && forall q <- patterns :: q in patterns + [p];
    }
  }

  ghost predicate AllValid(patterns: seq<string>, lib: Lib) {
    forall p <- patterns :: lib.validRegex(p)
  }

  /** The maps from patterns to keys and from keys to compiled regexes. */
  class RegexCache {
    var keys: map<string, string>
    var compiled: CompiledRegexes

    constructor ()
      ensures keys == map[] && compiled == map[]
    {
      keys, compiled := map[], map[];
    }

    /** The cache holds exactly these patterns, numbered in this order, all valid. */
    ghost predicate Stores(patterns: seq<string>, lib: Lib)
      reads this
    {
      && keys == KeysOf(patterns)
      && compiled == CompiledOf(patterns)
      && Distinct(patterns)
      && AllValid(patterns, lib)
    }

    method AddLeaf(ruleId: string, leaf: ConditionLeaf, lib: Lib, ghost patterns: seq<string>)
      returns (error: Option<RuleError>)
      requires Stores(patterns, lib)
      modifies this
      ensures error.None? <==> (leaf.matchType.Regex? ==> lib.validRegex(Pattern(leaf)))
      ensures error.None? ==> Stores(AddPatterns(patterns, Patterns(Leaf(leaf))), lib)
      ensures error.Some? ==> error.value == RegexError(ruleId)
    {
      error := None;
      if leaf.matchType.Regex? {
        var pattern := Pattern(leaf);
        AddOne(patterns, pattern);
        AddNew(patterns, pattern);
        AddKeeps(patterns, pattern, lib);
        CompiledKeys(patterns);
        hide KeyName, KeysOf, CompiledOf, AddPatterns, Pattern, Distinct;
        if pattern !in keys {
          if !lib.validRegex(pattern) { return Some(RegexError(ruleId)); }
          var cacheKey := KeyName(|compiled|);
          keys := keys[pattern := cacheKey];
          compiled := compiled[cacheKey := pattern];
        }
      }
    }

    /** Collect the patterns of a tree, stopping at the first that does not compile. */
    method Collect(ruleId: string, node: ConditionNode, lib: Lib, ghost patterns: seq<string>)
      returns (error: Option<RuleError>)
      requires Stores(patterns, lib)
      modifies this
      ensures error.None? <==> AllValid(Patterns(node), lib)
      ensures error.None? ==> Stores(AddPatterns(patterns, Patterns(node)), lib)
      ensures error.Some? ==> error.value == RegexError(ruleId)
      decreases node, 1
    {
      match node
      case And(children) =>
        error := CollectAll(ruleId, node, children, lib, patterns);
      case Or(children) =>
        error := CollectAll(ruleId, node, children, lib, patterns);
      case Leaf(leaf) =>
        error := AddLeaf(ruleId, leaf, lib, patterns);
    }

    method CollectAll(ruleId: string, ghost node: ConditionNode, children: seq<ConditionNode>, lib: Lib,
                      ghost patterns: seq<string>)
      returns (error: Option<RuleError>)
      requires node == And(children) || node == Or(children)
      requires Stores(patterns, lib)
      modifies this
      ensures error.None? <==> AllValid(PatternsOfAll(children), lib)
      ensures error.None? ==> Stores(AddPatterns(patterns, PatternsOfAll(children)), lib)
      ensures error.Some? ==> error.value == RegexError(ruleId)
      decreases node, 0
    {
      hide Stores, Patterns;
      for i := 0 to |children|
        invariant AllValid(PatternsOfAll(children[..i]), lib)
        invariant Stores(AddPatterns(patterns, PatternsOfAll(children[..i])), lib)
      {
        error := Collect(ruleId, children[i], lib, AddPatterns(patterns, PatternsOfAll(children[..i])));
        if error.Some? {
          PatternsOfMember(children, i);
          return;
        }
        assert children[..i + 1][..i] == children[..i];
        AddPatternsConcat(patterns, PatternsOfAll(children[..i]), Patterns(children[i]));
      }
      assert children[..|children|] == children;
      error := None;
    }
  }

  // ----- handing out keys -----

  /** The tree with keys filled in, or an error if a pattern has none. */
  method Populate(ruleId: string, node: ConditionNode, keys: map<string, string>)
    returns (r: Result<ConditionNode, RuleError>)
    ensures r.Success? <==> forall p <- Patterns(node) :: p in keys
    ensures r.Success? ==> r.value == WithKeys(node, keys)
    ensures r.Failure? ==> r.error == KeyError(ruleId)
    decreases node, 1
  {
    match node
    case And(children) =>
      var c := PopulateAll(ruleId, node, children, keys);
      if c.Failure? { return Failure(c.error); }
      r := Success(And(c.value));
    case Or(children) =>
      var c := PopulateAll(ruleId, node, children, keys);
      if c.Failure? { return Failure(c.error); }
      r := Success(Or(c.value));
    case Leaf(leaf) =>
      if leaf.matchType.Regex? {
        if Pattern(leaf) in keys {
          r := Success(Leaf(leaf.(compiledRegexKey := Some(keys[Pattern(leaf)]))));
        } else {
          r := Failure(KeyError(ruleId));
        }
      } else {
        r := Success(node);
      }
  }

  method PopulateAll(ruleId: string, ghost node: ConditionNode, children: seq<ConditionNode>,
                     keys: map<string, string>)
    returns (r: Result<seq<ConditionNode>, RuleError>)
    requires node == And(children) || node == Or(children)
    ensures r.Success? <==> forall p <- PatternsOfAll(children) :: p in keys
    ensures r.Success? ==>
              && |r.value| == |children|
              && forall i | 0 <= i < |children| :: r.value[i] == WithKeys(children[i], keys)
    ensures r.Failure? ==> r.error == KeyError(ruleId)
    decreases node, 0
  {
    var done: seq<ConditionNode> := [];
    for i := 0 to |children|
      invariant |done| == i
      invariant forall p <- PatternsOfAll(children[..i]) :: p in keys
      invariant forall j | 0 <= j < i :: done[j] == WithKeys(children[j], keys)
    {
      var c := Populate(ruleId, children[i], keys);
      if c.Failure? {
        PatternsOfMember(children, i);
        return Failure(c.error);
      }
      done := done + [c.value];
      assert children[..i + 1][..i] == children[..i];
    }
    assert children[..|children|] == children;
    r := Success(done);
  }

  // ----- validation -----

  function AllPatterns(raw: seq<RuleRaw>): seq<string> {
    if raw == [] then [] else AllPatterns(raw[..|raw| - 1]) + Patterns(raw[|raw| - 1].condition)
  }

  lemma {:induction false} AllPatternsOfMember(raw: seq<RuleRaw>, i: nat)
    requires i < |raw|
    ensures forall p <- Patterns(raw[i].condition) :: p in AllPatterns(raw)
  {
    if i < |raw| - 1 { AllPatternsOfMember(raw[..|raw| - 1], i); }
  }

  /** Fields that pass validation by themselves. */
  predicate FieldsValid(r: RuleRaw) { -100 <= r.riskScoreDelta <= 100 && r.priority != 0 }

  ghost predicate IdsDistinct(raw: seq<RuleRaw>) {
    forall i, j | 0 <= i < j < |raw| :: raw[i].id != raw[j].id
  }

  /** The rules the loader accepts. */
  ghost predicate Acceptable(raw: seq<RuleRaw>, lib: Lib) {
    && AllValid(AllPatterns(raw), lib)
    && IdsDistinct(raw)
    && forall r <- raw :: FieldsValid(r)
  }

  /** The first rule that breaks a rule of its own or repeats an id. */
  method Validate(raw: seq<RuleRaw>) returns (error: Option<RuleError>)
    ensures error.None? <==> IdsDistinct(raw) && forall r <- raw :: FieldsValid(r)
    ensures error.Some? ==>
              exists i | 0 <= i < |raw| ::
                && IdsDistinct(raw[..i]) && (forall r <- raw[..i] :: FieldsValid(r))
                && error.value == (if exists j | 0 <= j < i :: raw[j].id == raw[i].id then DuplicateId(raw[i].id)
                                   else if !(-100 <= raw[i].riskScoreDelta <= 100) then RiskScoreError(raw[i].id)
                                   else PriorityError(raw[i].id))
  {
    var seenIds: set<string> := {};
    for i := 0 to |raw|
      invariant seenIds == set j | 0 <= j < i :: raw[j].id
      invariant IdsDistinct(raw[..i]) && forall r <- raw[..i] :: FieldsValid(r)
    {
      var r := raw[i];
      if r.id in seenIds { return Some(DuplicateId(r.id)); }
      seenIds := seenIds + {r.id};
      assert raw[i] in raw;
      if r.riskScoreDelta < -100 || r.riskScoreDelta > 100 { return Some(RiskScoreError(r.id)); }
      if r.priority == 0 { return Some(PriorityError(r.id)); }
      assert raw[..i + 1] == raw[..i] + [r];
    }
    assert raw[..|raw|] == raw;
    error := None;
  }

  // ----- sorting -----

  ghost predicate Sorted(rules: seq<Rule>) {
    forall i, j | 0 <= i < j < |rules| :: rules[i].priority <= rules[j].priority
  }

  /** Some arrangement by ascending priority; nothing is promised about ties. */
  method SortUnstable(rules: seq<Rule>) returns (sorted: seq<Rule>)
    ensures Sorted(sorted) && multiset(sorted) == multiset(rules)
  {
    sorted := [];
    for i := 0 to |rules|
      invariant Sorted(sorted) && multiset(sorted) == multiset(rules[..i])
    {
      sorted := InsertByPriority(sorted, rules[i]);
      assert rules[..i + 1] == rules[..i] + [rules[i]];
    }
    assert rules[..|rules|] == rules;
  }

  method InsertByPriority(rules: seq<Rule>, rule: Rule) returns (r: seq<Rule>)
    requires Sorted(rules)
    ensures Sorted(r) && multiset(r) == multiset(rules) + multiset{rule}
  {
    var k := 0;
    while k < |rules| && rules[k].priority <= rule.priority
      invariant 0 <= k <= |rules|
      invariant forall j | 0 <= j < k :: rules[j].priority <= rule.priority
    {
      k := k + 1;
    }
    r := rules[..k] + [rule] + rules[k..];
    assert rules == rules[..k] + rules[k..];
    assert k < |rules| ==> forall j | k <= j < |rules| :: rules[k].priority <= rules[j].priority;
  }

  // ----- compilation -----

  function Finish(r: RuleRaw, keys: map<string, string>): Rule {
    Rule(r.id, r.source.GetOr("system"), r.description, r.enabled, r.priority,
         WithKeys(r.condition, keys), r.action, r.riskScoreDelta, r.tier)
  }

  function FinishAll(raw: seq<RuleRaw>, keys: map<string, string>): (rules: seq<Rule>)
    ensures |rules| == |raw|
    ensures forall i | 0 <= i < |raw| :: rules[i] == Finish(raw[i], keys)
  {
    seq(|raw|, i requires 0 <= i < |raw| => Finish(raw[i], keys))
  }

  /** The set is the raw rules with keys filled in, sorted by priority, and its cache
      serves every regex leaf. */
  ghost predicate IsRuleSetOf(set_: RuleSet, raw: seq<RuleRaw>, keys: map<string, string>, lib: Lib) {
    && Sorted(set_.rules)
    && multiset(set_.rules) == multiset(FinishAll(raw, keys))
    && forall r <- raw :: Served(r.condition, keys, set_.compiledRegexes, lib)
  }

  /** Compilation succeeds exactly on acceptable rules.  Handing out keys cannot fail once
      the patterns have been collected; the cache holds each pattern once. */
  method Compile(raw: seq<RuleRaw>, lib: Lib) returns (r: Result<RuleSet, RuleError>, ghost keys: map<string, string>)
    ensures r.Success? <==> Acceptable(raw, lib)
    ensures r.Success? ==> IsRuleSetOf(r.value, raw, keys, lib)
    ensures r.Success? ==> |r.value.compiledRegexes| == |AddPatterns([], AllPatterns(raw))|
    ensures r.Failure? ==> !r.error.KeyError?
  {
    keys := map[];
    var cache := new RegexCache();
    var error := CollectRules(raw, cache, lib);
    if error.Some? { return Failure(error.value), keys; }
    error := Validate(raw);
    if error.Some? { return Failure(error.value), keys; }
    keys := cache.keys;
    ghost var patterns := AddPatterns([], AllPatterns(raw));
    AddPatternsMembers([], AllPatterns(raw));
    forall rule <- raw
      ensures Served(rule.condition, cache.keys, cache.compiled, lib)
    {
      CacheServes(raw, rule, cache, lib);
    }
    var rules := PopulateRules(raw, cache.keys);
    // Every pattern was collected above, so `rules` is never a failure.
    var sorted := SortUnstable(rules.value);
    CompiledKeys(patterns);
    r := Success(RuleSet(sorted, cache.compiled));
  }

  lemma CacheServes(raw: seq<RuleRaw>, rule: RuleRaw, cache: RegexCache, lib: Lib)
    requires rule in raw && cache.Stores(AddPatterns([], AllPatterns(raw)), lib)
    ensures Served(rule.condition, cache.keys, cache.compiled, lib)
  {
    var i :| 0 <= i < |raw| && raw[i] == rule;
    AllPatternsOfMember(raw, i);
    AddPatternsMembers([], AllPatterns(raw));
    var patterns := AddPatterns([], AllPatterns(raw));
    KeysLeadBack(patterns);
    forall p <- Patterns(rule.condition)
      ensures p in cache.keys && cache.keys[p] in cache.compiled && cache.compiled[cache.keys[p]] == p && lib.validRegex(p)
    {
      var k :| 0 <= k < |patterns| && patterns[k] == p;
      CompiledLeadsBack(patterns, k);
    }
  }

  /** First pass: every rule's patterns, in order. */
  method CollectRules(raw: seq<RuleRaw>, cache: RegexCache, lib: Lib) returns (error: Option<RuleError>)
    requires cache.keys == map[] && cache.compiled == map[]
    modifies cache
    ensures error.None? <==> AllValid(AllPatterns(raw), lib)
    ensures error.None? ==> cache.Stores(AddPatterns([], AllPatterns(raw)), lib)
    ensures error.Some? ==> error.value.RegexError?
  {
    assert cache.Stores([], lib);
    for i := 0 to |raw|
      invariant AllValid(AllPatterns(raw[..i]), lib)
      invariant cache.Stores(AddPatterns([], AllPatterns(raw[..i])), lib)
    {
      error := cache.Collect(raw[i].id, raw[i].condition, lib, AddPatterns([], AllPatterns(raw[..i])));
      if error.Some? {
        AllPatternsOfMember(raw, i);
        return;
      }
      assert raw[..i + 1][..i] == raw[..i];
      AddPatternsConcat([], AllPatterns(raw[..i]), Patterns(raw[i].condition));
    }
    assert raw[..|raw|] == raw;
    error := None;
  }

  /** Second pass: every rule finished with its keys, or the error of the first rule with
      a pattern that has none. */
  method PopulateRules(raw: seq<RuleRaw>, keys: map<string, string>) returns (r: Result<seq<Rule>, RuleError>)
    ensures r.Success? <==> forall rule <- raw :: forall p <- Patterns(rule.condition) :: p in keys
    ensures r.Success? ==> r.value == FinishAll(raw, keys)
  {
    var rules: seq<Rule> := [];
    for i := 0 to |raw|
      invariant rules == FinishAll(raw[..i], keys)
      invariant forall rule <- raw[..i] :: forall p <- Patterns(rule.condition) :: p in keys
    {
      assert raw[i] in raw;
      var c := Populate(raw[i].id, raw[i].condition, keys);
      if c.Failure? { return Failure(c.error); }
      rules := rules + [Rule(raw[i].id, raw[i].source.GetOr("system"), raw[i].description, raw[i].enabled,
                             raw[i].priority, c.value, raw[i].action, raw[i].riskScoreDelta, raw[i].tier)];
      assert raw[..i + 1] == raw[..i] + [raw[i]];
    }
    assert raw[..|raw|] == raw;
    r := Success(rules);
  }
}
