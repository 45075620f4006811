/** What every run of the firing loop keeps, and when it can be done in one pass
    (rete/engine.rs).  The lemmas speak of the loop over any productions, from any memory
    and for any number of cycles; `ReteEngine.Fire` computes such a run on every network,
    and the naive interpreter is one. */
module FiringRuns {
  import opened Wrappers
  import opened GrlAst
  import opened GrlEval
  import opened ReteNetwork
  import opened Firing
  import opened StableSort

  ghost predicate NoDuplicates<T>(xs: seq<T>) {
    forall i, j | 0 <= i < j < |xs| :: xs[i] != xs[j]
  }

  function Members<T>(xs: seq<T>): set<T> { set x <- xs }

  lemma {:induction false} DistinctCount<T>(xs: seq<T>)
    requires NoDuplicates(xs)
    ensures |Members(xs)| == |xs|
  {
    if xs != [] {
      var init, last := xs[..|xs| - 1], xs[|xs| - 1];
      DistinctCount(init);
      assert Members(xs) == Members(init) + {last};
    }
  }

  lemma SubsetCount<T>(a: set<T>, b: set<T>)
    requires a <= b
    ensures |a| <= |b| && (|a| == |b| ==> a == b)
  {
    assert b == a + (b - a);
    assert |b| == |a| + |b - a|;
  }

  // ----- one firing -----

  lemma {:induction false} PerformAllKeeps(stmts: seq<Stmt>, m: Memory, env: Env)
    ensures var r := PerformAll(stmts, m, env);
            r.outcome.matchedRules == m.outcome.matchedRules && m.fired <= r.fired
  {
    if stmts != [] {
      PerformAllKeeps(stmts[1..], Perform(stmts[0], m, env), env);
    }
  }

  /** Firing records the rule once and never forgets a fired or retracted name. */
  lemma FireRuleRecords(name: string, actions: seq<Stmt>, m: Memory, env: Env)
    ensures var r := FireRule(name, actions, m, env);
            && r.outcome.matchedRules == m.outcome.matchedRules + [name]
            && m.fired + {name} <= r.fired
  {
    PerformAllKeeps(actions, Recorded(name, m), env);
  }

  function Targets(stmts: seq<Stmt>): set<Path> {
    set s <- stmts | s.Assign? :: s.target
  }

  predicate Calls(stmts: seq<Stmt>, name: string) {
    exists s <- stmts :: s.Do? && s.action.name == name
  }

  /** How many statements log: `log` itself, and every action the engine does not know. */
  function LogCount(stmts: seq<Stmt>): nat {
    if stmts == [] then 0
    else
      (if stmts[0].Do? && stmts[0].action.name !in {"block", "allow", "challenge", "rate_limit", "retract"}
       then 1 else 0) + LogCount(stmts[1..])
  }

  /** Each part of the outcome, and the overlay, is set by its own statements only. */
  lemma {:induction false} PerformAllEffects(stmts: seq<Stmt>, m: Memory, env: Env)
    ensures var r := PerformAll(stmts, m, env);
            && (r.outcome.blockReason.Some? <==> m.outcome.blockReason.Some? || Calls(stmts, "block"))
            && (r.outcome.allow <==> m.outcome.allow || Calls(stmts, "allow"))
            && (r.outcome.challenge.Some? <==> m.outcome.challenge.Some? || Calls(stmts, "challenge"))
            && (r.outcome.rateLimitSecs.Some? <==> m.outcome.rateLimitSecs.Some? || Calls(stmts, "rate_limit"))
            && (m.fired == r.fired || Calls(stmts, "retract"))
            && |r.outcome.logMessages| == |m.outcome.logMessages| + LogCount(stmts)
            && r.scratch.Keys == m.scratch.Keys + Targets(stmts)
  {
    if stmts != [] {
      PerformAllEffects(stmts[1..], Perform(stmts[0], m, env), env);
      FirstStatement(stmts);
      PerformEffects(stmts[0], m, env);
      hide Calls, Targets, Perform;
    }
  }

  predicate IsCall(s: Stmt, name: string) { s.Do? && s.action.name == name }

  lemma PerformEffects(s: Stmt, m: Memory, env: Env)
    ensures var r := Perform(s, m, env);
            && (r.outcome.blockReason.Some? <==> m.outcome.blockReason.Some? || IsCall(s, "block"))
            && (r.outcome.allow <==> m.outcome.allow || IsCall(s, "allow"))
            && (r.outcome.challenge.Some? <==> m.outcome.challenge.Some? || IsCall(s, "challenge"))
            && (r.outcome.rateLimitSecs.Some? <==> m.outcome.rateLimitSecs.Some? || IsCall(s, "rate_limit"))
            && (m.fired == r.fired || IsCall(s, "retract"))
            && |r.outcome.logMessages| == |m.outcome.logMessages| +
                 (if s.Do? && s.action.name !in {"block", "allow", "challenge", "rate_limit", "retract"} then 1 else 0)
            && r.scratch.Keys == m.scratch.Keys + (if s.Assign? then {s.target} else {})
  {
  }

  lemma FirstStatement(stmts: seq<Stmt>)
    requires stmts != []
    ensures forall name :: Calls(stmts, name) <==>
                           (stmts[0].Do? && stmts[0].action.name == name) || Calls(stmts[1..], name)
    ensures Targets(stmts) == (if stmts[0].Assign? then {stmts[0].target} else {}) + Targets(stmts[1..])
  {
    assert stmts[0] in stmts && forall s <- stmts[1..] :: s in stmts;
    assert forall s <- stmts :: s == stmts[0] || s in stmts[1..];
  }

  lemma {:induction false} PerformAllConcat(a: seq<Stmt>, b: seq<Stmt>, m: Memory, env: Env)
    ensures PerformAll(a + b, m, env) == PerformAll(b, PerformAll(a, m, env), env)
  {
    if a == [] {
      assert a + b == b;
    } else {
      assert (a + b)[1..] == a[1..] + b;
      PerformAllConcat(a[1..], b, Perform(a[0], m, env), env);
    }
  }

  /** Of several `block`, `challenge` or `rate_limit` actions in a rule, the last one's
      reason, kind or delay stays, computed from the overlay at that point. */
  lemma LastActionWins(before: seq<Stmt>, call: CallExpr, after: seq<Stmt>, m: Memory, env: Env)
    requires !Calls(after, call.name)
    ensures var args := EvalArgs(call.args, env, PerformAll(before, m, env).scratch);
            var o := PerformAll(before + [Do(call)] + after, m, env).outcome;
            && (call.name == "block" ==> o.blockReason == Some(Arg(args, 0)))
            && (call.name == "challenge" ==> o.challenge == Some(if Arg(args, 0) == "pow" then Pow else Js))
            && (call.name == "rate_limit" ==>
                  && o.rateLimitSecs.Some? && o.rateLimitSecs.value < 0x1_0000_0000_0000_0000
                  && Cong(o.rateLimitSecs.value, if args == [] then 60 else args[0].AsInt()))
  {
    hide *;
    var mid := PerformAll(before, m, env);
    PerformAllConcat(before + [Do(call)], after, m, env);
    PerformAllConcat(before, [Do(call)], m, env);
    ActionValue(call, mid, env);
    NoCallKeepsValue(after, call.name, PerformAll([Do(call)], mid, env), env);
  }

  lemma ActionValue(call: CallExpr, m: Memory, env: Env)
    ensures var args := EvalArgs(call.args, env, m.scratch);
            var o := PerformAll([Do(call)], m, env).outcome;
            && (call.name == "block" ==> o.blockReason == Some(Arg(args, 0)))
            && (call.name == "challenge" ==> o.challenge == Some(if Arg(args, 0) == "pow" then Pow else Js))
            && (call.name == "rate_limit" ==>
                  && o.rateLimitSecs.Some? && o.rateLimitSecs.value < 0x1_0000_0000_0000_0000
                  && Cong(o.rateLimitSecs.value, if args == [] then 60 else args[0].AsInt()))
  {
    hide EvalArgs, Value.AsInt;
    assert [Do(call)][1..] == [];
    assert PerformAll([Do(call)], m, env) == Act(call, m, env);
  }

  lemma {:induction false} NoCallKeepsValue(stmts: seq<Stmt>, name: string, m: Memory, env: Env)
    requires !Calls(stmts, name)
    ensures var o := PerformAll(stmts, m, env).outcome;
            && (name == "block" ==> o.blockReason == m.outcome.blockReason)
            && (name == "challenge" ==> o.challenge == m.outcome.challenge)
            && (name == "rate_limit" ==> o.rateLimitSecs == m.outcome.rateLimitSecs)
  {
    if stmts != [] {
      FirstStatement(stmts);
      NoCallKeepsValue(stmts[1..], name, Perform(stmts[0], m, env), env);
    }
  }

  /** A rule that fires while nothing is decided ends the run exactly if it contains a
      `block` or an `allow` action. */
  lemma FiringDecides(r: Production, m: Memory, env: Env)
    requires !m.outcome.Decided()
    ensures FireRule(r.name, r.actions, m, env).outcome.Decided() <==> Calls(r.actions, "block") || Calls(r.actions, "allow")
  {
    PerformAllEffects(r.actions, Recorded(r.name, m), env);
  }

  // ----- which rule fires -----

  /** Of the eligible productions, one of greatest salience fires, and of those the first as
      written. */
  lemma GreatestSalienceFires(ps: seq<Production>, m: Memory)
    requires Next(SortDesc(ps, (r: Production) => r.salience), m) < |ps|
    ensures var sorted := SortDesc(ps, (r: Production) => r.salience);
            var fired := sorted[Next(sorted, m)];
            var peers := WithKey(ps, fired.salience, (r: Production) => r.salience);
            && fired in ps
            && (forall r <- ps :: Eligible(r, m) ==> r.salience <= fired.salience)
            && Next(peers, m) < |peers| && peers[Next(peers, m)] == fired
  {
    var key := (r: Production) => r.salience;
    var sorted := SortDesc(ps, key);
    SortDescIsStable(ps, key);
    var i := Next(sorted, m);
    PeersInOrder(sorted, i, m, key);
    assert WithKey(sorted, sorted[i].salience, key) == WithKey(ps, sorted[i].salience, key);
    hide WithKey;
    FirstIsGreatest(ps, sorted, m);
  }

  lemma FirstIsGreatest(ps: seq<Production>, sorted: seq<Production>, m: Memory)
    requires multiset(sorted) == multiset(ps) && Descending(sorted, (r: Production) => r.salience)
    requires Next(sorted, m) < |sorted|
    ensures var fired := sorted[Next(sorted, m)];
            fired in ps && forall r <- ps :: Eligible(r, m) ==> r.salience <= fired.salience
  {
    var i := Next(sorted, m);
    assert sorted[i] in multiset(ps);
    hide Eligible;
    forall r <- ps | Eligible(r, m)
      ensures r.salience <= sorted[i].salience
    {
      assert r in multiset(sorted);
      var j :| 0 <= j < |sorted| && sorted[j] == r;
      assert i <= j;
    }
  }

  lemma PeersInOrder(ps: seq<Production>, i: nat, m: Memory, key: Production -> int)
    requires i < |ps| && Next(ps, m) == i
    ensures var peers := WithKey(ps, key(ps[i]), key);
            Next(peers, m) < |peers| && peers[Next(peers, m)] == ps[i]
  {
    var k := key(ps[i]);
    var ahead, peers := WithKey(ps[..i], k, key), WithKey(ps, k, key);
    assert ps[..i + 1][..i] == ps[..i];
    assert WithKey(ps[..i + 1], k, key) == ahead + [ps[i]];
    WithKeyPrefix(ps, i + 1, k, key);
    WithKeySubset(ps[..i], k, key);
    hide Eligible, WithKey;
    forall j | 0 <= j < |ahead|
      ensures !Eligible(peers[j], m)
    {
      assert peers[j] == (ahead + [ps[i]])[j] == ahead[j];
      assert ahead[j] in ahead;
    }
    assert peers[|ahead|] == (ahead + [ps[i]])[|ahead|] == ps[i];
    assert Next(peers, m) == |ahead|;
  }

  /** Rules of pairwise distinct salience run the same in whatever order they are loaded. */
  lemma LoadOrderDoesNotMatter(rules: seq<RuleAst>, rules': seq<RuleAst>)
    requires multiset(rules) == multiset(rules')
    requires forall i, j | 0 <= i < j < |rules| :: rules[i].salience != rules[j].salience
    ensures BySalience(rules) == BySalience(rules')
  {
    var key := (r: RuleAst) => r.salience;
    SortDescIsStable(rules, key);
    SortDescIsStable(rules', key);
    InjectiveOnMembers(rules);
    StrictOrderUnique(BySalience(rules), BySalience(rules'), key);
  }

  ghost predicate KeyInjective(xs: seq<RuleAst>, key: RuleAst -> int) {
    forall i, j | 0 <= i < |xs| && 0 <= j < |xs| && key(xs[i]) == key(xs[j]) :: xs[i] == xs[j]
  }

  /** Two descending arrangements of the same elements are equal if equal keys mean equal
      elements. */
  lemma {:induction false} StrictOrderUnique(xs: seq<RuleAst>, ys: seq<RuleAst>, key: RuleAst -> int)
    requires Descending(xs, key) && Descending(ys, key) && multiset(xs) == multiset(ys)
    requires KeyInjective(xs, key)
    ensures xs == ys
    decreases |xs|
  {
    SameLength(xs, ys);
    if xs != [] {
      LastsAgree(xs, ys, key);
      WithoutLast(xs);
      WithoutLast(ys);
      StrictOrderUnique(xs[..|xs| - 1], ys[..|ys| - 1], key);
    }
  }

  lemma SameLength<T>(xs: seq<T>, ys: seq<T>)
    requires multiset(xs) == multiset(ys)
    ensures |xs| == |ys|
  {
    assert |multiset(xs)| == |xs| && |multiset(ys)| == |ys|;
  }

  lemma WithoutLast<T>(xs: seq<T>)
    requires xs != []
    ensures xs == xs[..|xs| - 1] + [xs[|xs| - 1]]
    ensures multiset(xs[..|xs| - 1]) == multiset(xs) - multiset{xs[|xs| - 1]}
  {
    assert xs == xs[..|xs| - 1] + [xs[|xs| - 1]];
  }

  lemma LastsAgree(xs: seq<RuleAst>, ys: seq<RuleAst>, key: RuleAst -> int)
    requires xs != [] && ys != []
    requires Descending(xs, key) && Descending(ys, key) && multiset(xs) == multiset(ys)
    requires KeyInjective(xs, key)
    ensures xs[|xs| - 1] == ys[|ys| - 1]
  {
    var x, y := xs[|xs| - 1], ys[|ys| - 1];
    assert x in multiset(ys) && y in multiset(xs);
    var i :| 0 <= i < |ys| && ys[i] == x;
    var j :| 0 <= j < |xs| && xs[j] == y;
    assert key(ys[i]) >= key(y) && key(xs[j]) >= key(x);
  }

  lemma InjectiveOnMembers(rules: seq<RuleAst>)
    requires forall i, j | 0 <= i < j < |rules| :: rules[i].salience != rules[j].salience
    ensures KeyInjective(BySalience(rules), (r: RuleAst) => r.salience)
  {
    var sorted := BySalience(rules);
    SortDescIsStable(rules, (r: RuleAst) => r.salience);
    forall i, j | 0 <= i < |sorted| && 0 <= j < |sorted| && sorted[i].salience == sorted[j].salience
      ensures sorted[i] == sorted[j]
    {
      assert sorted[i] in multiset(rules) && sorted[j] in multiset(rules);
      var k :| 0 <= k < |rules| && rules[k] == sorted[i];
      var l :| 0 <= l < |rules| && rules[l] == sorted[j];
    }
  }

  // ----- whole runs -----

  function Names(ps: seq<Production>): set<string> { set i | 0 <= i < |ps| :: ps[i].name }

  /** `r` extends the matched rules of `m`. */
  predicate Extends(m: Memory, r: Memory) { m.outcome.matchedRules <= r.outcome.matchedRules }

  /** The names matched between `m` and `r`. */
  function Since(m: Memory, r: Memory): seq<string>
    requires Extends(m, r)
  {
    r.outcome.matchedRules[|m.outcome.matchedRules|..]
  }

  /** A run appends at most `cycles` rule names, none of them twice and none that had
      fired or been retracted before, and records all of them as fired.  It stops because
      the outcome is decided, no rule is eligible, or all cycles are used. */
  lemma {:induction false} RunFiresFreshNames(ps: seq<Production>, m: Memory, env: Env, cycles: nat)
    ensures var r := Play(ps, m, env, cycles);
            && Extends(m, r)
            && |Since(m, r)| <= cycles
            && NoDuplicates(Since(m, r))
            && Members(Since(m, r)) !! m.fired
            && m.fired + Members(Since(m, r)) <= r.fired
            && Members(Since(m, r)) <= Names(ps)
            && (r.outcome.Decided() || Next(ps, r) == |ps| || |Since(m, r)| == cycles)
    decreases cycles
  {
    var i := Next(ps, m);
    if cycles > 0 && i < |ps| {
      var rule := ps[i];
      var next := FireRule(rule.name, rule.actions, m, env);
      FireRuleRecords(rule.name, rule.actions, m, env);
      assert rule in ps;
      hide FireRule, Next;
      var r := Play(ps, m, env, cycles);
      if next.outcome.Decided() {
        assert Since(m, r) == [rule.name];
      } else {
        RunFiresFreshNames(ps, next, env, cycles - 1);
        hide Play, Names, Eligible;
        SinceStep(m, next, r, rule.name);
      }
    }
  }

  /** A run that goes on from `next` has matched one name more since `m`. */
  lemma SinceStep(m: Memory, next: Memory, r: Memory, name: string)
    requires next.outcome.matchedRules == m.outcome.matchedRules + [name] && name in next.fired
    requires Extends(next, r) && NoDuplicates(Since(next, r)) && Members(Since(next, r)) !! next.fired
    ensures Extends(m, r) && Since(m, r) == [name] + Since(next, r)
    ensures Members(Since(m, r)) == {name} + Members(Since(next, r)) && NoDuplicates(Since(m, r))
  {
    var rest := Since(next, r);
    assert Since(m, r) == [name] + rest;
    MembersOfCons(name, rest);
    assert forall i | 0 <= i < |rest| :: rest[i] in Members(rest);
  }

  lemma MembersOfCons<T>(x: T, xs: seq<T>)
    ensures Members([x] + xs) == {x} + Members(xs)
  {
    assert ([x] + xs)[0] == x && forall i | 0 <= i < |xs| :: ([x] + xs)[i + 1] == xs[i];
  }

  /** One cycle of a run. */
  lemma RunStep(ps: seq<Production>, m: Memory, env: Env, cycles: nat)
    requires cycles > 0 && Next(ps, m) < |ps|
    ensures var r := ps[Next(ps, m)];
            var next := FireRule(r.name, r.actions, m, env);
            Play(ps, m, env, cycles) == if next.outcome.Decided() then next else Play(ps, next, env, cycles - 1)
  {
  }

  /** Runs can be cut anywhere: the first part decides the outcome and is the whole
      run, or the second part continues from where it stopped. */
  lemma {:induction false} RunSplits(ps: seq<Production>, m: Memory, env: Env, a: nat, b: nat)
    requires !m.outcome.Decided()
    ensures var mid := Play(ps, m, env, a);
            Play(ps, m, env, a + b) == if mid.outcome.Decided() then mid else Play(ps, mid, env, b)
    decreases a
  {
    var i := Next(ps, m);
    if a > 0 && i < |ps| {
      RunStep(ps, m, env, a);
      RunStep(ps, m, env, a + b);
      var next := FireRule(ps[i].name, ps[i].actions, m, env);
      hide Play, FireRule, Next;
      if !next.outcome.Decided() {
        RunSplits(ps, next, env, a - 1, b);
      }
    }
  }

  /** Whatever had fired or been retracted after `a` cycles does not fire in the rest. */
  lemma RetractedNeverFires(ps: seq<Production>, m: Memory, env: Env, a: nat, b: nat, name: string)
    requires !m.outcome.Decided()
    requires name in Play(ps, m, env, a).fired
    ensures var mid, end := Play(ps, m, env, a), Play(ps, m, env, a + b);
            Extends(mid, end) && name !in Since(mid, end)
  {
    RunSplits(ps, m, env, a, b);
    var mid := Play(ps, m, env, a);
    if !mid.outcome.Decided() {
      RunFiresFreshNames(ps, mid, env, b);
      assert name !in Members(Since(mid, Play(ps, mid, env, b)));
    }
  }

  /** After a rule with a `retract` action has fired, the rule it names does not fire. */
  lemma RetractPreventsFiring(name: string, before: seq<Stmt>, call: CallExpr, after: seq<Stmt>,
                              m: Memory, ps: seq<Production>, env: Env, cycles: nat)
    requires call.name == "retract"
    ensures var start := Recorded(name, m);
            var retracted := Arg(EvalArgs(call.args, env, PerformAll(before, start, env).scratch), 0);
            var next := FireRule(name, before + [Do(call)] + after, m, env);
            var end := Play(ps, next, env, cycles);
            retracted in next.fired && Extends(next, end) && retracted !in Since(next, end)
  {
    var start := Recorded(name, m);
    PerformAllConcat(before + [Do(call)], after, start, env);
    PerformAllConcat(before, [Do(call)], start, env);
    assert [Do(call)][1..] == [];
    var mid := PerformAll(before, start, env);
    assert PerformAll([Do(call)], mid, env) == Act(call, mid, env);
    PerformAllKeeps(after, Act(call, mid, env), env);
    hide PerformAll, EvalArgs, Act;
    var retracted := Arg(EvalArgs(call.args, env, mid.scratch), 0);
    var next := FireRule(name, before + [Do(call)] + after, m, env);
    NeverFiresAgain(ps, next, env, cycles, retracted);
  }

  lemma NeverFiresAgain(ps: seq<Production>, m: Memory, env: Env, cycles: nat, name: string)
    requires name in m.fired
    ensures var r := Play(ps, m, env, cycles);
            Extends(m, r) && name !in Since(m, r)
  {
    RunFiresFreshNames(ps, m, env, cycles);
    assert name !in Members(Since(m, Play(ps, m, env, cycles)));
  }

  /** Only the last rule that fires can decide the outcome: a run of fewer cycles that
      fired fewer rules is undecided. */
  lemma OnlyTheLastRuleDecides(ps: seq<Production>, m: Memory, env: Env, a: nat, b: nat)
    requires !m.outcome.Decided()
    requires |Play(ps, m, env, a).outcome.matchedRules| < |Play(ps, m, env, a + b).outcome.matchedRules|
    ensures !Play(ps, m, env, a).outcome.Decided()
  {
    RunSplits(ps, m, env, a, b);
  }

  /** The cycle cap is never the only reason to stop when there are no more distinct names
      than cycles. */
  lemma CapIsNotTheReason(ps: seq<Production>, env: Env, cycles: nat)
    requires |Names(ps)| <= cycles
    ensures var r := Play(ps, START, env, cycles);
            r.outcome.Decided() || Next(ps, r) == |ps|
  {
    RunFiresFreshNames(ps, START, env, cycles);
    var r := Play(ps, START, env, cycles);
    var names := Since(START, r);
    DistinctCount(names);
    SubsetCount(Members(names), Names(ps));
    if |names| == cycles {
      assert Members(names) == Names(ps);
      forall i | 0 <= i < |ps|
        ensures !Eligible(ps[i], r)
      {
        assert ps[i] in ps;
        assert ps[i].name in Names(ps);
      }
    }
  }

  /** What a run from the empty memory ends with: the matched rules are distinct, at most
      sixteen, names of productions, and all fired; and the cap alone stopped the run only
      if there are more than sixteen names. */
  ghost predicate Orderly(ps: seq<Production>, r: Memory) {
    && NoDuplicates(r.outcome.matchedRules)
    && |r.outcome.matchedRules| <= 16
    && Members(r.outcome.matchedRules) <= r.fired
    && Members(r.outcome.matchedRules) <= Names(ps)
    && (|| r.outcome.Decided()
        || Next(ps, r) == |ps|
        || (|r.outcome.matchedRules| == 16 && |Names(ps)| > 16))
  }

  /** Every run the engine makes is orderly. */
  lemma RunIsOrderly(ps: seq<Production>, env: Env)
    ensures Orderly(ps, Play(ps, START, env, MAX_CYCLES))
  {
    RunFiresFreshNames(ps, START, env, MAX_CYCLES);
    var r := Play(ps, START, env, MAX_CYCLES);
    assert Since(START, r) == r.outcome.matchedRules;
    if |Names(ps)| <= MAX_CYCLES { CapIsNotTheReason(ps, env, MAX_CYCLES); }
  }

  /** The production may fire whatever has been assigned. */
  ghost predicate AlwaysHolds(p: Production) { forall scratch :: p.holds(scratch) }

  /** Its statements neither decide the outcome nor retract a rule. */
  predicate Quiet(p: Production) {
    !Calls(p.actions, "block") && !Calls(p.actions, "allow") && !Calls(p.actions, "retract")
  }

  /** With more than sixteen rules that always hold and, say, only log or assign, the cap
      does stop the run: sixteen fire and the seventeenth is still eligible. */
  lemma CapStopsTheRun(ps: seq<Production>, env: Env)
    requires |ps| > MAX_CYCLES
    requires forall p <- ps :: AlwaysHolds(p) && Quiet(p)
    requires forall i, j | 0 <= i < j < |ps| :: ps[i].name != ps[j].name
    ensures var r := Play(ps, START, env, MAX_CYCLES);
            && !r.outcome.Decided()
            && Next(ps, r) == MAX_CYCLES < |ps|
  {
    FiresInOrder(ps, START, env, MAX_CYCLES, 0);
  }

  lemma {:induction false} FiresInOrder(ps: seq<Production>, m: Memory, env: Env, cycles: nat, done: nat)
    requires done + cycles < |ps| && !m.outcome.Decided()
    requires forall p <- ps :: AlwaysHolds(p) && Quiet(p)
    requires forall i, j | 0 <= i < j < |ps| :: ps[i].name != ps[j].name
    requires forall i | 0 <= i < |ps| :: ps[i].name in m.fired <==> i < done
    ensures var r := Play(ps, m, env, cycles);
            && !r.outcome.Decided()
            && Next(ps, r) == done + cycles
    decreases cycles
  {
    assert ps[done] in ps;
    assert Eligible(ps[done], m);
    assert forall j | 0 <= j < done :: !Eligible(ps[j], m);
    assert Next(ps, m) == done;
    if cycles > 0 {
      QuietFiring(ps[done], m, env);
      hide FireRule, AlwaysHolds, Quiet, Eligible;
      FiresInOrder(ps, FireRule(ps[done].name, ps[done].actions, m, env), env, cycles - 1, done + 1);
    }
  }

  lemma QuietFiring(p: Production, m: Memory, env: Env)
    requires Quiet(p) && !m.outcome.Decided()
    ensures var next := FireRule(p.name, p.actions, m, env);
            !next.outcome.Decided() && next.fired == m.fired + {p.name}
  {
    PerformAllEffects(p.actions, Recorded(p.name, m), env);
    hide PerformAll, Calls;
  }

  /** A production that allows the request does not make it pass if one before it has
      challenged: `allow` ends the run, but the challenge stays. */
  lemma ChallengeStays(ps: seq<Production>, env: Env)
    requires |ps| == 2 && AlwaysHolds(ps[0]) && AlwaysHolds(ps[1])
    requires ps[0].name == "Challenge" && ps[0].actions == [Do(CallExpr("challenge", []))]
    requires ps[1].name == "Allow" && ps[1].actions == [Do(CallExpr("allow", []))]
    ensures var o := Play(ps, START, env, MAX_CYCLES).outcome;
            o.allow && OutcomeToDecision(o) == ChallengeClient(Js)
  {
    var challenge, allow := ps[0].actions, ps[1].actions;
    assert challenge[1..] == [] && allow[1..] == [];
    var m1 := FireRule("Challenge", challenge, START, env);
    assert [] + ["Challenge"] == ["Challenge"];
    assert PerformAll(challenge, Recorded("Challenge", START), env)
        == Perform(challenge[0], Recorded("Challenge", START), env);
    assert m1.outcome.challenge == Some(Js) && !m1.outcome.Decided() && m1.fired == {"Challenge"};
    assert Next(ps, START) == 0;
    RunStep(ps, START, env, MAX_CYCLES);
    assert Next(ps, m1) == 1;
    RunStep(ps, m1, env, MAX_CYCLES - 1);
    PerformAllEffects(allow, Recorded("Allow", m1), env);
    assert allow[0] in allow;
  }

  /** Nothing but permission has been decided. */
  predicate Unimpeded(o: Outcome) { o.blockReason.None? && o.challenge.None? && o.rateLimitSecs.None? }

  /** After a rule has fired, the request passes exactly if no rule before it has blocked,
      challenged or limited and it does not do so itself, whether or not it allows. */
  lemma PassesExactly(r: Production, m: Memory, env: Env)
    ensures OutcomeToDecision(FireRule(r.name, r.actions, m, env).outcome) == AllowRequest <==>
              && Unimpeded(m.outcome)
              && !Calls(r.actions, "block") && !Calls(r.actions, "challenge") && !Calls(r.actions, "rate_limit")
  {
    PerformAllEffects(r.actions, Recorded(r.name, m), env);
    hide PerformAll, Calls;
  }

  // ----- non-interference -----

  lemma {:induction false} PerformAllWritesTargets(stmts: seq<Stmt>, paths: set<Path>, m: Memory, env: Env)
    requires paths !! Targets(stmts)
    ensures AgreeOn(paths, m.scratch, PerformAll(stmts, m, env).scratch)
  {
    if stmts != [] {
      assert stmts[0] in stmts;
      assert Targets(stmts[1..]) <= Targets(stmts);
      assert stmts[0].Assign? ==> stmts[0].target in Targets(stmts);
      PerformAllWritesTargets(stmts[1..], paths, Perform(stmts[0], m, env), env);
    }
  }

  /** Firing a rule can change the truth of a condition only through an assignment to a
      path written in that condition. */
  lemma FiringKeepsConditions(e: Expr, name: string, actions: seq<Stmt>, m: Memory, env: Env)
    requires PathsOf(e) !! Targets(actions)
    ensures Holds(e, env, FireRule(name, actions, m, env).scratch) == Holds(e, env, m.scratch)
  {
    PerformAllWritesTargets(actions, PathsOf(e), Recorded(name, m), env);
    EvalReadsOnlyItsPaths(e, env, m.scratch, FireRule(name, actions, m, env).scratch);
  }

  /** An alpha node depends only on the paths written in its expression, whether or not
      its regex is precompiled. */
  lemma AlphaReadsOnlyItsPaths(e: Expr, id: AlphaId, env: Env, s: Scratch, t: Scratch)
    requires AgreeOn(PathsOf(e), s, t)
    ensures EvalAlpha(NodeOf(e, id, env.host), env, s) == EvalAlpha(NodeOf(e, id, env.host), env, t)
  {
    match CompileAlpha(e, env.host)
    case None =>
      EvalReadsOnlyItsPaths(e, env, s, t);
    case Some(MatchesRegex(haystack, _)) =>
      assert PathsOf(haystack) <= PathsOf(e);
      EvalReadsOnlyItsPaths(haystack, env, s, t);
  }

  /** Firing a rule can change an alpha node only through an assignment to a path written
      in its expression. */
  lemma FiringKeepsAlphas(e: Expr, id: AlphaId, name: string, actions: seq<Stmt>, m: Memory, env: Env)
    requires PathsOf(e) !! Targets(actions)
    ensures var node := NodeOf(e, id, env.host);
            EvalAlpha(node, env, FireRule(name, actions, m, env).scratch) == EvalAlpha(node, env, m.scratch)
  {
    PerformAllWritesTargets(actions, PathsOf(e), Recorded(name, m), env);
    AlphaReadsOnlyItsPaths(e, id, env, m.scratch, FireRule(name, actions, m, env).scratch);
  }

  /** The nodes to recompute after a rule with these actions has fired. */
  predicate Touched(e: Expr, actions: seq<Stmt>) { !(PathsOf(e) !! Targets(actions)) }

  /** Recomputing only the touched nodes gives the vector the next cycle computes. */
  lemma RecomputeOnlyTouched(tests: seq<Expr>, name: string, actions: seq<Stmt>, m: Memory, env: Env)
    ensures var next := FireRule(name, actions, m, env).scratch;
            var before := AlphaVector(NodesOf(tests, env.host), env, m.scratch);
            var after := AlphaVector(NodesOf(tests, env.host), env, next);
            forall i | 0 <= i < |tests| ::
              after[i] == if Touched(tests[i], actions) then EvalAlpha(NodeOf(tests[i], i, env.host), env, next) else before[i]
  {
    forall i | 0 <= i < |tests| && !Touched(tests[i], actions)
      ensures EvalAlpha(NodeOf(tests[i], i, env.host), env, FireRule(name, actions, m, env).scratch)
              == EvalAlpha(NodeOf(tests[i], i, env.host), env, m.scratch)
    {
      FiringKeepsAlphas(tests[i], i, name, actions, m, env);
    }
  }

  // ----- one pass -----

  /** Whether the production may fire depends on no other paths than its own. */
  ghost predicate Local(p: Production) {
    forall s, t | AgreeOn(p.paths, s, t) :: p.holds(s) == p.holds(t)
  }

  lemma RulesAreLocal(rules: seq<RuleAst>, env: Env)
    ensures forall p <- RuleAgenda(rules, env) :: Local(p)
  {
    forall i | 0 <= i < |rules|
      ensures Local(RuleProduction(rules[i], env))
    {
      forall s, t | AgreeOn(PathsOf(rules[i].when), s, t)
        ensures Holds(rules[i].when, env, s) == Holds(rules[i].when, env, t)
      {
        EvalReadsOnlyItsPaths(rules[i].when, env, s, t);
      }
    }
  }

  /** No rule assigns a path that the condition of a rule ahead of it depends on. */
  ghost predicate AssignsForward(ps: seq<Production>) {
    forall i, j | 0 <= j < i < |ps| :: ps[j].paths !! Targets(ps[i].actions)
  }

  /** One pass over the productions in order, firing each that is eligible when its turn
      comes. */
  function Scan(ps: seq<Production>, m: Memory, env: Env, cycles: nat): Memory {
    if ps == [] || cycles == 0 then m
    else if !Eligible(ps[0], m) then Scan(ps[1..], m, env, cycles)
    else
      var next := FireRule(ps[0].name, ps[0].actions, m, env);
      if next.outcome.Decided() then next else Scan(ps[1..], next, env, cycles - 1)
  }

  /** A production ahead of the firing one stays ineligible. */
  lemma StaysIneligible(ps: seq<Production>, k: nat, m: Memory, env: Env)
    requires k < |ps| && AssignsForward(ps) && forall p <- ps :: Local(p)
    requires forall j | 0 <= j < k :: !Eligible(ps[j], m)
    ensures var next := FireRule(ps[k].name, ps[k].actions, m, env);
            forall j | 0 <= j <= k :: !Eligible(ps[j], next)
  {
    var next := FireRule(ps[k].name, ps[k].actions, m, env);
    FireRuleRecords(ps[k].name, ps[k].actions, m, env);
    forall j | 0 <= j < k
      ensures !Eligible(ps[j], next)
    {
      PerformAllWritesTargets(ps[k].actions, ps[j].paths, Recorded(ps[k].name, m), env);
      assert ps[j] in ps && AgreeOn(ps[j].paths, m.scratch, next.scratch);
    }
  }

  /** Unless the outcome is decided, what a firing makes eligible stands further down. */
  ghost predicate StepsOn(ps: seq<Production>, m: Memory, env: Env) {
    var i := Next(ps, m);
    i < |ps| ==>
      var next := FireRule(ps[i].name, ps[i].actions, m, env);
      next.outcome.Decided() || i < Next(ps, next)
  }

  lemma {:induction false} RestartFrom(ps: seq<Production>, k: nat, m: Memory, env: Env, cycles: nat)
    requires k <= |ps| && forall m :: StepsOn(ps, m, env)
    requires forall j | 0 <= j < k :: !Eligible(ps[j], m)
    ensures Play(ps, m, env, cycles) == Scan(ps[k..], m, env, cycles)
    decreases |ps| - k
  {
    if k < |ps| && cycles > 0 {
      assert ps[k..][0] == ps[k] && ps[k..][1..] == ps[k + 1..];
      if Eligible(ps[k], m) {
        var next := FireRule(ps[k].name, ps[k].actions, m, env);
        assert Next(ps, m) == k;
        assert StepsOn(ps, m, env);
        hide FireRule, Eligible;
        if !next.outcome.Decided() {
          RestartFrom(ps, k + 1, next, env, cycles - 1);
        }
      } else {
        RestartFrom(ps, k + 1, m, env, cycles);
      }
    }
  }

  lemma {:induction false} ScanSkips(ps: seq<Production>, i: nat, m: Memory, env: Env, cycles: nat)
    requires i <= |ps| && forall j | 0 <= j < i :: !Eligible(ps[j], m)
    ensures Scan(ps, m, env, cycles) == Scan(ps[i..], m, env, cycles)
  {
    if i == 0 {
      assert ps[0..] == ps;
    } else if cycles > 0 {
      assert ps[1..][i - 1..] == ps[i..];
      ScanSkips(ps[1..], i - 1, m, env, cycles);
    }
  }

  /** One firing of a scan records the name of a production of the scan, or nothing. */
  lemma {:induction false} ScanOnce(ps: seq<Production>, m: Memory, env: Env)
    ensures var r := Scan(ps, m, env, 1);
            || r.outcome.matchedRules == m.outcome.matchedRules
            || exists name <- Names(ps) :: r.outcome.matchedRules == m.outcome.matchedRules + [name]
  {
    if ps != [] {
      assert forall j | 0 <= j < |ps[1..]| :: ps[1..][j] == ps[j + 1];
      assert ps[0].name in Names(ps) && Names(ps[1..]) <= Names(ps);
      if Eligible(ps[0], m) {
        FireRuleRecords(ps[0].name, ps[0].actions, m, env);
      } else {
        ScanOnce(ps[1..], m, env);
      }
    }
  }

  /** A firing that makes the production at or ahead of it eligible shows in two cycles. */
  lemma StepBackShows(ps: seq<Production>, m: Memory, env: Env)
    requires forall i, j | 0 <= i < j < |ps| :: ps[i].name != ps[j].name
    requires !StepsOn(ps, m, env)
    ensures Play(ps, m, env, 2) != Scan(ps, m, env, 2)
  {
    var i := Next(ps, m);
    var next := FireRule(ps[i].name, ps[i].actions, m, env);
    var k := Next(ps, next);
    FireRuleRecords(ps[i].name, ps[i].actions, m, env);
    assert k < i;
    RunStep(ps, m, env, 2);
    RunStep(ps, next, env, 1);
    FireRuleRecords(ps[k].name, ps[k].actions, next, env);
    var played := Play(ps, m, env, 2).outcome.matchedRules;
    assert played == next.outcome.matchedRules + [ps[k].name];
    ScanSkips(ps, i, m, env, 2);
    assert ps[i..][0] == ps[i] && ps[i..][1..] == ps[i + 1..];
    assert Scan(ps, m, env, 2) == Scan(ps[i + 1..], next, env, 1);
    ScanOnce(ps[i + 1..], next, env);
    hide FireRule, Scan, Play, Next;
    var below := ps[i + 1..];
    assert forall j | 0 <= j < |below| :: below[j].name == ps[i + 1 + j].name;
    forall name <- Names(below)
      ensures next.outcome.matchedRules + [name] != played
    {
      assert (next.outcome.matchedRules + [name])[|played| - 1] == name;
    }
  }

  /** For productions of distinct names, restarting from the top after every firing is one
      pass, from every memory and for every number of cycles, exactly when no firing that
      leaves the run undecided makes one at or ahead of it eligible. */
  lemma RestartingIsOnePassExactly(ps: seq<Production>, env: Env)
    requires forall i, j | 0 <= i < j < |ps| :: ps[i].name != ps[j].name
    ensures (forall m, cycles: nat :: Play(ps, m, env, cycles) == Scan(ps, m, env, cycles))
            <==> (forall m :: StepsOn(ps, m, env))
  {
    if forall m :: StepsOn(ps, m, env) {
      assert ps[0..] == ps;
      forall m, cycles: nat
        ensures Play(ps, m, env, cycles) == Scan(ps, m, env, cycles)
      {
        RestartFrom(ps, 0, m, env, cycles);
      }
    } else {
      var m :| !StepsOn(ps, m, env);
      StepBackShows(ps, m, env);
    }
  }

  /** In particular, whatever the names, when assignments only feed rules further down. */
  lemma RestartingIsOnePass(ps: seq<Production>, m: Memory, env: Env, cycles: nat)
    requires AssignsForward(ps) && forall p <- ps :: Local(p)
    ensures Play(ps, m, env, cycles) == Scan(ps, m, env, cycles)
  {
    forall m
      ensures StepsOn(ps, m, env)
    {
      if Next(ps, m) < |ps| { StaysIneligible(ps, Next(ps, m), m, env); }
    }
    assert ps[0..] == ps;
    RestartFrom(ps, 0, m, env, cycles);
  }

  lemma InterpreterIsOnePass(rules: seq<RuleAst>, m: Memory, env: Env, cycles: nat)
    requires AssignsForward(RuleAgenda(rules, env))
    ensures Interpret(rules, m, env, cycles) == Scan(RuleAgenda(rules, env), m, env, cycles)
  {
    RulesAreLocal(rules, env);
    RestartingIsOnePass(RuleAgenda(rules, env), m, env, cycles);
  }

  /** Without the condition the two differ: a production that enables one ahead of it. */
  lemma BackwardAssignmentNeedsRestart(ps: seq<Production>, flag: Path, env: Env)
    requires |ps| == 2 && ps[0].name == "Reader" && ps[1].name == "Writer"
    requires forall scratch :: ps[0].holds(scratch) == ReadPath(flag, env, scratch).AsBool()
    requires AlwaysHolds(ps[1]) && !env.resolve(flag).AsBool()
    requires ps[0].actions == [Do(CallExpr("log", []))] && ps[1].actions == [Assign(flag, Literal(Bool(true)))]
    ensures Play(ps, START, env, MAX_CYCLES).outcome.matchedRules == ["Writer", "Reader"]
    ensures Scan(ps, START, env, MAX_CYCLES).outcome.matchedRules == ["Writer"]
  {
    var log, write := ps[0].actions, ps[1].actions;
    assert log[1..] == [] && write[1..] == [] && ps[1..][1..] == [];
    var m1 := FireRule("Writer", write, START, env);
    assert NO_OUTCOME.matchedRules + ["Writer"] == ["Writer"] && {} + {"Writer"} == {"Writer"};
    assert PerformAll(write, Recorded("Writer", START), env) == Perform(write[0], Recorded("Writer", START), env);
    assert m1 == Memory(map[flag := Bool(true)], NO_OUTCOME.(matchedRules := ["Writer"]), {"Writer"});
    assert Next(ps, START) == 1;
    RunStep(ps, START, env, MAX_CYCLES);
    var m2 := FireRule("Reader", log, m1, env);
    FireRuleRecords("Reader", log, m1, env);
    PerformAllEffects(log, Recorded("Reader", m1), env);
    assert !m2.outcome.Decided();
    assert m2.outcome.matchedRules == ["Writer", "Reader"];
    assert Next(ps, m1) == 0;
    RunStep(ps, m1, env, MAX_CYCLES - 1);
    assert Next(ps, m2) == 2;
    assert Scan(ps, START, env, 16) == Scan(ps[1..], START, env, 16);
    assert ps[1..][0] == ps[1] && Scan(ps[1..], START, env, 16) == Scan([], m1, env, 15);
  }
}
