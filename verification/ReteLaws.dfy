/** What requests a compiled network decides and how: the functions it depends on, and
    rules that accumulate a score (rete/engine.rs). */
module ReteLaws {
  import opened Text
  import opened Wrappers
  import opened GrlAst
  import opened GrlPrinter
  import opened GrlEval
  import opened GrlLaws
  import opened StableSort
  import opened ReteNetwork
  import opened ReteMeaning
  import opened Firing
  import opened FiringRuns
  import opened FiringLaws
  import opened ReteEngine
  import opened ReteExactness

  lemma SameNode(node: AlphaNode, a: Env, b: Env, scratch: Scratch)
    requires SameAnswers(a, b)
    ensures EvalAlpha(node, a, scratch) == EvalAlpha(node, b, scratch)
  {
    match node.compiled
    case None => EvalUsesOnlyItsFunctions(node.expr, a, b, scratch);
    case Some(MatchesRegex(haystack, _)) => EvalUsesOnlyItsFunctions(haystack, a, b, scratch);
  }

  /** Compiled runs, too, depend on the registry for registered names and on the built-in
      functions for the others only. */
  lemma CompiledRunSameAnswers(rules: seq<RuleAst>, m: Memory, a: Env, b: Env, cycles: nat)
    requires SameAnswers(a, b)
    ensures CompiledRun(rules, m, a, cycles) == CompiledRun(rules, m, b, cycles)
  {
    var tests := Tests(rules, a.host);
    var alphas := NodesOf(tests, a.host);
    var terminals := SortDesc(TerminalsOf(rules, tests, a.host), (t: Terminal) => t.salience);
    forall scratch
      ensures AlphaVector(alphas, a, scratch) == AlphaVector(alphas, b, scratch)
    {
      forall i | 0 <= i < |alphas|
        ensures AlphaVector(alphas, a, scratch)[i] == AlphaVector(alphas, b, scratch)[i]
      {
        SameNode(alphas[i], a, b, scratch);
      }
    }
    hide SameAnswers, Play, Tests, TerminalsOf, SortDesc, NodesOf, AlphaVector, GuardPaths;
    SamePlay(TerminalAgenda(terminals, alphas, a), TerminalAgenda(terminals, alphas, b), m, a, b, cycles);
  }

  /** `when e then block(reason)` */
  function Blocking(e: Expr, reason: string): RuleAst {
    RuleAst("Rule", 0, e, [Do(CallExpr("block", [Literal(Str(reason))]))])
  }

  /** A single rule blocks the requests that its condition holds for and passes the others,
      if its tests share their nodes safely. */
  lemma ConditionDecides(e: Expr, reason: string, env: Env)
    requires SharesSafely([Blocking(e, reason)], env)
    ensures OutcomeToDecision(CompiledRun([Blocking(e, reason)], START, env, MAX_CYCLES).outcome)
            == if Holds(e, env, map[]) then BlockRequest(reason) else AllowRequest
  {
    var rules := [Blocking(e, reason)];
    var block := rules[0].then_;
    assert [rules[0]][..0] == [];
    assert SortDesc(rules, (r: RuleAst) => r.salience) == rules;
    var ps := RuleAgenda(rules, env);
    hide CompiledRun, SharesSafely, SortDesc, EvalExpr, Play, FireRule;
    RunRefinesInterpreter(rules, START, env, MAX_CYCLES);
    Blocks("Rule", reason, START, env);
    if Holds(e, env, map[]) {
      assert Next(ps, START) == 0;
      RunStep(ps, START, env, MAX_CYCLES);
    } else {
      assert Next(ps, START) == 1;
      RunEnds(ps, START, env, MAX_CYCLES);
    }
  }

  /** In particular with a call of a registered function as condition. */
  lemma RegisteredConditionDecides(name: string, args: seq<Expr>, values: seq<Value>, reason: string, env: Env)
    requires name in env.registry && name != "matches" && ValuesOf(values, args, env, map[])
    ensures OutcomeToDecision(CompiledRun([Blocking(Call(CallExpr(name, args)), reason)], START, env, MAX_CYCLES).outcome)
            == if env.registry[name](values).AsBool() then BlockRequest(reason) else AllowRequest
  {
    var e := Call(CallExpr(name, args));
    var rules := [Blocking(e, reason)];
    RegisteredCall(name, args, values, env, map[]);
    assert [rules[0]][..0] == [];
    assert AllLeaves(rules) == [] + [e];
    OneTestSharesSafely(rules, e, env);
    hide CompiledRun, SharesSafely, EvalExpr;
    ConditionDecides(e, reason, env);
  }

  /** One test that is not precompiled shares its node with nothing else. */
  lemma OneTestSharesSafely(rules: seq<RuleAst>, test: Expr, env: Env)
    requires CompileAlpha(test, env.host).None? && forall e <- AllLeaves(rules) :: e == test
    ensures SharesSafely(rules, env)
  {
    hide PrintExpr, AllLeaves;
  }

  const SCORE := Path([Field("Request"), Field("RiskScore")])

  function ScoreAtLeast(n: i64): Expr { Binary(Gte, PathRef(SCORE), Literal(Int(n))) }

  /** Two rules add to the score of the request and a third one blocks from 150 on: it
      blocks, although neither addition alone reaches that. */
  lemma ScoresAccumulate(env: Env)
    requires env.resolve(SCORE) == Int(0)
    ensures var rules := [RuleAst("Query", 30, Literal(Bool(true)), [Increment(SCORE, 80)]),
                          RuleAst("Body", 20, Literal(Bool(true)), [Increment(SCORE, 90)]),
                          RuleAst("Risk", 10, ScoreAtLeast(150), [Do(CallExpr("block", [Literal(Str("risk"))]))])];
            OutcomeToDecision(CompiledRun(rules, START, env, MAX_CYCLES).outcome) == BlockRequest("risk")
  {
    var test := ScoreAtLeast(150);
    var block := [Do(CallExpr("block", [Literal(Str("risk"))]))];
    var a := RuleAst("Query", 30, Literal(Bool(true)), [Increment(SCORE, 80)]);
    var b := RuleAst("Body", 20, Literal(Bool(true)), [Increment(SCORE, 90)]);
    var c := RuleAst("Risk", 10, test, block);
    var rules := [a, b, c];
    ThreeLeaves(a, b, c);
    OneTestSharesSafely(rules, test, env);
    SortThree(a, b, c, (r: RuleAst) => r.salience);
    hide CompiledRun, SharesSafely, SortDesc, Play, AllLeaves;
    RunRefinesInterpreter(rules, START, env, MAX_CYCLES);
    ThreeRules(RuleAgenda(rules, env), env);
  }

  lemma ThreeLeaves(a: RuleAst, b: RuleAst, c: RuleAst)
    requires Leaves(a.when) == [] && Leaves(b.when) == [] && Leaves(c.when) == [c.when]
    ensures AllLeaves([a, b, c]) == [c.when]
  {
    assert [a, b, c][..2] == [a, b];
    LeavesOfTwo(a, b);
  }

  lemma SortThree<T>(a: T, b: T, c: T, key: T -> int)
    requires key(a) >= key(b) >= key(c)
    ensures SortDesc([a, b, c], key) == [a, b, c]
  {
    assert [a, b, c][..2] == [a, b];
    SortTwo(a, b, key);
  }

  lemma ThreeRules(ps: seq<Production>, env: Env)
    requires env.resolve(SCORE) == Int(0) && |ps| == 3
    requires ps[0].name == "Query" && AlwaysHolds(ps[0]) && ps[0].actions == [Increment(SCORE, 80)]
    requires ps[1].name == "Body" && AlwaysHolds(ps[1]) && ps[1].actions == [Increment(SCORE, 90)]
    requires ps[2].name == "Risk" && ps[2].actions == [Do(CallExpr("block", [Literal(Str("risk"))]))]
    requires forall scratch :: ps[2].holds(scratch) == Holds(ScoreAtLeast(150), env, scratch)
    ensures OutcomeToDecision(Play(ps, START, env, MAX_CYCLES).outcome) == BlockRequest("risk")
  {
    var m1 := FireRule("Query", [Increment(SCORE, 80)], START, env);
    var m2 := FireRule("Body", [Increment(SCORE, 90)], m1, env);
    Scored("Query", 80, START, env);
    Scored("Body", 90, m1, env);
    assert ReadPath(SCORE, env, START.scratch) == Int(0);
    assert ReadPath(SCORE, env, m2.scratch) == Int(170);
    assert Holds(ScoreAtLeast(150), env, m2.scratch) by { hide ReadPath; }
    hide FireRule, Holds;
    assert !Eligible(ps[2], START) ==> Next(ps, START) == 0;
    assert Next(ps, START) == 0;
    RunStep(ps, START, env, MAX_CYCLES);
    assert Next(ps, m1) == 1;
    RunStep(ps, m1, env, MAX_CYCLES - 1);
    assert Next(ps, m2) == 2;
    RunStep(ps, m2, env, MAX_CYCLES - 2);
    hide Next, Play;
    Blocks("Risk", "risk", m2, env);
  }

  lemma Scored(name: string, k: i64, m: Memory, env: Env)
    requires ReadPath(SCORE, env, m.scratch).Int? && I64_MIN <= ReadPath(SCORE, env, m.scratch).i + k <= I64_MAX
    ensures var next := FireRule(name, [Increment(SCORE, k)], m, env);
            && ReadPath(SCORE, env, next.scratch) == Int(ReadPath(SCORE, env, m.scratch).i + k)
            && next.fired == m.fired + {name}
            && next.outcome == m.outcome.(matchedRules := m.outcome.matchedRules + [name])
  {
    var inc := [Increment(SCORE, k)];
    assert inc[1..] == [];
    assert PerformAll(inc, Recorded(name, m), env) == Perform(inc[0], Recorded(name, m), env);
    var x := ReadPath(SCORE, env, m.scratch);
    var sum := Binary(Add, PathRef(SCORE), Literal(Int(k)));
    WrapInRange(x.i + k);
    assert EvalExpr(PathRef(SCORE), env, m.scratch) == x && EvalExpr(Literal(Int(k)), env, m.scratch) == Int(k);
    assert EvalExpr(sum, env, m.scratch) == Operate(Add, x, Int(k)) == Int(x.i + k);
  }

  lemma Blocks(name: string, reason: string, m: Memory, env: Env)
    ensures var next := FireRule(name, [Do(CallExpr("block", [Literal(Str(reason))]))], m, env);
            next.outcome.blockReason == Some(reason)
  {
    var block := [Do(CallExpr("block", [Literal(Str(reason))]))];
    assert block[1..] == [];
    assert PerformAll(block, Recorded(name, m), env) == Act(block[0].action, Recorded(name, m), env);
    assert EvalArgs(block[0].action.args, env, m.scratch) == [Str(reason)];
  }
}
