/** What statements compute: the values that assignments store, the lines that are logged,
    and the decision an outcome stands for (rete/engine.rs, rete/working_memory.rs). */
module FiringLaws {
  import opened Text
  import opened Wrappers
  import opened GrlAst
  import opened GrlEval
  import opened GrlLaws
  import opened Firing
  import opened FiringRuns

  // ----- assignments -----

  /** A path that the statements do not assign reads as before them. */
  lemma UnassignedReadsAsBefore(stmts: seq<Stmt>, p: Path, m: Memory, env: Env)
    requires p !in Targets(stmts)
    ensures ReadPath(p, env, PerformAll(stmts, m, env).scratch) == ReadPath(p, env, m.scratch)
  {
    PerformAllWritesTargets(stmts, {p}, m, env);
    assert p in {p};
  }

  /** The last assignment to a path in a rule stores the value of its expression under the
      overlay that the statements before it left. */
  lemma LastAssignmentWins(before: seq<Stmt>, p: Path, e: Expr, after: seq<Stmt>, m: Memory, env: Env)
    requires p !in Targets(after)
    ensures ReadPath(p, env, PerformAll(before + [Assign(p, e)] + after, m, env).scratch)
            == EvalExpr(e, env, PerformAll(before, m, env).scratch)
  {
    var mid := PerformAll(before, m, env);
    PerformAllConcat(before + [Assign(p, e)], after, m, env);
    PerformAllConcat(before, [Assign(p, e)], m, env);
    assert [Assign(p, e)][1..] == [];
    assert PerformAll([Assign(p, e)], mid, env) == Perform(Assign(p, e), mid, env);
    UnassignedReadsAsBefore(after, p, PerformAll(before + [Assign(p, e)], m, env), env);
    hide PerformAll;
  }

  /** `p = p + k` */
  function Increment(p: Path, k: i64): Stmt { Assign(p, Binary(Add, PathRef(p), Literal(Int(k)))) }

  /** A path that was incremented reads as the sum, modulo 2^64. */
  lemma IncrementAdds(before: seq<Stmt>, p: Path, k: i64, after: seq<Stmt>, m: Memory, env: Env)
    requires p !in Targets(after) && !ReadPath(p, env, PerformAll(before, m, env).scratch).Str?
    ensures var v := ReadPath(p, env, PerformAll(before + [Increment(p, k)] + after, m, env).scratch);
            v.Int? && Cong(v.i, ReadPath(p, env, PerformAll(before, m, env).scratch).AsInt() + k)
  {
    var s := PerformAll(before, m, env).scratch;
    LastAssignmentWins(before, p, Binary(Add, PathRef(p), Literal(Int(k))), after, m, env);
    IncrementValue(p, k, env, s);
    hide *;
  }

  lemma IncrementValue(p: Path, k: i64, env: Env, scratch: Scratch)
    requires !ReadPath(p, env, scratch).Str?
    ensures var v := EvalExpr(Binary(Add, PathRef(p), Literal(Int(k))), env, scratch);
            v.Int? && Cong(v.i, ReadPath(p, env, scratch).AsInt() + k)
  {
    var x := ReadPath(p, env, scratch);
    ArithmeticIsModular(x, Int(k));
    assert EvalExpr(PathRef(p), env, scratch) == x && EvalExpr(Literal(Int(k)), env, scratch) == Int(k);
    hide Wrap64, Cong, ReadPath;
  }

  lemma CongSum(v: int, u: int, x: int, j: int, k: int)
    requires Cong(v, u + k) && Cong(u, x + j)
    ensures Cong(v, x + j + k)
  {
  }

  lemma NothingPerformed(m: Memory, env: Env)
    ensures PerformAll([], m, env) == m
  {
  }

  /** Increments add up within a rule. */
  lemma IncrementsAddUp(p: Path, j: i64, k: i64, m: Memory, env: Env)
    requires !ReadPath(p, env, m.scratch).Str?
    ensures var v := ReadPath(p, env, PerformAll([Increment(p, j), Increment(p, k)], m, env).scratch);
            v.Int? && Cong(v.i, ReadPath(p, env, m.scratch).AsInt() + j + k)
  {
    hide PerformAll, ReadPath, Increment, Cong;
    NothingPerformed(m, env);
    assert [] + [Increment(p, j)] + [] == [Increment(p, j)];
    IncrementAdds([], p, j, [], m, env);
    IncrementAdds([Increment(p, j)], p, k, [], m, env);
    assert [Increment(p, j)] + [Increment(p, k)] + [] == [Increment(p, j), Increment(p, k)];
    var u := ReadPath(p, env, PerformAll([Increment(p, j)], m, env).scratch);
    var v := ReadPath(p, env, PerformAll([Increment(p, j), Increment(p, k)], m, env).scratch);
    CongSum(v.i, u.i, ReadPath(p, env, m.scratch).AsInt(), j, k);
  }

  /** Increments of two rules that fire one after the other add up. */
  lemma IncrementsOfRulesAddUp(p: Path, name: string, j: i64, name': string, k: i64, m: Memory, env: Env)
    requires !ReadPath(p, env, m.scratch).Str?
    ensures var next := FireRule(name', [Increment(p, k)], FireRule(name, [Increment(p, j)], m, env), env);
            var v := ReadPath(p, env, next.scratch);
            v.Int? && Cong(v.i, ReadPath(p, env, m.scratch).AsInt() + j + k)
  {
    hide PerformAll, ReadPath, Increment, Cong;
    RuleIncrementAdds(name, p, j, m, env);
    var mid := FireRule(name, [Increment(p, j)], m, env);
    RuleIncrementAdds(name', p, k, mid, env);
    var next := FireRule(name', [Increment(p, k)], mid, env);
    hide FireRule;
    CongSum(ReadPath(p, env, next.scratch).i, ReadPath(p, env, mid.scratch).i, ReadPath(p, env, m.scratch).AsInt(), j, k);
  }

  lemma RuleIncrementAdds(name: string, p: Path, k: i64, m: Memory, env: Env)
    requires !ReadPath(p, env, m.scratch).Str?
    ensures var v := ReadPath(p, env, FireRule(name, [Increment(p, k)], m, env).scratch);
            v.Int? && Cong(v.i, ReadPath(p, env, m.scratch).AsInt() + k)
  {
    hide PerformAll, ReadPath, Increment, Cong;
    NothingPerformed(Recorded(name, m), env);
    assert [] + [Increment(p, k)] + [] == [Increment(p, k)];
    IncrementAdds([], p, k, [], Recorded(name, m), env);
  }

  // ----- log lines -----

  lemma {:induction false} LogGrows(stmts: seq<Stmt>, m: Memory, env: Env)
    ensures m.outcome.logMessages <= PerformAll(stmts, m, env).outcome.logMessages
  {
    if stmts != [] { LogGrows(stmts[1..], Perform(stmts[0], m, env), env); }
  }

  /** `log` appends the text of its argument, empty without one; an action the engine does
      not know appends a line that names it.  Lines stay in the order of the actions. */
  lemma LogAppends(before: seq<Stmt>, call: CallExpr, after: seq<Stmt>, m: Memory, env: Env)
    ensures var mid := PerformAll(before, m, env);
            var log := PerformAll(before + [Do(call)] + after, m, env).outcome.logMessages;
            && m.outcome.logMessages <= mid.outcome.logMessages
            && (call.name == "log" && call.args == [] ==> mid.outcome.logMessages + [""] <= log)
            && (call.name == "log" && call.args != [] ==>
                  mid.outcome.logMessages + [EvalExpr(call.args[0], env, mid.scratch).AsStr()] <= log)
            && (call.name !in {"log", "block", "allow", "challenge", "rate_limit", "retract"} ==>
                  mid.outcome.logMessages + ["unknown action: " + call.name] <= log)
  {
    var mid := PerformAll(before, m, env);
    PerformAllConcat(before + [Do(call)], after, m, env);
    PerformAllConcat(before, [Do(call)], m, env);
    assert [Do(call)][1..] == [];
    assert PerformAll([Do(call)], mid, env) == Act(call, mid, env);
    LogGrows(before, m, env);
    LogGrows(after, Act(call, mid, env), env);
    ArgumentsInOrder(call.args, env, mid.scratch);
    hide PerformAll, EvalArgs;
  }

  /** An action without arguments works as with an empty text. */
  lemma MissingArgument(args: seq<Value>, i: nat)
    ensures i < |args| ==> Arg(args, i) == args[i].AsStr()
    ensures i >= |args| ==> Arg(args, i) == ""
  {
  }

  // ----- decisions -----

  /** A block wins over everything, a challenge over a rate limit, and only what has none
      of them passes. */
  lemma DecisionPrecedence(o: Outcome, reason: string, kind: ChallengeReq, secs: nat)
    ensures OutcomeToDecision(o.(blockReason := Some(reason))) == BlockRequest(reason)
    ensures OutcomeToDecision(o.(blockReason := None, challenge := Some(kind))) == ChallengeClient(kind)
    ensures OutcomeToDecision(o.(blockReason := None, challenge := None, rateLimitSecs := Some(secs))) == LimitRate(secs)
    ensures OutcomeToDecision(o.(blockReason := None, challenge := None, rateLimitSecs := None)) == AllowRequest
  {
  }

  // ----- which functions a run depends on -----

  /** The environments differ at most in what the built-in functions answer for names that
      are registered. */
  ghost predicate SameAnswers(a: Env, b: Env) {
    a.host == b.host && a.resolve == b.resolve && forall name :: SameFunction(name, a, b)
  }

  lemma {:induction false} SamePerformance(stmts: seq<Stmt>, m: Memory, a: Env, b: Env)
    requires SameAnswers(a, b)
    ensures PerformAll(stmts, m, a) == PerformAll(stmts, m, b)
  {
    if stmts != [] {
      SameStep(stmts[0], m, a, b);
      SamePerformance(stmts[1..], Perform(stmts[0], m, a), a, b);
    }
  }

  lemma SameStep(s: Stmt, m: Memory, a: Env, b: Env)
    requires SameAnswers(a, b)
    ensures Perform(s, m, a) == Perform(s, m, b)
  {
    match s
    case Assign(_, value) => EvalUsesOnlyItsFunctions(value, a, b, m.scratch);
    case Do(call) => EvalArgsUseOnlyTheirFunctions(call.args, a, b, m.scratch);
  }

  /** Agendas eligible alike under two such environments run alike. */
  lemma {:induction false} SamePlay(ps: seq<Production>, qs: seq<Production>, m: Memory, a: Env, b: Env, cycles: nat)
    requires SameAnswers(a, b) && |ps| == |qs|
    requires forall i | 0 <= i < |ps| :: ps[i].name == qs[i].name && ps[i].actions == qs[i].actions
    requires forall i, scratch | 0 <= i < |ps| :: ps[i].holds(scratch) == qs[i].holds(scratch)
    ensures Play(ps, m, a, cycles) == Play(qs, m, b, cycles)
    decreases cycles
  {
    assert forall i | 0 <= i < |ps| :: Eligible(ps[i], m) == Eligible(qs[i], m);
    assert Next(ps, m) == Next(qs, m);
    var i := Next(ps, m);
    if cycles > 0 && i < |ps| {
      SamePerformance(ps[i].actions, Recorded(ps[i].name, m), a, b);
      hide Next, SameAnswers;
      SamePlay(ps, qs, FireRule(ps[i].name, ps[i].actions, m, a), a, b, cycles - 1);
    }
  }

  /** The naive interpreter's runs depend on nothing else. */
  lemma InterpretSameAnswers(rules: seq<RuleAst>, m: Memory, a: Env, b: Env, cycles: nat)
    requires SameAnswers(a, b)
    ensures Interpret(rules, m, a, cycles) == Interpret(rules, m, b, cycles)
  {
    var ps, qs := RuleAgenda(rules, a), RuleAgenda(rules, b);
    forall i, scratch | 0 <= i < |rules|
      ensures ps[i].holds(scratch) == qs[i].holds(scratch)
    {
      EvalUsesOnlyItsFunctions(rules[i].when, a, b, scratch);
    }
    hide SameAnswers, Play, Holds;
    SamePlay(ps, qs, m, a, b, cycles);
  }
}
