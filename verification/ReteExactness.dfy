/** The refinement of the naive interpreter asks for no more than it needs, and concrete
    requests on which the engine differs from what one might expect (rete/engine.rs). */
module ReteExactness {
  import opened GrlAst
  import opened GrlPrinter
  import opened GrlEval
  import opened StableSort
  import opened ReteNetwork
  import opened ReteMeaning
  import opened Firing
  import opened FiringRuns
  import opened ReteEngine

  // ----- the refinement needs no less -----

  /** Statements that write the entries of an overlay. */
  lemma Writing(scratch: Scratch) returns (stmts: seq<Stmt>)
    ensures forall m: Memory, env :: PerformAll(stmts, m, env) == m.(scratch := m.scratch + scratch)
  {
    if scratch == map[] {
      stmts := [];
      assert forall m: Memory :: m.scratch + scratch == m.scratch;
    } else {
      var p :| p in scratch;
      var rest := scratch - {p};
      var before := Writing(rest);
      var last := [Assign(p, Literal(scratch[p]))];
      stmts := before + last;
      assert last[1..] == [];
      forall m: Memory, env
        ensures PerformAll(stmts, m, env) == m.(scratch := m.scratch + scratch)
      {
        PerformAllConcat(before, last, m, env);
        assert PerformAll(last, PerformAll(before, m, env), env) == Perform(last[0], PerformAll(before, m, env), env);
        assert (m.scratch + rest)[p := scratch[p]] == m.scratch + scratch;
      }
    }
  }

  /** The statements write the overlay and retract the rule `A`. */
  ghost predicate WritesAndRetracts(stmts: seq<Stmt>, scratch: Scratch) {
    forall m: Memory, env ::
      PerformAll(stmts, m, env) == m.(scratch := m.scratch + scratch, fired := m.fired + {"A"})
  }

  lemma WritingAndRetracting(scratch: Scratch) returns (stmts: seq<Stmt>)
    ensures WritesAndRetracts(stmts, scratch)
  {
    var write := Writing(scratch);
    var retract := [Do(CallExpr("retract", [Literal(Str("A"))]))];
    stmts := write + retract;
    assert retract[1..] == [];
    forall m: Memory, env
      ensures PerformAll(stmts, m, env) == m.(scratch := m.scratch + scratch, fired := m.fired + {"A"})
    {
      PerformAllConcat(write, retract, m, env);
      var mid := PerformAll(write, m, env);
      assert PerformAll(retract, mid, env) == Act(retract[0].action, mid, env);
      assert EvalArgs(retract[0].action.args, env, mid.scratch) == [Str("A")];
    }
  }

  /** `W` fires first, writes the overlay and retracts `A`; then `B` fires if it holds
      under that overlay. */
  lemma AfterWriter(ps: seq<Production>, scratch: Scratch, env: Env)
    requires |ps| == 3 && ps[0].name == "W" && ps[1].name == "A" && ps[2].name == "B"
    requires AlwaysHolds(ps[0]) && ps[2].actions == []
    requires WritesAndRetracts(ps[0].actions, scratch)
    ensures Play(ps, START, env, MAX_CYCLES).outcome.matchedRules == if ps[2].holds(scratch) then ["W", "B"] else ["W"]
  {
    hide WritesAndRetracts;
    WriterFirst(ps, scratch, env);
    hide FireRule, Play, Next, PerformAll;
    ThenB(ps, Memory(scratch, NO_OUTCOME.(matchedRules := ["W"]), {"W", "A"}), env, MAX_CYCLES - 2);
    assert ["W"] + ["B"] == ["W", "B"];
  }

  lemma WriterFirst(ps: seq<Production>, scratch: Scratch, env: Env)
    requires |ps| == 3 && ps[0].name == "W" && AlwaysHolds(ps[0])
    requires WritesAndRetracts(ps[0].actions, scratch)
    ensures Play(ps, START, env, MAX_CYCLES)
            == Play(ps, Memory(scratch, NO_OUTCOME.(matchedRules := ["W"]), {"W", "A"}), env, MAX_CYCLES - 1)
  {
    hide WritesAndRetracts;
    WriterFires(ps[0].actions, scratch, env);
    assert Eligible(ps[0], START);
    assert Next(ps, START) == 0;
    hide FireRule, Play, Next, PerformAll;
    RunStep(ps, START, env, MAX_CYCLES);
  }

  /** With the other two fired or retracted, only `B` is left. */
  lemma ThenB(ps: seq<Production>, m: Memory, env: Env, cycles: nat)
    requires |ps| == 3 && ps[0].name in m.fired && ps[1].name in m.fired && ps[2].name == "B" && ps[2].actions == []
    requires "B" !in m.fired && !m.outcome.Decided()
    ensures Play(ps, m, env, cycles + 1).outcome.matchedRules ==
              if ps[2].holds(m.scratch) then m.outcome.matchedRules + ["B"] else m.outcome.matchedRules
  {
    hide FireRule, Play, Next;
    NextOfThree(ps, m);
    if ps[2].holds(m.scratch) {
      RunStep(ps, m, env, cycles + 1);
      FireNothing("B", m, env);
      NextOfThree(ps, Recorded("B", m));
      RunEnds(ps, Recorded("B", m), env, cycles);
    } else {
      RunEnds(ps, m, env, cycles + 1);
    }
  }

  lemma WriterFires(write: seq<Stmt>, scratch: Scratch, env: Env)
    requires WritesAndRetracts(write, scratch)
    ensures FireRule("W", write, START, env) == Memory(scratch, NO_OUTCOME.(matchedRules := ["W"]), {"W", "A"})
  {
    hide PerformAll;
    var m := Memory(map[], NO_OUTCOME.(matchedRules := ["W"]), {"W"});
    assert Recorded("W", START) == m by {
      assert [] + ["W"] == ["W"] && {} + {"W"} == {"W"};
    }
    FromNothing(scratch);
    assert PerformAll(write, m, env) == m.(scratch := m.scratch + scratch, fired := m.fired + {"A"});
    assert {"W"} + {"A"} == {"W", "A"};
  }

  lemma FromNothing(scratch: Scratch)
    ensures map[] + scratch == scratch
  {
  }

  lemma NextOfThree(ps: seq<Production>, m: Memory)
    requires |ps| == 3 && ps[0].name in m.fired && ps[1].name in m.fired
    ensures Next(ps, m) == if Eligible(ps[2], m) then 2 else 3
  {
  }

  lemma FireNothing(name: string, m: Memory, env: Env)
    ensures FireRule(name, [], m, env) == Recorded(name, m)
  {
  }

  lemma RunEnds(ps: seq<Production>, m: Memory, env: Env, cycles: nat)
    requires Next(ps, m) == |ps|
    ensures Play(ps, m, env, cycles) == m
  {
  }

  /** Two leaves that share a node although they may not, put into two rules, and a third
      that writes the overlay under which they differ. */
  lemma UnsafeSharingShows(x: Expr, y: Expr, env: Env, scratch: Scratch) returns (rules: seq<RuleAst>)
    requires Leaves(x) == [x] && Leaves(y) == [y] && PrintExpr(x, env.host.hidden) == PrintExpr(y, env.host.hidden)
    requires EvalAlpha(NodeOf(y, 0, env.host), env, scratch) != Holds(x, env, scratch)
    ensures AllLeaves(rules) == [y, x]
    ensures CompiledRun(rules, START, env, MAX_CYCLES).outcome != Interpret(BySalience(rules), START, env, MAX_CYCLES).outcome
  {
    var write := WritingAndRetracting(scratch);
    var a, b := RuleAst("A", 0, y, []), RuleAst("B", 0, x, []);
    var w := RuleAst("W", 1, Literal(Bool(true)), write);
    rules := [a, b, w];
    var sorted := [w, a, b];
    TwoRules(a, b, env.host);
    assert rules[..2] == [a, b];
    assert AllLeaves(rules) == AllLeaves([a, b]) + [] == [y, x];
    assert Tests(rules, env.host) == [y];
    LastGoesFirst(a, b, w, (r: RuleAst) => r.salience);
    assert BySalience(rules) == sorted;
    SortCommutes(rules, [y], env.host);
    var ps := TerminalAgenda(TerminalsOf(sorted, [y], env.host), NodesOf([y], env.host), env);
    var qs := RuleAgenda(sorted, env);
    SharedTerminal(x, y, env, scratch);
    hide SortDesc, Tests, AllLeaves, Leaves, PrintExpr, EvalAlpha, AlphaVector, GuardPaths, Play, WritesAndRetracts;
    AfterWriter(ps, scratch, env);
    AfterWriter(qs, scratch, env);
  }

  /** The terminal of a leaf that shares a node holds where the node does. */
  lemma SharedTerminal(x: Expr, y: Expr, env: Env, scratch: Scratch)
    requires Leaves(x) == [x] && PrintExpr(x, env.host.hidden) == PrintExpr(y, env.host.hidden)
    ensures GuardOf(x, [y], env.host).Eval(AlphaVector(NodesOf([y], env.host), env, scratch))
            == EvalAlpha(NodeOf(y, 0, env.host), env, scratch)
  {
    LeafOrBoolean(x, [y], env.host);
    assert KeyIndex([y], PrintExpr(x, env.host.hidden), env.host) == 0;
  }

  /** Over any stock of leaves, every request is decided as the naive interpreter decides
      it, for every list of rules built from them, exactly when leaves that share a node may
      under every overlay. */
  lemma OutcomeExactly(leaves: iset<Expr>, env: Env)
    requires forall e <- leaves :: Leaves(e) == [e]
    ensures (forall rules | LeavesOf(rules) <= leaves ::
               CompiledRun(rules, START, env, MAX_CYCLES).outcome == Interpret(BySalience(rules), START, env, MAX_CYCLES).outcome)
            <==> (forall scratch :: Interchangeable(leaves, env, scratch))
  {
    hide CompiledRun, Interpret, PrintExpr, EvalAlpha, Holds, Leaves, AllLeaves, BySalience;
    if forall scratch :: Interchangeable(leaves, env, scratch) {
      forall rules | LeavesOf(rules) <= leaves
        ensures CompiledRun(rules, START, env, MAX_CYCLES).outcome == Interpret(BySalience(rules), START, env, MAX_CYCLES).outcome
      {
        SafeStock(leaves, rules, env);
        RunRefinesInterpreter(rules, START, env, MAX_CYCLES);
      }
    } else {
      var scratch :| !Interchangeable(leaves, env, scratch);
      var x, y :| x in leaves && y in leaves && PrintExpr(x, env.host.hidden) == PrintExpr(y, env.host.hidden)
                  && EvalAlpha(NodeOf(y, 0, env.host), env, scratch) != Holds(x, env, scratch);
      var rules := UnsafeSharingShows(x, y, env, scratch);
      assert LeavesOf(rules) <= leaves;
    }
  }

  lemma SafeStock(leaves: iset<Expr>, rules: seq<RuleAst>, env: Env)
    requires LeavesOf(rules) <= leaves && forall scratch :: Interchangeable(leaves, env, scratch)
    ensures SharesSafely(rules, env)
  {
    hide PrintExpr, EvalAlpha, Holds, AllLeaves;
    forall scratch
      ensures Interchangeable(LeavesOf(rules), env, scratch)
    {
      assert Interchangeable(leaves, env, scratch);
    }
  }

  /** The same for whole memories, from any memory and for any number of cycles. */
  lemma RefinementExactly(leaves: iset<Expr>, env: Env)
    requires forall e <- leaves :: Leaves(e) == [e]
    ensures (forall rules, m, cycles: nat | LeavesOf(rules) <= leaves ::
               CompiledRun(rules, m, env, cycles) == Interpret(BySalience(rules), m, env, cycles))
            <==> (forall scratch :: Interchangeable(leaves, env, scratch))
  {
    hide CompiledRun, Interpret, Leaves, LeavesOf, Interchangeable, BySalience;
    OutcomeExactly(leaves, env);
    if forall scratch :: Interchangeable(leaves, env, scratch) {
      forall rules, m, cycles: nat | LeavesOf(rules) <= leaves
        ensures CompiledRun(rules, m, env, cycles) == Interpret(BySalience(rules), m, env, cycles)
      {
        SafeStock(leaves, rules, env);
        RunRefinesInterpreter(rules, m, env, cycles);
      }
    }
  }

  // ----- concrete requests -----

  lemma LogThenBlock(ps: seq<Production>, env: Env)
    requires |ps| == 2 && ps[0].name == "Log" && ps[1].name == "Block" && ps[0].holds(map[])
    requires ps[0].actions == [Do(CallExpr("log", [Literal(Str("seen"))]))]
    requires ps[1].actions == [Do(CallExpr("block", [Literal(Str("header"))]))]
    ensures OutcomeToDecision(Play(ps, START, env, MAX_CYCLES).outcome)
            == if ps[1].holds(map[]) then BlockRequest("header") else AllowRequest
  {
    var log, block := ps[0].actions, ps[1].actions;
    assert log[1..] == [] && block[1..] == [];
    assert Next(ps, START) == 0;
    RunStep(ps, START, env, MAX_CYCLES);
    var m1 := FireRule("Log", log, START, env);
    assert PerformAll(log, Recorded("Log", START), env) == Act(log[0].action, Recorded("Log", START), env);
    assert m1.scratch == map[] && m1.fired == {"Log"} && !m1.outcome.Decided() && Unimpeded(m1.outcome);
    if ps[1].holds(map[]) {
      assert Next(ps, m1) == 1;
      RunStep(ps, m1, env, MAX_CYCLES - 1);
      assert PerformAll(block, Recorded("Block", m1), env) == Act(block[0].action, Recorded("Block", m1), env);
      assert EvalArgs(block[0].action.args, env, map[]) == [Str("header")];
    } else {
      assert Next(ps, m1) == 2;
    }
  }

  /** A request with the header `a` and without the header `a"]["b`: the engine blocks it for
      the second, whose test shares a node with `Request.Headers["a"]["b"]`; the interpreter
      lets it pass. */
  lemma SharedHeaderBlocks(env: Env)
    requires env.resolve(Path([Field("Request"), Field("Headers"), Index("a"), Index("b")])) == Str("1")
    requires env.resolve(Path([Field("Request"), Field("Headers"), Index("a\"][\"b")])) == Str("")
    ensures var two := PathRef(Path([Field("Request"), Field("Headers"), Index("a"), Index("b")]));
            var one := PathRef(Path([Field("Request"), Field("Headers"), Index("a\"][\"b")]));
            var rules := [RuleAst("Log", 0, two, [Do(CallExpr("log", [Literal(Str("seen"))]))]),
                          RuleAst("Block", 0, one, [Do(CallExpr("block", [Literal(Str("header"))]))])];
            && OutcomeToDecision(CompiledRun(rules, START, env, MAX_CYCLES).outcome) == BlockRequest("header")
            && OutcomeToDecision(Interpret(BySalience(rules), START, env, MAX_CYCLES).outcome) == AllowRequest
  {
    var two := PathRef(Path([Field("Request"), Field("Headers"), Index("a"), Index("b")]));
    var one := PathRef(Path([Field("Request"), Field("Headers"), Index("a\"][\"b")]));
    var log := RuleAst("Log", 0, two, [Do(CallExpr("log", [Literal(Str("seen"))]))]);
    var block := RuleAst("Block", 0, one, [Do(CallExpr("block", [Literal(Str("header"))]))]);
    var rules := [log, block];
    QuotedIndexKeysCollide(env.host.hidden);
    TwoRules(log, block, env.host);
    SortTwo(log, block, (r: RuleAst) => r.salience);
    SortCommutes(rules, [two], env.host);
    SharedTerminal(two, two, env, map[]);
    SharedTerminal(one, two, env, map[]);
    hide SortDesc, Tests, AllLeaves, PrintExpr, GuardOf, AlphaVector, GuardPaths, Play;
    LogThenBlock(TerminalAgenda(TerminalsOf(rules, [two], env.host), NodesOf([two], env.host), env), env);
    LogThenBlock(RuleAgenda(rules, env), env);
  }

  /** Rules without any test share safely, and so does a single path test. */
  lemma FewTestsShareSafely(rules: seq<RuleAst>, p: Path, env: Env)
    requires forall e <- AllLeaves(rules) :: e == PathRef(p)
    ensures SharesSafely(rules, env)
  {
    hide PrintExpr, AllLeaves;
  }

  lemma LeavesOfTwo(a: RuleAst, b: RuleAst)
    ensures AllLeaves([a, b]) == Leaves(a.when) + Leaves(b.when)
  {
    assert [a, b][..1] == [a] && [a][..0] == [];
    assert AllLeaves([a]) == [] + Leaves(a.when);
  }

  /** The engine does not let a request pass that a rule allows after another has
      challenged it. */
  lemma AllowDoesNotUndoChallenge(env: Env)
    ensures var rules := [RuleAst("Challenge", 2, Literal(Bool(true)), [Do(CallExpr("challenge", []))]),
                          RuleAst("Allow", 1, Literal(Bool(true)), [Do(CallExpr("allow", []))])];
            var o := CompiledRun(rules, START, env, MAX_CYCLES).outcome;
            o.allow && OutcomeToDecision(o) == ChallengeClient(Js)
  {
    var challenge := RuleAst("Challenge", 2, Literal(Bool(true)), [Do(CallExpr("challenge", []))]);
    var allow := RuleAst("Allow", 1, Literal(Bool(true)), [Do(CallExpr("allow", []))]);
    LeavesOfTwo(challenge, allow);
    FewTestsShareSafely([challenge, allow], Path([]), env);
    SortTwo(challenge, allow, (r: RuleAst) => r.salience);
    hide CompiledRun, Play, SharesSafely, SortDesc;
    RunRefinesInterpreter([challenge, allow], START, env, MAX_CYCLES);
    ChallengeStays(RuleAgenda([challenge, allow], env), env);
  }

  /** A rule that enables one ahead of it: the engine fires both, one pass would not. */
  lemma EngineNeedsRestart(env: Env)
    requires env.resolve(Path([Field("Flag")])) == Null
    ensures var flag := Path([Field("Flag")]);
            var rules := [RuleAst("Reader", 0, PathRef(flag), [Do(CallExpr("log", []))]),
                          RuleAst("Writer", 0, Literal(Bool(true)), [Assign(flag, Literal(Bool(true)))])];
            && CompiledRun(rules, START, env, MAX_CYCLES).outcome.matchedRules == ["Writer", "Reader"]
            && Scan(RuleAgenda(rules, env), START, env, MAX_CYCLES).outcome.matchedRules == ["Writer"]
  {
    var flag := Path([Field("Flag")]);
    var reader := RuleAst("Reader", 0, PathRef(flag), [Do(CallExpr("log", []))]);
    var writer := RuleAst("Writer", 0, Literal(Bool(true)), [Assign(flag, Literal(Bool(true)))]);
    LeavesOfTwo(reader, writer);
    FewTestsShareSafely([reader, writer], flag, env);
    SortTwo(reader, writer, (r: RuleAst) => r.salience);
    hide CompiledRun, Play, SharesSafely, SortDesc;
    RunRefinesInterpreter([reader, writer], START, env, MAX_CYCLES);
    BackwardAssignmentNeedsRestart(RuleAgenda([reader, writer], env), flag, env);
  }
}
