/** The firing loop over a compiled network (rete/engine.rs), and its refinement of the
    naive interpreter. */
module ReteEngine {
  import opened Wrappers
  import opened GrlAst
  import opened GrlEval
  import opened ReteNetwork
  import opened ReteMeaning
  import opened StableSort
  import opened Firing
  import opened FiringRuns

  // ----- a network as productions -----

  /** The paths that the tests of a guard depend on. */
  function GuardPaths(g: Guard, alphas: seq<AlphaNode>): set<Path> {
    set i, p | 0 <= i < |Ids(g)| && Ids(g)[i] < |alphas| && p in PathsOf(alphas[Ids(g)[i]].expr) :: p
  }

  /** A terminal, whose guard is evaluated on the alpha vector of the current overlay. */
  function TerminalProduction(t: Terminal, alphas: seq<AlphaNode>, env: Env): Production {
    Production(t.ruleName, t.salience, t.actions, GuardPaths(t.guard, alphas),
               scratch => t.guard.Eval(AlphaVector(alphas, env, scratch)))
  }

  function TerminalAgenda(terminals: seq<Terminal>, alphas: seq<AlphaNode>, env: Env): (ps: seq<Production>)
    ensures |ps| == |terminals|
    ensures forall i | 0 <= i < |terminals| :: ps[i] == TerminalProduction(terminals[i], alphas, env)
  {
    seq(|terminals|, i requires 0 <= i < |terminals| => TerminalProduction(terminals[i], alphas, env))
  }

  /** What the firing loop computes from a memory and a number of remaining cycles. */
  function Run(alphas: seq<AlphaNode>, terminals: seq<Terminal>, m: Memory, env: Env, cycles: nat): Memory {
    Play(TerminalAgenda(terminals, alphas, env), m, env, cycles)
  }

  /** The position of the first terminal whose guard holds and that has not fired, or
      `|terminals|`. */
  function NextTerminal(terminals: seq<Terminal>, v: seq<bool>, fired: set<string>): (i: nat)
    ensures i <= |terminals|
    ensures i < |terminals| ==> terminals[i].guard.Eval(v) && terminals[i].ruleName !in fired
    ensures forall j | 0 <= j < i :: !(terminals[j].guard.Eval(v) && terminals[j].ruleName !in fired)
  {
    if terminals == [] || (terminals[0].guard.Eval(v) && terminals[0].ruleName !in fired) then 0
    else 1 + NextTerminal(terminals[1..], v, fired)
  }

  lemma NextIsNextTerminal(alphas: seq<AlphaNode>, terminals: seq<Terminal>, m: Memory, env: Env)
    ensures Next(TerminalAgenda(terminals, alphas, env), m)
            == NextTerminal(terminals, AlphaVector(alphas, env, m.scratch), m.fired)
  {
    var ps, v := TerminalAgenda(terminals, alphas, env), AlphaVector(alphas, env, m.scratch);
    assert forall i | 0 <= i < |terminals| ::
        Eligible(ps[i], m) <==> terminals[i].guard.Eval(v) && terminals[i].ruleName !in m.fired;
  }

  /** A run of the network compiled from the rules. */
  function CompiledRun(rules: seq<RuleAst>, m: Memory, env: Env, cycles: nat): Memory {
    var tests := Tests(rules, env.host);
    Run(NodesOf(tests, env.host), SortDesc(TerminalsOf(rules, tests, env.host), (t: Terminal) => t.salience), m, env, cycles)
  }

  // ----- the engine -----

  class WorkingMemory {
    const env: Env
    var scratch: Scratch
    var outcome: Outcome

    constructor (env: Env)
      ensures this.env == env && scratch == map[] && outcome == NO_OUTCOME
    {
      this.env := env;
      scratch, outcome := map[], NO_OUTCOME;
    }

    /** What was written is read back, whatever the request says; every other path reads
        as before. */
    method WritePath(p: Path, v: Value)
      modifies this`scratch
      ensures ReadPath(p, env, scratch) == v
      ensures forall q | q != p :: ReadPath(q, env, scratch) == ReadPath(q, env, old(scratch))
      ensures scratch == old(scratch)[p := v]
    {
      scratch := scratch[p := v];
    }

    method RunAction(call: CallExpr, fired: set<string>) returns (fired': set<string>)
      modifies this`outcome
      ensures Memory(scratch, outcome, fired') == Act(call, Memory(scratch, old(outcome), fired), env)
    {
      fired' := fired;
      var args := EvalArgs(call.args, env, scratch);
      if call.name == "block" {
        outcome := outcome.(blockReason := Some(Arg(args, 0)));
      } else if call.name == "allow" {
        outcome := outcome.(allow := true);
      } else if call.name == "challenge" {
        var kind := Arg(args, 0);
        outcome := outcome.(challenge := Some(if kind == "pow" then Pow else Js));
      } else if call.name == "rate_limit" {
        outcome := outcome.(rateLimitSecs := Some(if |args| > 0 then AsUnsigned(args[0].AsInt()) else 60));
      } else if call.name == "log" {
        outcome := outcome.(logMessages := outcome.logMessages + [Arg(args, 0)]);
      } else if call.name == "retract" {
        fired' := fired + {Arg(args, 0)};
      } else {
        outcome := outcome.(logMessages := outcome.logMessages + ["unknown action: " + call.name]);
      }
    }

    method RunStmt(stmt: Stmt, fired: set<string>) returns (fired': set<string>)
      modifies this`scratch, this`outcome
      ensures Memory(scratch, outcome, fired') == Perform(stmt, Memory(old(scratch), old(outcome), fired), env)
    {
      match stmt
      case Assign(target, value) =>
        WritePath(target, EvalExpr(value, env, scratch));
        fired' := fired;
      case Do(call) =>
        fired' := RunAction(call, fired);
    }

    method RunStmts(stmts: seq<Stmt>, fired: set<string>) returns (fired': set<string>)
      modifies this`scratch, this`outcome
      ensures Memory(scratch, outcome, fired') == PerformAll(stmts, Memory(old(scratch), old(outcome), fired), env)
    {
      fired' := fired;
      for i := 0 to |stmts|
        invariant PerformAll(stmts[i..], Memory(scratch, outcome, fired'), env)
                  == PerformAll(stmts, Memory(old(scratch), old(outcome), fired), env)
      {
        fired' := RunStmt(stmts[i], fired');
        assert stmts[i..][1..] == stmts[i + 1..];
      }
    }
  }

  /** Look for a terminal to fire, scanning in order, and fire it. */
  method FireFirst(net: Network, wm: WorkingMemory, v: seq<bool>, fired: set<string>)
    returns (anyNew: bool, fired': set<string>)
    requires v == AlphaVector(net.alphas, wm.env, wm.scratch)
    modifies wm`scratch, wm`outcome
    ensures var i := NextTerminal(net.terminals, v, fired);
            && anyNew == (i < |net.terminals|)
            && Memory(wm.scratch, wm.outcome, fired') ==
               (if anyNew
                then FireRule(net.terminals[i].ruleName, net.terminals[i].actions,
                              Memory(old(wm.scratch), old(wm.outcome), fired), wm.env)
                else Memory(old(wm.scratch), old(wm.outcome), fired))
  {
    anyNew, fired' := false, fired;
    for k := 0 to |net.terminals|
      invariant NextTerminal(net.terminals, v, fired) == k + NextTerminal(net.terminals[k..], v, fired)
      invariant !anyNew && fired' == fired && wm.scratch == old(wm.scratch) && wm.outcome == old(wm.outcome)
    {
      var term := net.terminals[k];
      assert net.terminals[k..][1..] == net.terminals[k + 1..];
      if !term.guard.Eval(v) { continue; }
      if term.ruleName in fired' { continue; }
      fired' := fired' + {term.ruleName};
      wm.outcome := wm.outcome.(matchedRules := wm.outcome.matchedRules + [term.ruleName]);
      fired' := wm.RunStmts(term.actions, fired');
      anyNew := true;
      break;
    }
  }

  function RuleNames(rules: seq<RuleAst>): set<string> { set r <- rules :: r.name }

  /** The engine's outcome for one request.  On every network it is that of the firing
      loop, with all that such a run keeps; and it is that of the naive interpreter if the
      rules' leaves share alpha nodes safely. */
  method Fire(net: Network, env: Env, ghost rules: seq<RuleAst>) returns (outcome: Outcome)
    requires net.Stores(Tests(rules, env.host), env.host)
    requires net.terminals == SortDesc(TerminalsOf(rules, Tests(rules, env.host), env.host), (t: Terminal) => t.salience)
    ensures var r := Run(net.alphas, net.terminals, START, env, MAX_CYCLES);
            outcome == r.outcome && Orderly(TerminalAgenda(net.terminals, net.alphas, env), r)
    ensures NoDuplicates(outcome.matchedRules) && |outcome.matchedRules| <= 16
    ensures Members(outcome.matchedRules) <= RuleNames(rules)
    ensures SharesSafely(rules, env) ==> outcome == Interpret(BySalience(rules), START, env, MAX_CYCLES).outcome
  {
    outcome := FireLoop(net, env);
    RunIsOrderly(TerminalAgenda(net.terminals, net.alphas, env), env);
    AgendaNames(rules, Tests(rules, env.host), net.alphas, env);
    hide Run, Play, Tests, TerminalsOf, TerminalAgenda, BySalience, Interpret, SharesSafely;
    if SharesSafely(rules, env) {
      RunRefinesInterpreter(rules, START, env, MAX_CYCLES);
    }
  }

  method FireLoop(net: Network, env: Env) returns (outcome: Outcome)
    ensures outcome == Run(net.alphas, net.terminals, START, env, MAX_CYCLES).outcome
  {
    hide FireRule, NextTerminal, AlphaVector, Next;
    var wm := new WorkingMemory(env);
    var fired: set<string> := {};
    ghost var all := Run(net.alphas, net.terminals, START, env, MAX_CYCLES);
    for cycle := 0 to MAX_CYCLES
      invariant wm.env == env
      invariant Run(net.alphas, net.terminals, Memory(wm.scratch, wm.outcome, fired), env, MAX_CYCLES - cycle) == all
    {
      NextIsNextTerminal(net.alphas, net.terminals, Memory(wm.scratch, wm.outcome, fired), env);
      var v := AlphaVector(net.alphas, env, wm.scratch);
      var anyNew;
      anyNew, fired := FireFirst(net, wm, v, fired);
      if !anyNew { break; }
      if wm.outcome.blockReason.Some? { break; }
      if wm.outcome.allow { break; }
    }
    outcome := wm.outcome;
  }

  /** Compile the rules and decide one request. */
  method CompileAndFire(rules: seq<RuleAst>, env: Env) returns (outcome: Outcome)
    ensures outcome == CompiledRun(rules, START, env, MAX_CYCLES).outcome
    ensures NoDuplicates(outcome.matchedRules) && |outcome.matchedRules| <= 16
    ensures Members(outcome.matchedRules) <= RuleNames(rules)
    ensures SharesSafely(rules, env) ==> outcome == Interpret(BySalience(rules), START, env, MAX_CYCLES).outcome
  {
    var net := Network.Compile(rules, env.host);
    outcome := Fire(net, env, rules);
  }

  // ----- sorting -----

  /** Sorting the terminals is compiling the sorted rules. */
  lemma SortCommutes(rules: seq<RuleAst>, tests: seq<Expr>, host: Host)
    ensures SortDesc(TerminalsOf(rules, tests, host), (t: Terminal) => t.salience)
            == TerminalsOf(BySalience(rules), tests, host)
  {
    hide GuardOf, SortDesc;
    SortImages(rules, TerminalsOf(rules, tests, host), (r: RuleAst) => TerminalOf(r, tests, host),
               (r: RuleAst) => r.salience, (t: Terminal) => t.salience);
  }

  /** The engine's productions are those of the rules as loaded, stably sorted. */
  lemma AgendaIsSorted(terminals: seq<Terminal>, alphas: seq<AlphaNode>, env: Env)
    ensures TerminalAgenda(SortDesc(terminals, (t: Terminal) => t.salience), alphas, env)
            == SortDesc(TerminalAgenda(terminals, alphas, env), (p: Production) => p.salience)
  {
    hide SortDesc, GuardPaths, AlphaVector;
    SortImages(terminals, TerminalAgenda(terminals, alphas, env), (t: Terminal) => TerminalProduction(t, alphas, env),
               (t: Terminal) => t.salience, (p: Production) => p.salience);
  }

  lemma AgendaNames(rules: seq<RuleAst>, tests: seq<Expr>, alphas: seq<AlphaNode>, env: Env)
    ensures Names(TerminalAgenda(SortDesc(TerminalsOf(rules, tests, env.host), (t: Terminal) => t.salience), alphas, env))
            <= RuleNames(rules)
  {
    SortCommutes(rules, tests, env.host);
    var sorted := BySalience(rules);
    SortDescIsStable(rules, (r: RuleAst) => r.salience);
    var ps := TerminalAgenda(TerminalsOf(sorted, tests, env.host), alphas, env);
    hide SortDesc, GuardOf, GuardPaths;
    forall i | 0 <= i < |ps|
      ensures ps[i].name in RuleNames(rules)
    {
      assert ps[i].name == sorted[i].name && sorted[i] in multiset(rules);
    }
  }

  /** Of the terminals whose guards hold and that have not fired, the engine fires one of
      greatest salience, and of those the first as loaded. */
  lemma EngineFiresGreatestSalience(terminals: seq<Terminal>, alphas: seq<AlphaNode>, m: Memory, env: Env)
    requires Next(TerminalAgenda(SortDesc(terminals, (t: Terminal) => t.salience), alphas, env), m) < |terminals|
    ensures var ps := TerminalAgenda(terminals, alphas, env);
            var sorted := TerminalAgenda(SortDesc(terminals, (t: Terminal) => t.salience), alphas, env);
            var fired := sorted[Next(sorted, m)];
            var peers := WithKey(ps, fired.salience, (p: Production) => p.salience);
            && fired in ps
            && (forall p <- ps :: Eligible(p, m) ==> p.salience <= fired.salience)
            && Next(peers, m) < |peers| && peers[Next(peers, m)] == fired
  {
    AgendaIsSorted(terminals, alphas, env);
    GreatestSalienceFires(TerminalAgenda(terminals, alphas, env), m);
  }

  // ----- the refinement -----

  /** The guards of the sorted terminals hold exactly where the rules' conditions do. */
  lemma SortedGuardMeaning(rules: seq<RuleAst>, i: nat, env: Env, scratch: Scratch)
    requires SharesSafely(rules, env) && i < |rules|
    ensures TerminalOf(BySalience(rules)[i], Tests(rules, env.host), env.host).guard.Eval(
              AlphaVector(NodesOf(Tests(rules, env.host), env.host), env, scratch))
            == Holds(BySalience(rules)[i].when, env, scratch)
  {
    SortDescIsStable(rules, (r: RuleAst) => r.salience);
    assert BySalience(rules)[i] in multiset(rules);
    var j :| 0 <= j < |rules| && rules[j] == BySalience(rules)[i];
    assert Interchangeable(LeavesOf(rules), env, scratch);
    CompilationPreservesMeaning(rules, j, env, scratch);
  }

  lemma TerminalFields(r: RuleAst, tests: seq<Expr>, host: Host)
    ensures var t := TerminalOf(r, tests, host); t.ruleName == r.name && t.salience == r.salience && t.actions == r.then_
  {
  }

  /** Production by production: the same name, the same statements, eligible alike. */
  ghost predicate SameProductions(ps: seq<Production>, qs: seq<Production>) {
    && |ps| == |qs|
    && forall i | 0 <= i < |ps| ::
         && ps[i].name == qs[i].name && ps[i].actions == qs[i].actions
         && forall scratch :: ps[i].holds(scratch) == qs[i].holds(scratch)
  }

  lemma SameChoice(ps: seq<Production>, qs: seq<Production>, m: Memory)
    requires SameProductions(ps, qs)
    ensures Next(ps, m) == Next(qs, m)
  {
    assert forall i | 0 <= i < |ps| :: Eligible(ps[i], m) == Eligible(qs[i], m);
  }

  lemma {:induction false} SameRun(ps: seq<Production>, qs: seq<Production>, m: Memory, env: Env, cycles: nat)
    requires SameProductions(ps, qs)
    ensures Play(ps, m, env, cycles) == Play(qs, m, env, cycles)
    decreases cycles
  {
    hide Next, FireRule;
    SameChoice(ps, qs, m);
    var i := Next(ps, m);
    if cycles > 0 && i < |ps| {
      SameRun(ps, qs, FireRule(ps[i].name, ps[i].actions, m, env), env, cycles - 1);
    }
  }

  /** From any memory and for any number of cycles, the loop over the compiled network
      leaves the same overlay, outcome and fired set as the naive interpreter. */
  lemma RunRefinesInterpreter(rules: seq<RuleAst>, m: Memory, env: Env, cycles: nat)
    requires SharesSafely(rules, env)
    ensures CompiledRun(rules, m, env, cycles) == Interpret(BySalience(rules), m, env, cycles)
  {
    var tests, sorted := Tests(rules, env.host), BySalience(rules);
    var alphas := NodesOf(tests, env.host);
    SortCommutes(rules, tests, env.host);
    var ps, qs := TerminalAgenda(TerminalsOf(sorted, tests, env.host), alphas, env), RuleAgenda(sorted, env);
    hide SortDesc, Tests, BySalience, TerminalOf, AlphaVector, Holds, GuardPaths, SharesSafely, Play;
    forall i | 0 <= i < |rules|
      ensures ps[i].name == qs[i].name && ps[i].actions == qs[i].actions
      ensures forall scratch :: ps[i].holds(scratch) == qs[i].holds(scratch)
    {
      TerminalFields(sorted[i], tests, env.host);
      forall scratch
        ensures ps[i].holds(scratch) == qs[i].holds(scratch)
      {
        SortedGuardMeaning(rules, i, env, scratch);
      }
    }
    SameRun(ps, qs, m, env, cycles);
  }

  // ----- one pass -----

  /** A guard's value depends only on the alpha nodes it names. */
  lemma {:induction false} GuardReadsItsIds(g: Guard, v: seq<bool>, w: seq<bool>)
    requires |v| == |w|
    requires forall id <- Ids(g) :: id < |v| ==> v[id] == w[id]
    ensures g.Eval(v) == g.Eval(w)
  {
    match g
    case And(gs) => GuardsReadTheirIds(gs, v, w);
    case Or(gs) => GuardsReadTheirIds(gs, v, w);
    case Not(x) => GuardReadsItsIds(x, v, w);
    case Alpha(id) => assert id in Ids(g);
    case _ =>
  }

  lemma {:induction false} GuardsReadTheirIds(gs: seq<Guard>, v: seq<bool>, w: seq<bool>)
    requires |v| == |w|
    requires forall id <- IdsOfAll(gs) :: id < |v| ==> v[id] == w[id]
    ensures forall g <- gs :: g.Eval(v) == g.Eval(w)
  {
    if gs != [] {
      IdsOfFirst(gs);
      GuardReadsItsIds(gs[0], v, w);
      GuardsReadTheirIds(gs[1..], v, w);
    }
  }

  lemma TerminalsAreLocal(terminals: seq<Terminal>, tests: seq<Expr>, env: Env)
    ensures forall p <- TerminalAgenda(terminals, NodesOf(tests, env.host), env) :: Local(p)
  {
    var alphas := NodesOf(tests, env.host);
    forall k | 0 <= k < |terminals|
      ensures Local(TerminalProduction(terminals[k], alphas, env))
    {
      var g := terminals[k].guard;
      forall s, t | AgreeOn(GuardPaths(g, alphas), s, t)
        ensures g.Eval(AlphaVector(alphas, env, s)) == g.Eval(AlphaVector(alphas, env, t))
      {
        VectorsAgree(g, tests, env, s, t);
        GuardReadsItsIds(g, AlphaVector(alphas, env, s), AlphaVector(alphas, env, t));
      }
    }
  }

  lemma VectorsAgree(g: Guard, tests: seq<Expr>, env: Env, s: Scratch, t: Scratch)
    requires AgreeOn(GuardPaths(g, NodesOf(tests, env.host)), s, t)
    ensures var alphas := NodesOf(tests, env.host);
            forall id <- Ids(g) :: id < |alphas| ==> AlphaVector(alphas, env, s)[id] == AlphaVector(alphas, env, t)[id]
  {
    var alphas := NodesOf(tests, env.host);
    hide Ids, EvalAlpha;
    forall id <- Ids(g) | id < |alphas|
      ensures AlphaVector(alphas, env, s)[id] == AlphaVector(alphas, env, t)[id]
    {
      var i :| 0 <= i < |Ids(g)| && Ids(g)[i] == id;
      assert forall p <- PathsOf(tests[id]) :: p in GuardPaths(g, alphas);
      AlphaReadsOnlyItsPaths(tests[id], id, env, s, t);
    }
  }

  /** If no rule assigns a path that a test of a rule ahead of it depends on, the engine's
      restarting is one pass over its terminals. */
  lemma EngineIsOnePass(terminals: seq<Terminal>, tests: seq<Expr>, m: Memory, env: Env, cycles: nat)
    requires AssignsForward(TerminalAgenda(terminals, NodesOf(tests, env.host), env))
    ensures Run(NodesOf(tests, env.host), terminals, m, env, cycles)
            == Scan(TerminalAgenda(terminals, NodesOf(tests, env.host), env), m, env, cycles)
  {
    TerminalsAreLocal(terminals, tests, env);
    RestartingIsOnePass(TerminalAgenda(terminals, NodesOf(tests, env.host), env), m, env, cycles);
  }

  /** For terminals of distinct names the exact condition is that no firing that leaves the
      run undecided makes a terminal at or ahead of it eligible. */
  lemma EngineIsOnePassExactly(terminals: seq<Terminal>, alphas: seq<AlphaNode>, env: Env)
    requires forall i, j | 0 <= i < j < |terminals| :: terminals[i].ruleName != terminals[j].ruleName
    ensures var ps := TerminalAgenda(terminals, alphas, env);
            (forall m, cycles: nat :: Run(alphas, terminals, m, env, cycles) == Scan(ps, m, env, cycles))
            <==> (forall m :: StepsOn(ps, m, env))
  {
    var ps := TerminalAgenda(terminals, alphas, env);
    hide StepsOn, Play, Scan;
    RestartingIsOnePassExactly(ps, env);
    if forall m, cycles: nat :: Run(alphas, terminals, m, env, cycles) == Scan(ps, m, env, cycles) {
      forall m, cycles: nat
        ensures Play(ps, m, env, cycles) == Scan(ps, m, env, cycles)
      {
        assert Run(alphas, terminals, m, env, cycles) == Scan(ps, m, env, cycles);
      }
    }
  }
}
