/** The state a firing run changes, what one rule does to it, and the forward-chaining
    loop, for any way of deciding whether a rule's condition holds (rete/engine.rs,
    rete/working_memory.rs). */
module Firing {
  import opened Text
  import opened Wrappers
  import opened GrlAst
  import opened GrlEval
  import opened StableSort

  const MAX_CYCLES: nat := 16

  datatype ChallengeReq = Js | Pow

  datatype Outcome = Outcome(
    blockReason: Option<string>,
    allow: bool,
    challenge: Option<ChallengeReq>,
    rateLimitSecs: Option<nat>,
    logMessages: seq<string>,
    matchedRules: seq<string>)
  {
    /** Does the run stop once a rule has left this outcome? */
    predicate Decided() { blockReason.Some? || allow }
  }

  const NO_OUTCOME := Outcome(None, false, None, None, [], [])

  /** All the state a run changes: the overlay, the outcome, and the names of the rules
      that have fired or been retracted. */
  datatype Memory = Memory(scratch: Scratch, outcome: Outcome, fired: set<string>)

  const START := Memory(map[], NO_OUTCOME, {})

  // ----- statements -----

  /** `x as u64`. */
  function AsUnsigned(x: i64): nat { x % 0x1_0000_0000_0000_0000 }

  function Act(call: CallExpr, m: Memory, env: Env): Memory {
    var args := EvalArgs(call.args, env, m.scratch);
    var o := m.outcome;
    if call.name == "block" then m.(outcome := o.(blockReason := Some(Arg(args, 0))))
    else if call.name == "allow" then m.(outcome := o.(allow := true))
    else if call.name == "challenge" then
      m.(outcome := o.(challenge := Some(if Arg(args, 0) == "pow" then Pow else Js)))
    else if call.name == "rate_limit" then
      m.(outcome := o.(rateLimitSecs := Some(if args == [] then 60 else AsUnsigned(args[0].AsInt()))))
    else if call.name == "log" then m.(outcome := o.(logMessages := o.logMessages + [Arg(args, 0)]))
    else if call.name == "retract" then m.(fired := m.fired + {Arg(args, 0)})
    else m.(outcome := o.(logMessages := o.logMessages + ["unknown action: " + call.name]))
  }

  function Perform(stmt: Stmt, m: Memory, env: Env): Memory {
    match stmt
    case Assign(target, value) => m.(scratch := m.scratch[target := EvalExpr(value, env, m.scratch)])
    case Do(call) => Act(call, m, env)
  }

  function PerformAll(stmts: seq<Stmt>, m: Memory, env: Env): Memory {
    if stmts == [] then m else PerformAll(stmts[1..], Perform(stmts[0], m, env), env)
  }

  function Recorded(name: string, m: Memory): Memory {
    m.(fired := m.fired + {name}, outcome := m.outcome.(matchedRules := m.outcome.matchedRules + [name]))
  }

  /** Record a rule as fired, then perform its statements. */
  function FireRule(name: string, actions: seq<Stmt>, m: Memory, env: Env): Memory {
    PerformAll(actions, Recorded(name, m), env)
  }

  // ----- the loop -----

  /** A rule as the loop sees it: what it is called, what it does, when it may fire, and
      the assigned paths that this depends on. */
  datatype Production = Production(
    name: string,
    salience: int,
    actions: seq<Stmt>,
    paths: set<Path>,
    holds: Scratch -> bool)

  predicate Eligible(p: Production, m: Memory) { p.holds(m.scratch) && p.name !in m.fired }

  /** The position of the first eligible production, or `|ps|`. */
  function Next(ps: seq<Production>, m: Memory): (i: nat)
    ensures i <= |ps|
    ensures i < |ps| ==> Eligible(ps[i], m)
    ensures forall j | 0 <= j < i :: !Eligible(ps[j], m)
  {
    if ps == [] || Eligible(ps[0], m) then 0 else 1 + Next(ps[1..], m)
  }

  /** Fire the first eligible production, again and again, until one decides the outcome,
      none is eligible, or `cycles` have fired. */
  function Play(ps: seq<Production>, m: Memory, env: Env, cycles: nat): Memory
    decreases cycles
  {
    var i := Next(ps, m);
    if cycles == 0 || i == |ps| then m
    else
      var next := FireRule(ps[i].name, ps[i].actions, m, env);
      if next.outcome.Decided() then next else Play(ps, next, env, cycles - 1)
  }

  // ----- the naive interpreter -----

  /** Rules whose conditions are evaluated directly. */
  function RuleAgenda(rules: seq<RuleAst>, env: Env): (ps: seq<Production>)
    ensures |ps| == |rules|
    ensures forall i | 0 <= i < |rules| :: ps[i] == RuleProduction(rules[i], env)
  {
    seq(|rules|, i requires 0 <= i < |rules| => RuleProduction(rules[i], env))
  }

  function RuleProduction(r: RuleAst, env: Env): Production {
    Production(r.name, r.salience, r.then_, PathsOf(r.when), scratch => Holds(r.when, env, scratch))
  }

  function Interpret(rules: seq<RuleAst>, m: Memory, env: Env, cycles: nat): Memory {
    Play(RuleAgenda(rules, env), m, env, cycles)
  }

  /** Rules in the order the engine considers them. */
  function BySalience(rules: seq<RuleAst>): (r: seq<RuleAst>)
    ensures |r| == |rules|
  {
    SortDesc(rules, (r: RuleAst) => r.salience)
  }

  // ----- decisions -----

  datatype Decision = BlockRequest(reason: string) | ChallengeClient(kind: ChallengeReq) | LimitRate(secs: nat) | AllowRequest

  /** Block wins, then a challenge, then a rate limit. */
  function OutcomeToDecision(o: Outcome): Decision {
    if o.blockReason.Some? then BlockRequest(o.blockReason.value)
    else if o.challenge.Some? then ChallengeClient(o.challenge.value)
    else if o.rateLimitSecs.Some? then LimitRate(o.rateLimitSecs.value)
    else AllowRequest
  }
}
