/** Compilation of rules to shared alpha nodes and boolean guards (rete/mod.rs,
    rete/alpha.rs, rete/terminal.rs). */
module ReteNetwork {
  import opened Wrappers
  import opened GrlAst
  import opened GrlPrinter
  import opened GrlEval
  import opened StableSort

  type AlphaId = nat

  /** A `matches(haystack, "literal")` test whose pattern compiled. */
  datatype CompiledAlpha = MatchesRegex(haystack: Expr, pattern: string)

  datatype AlphaNode = AlphaNode(id: AlphaId, expr: Expr, key: string, compiled: Option<CompiledAlpha>)

  datatype Guard =
    | True
    | False
    | Alpha(id: AlphaId)
    | And(guards: seq<Guard>)
    | Or(guards: seq<Guard>)
    | Not(guard: Guard)
  {
    /** Against the vector of alpha truth values; an unknown id counts as false. */
    predicate Eval(alphas: seq<bool>) {
      match this
      case True => true
      case False => false
      case Alpha(id) => id < |alphas| && alphas[id]
      case And(gs) => forall g <- gs :: g.Eval(alphas)
      case Or(gs) => exists g <- gs :: g.Eval(alphas)
      case Not(g) => !g.Eval(alphas)
    }
  }

  datatype Terminal = Terminal(ruleName: string, salience: int, guard: Guard, actions: seq<Stmt>)

  // ----- alpha nodes -----

  function CompileAlpha(e: Expr, host: Host): Option<CompiledAlpha> {
    if && e.Call? && e.call.name == "matches" && |e.call.args| == 2
       && e.call.args[1].Literal? && e.call.args[1].value.Str?
       && host.validRegex(e.call.args[1].value.s)
    then Some(MatchesRegex(e.call.args[0], e.call.args[1].value.s))
    else None
  }

  function NodeOf(e: Expr, id: AlphaId, host: Host): AlphaNode {
    AlphaNode(id, e, PrintExpr(e, host.hidden), CompileAlpha(e, host))
  }

  /** A node's truth value: the precompiled regex if there is one, else the evaluator. */
  predicate EvalAlpha(node: AlphaNode, env: Env, scratch: Scratch) {
    match node.compiled
    case Some(MatchesRegex(haystack, pattern)) =>
      env.host.isMatch(pattern, EvalExpr(haystack, env, scratch).AsStr())
    case None => Holds(node.expr, env, scratch)
  }

  function AlphaVector(alphas: seq<AlphaNode>, env: Env, scratch: Scratch): (v: seq<bool>)
    ensures |v| == |alphas|
    ensures forall i | 0 <= i < |alphas| :: v[i] == EvalAlpha(alphas[i], env, scratch)
  {
    seq(|alphas|, i requires 0 <= i < |alphas| => EvalAlpha(alphas[i], env, scratch))
  }

  // ----- the compiled form, said without the compiler's state -----

  /** The non-boolean leaves of a condition, from left to right. */
  function Leaves(e: Expr): seq<Expr> {
    match e
    case Binary(op, l, r) => if op == BinOp.And || op == BinOp.Or then Leaves(l) + Leaves(r) else [e]
    case Not(x) => Leaves(x)
    case Literal(v) => if v.Bool? then [] else [e]
    case _ => [e]
  }

  function AllLeaves(rules: seq<RuleAst>): seq<Expr> {
    if rules == [] then [] else AllLeaves(rules[..|rules| - 1]) + Leaves(rules[|rules| - 1].when)
  }

  /** The position of the first test printed as `key`, or `|tests|`. */
  function KeyIndex(tests: seq<Expr>, key: string, host: Host): (i: nat)
    ensures i <= |tests|
    ensures i < |tests| ==> PrintExpr(tests[i], host.hidden) == key
    ensures forall j | 0 <= j < i :: PrintExpr(tests[j], host.hidden) != key
  {
    if tests == [] || PrintExpr(tests[0], host.hidden) == key then 0
    else 1 + KeyIndex(tests[1..], key, host)
  }

  predicate Known(tests: seq<Expr>, e: Expr, host: Host) {
    KeyIndex(tests, PrintExpr(e, host.hidden), host) < |tests|
  }

  /** `tests`, then each leaf that is the first with its key. */
  function Intern(tests: seq<Expr>, leaves: seq<Expr>, host: Host): (r: seq<Expr>)
    ensures tests <= r
  {
    if leaves == [] then tests
    else
      var d := Intern(tests, leaves[..|leaves| - 1], host);
      var e := leaves[|leaves| - 1];
      if Known(d, e, host) then d else d + [e]
  }

  function Tests(rules: seq<RuleAst>, host: Host): seq<Expr> { Intern([], AllLeaves(rules), host) }

  function MergeAnd(l: Guard, r: Guard): Guard {
    match (l, r)
    case (And(a), And(b)) => Guard.And(a + b)
    case (And(a), b) => Guard.And(a + [b])
    case (a, And(b)) => Guard.And([a] + b)
    case (a, b) => Guard.And([a, b])
  }

  function MergeOr(l: Guard, r: Guard): Guard {
    match (l, r)
    case (Or(a), Or(b)) => Guard.Or(a + b)
    case (Or(a), b) => Guard.Or(a + [b])
    case (a, Or(b)) => Guard.Or([a] + b)
    case (a, b) => Guard.Or([a, b])
  }

  /** A condition's guard over a fixed table of tests. */
  function GuardOf(e: Expr, tests: seq<Expr>, host: Host): Guard {
    match e
    case Binary(And, l, r) => MergeAnd(GuardOf(l, tests, host), GuardOf(r, tests, host))
    case Binary(Or, l, r) => MergeOr(GuardOf(l, tests, host), GuardOf(r, tests, host))
    case Not(x) => Guard.Not(GuardOf(x, tests, host))
    case Literal(Bool(b)) => if b then True else False
    case _ => Alpha(KeyIndex(tests, PrintExpr(e, host.hidden), host))
  }

  function TerminalOf(r: RuleAst, tests: seq<Expr>, host: Host): Terminal {
    Terminal(r.name, r.salience, GuardOf(r.when, tests, host), r.then_)
  }

  function TerminalsOf(rules: seq<RuleAst>, tests: seq<Expr>, host: Host): (ts: seq<Terminal>)
    ensures |ts| == |rules|
    ensures forall i | 0 <= i < |rules| :: ts[i] == TerminalOf(rules[i], tests, host)
  {
    seq(|rules|, i requires 0 <= i < |rules| => TerminalOf(rules[i], tests, host))
  }

  function NodesOf(tests: seq<Expr>, host: Host): (ns: seq<AlphaNode>)
    ensures |ns| == |tests|
    ensures forall i | 0 <= i < |tests| :: ns[i] == NodeOf(tests[i], i, host)
  {
    seq(|tests|, i requires 0 <= i < |tests| => NodeOf(tests[i], i, host))
  }

  /** The key of every table entry names that entry only. */
  ghost predicate DistinctKeys(tests: seq<Expr>, host: Host) {
    forall i, j | 0 <= i < j < |tests| :: PrintExpr(tests[i], host.hidden) != PrintExpr(tests[j], host.hidden)
  }

  /** The alpha nodes are those of `tests`, and `index` is the exact inverse of their keys. */
  ghost predicate Indexed(alphas: seq<AlphaNode>, index: map<string, AlphaId>, tests: seq<Expr>, host: Host) {
    && alphas == NodesOf(tests, host)
    && DistinctKeys(tests, host)
    && (forall i | 0 <= i < |tests| :: alphas[i].key in index && index[alphas[i].key] == i)
    && (forall key <- index :: index[key] < |alphas| && alphas[index[key]].key == key)
  }

  // ----- the compiler -----

  class Network {
    var alphas: seq<AlphaNode>
    var terminals: seq<Terminal>
    var alphaIndex: map<string, AlphaId>

    constructor ()
      ensures alphas == [] && terminals == [] && alphaIndex == map[]
    {
      alphas, terminals, alphaIndex := [], [], map[];
    }

    /** The table of tests is `tests`, and the index is its exact inverse. */
    ghost predicate Stores(tests: seq<Expr>, host: Host)
      reads this`alphas, this`alphaIndex
    {
      Indexed(alphas, alphaIndex, tests, host)
    }

    method InternAlpha(e: Expr, host: Host, ghost tests: seq<Expr>) returns (id: AlphaId)
      requires Stores(tests, host)
      modifies this`alphas, this`alphaIndex
      ensures Stores(Intern(tests, [e], host), host)
      ensures id == KeyIndex(Intern(tests, [e], host), PrintExpr(e, host.hidden), host)
    {
      hide PrintExpr, KeyIndex, Intern, Indexed;
      var key := PrintExpr(e, host.hidden);
      InternOne(tests, e, host);
      if key in alphaIndex {
        IndexHit(alphas, alphaIndex, tests, e, host);
        id := alphaIndex[key];
      } else {
        IndexMiss(alphas, alphaIndex, tests, e, host);
        id := |alphas|;
        alphas := alphas + [NodeOf(e, id, host)];
        alphaIndex := alphaIndex[key := id];
      }
    }

    method CompileGuard(e: Expr, host: Host, ghost tests: seq<Expr>) returns (g: Guard)
      requires Stores(tests, host)
      modifies this`alphas, this`alphaIndex
      ensures Stores(Intern(tests, Leaves(e), host), host)
      ensures g == GuardOf(e, Intern(tests, Leaves(e), host), host)
      decreases e, 1
    {
      match e
      case Binary(And, left, right) =>
        var l, r := CompileBoth(e, left, right, host, tests);
        g := MergeAnd(l, r);
      case Binary(Or, left, right) =>
        var l, r := CompileBoth(e, left, right, host, tests);
        g := MergeOr(l, r);
      case Not(x) =>
        var inner := CompileGuard(x, host, tests);
        g := Guard.Not(inner);
      case Literal(Bool(b)) =>
        g := if b then True else False;
      case _ =>
        var id := InternAlpha(e, host, tests);
        g := Alpha(id);
    }

    method CompileBoth(ghost e: Expr, left: Expr, right: Expr, host: Host, ghost tests: seq<Expr>)
      returns (l: Guard, r: Guard)
      requires e.Binary? && e.left == left && e.right == right
      requires Stores(tests, host)
      modifies this`alphas, this`alphaIndex
      ensures Stores(Intern(tests, Leaves(left) + Leaves(right), host), host)
      ensures l == GuardOf(left, Intern(tests, Leaves(left) + Leaves(right), host), host)
      ensures r == GuardOf(right, Intern(tests, Leaves(left) + Leaves(right), host), host)
      decreases e, 0
    {
      l := CompileGuard(left, host, tests);
      ghost var mid := Intern(tests, Leaves(left), host);
      r := CompileGuard(right, host, mid);
      InternAppend(tests, Leaves(left), Leaves(right), host);
      InternKnows(tests, Leaves(left), host);
      GuardIsStable(left, mid, Intern(mid, Leaves(right), host), host);
    }

    /** Compile the rule that follows the first `i`, and append its terminal. */
    method CompileRule(rules: seq<RuleAst>, i: nat, host: Host)
      requires i < |rules|
      requires Stores(Tests(rules[..i], host), host)
      requires terminals == TerminalsOf(rules[..i], Tests(rules[..i], host), host)
      modifies this
      ensures Stores(Tests(rules[..i + 1], host), host)
      ensures terminals == TerminalsOf(rules[..i + 1], Tests(rules[..i + 1], host), host)
    {
      TestsGrow(rules, i, host);
      TerminalsGrow(rules, i, host);
      hide GuardOf, Intern, Leaves, Tests, TerminalsOf;
      var guard := CompileGuard(rules[i].when, host, Tests(rules[..i], host));
      terminals := terminals + [Terminal(rules[i].name, rules[i].salience, guard, rules[i].then_)];
    }

    static method Compile(rules: seq<RuleAst>, host: Host) returns (net: Network)
      ensures fresh(net)
      ensures net.Stores(Tests(rules, host), host)
      ensures net.terminals == SortDesc(TerminalsOf(rules, Tests(rules, host), host), (t: Terminal) => t.salience)
    {
      net := new Network();
      for i := 0 to |rules|
        invariant fresh(net)
        invariant net.Stores(Tests(rules[..i], host), host)
        invariant net.terminals == TerminalsOf(rules[..i], Tests(rules[..i], host), host)
      {
        net.CompileRule(rules, i, host);
      }
      assert rules[..|rules|] == rules;
      net.SortTerminals();
    }

    method SortTerminals()
      modifies this`terminals
      ensures terminals == SortDesc(old(terminals), (t: Terminal) => t.salience)
    {
      terminals := SortDesc(terminals, (t: Terminal) => t.salience);
    }
  }

  lemma KeyIndexUnique(tests: seq<Expr>, i: nat, key: string, host: Host)
    requires i < |tests| && PrintExpr(tests[i], host.hidden) == key
    requires forall j | 0 <= j < i :: PrintExpr(tests[j], host.hidden) != key
    ensures KeyIndex(tests, key, host) == i
  {
  }

  /** A key in the index leads to the node it names. */
  lemma IndexHit(alphas: seq<AlphaNode>, index: map<string, AlphaId>, tests: seq<Expr>, e: Expr, host: Host)
    requires Indexed(alphas, index, tests, host) && PrintExpr(e, host.hidden) in index
    ensures Known(tests, e, host) && KeyIndex(tests, PrintExpr(e, host.hidden), host) == index[PrintExpr(e, host.hidden)]
  {
    hide PrintExpr, KeyIndex;
    var key := PrintExpr(e, host.hidden);
    KeyIndexUnique(tests, index[key], key, host);
  }

  /** A key that is not in the index is new, and indexing its node keeps the index exact. */
  lemma IndexMiss(alphas: seq<AlphaNode>, index: map<string, AlphaId>, tests: seq<Expr>, e: Expr, host: Host)
    requires Indexed(alphas, index, tests, host) && PrintExpr(e, host.hidden) !in index
    ensures !Known(tests, e, host) && KeyIndex(tests + [e], PrintExpr(e, host.hidden), host) == |alphas|
    ensures Indexed(alphas + [NodeOf(e, |alphas|, host)], index[PrintExpr(e, host.hidden) := |alphas|], tests + [e], host)
  {
    hide PrintExpr, KeyIndex, CompileAlpha;
    var key := PrintExpr(e, host.hidden);
    assert forall i | 0 <= i < |tests| :: alphas[i].key == PrintExpr(tests[i], host.hidden) != key;
    KeyIndexUnique(tests + [e], |tests|, key, host);
  }

  lemma InternOne(tests: seq<Expr>, e: Expr, host: Host)
    ensures Intern(tests, [e], host) == if Known(tests, e, host) then tests else tests + [e]
  {
    assert [e][..0] == [];
  }

  // ----- tables only grow, and growing them changes no guard -----

  lemma KeyIndexInPrefix(tests: seq<Expr>, more: seq<Expr>, key: string, host: Host)
    requires tests <= more && KeyIndex(tests, key, host) < |tests|
    ensures KeyIndex(more, key, host) == KeyIndex(tests, key, host)
  {
    var i, j := KeyIndex(tests, key, host), KeyIndex(more, key, host);
    assert PrintExpr(more[i], host.hidden) == key;
    assert j < |tests| ==> PrintExpr(tests[j], host.hidden) == PrintExpr(more[j], host.hidden);
  }

  lemma {:induction false} InternAppend(tests: seq<Expr>, a: seq<Expr>, b: seq<Expr>, host: Host)
    ensures Intern(Intern(tests, a, host), b, host) == Intern(tests, a + b, host)
  {
    if b == [] {
      assert a + b == a;
    } else {
      InternAppend(tests, a, b[..|b| - 1], host);
      assert (a + b)[..|a + b| - 1] == a + b[..|b| - 1];
    }
  }

  lemma {:induction false} InternKnows(tests: seq<Expr>, leaves: seq<Expr>, host: Host)
    ensures forall e <- leaves :: Known(Intern(tests, leaves, host), e, host)
  {
    if leaves != [] {
      var init, last := leaves[..|leaves| - 1], leaves[|leaves| - 1];
      InternKnows(tests, init, host);
      var d, r := Intern(tests, init, host), Intern(tests, leaves, host);
      forall e <- leaves
        ensures Known(r, e, host)
      {
        if e in init {
          KeyIndexInPrefix(d, r, PrintExpr(e, host.hidden), host);
        } else {
          assert e == last;
          assert !Known(d, e, host) ==> r[|d|] == e;
        }
      }
    }
  }

  lemma {:induction false} GuardIsStable(e: Expr, tests: seq<Expr>, more: seq<Expr>, host: Host)
    requires tests <= more && forall x <- Leaves(e) :: Known(tests, x, host)
    ensures GuardOf(e, more, host) == GuardOf(e, tests, host)
  {
    hide PrintExpr, KeyIndex;
    if Leaves(e) == [e] {
      assert e in Leaves(e);
      KeyIndexInPrefix(tests, more, PrintExpr(e, host.hidden), host);
    }
    match e
    case Binary(op, l, r) =>
      if op == BinOp.And || op == BinOp.Or {
        GuardIsStable(l, tests, more, host);
        GuardIsStable(r, tests, more, host);
      }
    case Not(x) =>
      GuardIsStable(x, tests, more, host);
    case _ =>
  }

  /** Compiling one more rule changes no terminal compiled before it. */
  lemma TestsGrow(rules: seq<RuleAst>, i: nat, host: Host)
    requires i < |rules|
    ensures Tests(rules[..i + 1], host) == Intern(Tests(rules[..i], host), Leaves(rules[i].when), host)
    ensures forall j | 0 <= j < i ::
              TerminalOf(rules[j], Tests(rules[..i + 1], host), host) == TerminalOf(rules[j], Tests(rules[..i], host), host)
  {
    var before, after := rules[..i], rules[..i + 1];
    assert after[..|after| - 1] == before;
    InternAppend([], AllLeaves(before), Leaves(rules[i].when), host);
    forall j | 0 <= j < i
      ensures TerminalOf(rules[j], Tests(after, host), host) == TerminalOf(rules[j], Tests(before, host), host)
    {
      LeavesAreKnown(before, j, host);
      GuardIsStable(rules[j].when, Tests(before, host), Tests(after, host), host);
    }
  }

  lemma TerminalsGrow(rules: seq<RuleAst>, i: nat, host: Host)
    requires i < |rules|
    ensures TerminalsOf(rules[..i + 1], Tests(rules[..i + 1], host), host) ==
            TerminalsOf(rules[..i], Tests(rules[..i], host), host) +
            [TerminalOf(rules[i], Tests(rules[..i + 1], host), host)]
  {
    hide GuardOf, Tests;
    TestsGrow(rules, i, host);
    var before, after := rules[..i], rules[..i + 1];
    assert forall j | 0 <= j < i :: TerminalOf(after[j], Tests(after, host), host) == TerminalOf(before[j], Tests(before, host), host);
  }

  lemma LeavesAreKnown(rules: seq<RuleAst>, j: nat, host: Host)
    requires j < |rules|
    ensures forall x <- Leaves(rules[j].when) :: x in AllLeaves(rules) && Known(Tests(rules, host), x, host)
  {
    LeavesAreListed(rules, j);
    InternKnows([], AllLeaves(rules), host);
  }

  lemma {:induction false} LeavesAreListed(rules: seq<RuleAst>, j: nat)
    requires j < |rules|
    ensures forall x <- Leaves(rules[j].when) :: x in AllLeaves(rules)
  {
    if j < |rules| - 1 { LeavesAreListed(rules[..|rules| - 1], j); }
  }
}
