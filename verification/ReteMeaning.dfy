/** Compilation preserves meaning: what the guards, the shared alpha nodes and the
    precompiled regexes of rete/mod.rs stand for. */
module ReteMeaning {
  import opened GrlAst
  import opened Text
  import opened GrlPrinter
  import opened GrlEval
  import opened ReteNetwork

  /** No two different leaves of the rules' conditions are printed alike. */
  ghost predicate KeysIdentify(rules: seq<RuleAst>, host: Host) {
    forall x <- AllLeaves(rules), y <- AllLeaves(rules) :: PrintExpr(x, host.hidden) == PrintExpr(y, host.hidden) ==> x == y
  }

  /** The test interned under the leaf's key is the leaf itself. */
  predicate Represented(tests: seq<Expr>, e: Expr, host: Host) {
    Known(tests, e, host) && tests[KeyIndex(tests, PrintExpr(e, host.hidden), host)] == e
  }

  /** The alpha node made for a leaf gives the truth of every leaf that is printed like
      it, and so of itself. */
  ghost predicate Interchangeable(leaves: iset<Expr>, env: Env, scratch: Scratch) {
    forall x <- leaves, y <- leaves :: PrintExpr(x, env.host.hidden) == PrintExpr(y, env.host.hidden) ==>
      EvalAlpha(NodeOf(y, 0, env.host), env, scratch) == Holds(x, env, scratch)
  }

  ghost function LeavesOf(rules: seq<RuleAst>): iset<Expr> { iset e | e in AllLeaves(rules) }

  /** The leaves of the rules' conditions are interchangeable under every overlay. */
  ghost predicate SharesSafely(rules: seq<RuleAst>, env: Env) {
    forall scratch :: Interchangeable(LeavesOf(rules), env, scratch)
  }

  /** The test found under the leaf's key gives the leaf's truth. */
  ghost predicate Answered(tests: seq<Expr>, e: Expr, env: Env, scratch: Scratch) {
    && Known(tests, e, env.host)
    && EvalAlpha(NodeOf(tests[KeyIndex(tests, PrintExpr(e, env.host.hidden), env.host)], 0, env.host), env, scratch)
       == Holds(e, env, scratch)
  }

  // ----- the precompiled regex -----

  lemma EvalTwoArgs(a: Expr, b: Expr, env: Env, scratch: Scratch)
    ensures EvalArgs([a, b], env, scratch) == [EvalExpr(a, env, scratch), EvalExpr(b, env, scratch)]
  {
    assert [a, b][1..] == [b] && [b][1..] == [];
  }

  /** A registered `matches` gives the truth values of the built-in one whenever the
      pattern is a literal that compiles. */
  ghost predicate OverrideIsBuiltin(env: Env) {
    "matches" in env.registry ==>
      forall v: Value, pattern: string | env.host.validRegex(pattern) ::
        env.registry["matches"]([v, Str(pattern)]).AsBool() == env.host.isMatch(pattern, v.AsStr())
  }

  /** The fast path never consults the registry, so it is right for every expression
      exactly when no registered `matches` behaves differently from the built-in. */
  lemma FastPathExact(env: Env)
    ensures (forall e, id, scratch :: EvalAlpha(NodeOf(e, id, env.host), env, scratch) == Holds(e, env, scratch))
            <==> OverrideIsBuiltin(env)
  {
    var agrees := forall e, id, scratch ::
      EvalAlpha(NodeOf(e, id, env.host), env, scratch) == Holds(e, env, scratch);
    if agrees && "matches" in env.registry {
      forall v: Value, pattern: string | env.host.validRegex(pattern)
        ensures env.registry["matches"]([v, Str(pattern)]).AsBool() == env.host.isMatch(pattern, v.AsStr())
      {
        var e := Call(CallExpr("matches", [Literal(v), Literal(Str(pattern))]));
        EvalTwoArgs(Literal(v), Literal(Str(pattern)), env, map[]);
        assert EvalAlpha(NodeOf(e, 0, env.host), env, map[]) == Holds(e, env, map[]);
      }
    }
    if OverrideIsBuiltin(env) {
      forall e, id, scratch
        ensures EvalAlpha(NodeOf(e, id, env.host), env, scratch) == Holds(e, env, scratch)
      {
        FastPathMeaning(e, id, env, scratch);
      }
    }
  }

  /** It can be wrong: a registered `matches` that always answers false is passed over. */
  lemma OverrideIsIgnored(env: Env, text: string, pattern: string, scratch: Scratch)
    requires "matches" in env.registry && env.registry["matches"] == ((args: seq<Value>) => Bool(false))
    requires env.host.validRegex(pattern) && env.host.isMatch(pattern, text)
    ensures var e := Call(CallExpr("matches", [Literal(Str(text)), Literal(Str(pattern))]));
            EvalAlpha(NodeOf(e, 0, env.host), env, scratch) && !Holds(e, env, scratch)
  {
  }

  /** A precompiled node has the truth value of its expression. */
  lemma FastPathMeaning(e: Expr, id: AlphaId, env: Env, scratch: Scratch)
    requires OverrideIsBuiltin(env)
    ensures EvalAlpha(NodeOf(e, id, env.host), env, scratch) == Holds(e, env, scratch)
  {
    if CompileAlpha(e, env.host).Some? {
      var args := e.call.args;
      assert args == [args[0], args[1]];
      EvalTwoArgs(args[0], args[1], env, scratch);
    }
  }

  // ----- sharing -----

  lemma {:induction false} InternedFrom(tests: seq<Expr>, leaves: seq<Expr>, host: Host)
    ensures forall e <- Intern(tests, leaves, host) :: e in tests || e in leaves
  {
    if leaves != [] {
      InternedFrom(tests, leaves[..|leaves| - 1], host);
    }
  }

  lemma {:induction false} LeavesWellFormed(e: Expr)
    requires WellFormed(e)
    ensures forall x <- Leaves(e) :: WellFormed(x)
  {
    match e
    case Binary(_, l, r) =>
      LeavesWellFormed(l);
      LeavesWellFormed(r);
    case Not(x) =>
      LeavesWellFormed(x);
    case _ =>
  }

  lemma {:induction false} AllLeavesWellFormed(rules: seq<RuleAst>)
    requires forall r <- rules :: WellFormed(r.when)
    ensures forall e <- AllLeaves(rules) :: WellFormed(e)
  {
    if rules != [] {
      AllLeavesWellFormed(rules[..|rules| - 1]);
      LeavesWellFormed(rules[|rules| - 1].when);
    }
  }

  /** Rules over well-formed conditions never share a key by accident. */
  lemma WellFormedKeysIdentify(rules: seq<RuleAst>, host: Host)
    requires forall r <- rules :: WellFormed(r.when)
    ensures KeysIdentify(rules, host)
  {
    AllLeavesWellFormed(rules);
    forall x <- AllLeaves(rules), y <- AllLeaves(rules)
      ensures PrintExpr(x, host.hidden) == PrintExpr(y, host.hidden) ==> x == y
    {
      KeysDistinguish(x, y, host.hidden);
    }
  }

  /** Whatever was interned under a leaf's key is a leaf with that key. */
  lemma InternedLeaf(rules: seq<RuleAst>, e: Expr, host: Host)
    requires e in AllLeaves(rules)
    ensures Known(Tests(rules, host), e, host)
    ensures var test := Tests(rules, host)[KeyIndex(Tests(rules, host), PrintExpr(e, host.hidden), host)];
            test in AllLeaves(rules) && PrintExpr(test, host.hidden) == PrintExpr(e, host.hidden)
  {
    hide PrintExpr, KeyIndex, Intern, AllLeaves;
    InternKnows([], AllLeaves(rules), host);
    InternedFrom([], AllLeaves(rules), host);
    assert Tests(rules, host)[KeyIndex(Tests(rules, host), PrintExpr(e, host.hidden), host)] in Tests(rules, host);
  }

  /** Every leaf is tested by itself exactly when no two leaves share a key. */
  lemma RepresentedExactly(rules: seq<RuleAst>, host: Host)
    ensures (forall e <- AllLeaves(rules) :: Represented(Tests(rules, host), e, host)) <==> KeysIdentify(rules, host)
  {
    hide PrintExpr, KeyIndex, Tests, AllLeaves;
    if KeysIdentify(rules, host) {
      forall e <- AllLeaves(rules)
        ensures Represented(Tests(rules, host), e, host)
      {
        InternedLeaf(rules, e, host);
      }
    }
    if forall e <- AllLeaves(rules) :: Represented(Tests(rules, host), e, host) {
      forall x <- AllLeaves(rules), y <- AllLeaves(rules)
        ensures PrintExpr(x, host.hidden) == PrintExpr(y, host.hidden) ==> x == y
      {
        assert Represented(Tests(rules, host), x, host) && Represented(Tests(rules, host), y, host);
      }
    }
  }

  // ----- guards -----

  function AndParts(g: Guard): seq<Guard> { if g.And? then g.guards else [g] }

  function OrParts(g: Guard): seq<Guard> { if g.Or? then g.guards else [g] }

  lemma MergeParts(l: Guard, r: Guard)
    ensures MergeAnd(l, r) == Guard.And(AndParts(l) + AndParts(r))
    ensures MergeOr(l, r) == Guard.Or(OrParts(l) + OrParts(r))
  {
  }

  lemma MergeEval(l: Guard, r: Guard, v: seq<bool>)
    ensures MergeAnd(l, r).Eval(v) <==> l.Eval(v) && r.Eval(v)
    ensures MergeOr(l, r).Eval(v) <==> l.Eval(v) || r.Eval(v)
  {
    MergeAndEval(l, r, v);
    MergeOrEval(l, r, v);
  }

  lemma MergeAndEval(l: Guard, r: Guard, v: seq<bool>)
    ensures MergeAnd(l, r).Eval(v) <==> l.Eval(v) && r.Eval(v)
  {
    hide MergeAnd;
    MergeParts(l, r);
    assert l.Eval(v) <==> forall g <- AndParts(l) :: g.Eval(v);
    assert r.Eval(v) <==> forall g <- AndParts(r) :: g.Eval(v);
  }

  lemma MergeOrEval(l: Guard, r: Guard, v: seq<bool>)
    ensures MergeOr(l, r).Eval(v) <==> l.Eval(v) || r.Eval(v)
  {
    hide MergeOr;
    MergeParts(l, r);
    assert l.Eval(v) <==> exists g <- OrParts(l) :: g.Eval(v);
    assert r.Eval(v) <==> exists g <- OrParts(r) :: g.Eval(v);
  }

  /** A guard over the tests' truth values means what its condition means. */
  lemma {:induction false} GuardMeaning(e: Expr, tests: seq<Expr>, env: Env, scratch: Scratch)
    requires forall x <- Leaves(e) :: Answered(tests, x, env, scratch)
    ensures GuardOf(e, tests, env.host).Eval(AlphaVector(NodesOf(tests, env.host), env, scratch))
            == Holds(e, env, scratch)
  {
    var v := AlphaVector(NodesOf(tests, env.host), env, scratch);
    if Leaves(e) == [e] {
      assert e in Leaves(e);
      var i := KeyIndex(tests, PrintExpr(e, env.host.hidden), env.host);
      assert Answered(tests, e, env, scratch);
      assert v[i] == EvalAlpha(NodeOf(tests[i], i, env.host), env, scratch) == Holds(e, env, scratch);
    }
    LeafOrBoolean(e, tests, env.host);
    hide PrintExpr, KeyIndex, AlphaVector, Answered, EvalAlpha;
    match e
    case Binary(op, l, r) =>
      if op == BinOp.And || op == BinOp.Or {
        GuardMeaning(l, tests, env, scratch);
        GuardMeaning(r, tests, env, scratch);
        MergeEval(GuardOf(l, tests, env.host), GuardOf(r, tests, env.host), v);
      }
    case Not(x) =>
      GuardMeaning(x, tests, env, scratch);
    case _ =>
  }

  lemma LeafOrBoolean(e: Expr, tests: seq<Expr>, host: Host)
    ensures Leaves(e) == [e] || e.Not? || (e.Binary? && e.op in {BinOp.And, BinOp.Or}) || (e.Literal? && e.value.Bool?)
    ensures Leaves(e) == [e] ==> GuardOf(e, tests, host) == Alpha(KeyIndex(tests, PrintExpr(e, host.hidden), host))
  {
    if e.Not? {
      LeavesAreSmaller(e.expr);
    } else if e.Binary? && e.op in {BinOp.And, BinOp.Or} {
      LeavesAreSmaller(e.left);
      LeavesAreSmaller(e.right);
      assert e !in Leaves(e.left) && e !in Leaves(e.right);
    }
    assert e in [e];
  }

  /** No expression is a leaf of one of its own operands. */
  lemma LeavesAreSmaller(e: Expr)
    ensures forall x <- Leaves(e) :: x == e || x < e
  {
  }

  /** Does the compiled guard of a rule agree with its condition? */
  ghost predicate GuardAgrees(rules: seq<RuleAst>, j: nat, env: Env, scratch: Scratch)
    requires j < |rules|
  {
    var tests := Tests(rules, env.host);
    TerminalOf(rules[j], tests, env.host).guard.Eval(AlphaVector(NodesOf(tests, env.host), env, scratch))
    == Holds(rules[j].when, env, scratch)
  }

  /** Every compiled rule's guard agrees with its condition, whatever rules were
      compiled before and after it, as long as leaves that share a node may. */
  lemma CompilationPreservesMeaning(rules: seq<RuleAst>, j: nat, env: Env, scratch: Scratch)
    requires j < |rules| && Interchangeable(LeavesOf(rules), env, scratch)
    ensures GuardAgrees(rules, j, env, scratch)
  {
    var tests := Tests(rules, env.host);
    LeavesAreListed(rules, j);
    hide PrintExpr, KeyIndex, Tests, Leaves, AllLeaves, EvalAlpha, Holds;
    forall x <- Leaves(rules[j].when)
      ensures Answered(tests, x, env, scratch)
    {
      InternedLeaf(rules, x, env.host);
      var y := tests[KeyIndex(tests, PrintExpr(x, env.host.hidden), env.host)];
      assert x in LeavesOf(rules) && y in LeavesOf(rules);
    }
    GuardMeaning(rules[j].when, tests, env, scratch);
  }

  /** Over any stock of leaves, compilation preserves the meaning of every rule of every
      list of rules built from them exactly when leaves that share a node may. */
  lemma CompilationPreservesMeaningExactly(leaves: iset<Expr>, env: Env, scratch: Scratch)
    requires forall e <- leaves :: Leaves(e) == [e]
    ensures (forall rules, j: nat | j < |rules| && LeavesOf(rules) <= leaves :: GuardAgrees(rules, j, env, scratch))
            <==> Interchangeable(leaves, env, scratch)
  {
    if Interchangeable(leaves, env, scratch) {
      forall rules, j: nat | j < |rules| && LeavesOf(rules) <= leaves
        ensures GuardAgrees(rules, j, env, scratch)
      {
        assert Interchangeable(LeavesOf(rules), env, scratch) by { hide PrintExpr, EvalAlpha, Holds, AllLeaves; }
        CompilationPreservesMeaning(rules, j, env, scratch);
      }
    }
    if forall rules, j: nat | j < |rules| && LeavesOf(rules) <= leaves :: GuardAgrees(rules, j, env, scratch) {
      forall x <- leaves, y <- leaves | PrintExpr(x, env.host.hidden) == PrintExpr(y, env.host.hidden)
        ensures EvalAlpha(NodeOf(y, 0, env.host), env, scratch) == Holds(x, env, scratch)
      {
        var rules := [RuleAst("A", 0, y, []), RuleAst("B", 0, x, [])];
        TwoRules(rules[0], rules[1], env.host);
        assert LeavesOf(rules) <= leaves;
        assert GuardAgrees(rules, 1, env, scratch);
        SharedNode(rules[0], rules[1], env, scratch);
      }
    }
  }

  /** A leaf compiled after one that is printed alike is answered by the other's node. */
  lemma SharedNode(a: RuleAst, b: RuleAst, env: Env, scratch: Scratch)
    requires Leaves(a.when) == [a.when] && Leaves(b.when) == [b.when]
    requires PrintExpr(a.when, env.host.hidden) == PrintExpr(b.when, env.host.hidden)
    ensures GuardAgrees([a, b], 1, env, scratch) <==>
            EvalAlpha(NodeOf(a.when, 0, env.host), env, scratch) == Holds(b.when, env, scratch)
  {
    TwoRules(a, b, env.host);
    LeafOrBoolean(b.when, [a.when], env.host);
    assert KeyIndex([a.when], PrintExpr(b.when, env.host.hidden), env.host) == 0;
    hide PrintExpr, KeyIndex, Tests, Leaves, GuardOf;
    var v := AlphaVector(NodesOf([a.when], env.host), env, scratch);
    assert v[0] == EvalAlpha(NodeOf(a.when, 0, env.host), env, scratch);
  }

  /** With no registered `matches` that differs from the built-in one, leaves may share
      nodes exactly when leaves that are printed alike are also true alike. */
  lemma InterchangeableExactly(leaves: iset<Expr>, env: Env, scratch: Scratch)
    requires OverrideIsBuiltin(env)
    ensures Interchangeable(leaves, env, scratch) <==>
            forall x <- leaves, y <- leaves :: PrintExpr(x, env.host.hidden) == PrintExpr(y, env.host.hidden) ==>
              Holds(x, env, scratch) == Holds(y, env, scratch)
  {
    forall e <- leaves
      ensures EvalAlpha(NodeOf(e, 0, env.host), env, scratch) == Holds(e, env, scratch)
    {
      FastPathMeaning(e, 0, env, scratch);
    }
    hide PrintExpr, EvalAlpha, Holds;
  }

  /** Rules no two leaves of which are printed alike share safely. */
  lemma KeysIdentifySuffices(rules: seq<RuleAst>, env: Env)
    requires KeysIdentify(rules, env.host) && OverrideIsBuiltin(env)
    ensures SharesSafely(rules, env)
  {
    hide PrintExpr, Holds, AllLeaves;
    forall scratch
      ensures Interchangeable(LeavesOf(rules), env, scratch)
    {
      InterchangeableExactly(LeavesOf(rules), env, scratch);
    }
  }

  /** Sharing can be harmless although keys collide: `f() < 1` and `f() < 1.0` are true
      alike whatever `f` returns. */
  lemma IntegralFloatsShareSafely(env: Env)
    ensures var f := Call(CallExpr("f", []));
            var one, float := Binary(Lt, f, Literal(Int(1))), Binary(Lt, f, Literal(Float("1")));
            var rules := [RuleAst("A", 0, one, []), RuleAst("B", 0, float, [])];
            !KeysIdentify(rules, env.host) && SharesSafely(rules, env)
  {
    var f := Call(CallExpr("f", []));
    var one, float := Binary(Lt, f, Literal(Int(1))), Binary(Lt, f, Literal(Float("1")));
    var rules := [RuleAst("A", 0, one, []), RuleAst("B", 0, float, [])];
    PrintedAlike(f, env.host.hidden);
    TwoRules(rules[0], rules[1], env.host);
    assert one in AllLeaves(rules) && float in AllLeaves(rules);
    hide PrintExpr, Holds, AllLeaves;
    forall scratch
      ensures Interchangeable(LeavesOf(rules), env, scratch)
    {
      TrueAlike(f, env, scratch);
    }
  }

  lemma PrintedAlike(f: Expr, hidden: char -> bool)
    ensures PrintExpr(Binary(Lt, f, Literal(Int(1))), hidden) == PrintExpr(Binary(Lt, f, Literal(Float("1"))), hidden)
  {
    assert PrintInt(1) == "1";
    assert PrintExpr(Literal(Int(1)), hidden) == PrintExpr(Literal(Float("1")), hidden);
  }

  lemma TrueAlike(f: Expr, env: Env, scratch: Scratch)
    ensures Holds(Binary(Lt, f, Literal(Int(1))), env, scratch) == Holds(Binary(Lt, f, Literal(Float("1"))), env, scratch)
  {
    assert PrintInt(1) == "1";
    IntegralFloatReadsAsInt(1);
    LessThan(f, Int(1), env, scratch);
    LessThan(f, Float("1"), env, scratch);
    hide PrintInt, ParseInt, FloatToInt, EvalExpr;
  }

  lemma LessThan(f: Expr, v: Value, env: Env, scratch: Scratch)
    ensures EvalExpr(Binary(Lt, f, Literal(v)), env, scratch) == Bool(EvalExpr(f, env, scratch).AsInt() < v.AsInt())
  {
    assert EvalExpr(Literal(v), env, scratch) == v;
    hide Value.AsInt;
  }

  /** Sharing can show: a condition over `Request.Headers["a\"][\"b"]` compiled after one
      over `Request.Headers["a"]["b"]` is answered with the header `a`, which the first
      path reads, instead of the header it names. */
  lemma QuotedIndexKeyReadsAnotherPath(env: Env)
    requires env.resolve(Path([Field("Request"), Field("Headers"), Index("a"), Index("b")])) == Str("1")
    requires env.resolve(Path([Field("Request"), Field("Headers"), Index("a\"][\"b")])) == Str("")
    ensures var two := PathRef(Path([Field("Request"), Field("Headers"), Index("a"), Index("b")]));
            var one := PathRef(Path([Field("Request"), Field("Headers"), Index("a\"][\"b")]));
            var rules := [RuleAst("Log", 0, two, [Do(CallExpr("log", []))]), RuleAst("Block", 0, one, [Do(CallExpr("block", []))])];
            !GuardAgrees(rules, 1, env, map[])
  {
    var two := PathRef(Path([Field("Request"), Field("Headers"), Index("a"), Index("b")]));
    var one := PathRef(Path([Field("Request"), Field("Headers"), Index("a\"][\"b")]));
    QuotedIndexKeysCollide(env.host.hidden);
    SharedNode(RuleAst("Log", 0, two, [Do(CallExpr("log", []))]), RuleAst("Block", 0, one, [Do(CallExpr("block", []))]),
               env, map[]);
  }

  /** Two rules whose conditions are leaves with one key share the first rule's test. */
  lemma TwoRules(a: RuleAst, b: RuleAst, host: Host)
    requires Leaves(a.when) == [a.when] && Leaves(b.when) == [b.when]
    requires PrintExpr(a.when, host.hidden) == PrintExpr(b.when, host.hidden)
    ensures Tests([a, b], host) == [a.when] && AllLeaves([a, b]) == [a.when, b.when]
  {
    hide PrintExpr, Leaves;
    assert [a, b][..1] == [a] && [a][..0] == [];
    assert AllLeaves([a]) == [] + [a.when];
    assert AllLeaves([a, b]) == [a.when, b.when];
    InternOne([], a.when, host);
    assert [a.when, b.when][..1] == [a.when];
  }

  // ----- the shape of the compiled network -----

  /** No conjunction directly under a conjunction, no disjunction directly under a
      disjunction, and at least two parts in each. */
  predicate Flat(g: Guard) {
    match g
    case And(gs) => |gs| >= 2 && forall x <- gs :: !x.And? && Flat(x)
    case Or(gs) => |gs| >= 2 && forall x <- gs :: !x.Or? && Flat(x)
    case Not(x) => Flat(x)
    case _ => true
  }

  /** The alpha ids of a guard from left to right. */
  function Ids(g: Guard): seq<AlphaId>
    decreases g, 0
  {
    match g
    case Alpha(id) => [id]
    case And(gs) => IdsOfAll(gs)
    case Or(gs) => IdsOfAll(gs)
    case Not(x) => Ids(x)
    case _ => []
  }

  function IdsOfAll(gs: seq<Guard>): seq<AlphaId>
    decreases gs, 1
  {
    if gs == [] then [] else Ids(gs[0]) + IdsOfAll(gs[1..])
  }

  lemma IdsOfFirst(gs: seq<Guard>)
    requires gs != []
    ensures IdsOfAll(gs) == Ids(gs[0]) + IdsOfAll(gs[1..])
  {
  }

  lemma {:induction false} IdsOfConcat(a: seq<Guard>, b: seq<Guard>)
    ensures IdsOfAll(a + b) == IdsOfAll(a) + IdsOfAll(b)
  {
    if a == [] {
      assert a + b == b;
    } else {
      IdsOfFirst(a);
      IdsOfFirst(a + b);
      hide Ids, IdsOfAll;
      IdsOfConcat(a[1..], b);
      assert (a + b)[1..] == a[1..] + b;
    }
  }

  lemma PartsAreFlat(g: Guard)
    requires Flat(g)
    ensures AndParts(g) != [] && forall x <- AndParts(g) :: !x.And?
    ensures OrParts(g) != [] && forall x <- OrParts(g) :: !x.Or?
  {
  }

  lemma MergeShape(l: Guard, r: Guard)
    requires Flat(l) && Flat(r)
    ensures Flat(MergeAnd(l, r)) && Ids(MergeAnd(l, r)) == Ids(l) + Ids(r)
    ensures Flat(MergeOr(l, r)) && Ids(MergeOr(l, r)) == Ids(l) + Ids(r)
  {
    MergeAndShape(l, r);
    MergeOrShape(l, r);
    hide *;
  }

  lemma MergeAndShape(l: Guard, r: Guard)
    requires Flat(l) && Flat(r)
    ensures Flat(MergeAnd(l, r)) && Ids(MergeAnd(l, r)) == Ids(l) + Ids(r)
  {
    MergeParts(l, r);
    PartsAreFlat(l);
    PartsAreFlat(r);
    JoinShape(l, r, AndParts(l), AndParts(r));
    hide MergeAnd, AndParts;
  }

  lemma MergeOrShape(l: Guard, r: Guard)
    requires Flat(l) && Flat(r)
    ensures Flat(MergeOr(l, r)) && Ids(MergeOr(l, r)) == Ids(l) + Ids(r)
  {
    MergeParts(l, r);
    PartsAreFlat(l);
    PartsAreFlat(r);
    JoinShape(l, r, OrParts(l), OrParts(r));
    hide MergeOr, OrParts;
  }

  lemma JoinShape(l: Guard, r: Guard, a: seq<Guard>, b: seq<Guard>)
    requires Flat(l) && Flat(r)
    requires a == [l] || l == Guard.And(a) || l == Guard.Or(a)
    requires b == [r] || r == Guard.And(b) || r == Guard.Or(b)
    ensures forall g <- a + b :: Flat(g)
    ensures IdsOfAll(a + b) == Ids(l) + Ids(r)
  {
    IdsOfConcat(a, b);
    assert IdsOfAll([l]) == Ids(l) + IdsOfAll([l][1..]);
    assert IdsOfAll([r]) == Ids(r) + IdsOfAll([r][1..]);
  }

  /** The ids of the leaves of a condition, from left to right. */
  function LeafIds(leaves: seq<Expr>, tests: seq<Expr>, host: Host): (ids: seq<AlphaId>)
    ensures |ids| == |leaves|
    ensures forall i | 0 <= i < |leaves| :: ids[i] == KeyIndex(tests, PrintExpr(leaves[i], host.hidden), host)
  {
    seq(|leaves|, i requires 0 <= i < |leaves| => KeyIndex(tests, PrintExpr(leaves[i], host.hidden), host))
  }

  /** A guard is flat and refers to its condition's leaves in source order. */
  lemma {:induction false} GuardShape(e: Expr, tests: seq<Expr>, host: Host)
    ensures Flat(GuardOf(e, tests, host))
    ensures Ids(GuardOf(e, tests, host)) == LeafIds(Leaves(e), tests, host)
  {
    hide PrintExpr, KeyIndex, MergeAnd, MergeOr, IdsOfAll;
    match e
    case Binary(op, l, r) =>
      if op == BinOp.And || op == BinOp.Or {
        GuardShape(l, tests, host);
        GuardShape(r, tests, host);
        MergeShape(GuardOf(l, tests, host), GuardOf(r, tests, host));
      }
    case Not(x) =>
      GuardShape(x, tests, host);
    case _ =>
  }

  /** Every id in a compiled guard is in range, so the default for unknown ids is
      never used. */
  lemma IdsInRange(rules: seq<RuleAst>, j: nat, host: Host)
    requires j < |rules|
    ensures forall id <- Ids(TerminalOf(rules[j], Tests(rules, host), host).guard) :: id < |Tests(rules, host)|
  {
    var e, tests := rules[j].when, Tests(rules, host);
    GuardShape(e, tests, host);
    LeavesAreKnown(rules, j, host);
    forall id <- LeafIds(Leaves(e), tests, host)
      ensures id < |tests|
    {
      var i :| 0 <= i < |Leaves(e)| && id == LeafIds(Leaves(e), tests, host)[i];
      assert Leaves(e)[i] in Leaves(e);
    }
  }

  function KeysOf(exprs: seq<Expr>, host: Host): set<string> {
    set e <- exprs :: PrintExpr(e, host.hidden)
  }

  lemma {:induction false} InternDistinct(leaves: seq<Expr>, host: Host)
    ensures DistinctKeys(Intern([], leaves, host), host)
  {
    if leaves != [] {
      InternDistinct(leaves[..|leaves| - 1], host);
    }
  }

  /** One alpha node per distinct printed leaf. */
  lemma {:induction false} AlphaCount(leaves: seq<Expr>, host: Host)
    ensures KeysOf(Intern([], leaves, host), host) == KeysOf(leaves, host)
    ensures |Intern([], leaves, host)| == |KeysOf(leaves, host)|
  {
    if leaves != [] {
      var init, e := leaves[..|leaves| - 1], leaves[|leaves| - 1];
      var d := Intern([], init, host);
      hide PrintExpr, KeyIndex;
      AlphaCount(init, host);
      assert leaves == init + [e];
      KeysOfSnoc(init, e, host);
      KeysOfSnoc(d, e, host);
      KnownKeys(d, e, host);
      hide KeysOf, Known;
    }
  }

  lemma KeysOfSnoc(exprs: seq<Expr>, e: Expr, host: Host)
    ensures KeysOf(exprs + [e], host) == KeysOf(exprs, host) + {PrintExpr(e, host.hidden)}
  {
    hide PrintExpr;
    assert forall x <- exprs + [e] :: x in exprs || x == e;
    assert e in exprs + [e];
    forall key <- KeysOf(exprs, host)
      ensures key in KeysOf(exprs + [e], host)
    {
      var x :| x in exprs && PrintExpr(x, host.hidden) == key;
      assert x in exprs + [e];
    }
  }

  lemma KnownKeys(tests: seq<Expr>, e: Expr, host: Host)
    ensures Known(tests, e, host) <==> PrintExpr(e, host.hidden) in KeysOf(tests, host)
  {
    var key := PrintExpr(e, host.hidden);
    hide PrintExpr;
    if Known(tests, e, host) {
      assert tests[KeyIndex(tests, key, host)] in tests;
    }
  }
}
