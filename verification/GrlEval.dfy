/** Expression evaluation over one request: the assignment overlay, the function
    registry, and the operators (rete/engine.rs, rete/working_memory.rs,
    grl/registry.rs, grl/functions.rs). */
module GrlEval {
  import opened Text
  import opened GrlAst

  /** The parts of the standard library and of the regex crate the engine calls. */
  datatype Host = Host(
    hidden: char -> bool,                  // shown escaped in a string's debug form
    validRegex: string -> bool,            // does the pattern compile?
    isMatch: (string, string) -> bool)     // does the pattern match the text?

  type Function = seq<Value> -> Value

  /** All that one request and the installed functions answer while rules fire: the
      request's own fields, the registered functions, and the built-in functions other
      than `matches`. */
  datatype Env = Env(
    host: Host,
    resolve: Path -> Value,
    registry: map<string, Function>,
    builtin: (string, seq<Value>) -> Value)

  /** Assignments made by fired rules, read before the request's own fields. */
  type Scratch = map<Path, Value>

  function Arg(args: seq<Value>, i: nat): string {
    if i < |args| then args[i].AsStr() else ""
  }

  /** The built-in functions. */
  function Dispatch(name: string, args: seq<Value>, env: Env): Value {
    if name == "matches" then
      Bool(env.host.validRegex(Arg(args, 1)) && env.host.isMatch(Arg(args, 1), Arg(args, 0)))
    else
      env.builtin(name, args)
  }

  /** Registered functions win over built-in ones. */
  function CallFunction(name: string, args: seq<Value>, env: Env): Value {
    if name in env.registry then env.registry[name](args) else Dispatch(name, args, env)
  }

  /** The overlay wins over the request. */
  function ReadPath(p: Path, env: Env, scratch: Scratch): Value {
    if p in scratch then scratch[p] else env.resolve(p)
  }

  /** Truncating division by a positive divisor. */
  function DivTrunc(a: int, d: int): (q: int)
    requires d >= 1
    ensures a >= 0 ==> 0 <= q && q * d <= a < q * d + d
    ensures a <= 0 ==> q <= 0 && q * d - d < a <= q * d
  {
    if a >= 0 then a / d else -(-a / d)
  }

  function ValueEq(a: Value, b: Value): bool {
    match (a, b)
    case (Float(x), Float(y)) =>
      x != "NaN" && (x == y || (x in {"0", "-0"} && y in {"0", "-0"}))
    case _ =>
      if SameKind(a, b) then a == b else a.AsStr() == b.AsStr()
  }

  predicate SameKind(a: Value, b: Value) {
    (a.Null? && b.Null?) || (a.Bool? && b.Bool?) || (a.Int? && b.Int?) || (a.Str? && b.Str?)
  }

  /** The operators that evaluate both operands. */
  function Operate(op: BinOp, a: Value, b: Value): Value
    requires op != And && op != Or
  {
    match op
    case Eq => Bool(ValueEq(a, b))
    case Neq => Bool(!ValueEq(a, b))
    case Lt => Bool(a.AsInt() < b.AsInt())
    case Lte => Bool(a.AsInt() <= b.AsInt())
    case Gt => Bool(a.AsInt() > b.AsInt())
    case Gte => Bool(a.AsInt() >= b.AsInt())
    case Add =>
      if a.Str? || b.Str? then Str(a.AsStr() + b.AsStr()) else Int(Wrap64(a.AsInt() + b.AsInt()))
    case Sub => Int(Wrap64(a.AsInt() - b.AsInt()))
    case Mul => Int(Wrap64(a.AsInt() * b.AsInt()))
    case Div =>
      var d: int := if b.AsInt() >= 1 then b.AsInt() else 1;
      Int(Wrap64(DivTrunc(a.AsInt(), d)))
  }

  function EvalExpr(e: Expr, env: Env, scratch: Scratch): Value
    decreases e, 0
  {
    match e
    case Literal(v) => v
    case PathRef(p) => ReadPath(p, env, scratch)
    case Call(c) => CallFunction(c.name, EvalArgs(c.args, env, scratch), env)
    case Not(x) => Bool(!EvalExpr(x, env, scratch).AsBool())
    case Binary(op, l, r) =>
      if op == And then Bool(EvalExpr(l, env, scratch).AsBool() && EvalExpr(r, env, scratch).AsBool())
      else if op == Or then Bool(EvalExpr(l, env, scratch).AsBool() || EvalExpr(r, env, scratch).AsBool())
      else Operate(op, EvalExpr(l, env, scratch), EvalExpr(r, env, scratch))
  }

  function EvalArgs(args: seq<Expr>, env: Env, scratch: Scratch): (r: seq<Value>)
    ensures |r| == |args|
    decreases args, 1
  {
    if args == [] then []
    else [EvalExpr(args[0], env, scratch)] + EvalArgs(args[1..], env, scratch)
  }

  /** Is the expression true as a condition? */
  predicate Holds(e: Expr, env: Env, scratch: Scratch) { EvalExpr(e, env, scratch).AsBool() }

  // ----- laws of the operators -----

  /** Equality compares string forms, across types and within them; only two floats are
      compared as numbers. */
  lemma EqualityIsTextual(a: Value, b: Value)
    ensures !(a.Float? && b.Float?) ==> (ValueEq(a, b) <==> a.AsStr() == b.AsStr())
    ensures ValueEq(a, b) == ValueEq(b, a)
    ensures ValueEq(a, a) <==> a != Float("NaN")
  {
    if a.Int? && b.Int? && a.AsStr() == b.AsStr() {
      PrintIntInjective(a.i, b.i);
    }
  }

  predicate FloatZero(v: Value) { v == Float("0") || v == Float("-0") }

  /** Equality chains through a middle value except in three cases: both ends are NaN; the
      first two are the two float zeros and the last is no float; or the same the other way
      round. */
  lemma EqualityChainsExactly(a: Value, b: Value, c: Value)
    requires ValueEq(a, b) && ValueEq(b, c)
    ensures !ValueEq(a, c) <==>
              || (a == Float("NaN") && c == Float("NaN"))
              || (FloatZero(a) && FloatZero(b) && a != b && !c.Float?)
              || (!a.Float? && FloatZero(b) && FloatZero(c) && b != c)
  {
    EqualityIsTextual(a, b);
    EqualityIsTextual(b, c);
    EqualityIsTextual(a, c);
  }

  /** Each case occurs: through a float zero, and through the text of NaN. */
  lemma EqualityIsNotTransitive()
    ensures ValueEq(Str("-0"), Float("-0")) && ValueEq(Float("-0"), Float("0")) && !ValueEq(Str("-0"), Float("0"))
    ensures ValueEq(Float("NaN"), Str("NaN")) && ValueEq(Str("NaN"), Float("NaN")) && !ValueEq(Float("NaN"), Float("NaN"))
  {
  }

  /** The comparisons are one total order of the values' integer readings: they look at
      nothing else, `<=` is total and transitive, `<` is its strict part, `>` and `>=` are
      the converses; `!=` negates `==`, and between integers `==` is neither less nor
      greater. */
  lemma ComparisonLaws(a: Value, b: Value, c: Value)
    ensures Operate(Lt, a, b) == Operate(Lt, Int(a.AsInt()), Int(b.AsInt()))
    ensures Operate(Lt, Int(a.AsInt()), Int(b.AsInt())).b <==> a.AsInt() < b.AsInt()
    ensures Operate(Lte, a, b).b || Operate(Lte, b, a).b
    ensures Operate(Lte, a, b).b && Operate(Lte, b, c).b ==> Operate(Lte, a, c).b
    ensures Operate(Lte, a, b).b && Operate(Lte, b, a).b <==> a.AsInt() == b.AsInt()
    ensures Operate(Lt, a, b).b == !Operate(Lte, b, a).b
    ensures Operate(Gt, a, b) == Operate(Lt, b, a) && Operate(Gte, a, b) == Operate(Lte, b, a)
    ensures Operate(Neq, a, b).b == !Operate(Eq, a, b).b
    ensures a.Int? && b.Int? ==>
              (Operate(Eq, a, b).b <==> !Operate(Lt, a, b).b && !Operate(Gt, a, b).b)
  {
    hide ParseInt, FloatToInt, PrintInt, Value.AsStr;
  }

  /** Addition, subtraction and multiplication are those of the integers modulo 2^64, so
      subtraction undoes addition even after overflow. */
  lemma ArithmeticIsModular(a: Value, b: Value)
    requires !a.Str? && !b.Str?
    ensures Cong(Operate(Add, a, b).i, a.AsInt() + b.AsInt())
    ensures Cong(Operate(Sub, a, b).i, a.AsInt() - b.AsInt())
    ensures Cong(Operate(Mul, a, b).i, a.AsInt() * b.AsInt())
    ensures Operate(Sub, Operate(Add, a, b), b) == Int(a.AsInt())
  {
    hide Wrap64;
    var x: int, y: int := a.AsInt(), b.AsInt();
    WrapUndo(x, y);
    ArithmeticWraps(a, b);
    hide Operate, Value.AsInt;
  }

  lemma ArithmeticWraps(a: Value, b: Value)
    requires !a.Str? && !b.Str?
    ensures Operate(Add, a, b) == Int(Wrap64(a.AsInt() + b.AsInt()))
    ensures Operate(Sub, a, b) == Int(Wrap64(a.AsInt() - b.AsInt()))
    ensures Operate(Mul, a, b) == Int(Wrap64(a.AsInt() * b.AsInt()))
    ensures Operate(Sub, Operate(Add, a, b), b) == Int(Wrap64(Wrap64(a.AsInt() + b.AsInt()) - b.AsInt()))
  {
    hide Wrap64;
  }

  lemma WrapUndo(x: int, y: int)
    requires I64_MIN <= x <= I64_MAX
    ensures Wrap64(Wrap64(x + y) - y) == x
  {
  }

  predicate Cong(x: int, y: int) { (x - y) % 0x1_0000_0000_0000_0000 == 0 }

  /** Division truncates toward zero, and by anything below one it is division by one. */
  lemma DivisionTruncates(a: Value, b: Value)
    ensures var q, n: int, d := Operate(Div, a, b).i as int, a.AsInt(), b.AsInt();
            && (d <= 1 ==> q == n)
            && (d >= 1 && n >= 0 ==> q * d <= n < q * d + d)
            && (d >= 1 && n <= 0 ==> q * d - d < n <= q * d)
  {
    var n: int, d: int := a.AsInt(), if b.AsInt() >= 1 then b.AsInt() else 1;
    var q := DivTrunc(n, d);
    QuotientInRange(n, d);
    assert Operate(Div, a, b) == Int(Wrap64(q));
  }

  lemma QuotientInRange(n: int, d: int)
    requires I64_MIN <= n <= I64_MAX && d >= 1
    ensures I64_MIN <= DivTrunc(n, d) <= I64_MAX
    ensures d == 1 ==> DivTrunc(n, d) == n
    ensures Wrap64(DivTrunc(n, d)) == DivTrunc(n, d)
  {
    var q := DivTrunc(n, d);
    hide Wrap64;
    if n >= 0 {
      ScaleUp(q, d);
    } else {
      ScaleUp(-q, d);
      assert -q * d == -(q * d);
    }
    WrapInRange(q);
  }

  lemma ScaleUp(q: int, d: int)
    requires q >= 0 && d >= 1
    ensures q * d >= q
    ensures d == 1 ==> q * d == q
  {
  }

  lemma WrapInRange(x: int)
    requires I64_MIN <= x <= I64_MAX
    ensures Wrap64(x) == x
  {
  }

  function Plus(a: Value, b: Value): Value { Operate(Add, a, b) }

  /** `+` is addition between values that are not text and concatenation otherwise, so it
      associates except where text at one end meets a sum at the other that reads unlike
      its two parts: `"a" + 1 + 2` is "a12", `"a" + (1 + 2)` is "a3". */
  lemma PlusAssociatesExactly(a: Value, b: Value, c: Value)
    ensures Plus(Plus(a, b), c) == Plus(a, Plus(b, c)) <==>
              && (a.Str? && !b.Str? && !c.Str? ==> Plus(b, c).AsStr() == b.AsStr() + c.AsStr())
              && (c.Str? && !a.Str? && !b.Str? ==> Plus(a, b).AsStr() == a.AsStr() + b.AsStr())
  {
    PlusParts(a, b);
    PlusParts(b, c);
    PlusParts(Plus(a, b), c);
    PlusParts(a, Plus(b, c));
    hide Plus, Value.AsInt, Value.AsStr, Wrap64;
    if a.Str? || b.Str? || c.Str? {
      assert (a.AsStr() + b.AsStr()) + c.AsStr() == a.AsStr() + (b.AsStr() + c.AsStr());
      SameEnds(a.AsStr(), Plus(b, c).AsStr(), b.AsStr() + c.AsStr());
      SameStarts(Plus(a, b).AsStr(), a.AsStr() + b.AsStr(), c.AsStr());
    } else {
      WrapAssociates(a.AsInt(), b.AsInt(), c.AsInt());
    }
  }

  lemma PlusParts(a: Value, b: Value)
    ensures a.Str? || b.Str? ==> Plus(a, b).Str? && Plus(a, b).AsStr() == a.AsStr() + b.AsStr()
    ensures a.Str? || b.Str? ==> Plus(a, b) == Str(Plus(a, b).AsStr())
    ensures !a.Str? && !b.Str? ==> Plus(a, b) == Int(Wrap64(a.AsInt() + b.AsInt())) && Plus(a, b).AsInt() == Wrap64(a.AsInt() + b.AsInt())
  {
    hide Wrap64, PrintInt, ParseInt, FloatToInt;
  }

  lemma SameEnds(a: string, x: string, y: string)
    ensures a + x == a + y <==> x == y
  {
    assert x == (a + x)[|a|..] && y == (a + y)[|a|..];
  }

  lemma SameStarts(x: string, y: string, c: string)
    ensures x + c == y + c <==> x == y
  {
    assert x == (x + c)[..|x + c| - |c|] && y == (y + c)[..|y + c| - |c|];
  }

  lemma WrapAssociates(x: int, y: int, z: int)
    ensures Wrap64(Wrap64(x + y) + z) == Wrap64(x + Wrap64(y + z))
  {
  }

  // ----- what an expression reads -----

  function PathsOf(e: Expr): set<Path>
    decreases e, 0
  {
    match e
    case Literal(_) => {}
    case PathRef(p) => {p}
    case Call(c) => PathsOfAll(c.args)
    case Not(x) => PathsOf(x)
    case Binary(_, l, r) => PathsOf(l) + PathsOf(r)
  }

  function PathsOfAll(args: seq<Expr>): set<Path>
    decreases args, 1
  {
    if args == [] then {} else PathsOf(args[0]) + PathsOfAll(args[1..])
  }

  /** The two overlays answer alike on `paths`. */
  ghost predicate AgreeOn(paths: set<Path>, s: Scratch, t: Scratch) {
    forall p <- paths :: (p in s <==> p in t) && (p in s ==> s[p] == t[p])
  }

  /** An expression's value depends only on the paths written in it. */
  lemma {:induction false} EvalReadsOnlyItsPaths(e: Expr, env: Env, s: Scratch, t: Scratch)
    requires AgreeOn(PathsOf(e), s, t)
    ensures EvalExpr(e, env, s) == EvalExpr(e, env, t)
    decreases e, 0
  {
    match e
    case Literal(_) =>
    case PathRef(p) =>
      assert p in PathsOf(e);
    case Call(c) =>
      EvalArgsReadOnlyTheirPaths(c.args, env, s, t);
    case Not(x) =>
      EvalReadsOnlyItsPaths(x, env, s, t);
    case Binary(_, l, r) =>
      EvalReadsOnlyItsPaths(l, env, s, t);
      EvalReadsOnlyItsPaths(r, env, s, t);
  }

  lemma {:induction false} EvalArgsReadOnlyTheirPaths(args: seq<Expr>, env: Env, s: Scratch, t: Scratch)
    requires AgreeOn(PathsOfAll(args), s, t)
    ensures EvalArgs(args, env, s) == EvalArgs(args, env, t)
    decreases args, 1
  {
    if args != [] {
      EvalReadsOnlyItsPaths(args[0], env, s, t);
      EvalArgsReadOnlyTheirPaths(args[1..], env, s, t);
    }
  }
}
