/** What values read as, what calls evaluate to, and what the printer writes
    (grl/ast.rs, grl/registry.rs, grl/functions.rs, grl/printer.rs). */
module GrlLaws {
  import opened Text
  import opened Wrappers
  import opened GrlAst
  import opened GrlPrinter
  import opened GrlEval

  // ----- readings of values -----

  /** Truth, integer and text of the values that are neither integers nor floats. */
  lemma PlainReadings(b: bool, s: string)
    ensures Bool(true).AsBool() && !Bool(false).AsBool() && !Null.AsBool()
    ensures Str(s).AsBool() <==> |s| > 0
    ensures Bool(true).AsInt() == 1 && Bool(false).AsInt() == 0 && Null.AsInt() == 0
    ensures (forall x: i64 :: ParseInt(s) != Some(x)) ==> Str(s).AsInt() == 0
    ensures Bool(true).AsStr() == "true" && Bool(false).AsStr() == "false" && Null.AsStr() == "" && Str(s).AsStr() == s
  {
    if ParseInt(s).Some? { assert ParseInt(s) == Some(ParseInt(s).value); }
  }

  /** Texts of the form sign, leading zeros, numeral. */
  function Signed(sign: string, zeros: nat, n: nat): string { sign + Zeros(zeros) + Numeral(n, 10) }

  function Zeros(n: nat): (z: string)
    ensures |z| == n && forall c <- z :: c == '0'
  {
    seq(n, _ => '0')
  }

  lemma {:induction false} NumeralValueConcat(a: string, b: string)
    requires (forall c <- a :: IsDigit(c)) && forall c <- b :: IsDigit(c)
    ensures (forall c <- a :: c == '0') ==> NumeralValue(a + b, 10) == NumeralValue(b, 10)
    decreases |b|
  {
    if b == [] {
      assert a + b == a;
      if forall c <- a :: c == '0' { ZeroValue(a); }
    } else {
      var init := b[..|b| - 1];
      assert (a + b)[..|a + b| - 1] == a + init;
      NumeralValueConcat(a, init);
    }
  }

  lemma {:induction false} ZeroValue(a: string)
    requires forall c <- a :: IsDigit(c) && c == '0'
    ensures NumeralValue(a, 10) == 0
  {
    if a != [] {
      assert a[|a| - 1] in a;
      ZeroValue(a[..|a| - 1]);
    }
  }

  /** A text reads as an integer when it is a sign or none, any leading zeros and a
      numeral, and the integer fits; otherwise it reads as zero. */
  lemma SignedTextReads(sign: string, zeros: nat, n: nat)
    requires sign == "" || sign == "+" || sign == "-"
    ensures var x: int := if sign == "-" then -(n as int) else n;
            Str(Signed(sign, zeros, n)).AsInt() == if I64_MIN <= x <= I64_MAX then x else 0
  {
    var digits := Zeros(zeros) + Numeral(n, 10);
    PaddedNumeral(zeros, n);
    SignedSplits(sign, zeros, n);
    SignedDigits(sign, digits, n);
    hide *;
  }

  lemma PaddedNumeral(zeros: nat, n: nat)
    ensures var digits := Zeros(zeros) + Numeral(n, 10);
            digits != "" && (forall c <- digits :: IsDigit(c)) && NumeralValue(digits, 10) == n
  {
    NumeralValueConcat(Zeros(zeros), Numeral(n, 10));
    NumeralRoundTrip(n, 10);
    hide Numeral, NumeralValue;
  }

  lemma SignedSplits(sign: string, zeros: nat, n: nat)
    ensures Signed(sign, zeros, n) == sign + (Zeros(zeros) + Numeral(n, 10))
  {
    hide Zeros, Numeral;
  }

  lemma SignedDigits(sign: string, digits: string, n: nat)
    requires (sign == "" || sign == "+" || sign == "-") && digits != "" && forall c <- digits :: IsDigit(c)
    requires NumeralValue(digits, 10) == n
    ensures var x: int := if sign == "-" then -(n as int) else n;
            Str(sign + digits).AsInt() == if I64_MIN <= x <= I64_MAX then x else 0
  {
    var s := sign + digits;
    assert IsDigit(digits[0]) && digits[0] != '-' && digits[0] != '+' by { assert digits[0] in digits; }
    assert if sign == "" then s == digits else s[0] == sign[0] && s[1..] == digits;
    hide NumeralValue, IsDigit;
    assert Str(s).AsInt() == ParseInt(s).GetOr(0);
  }

  /** A text with no digits after its sign, or with any other character, reads as zero. */
  lemma OtherTextReadsZero(s: string, c: char)
    ensures Str("").AsInt() == 0 && Str("+").AsInt() == 0 && Str("-").AsInt() == 0
    ensures c in s && !IsDigit(c) && c != '+' && c != '-' ==> Str(s).AsInt() == 0
  {
    if c in s && !IsDigit(c) && c != '+' && c != '-' {
      var i :| 0 <= i < |s| && s[i] == c;
      assert i > 0 ==> s[1..][i - 1] == c && c in s[1..];
    }
  }

  /** A float reads as its integer part, toward zero, and as the nearest end of the range
      beyond it. */
  lemma FloatTruncates(n: nat, fraction: string)
    ensures Float(Numeral(n, 10) + ("." + fraction)).AsInt() == if n <= I64_MAX then n else I64_MAX
    ensures Float("-" + (Numeral(n, 10) + ("." + fraction))).AsInt() == if n <= -I64_MIN then -(n as int) else I64_MIN
  {
    var digits := Numeral(n, 10);
    NumeralRoundTrip(n, 10);
    WholePartStops(digits, "." + fraction);
    assert digits[0] in digits;
    hide Numeral, NumeralValue, WholePart, FloatToInt;
    PositiveDisplay(digits + ("." + fraction), n);
    NegativeDisplay(digits + ("." + fraction), n);
  }

  /** `NaN` reads as zero, the infinities as the ends of the range. */
  lemma OddFloatsRead()
    ensures Float("NaN").AsInt() == 0 && Float("inf").AsInt() == I64_MAX && Float("-inf").AsInt() == I64_MIN
  {
  }

  lemma PositiveDisplay(t: string, n: nat)
    requires t != "" && IsDigit(t[0]) && NumeralValue(WholePart(t), 10) == n
    ensures FloatToInt(t) == if n <= I64_MAX then n else I64_MAX
  {
    hide NumeralValue, WholePart;
  }

  lemma NegativeDisplay(t: string, n: nat)
    requires t != "" && IsDigit(t[0]) && NumeralValue(WholePart(t), 10) == n
    ensures FloatToInt("-" + t) == if n <= -I64_MIN then -(n as int) else I64_MIN
  {
    assert ("-" + t)[1..] == t && ("-" + t)[0] == '-' && ("-" + t)[1] == t[0];
    hide NumeralValue, WholePart;
  }

  lemma {:induction false} WholePartStops(digits: string, rest: string)
    requires (forall c <- digits :: IsDigit(c)) && rest != "" && !IsDigit(rest[0])
    ensures WholePart(digits + rest) == digits
  {
    if digits == "" {
      assert digits + rest == rest;
    } else {
      assert digits[0] in digits && (digits + rest)[1..] == digits[1..] + rest;
      WholePartStops(digits[1..], rest);
    }
  }

  // ----- calls -----

  /** The values are those of the arguments, in order. */
  ghost predicate ValuesOf(values: seq<Value>, args: seq<Expr>, env: Env, scratch: Scratch) {
    |values| == |args| && forall i | 0 <= i < |args| :: values[i] == EvalExpr(args[i], env, scratch)
  }

  lemma {:induction false} ArgumentsInOrder(args: seq<Expr>, env: Env, scratch: Scratch)
    ensures ValuesOf(EvalArgs(args, env, scratch), args, env, scratch)
  {
    if args != [] {
      ArgumentsInOrder(args[1..], env, scratch);
      hide EvalExpr;
    }
  }

  /** A call of a registered function has the value the function gives to the values of
      the arguments, whatever the built-in functions are. */
  lemma RegisteredCall(name: string, args: seq<Expr>, values: seq<Value>, env: Env, scratch: Scratch)
    requires name in env.registry && ValuesOf(values, args, env, scratch)
    ensures EvalExpr(Call(CallExpr(name, args)), env, scratch) == env.registry[name](values)
  {
    ArgumentsInOrder(args, env, scratch);
    assert values == EvalArgs(args, env, scratch);
  }

  /** Any other call has the value the built-in function gives them; `matches` searches the
      first argument's text for the second's, a missing argument being empty, and is false
      for a pattern that does not compile. */
  lemma BuiltinCall(name: string, args: seq<Expr>, values: seq<Value>, env: Env, scratch: Scratch)
    requires name !in env.registry && ValuesOf(values, args, env, scratch)
    ensures name != "matches" ==> EvalExpr(Call(CallExpr(name, args)), env, scratch) == env.builtin(name, values)
    ensures name == "matches" && |args| >= 2 ==>
              EvalExpr(Call(CallExpr(name, args)), env, scratch)
              == Bool(env.host.validRegex(values[1].AsStr()) && env.host.isMatch(values[1].AsStr(), values[0].AsStr()))
    ensures name == "matches" && |args| == 1 ==>
              EvalExpr(Call(CallExpr(name, args)), env, scratch)
              == Bool(env.host.validRegex("") && env.host.isMatch("", values[0].AsStr()))
    ensures name == "matches" && args == [] ==>
              EvalExpr(Call(CallExpr(name, args)), env, scratch) == Bool(env.host.validRegex("") && env.host.isMatch("", ""))
  {
    ArgumentsInOrder(args, env, scratch);
    assert values == EvalArgs(args, env, scratch);
    hide Value.AsStr;
  }

  // ----- conditions -----

  /** `&&`, `||` and `!` are the connectives of logic over the truth of their operands, and
      yield truth values. */
  lemma ConnectivesMean(l: Expr, r: Expr, env: Env, scratch: Scratch)
    ensures Holds(Binary(And, l, r), env, scratch) <==> Holds(l, env, scratch) && Holds(r, env, scratch)
    ensures Holds(Binary(Or, l, r), env, scratch) <==> Holds(l, env, scratch) || Holds(r, env, scratch)
    ensures Holds(Not(l), env, scratch) <==> !Holds(l, env, scratch)
    ensures EvalExpr(Not(Not(l)), env, scratch) == Bool(Holds(l, env, scratch))
    ensures EvalExpr(Not(Binary(And, l, r)), env, scratch) == EvalExpr(Binary(Or, Not(l), Not(r)), env, scratch)
    ensures EvalExpr(Not(Binary(Or, l, r)), env, scratch) == EvalExpr(Binary(And, Not(l), Not(r)), env, scratch)
  {
    hide Value.AsBool, Operate;
    assert forall b :: Bool(b).AsBool() == b by { PlainReadings(true, ""); PlainReadings(false, ""); }
  }

  /** The comparisons order the integers that the operands read as, the left one first. */
  lemma ComparesInOrder(l: Expr, r: Expr, env: Env, scratch: Scratch)
    ensures var x, y := EvalExpr(l, env, scratch).AsInt(), EvalExpr(r, env, scratch).AsInt();
            && (Holds(Binary(Lt, l, r), env, scratch) <==> x < y) && (Holds(Binary(Lte, l, r), env, scratch) <==> x <= y)
            && (Holds(Binary(Gt, l, r), env, scratch) <==> x > y) && (Holds(Binary(Gte, l, r), env, scratch) <==> x >= y)
  {
    hide Value.AsInt, Value.AsStr, ValueEq, Wrap64, DivTrunc;
  }

  /** Subtraction takes the right operand from the left one, modulo 2^64, and division
      divides the left one by the right one. */
  lemma OperandsInOrder(l: Expr, r: Expr, env: Env, scratch: Scratch)
    ensures var x: int, y: int := EvalExpr(l, env, scratch).AsInt(), EvalExpr(r, env, scratch).AsInt();
            var d, q: int := EvalExpr(Binary(Sub, l, r), env, scratch).AsInt(), EvalExpr(Binary(Div, l, r), env, scratch).AsInt();
            && Cong(d, x - y)
            && (y >= 1 && x >= 0 ==> q * y <= x < q * y + y)
            && (y >= 1 && x <= 0 ==> q * y - y < x <= q * y)
  {
    var a, b := EvalExpr(l, env, scratch), EvalExpr(r, env, scratch);
    DifferenceWraps(a, b);
    DivisionTruncates(a, b);
    DividesToInt(a, b);
    hide Operate, Cong, Value.AsInt;
    assert forall i :: Int(i).AsInt() == i by { hide *; IntegersReadAsSuch(); }
  }

  lemma IntegersReadAsSuch()
    ensures forall i :: Int(i).AsInt() == i
  {
  }

  lemma DividesToInt(a: Value, b: Value)
    ensures Operate(Div, a, b).Int? && Operate(Sub, a, b).Int?
  {
    hide Value.AsInt, Wrap64, DivTrunc;
  }

  lemma DifferenceWraps(a: Value, b: Value)
    ensures Cong(Operate(Sub, a, b).i, a.AsInt() - b.AsInt())
  {
    var x: int := a.AsInt() - b.AsInt();
    assert Operate(Sub, a, b) == Int(Wrap64(x));
    hide Operate, Value.AsInt;
  }

  // ----- which functions an expression depends on -----

  function NamesIn(e: Expr): set<string>
    decreases e, 0
  {
    match e
    case Literal(_) => {}
    case PathRef(_) => {}
    case Call(c) => {c.name} + NamesInAll(c.args)
    case Not(x) => NamesIn(x)
    case Binary(_, l, r) => NamesIn(l) + NamesIn(r)
  }

  function NamesInAll(args: seq<Expr>): set<string>
    decreases args, 1
  {
    if args == [] then {} else NamesIn(args[0]) + NamesInAll(args[1..])
  }

  /** Under this name both environments have the same registered function, or neither has
      one and their built-in ones agree. */
  ghost predicate SameFunction(name: string, a: Env, b: Env) {
    && (name in a.registry <==> name in b.registry)
    && (name in a.registry ==> a.registry[name] == b.registry[name])
    && (name !in a.registry ==> forall args :: a.builtin(name, args) == b.builtin(name, args))
  }

  /** An expression depends only on the functions it names: on the registry for registered
      names, on the built-in ones for the others. */
  lemma {:induction false} EvalUsesOnlyItsFunctions(e: Expr, a: Env, b: Env, scratch: Scratch)
    requires a.host == b.host && a.resolve == b.resolve
    requires forall name <- NamesIn(e) :: SameFunction(name, a, b)
    ensures EvalExpr(e, a, scratch) == EvalExpr(e, b, scratch)
    decreases e, 0
  {
    match e
    case Literal(_) =>
    case PathRef(_) =>
    case Call(c) =>
      assert c.name in NamesIn(e);
      assert SameFunction(c.name, a, b);
      EvalArgsUseOnlyTheirFunctions(c.args, a, b, scratch);
    case Not(x) =>
      EvalUsesOnlyItsFunctions(x, a, b, scratch);
    case Binary(_, l, r) =>
      EvalUsesOnlyItsFunctions(l, a, b, scratch);
      EvalUsesOnlyItsFunctions(r, a, b, scratch);
  }

  lemma {:induction false} EvalArgsUseOnlyTheirFunctions(args: seq<Expr>, a: Env, b: Env, scratch: Scratch)
    requires a.host == b.host && a.resolve == b.resolve
    requires forall name <- NamesInAll(args) :: SameFunction(name, a, b)
    ensures EvalArgs(args, a, scratch) == EvalArgs(args, b, scratch)
    decreases args, 1
  {
    if args != [] {
      hide SameFunction;
      EvalUsesOnlyItsFunctions(args[0], a, b, scratch);
      EvalArgsUseOnlyTheirFunctions(args[1..], a, b, scratch);
    }
  }

  // ----- printed forms -----

  /** One expression of each other kind. */
  lemma PrintedForms(hidden: char -> bool)
    ensures PrintExpr(Not(Literal(Bool(false))), hidden) == "(!false)"
    ensures PrintExpr(Call(CallExpr("f", [Literal(Null), Literal(Null)])), hidden) == "f(null,null)"
    ensures PrintExpr(PathRef(Path([Field("Request"), Field("Headers"), Index("Host")])), hidden) == "Request.Headers[\"Host\"]"
  {
    PrintedCall(hidden);
    PrintedPath(hidden);
    hide PrintSegments, PrintArgs, Escape;
  }

  /** The operators as the printer writes them, and where the operands stand. */
  lemma PrintedOperators(op: BinOp, left: Expr, right: Expr, hidden: char -> bool)
    ensures PrintExpr(Binary(op, left, right), hidden) ==
              "(" + PrintExpr(left, hidden) + " " + (
                match op
                case And => "&&" case Or => "||"
                case Eq => "==" case Neq => "!="
                case Lt => "<" case Lte => "<="
                case Gt => ">" case Gte => ">="
                case Add => "+" case Sub => "-"
                case Mul => "*" case Div => "/") + " " + PrintExpr(right, hidden) + ")"
  {
    hide PrintSegments, PrintArgs, Escape, PrintInt;
  }

  lemma PrintedCall(hidden: char -> bool)
    ensures PrintExpr(Call(CallExpr("f", [Literal(Null), Literal(Null)])), hidden) == "f(null,null)"
  {
    var args := [Literal(Null), Literal(Null)];
    assert args[1..] == [Literal(Null)] && args[1..][1..] == [];
    assert PrintArgs(args[1..], false, hidden) == "," + "null" + "";
    assert PrintArgs(args, true, hidden) == "" + "null" + ("," + "null" + "");
  }

  lemma PrintedPath(hidden: char -> bool)
    ensures PrintExpr(PathRef(Path([Field("Request"), Field("Headers"), Index("Host")])), hidden) == "Request.Headers[\"Host\"]"
  {
    var p := [Field("Request"), Field("Headers"), Index("Host")];
    FirstSegment(p);
    assert p[1..] == [Field("Headers"), Index("Host")];
    LaterSegment(p[1..]);
    assert p[1..][1..] == [Index("Host")];
    LaterSegment(p[1..][1..]);
    assert p[1..][1..][1..] == [];
    assert PrintSegments([], false) == "";
    hide PrintSegments;
    assert PrintExpr(PathRef(Path(p)), hidden) == PrintSegments(p, true);
  }

  lemma FirstSegment(p: seq<PathSeg>)
    requires p != [] && p[0].Field?
    ensures PrintSegments(p, true) == p[0].name + PrintSegments(p[1..], false)
  {
  }

  lemma LaterSegment(p: seq<PathSeg>)
    requires p != []
    ensures PrintSegments(p, false)
            == (if p[0].Field? then "." + p[0].name else "[\"" + p[0].key + "\"]") + PrintSegments(p[1..], false)
  {
  }

  /** A string is written character by character between quotes. */
  lemma {:induction false} EscapeConcat(s: string, t: string, hidden: char -> bool)
    ensures Escape(s + t, hidden) == Escape(s, hidden) + Escape(t, hidden)
  {
    if s == "" {
      assert s + t == t;
    } else {
      assert (s + t)[1..] == s[1..] + t;
      EscapeConcat(s[1..], t, hidden);
      hide EscapeChar;
    }
  }

  /** What single characters are written as. */
  lemma PrintedCharacters(hidden: char -> bool)
    ensures Escape("\"", hidden) == "\\\"" && Escape("\\", hidden) == "\\\\"
    ensures Escape("\n", hidden) == "\\n" && Escape("\r", hidden) == "\\r" && Escape("\t", hidden) == "\\t"
    ensures Escape("\0", hidden) == "\\0"
    ensures !hidden('a') ==> Escape("a", hidden) == "a"
    ensures hidden('a') ==> Escape("a", hidden) == "\\u{61}"
  {
    assert Numeral(97, 16) == Numeral(6, 16) + "1" == "61";
  }
}
