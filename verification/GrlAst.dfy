/** The typed syntax tree of the GRL rule language (grl/ast.rs). */
module GrlAst {
  import opened Text

  /** A GRL value.  A 64-bit float is carried as the text `f64::to_string` gives it:
      the shortest decimal that reads back as the float, which never uses an exponent
      and so identifies every float other than a NaN's payload. */
  datatype Value = Null | Bool(b: bool) | Int(i: i64) | Float(text: string) | Str(s: string) {

    function AsBool(): bool {
      match this
      case Bool(b) => b
      case Null => false
      case Int(i) => i != 0
      case Float(text) => text != "0" && text != "-0"
      case Str(s) => s != ""
    }

    function AsInt(): i64 {
      match this
      case Int(i) => i
      case Float(text) => FloatToInt(text)
      case Bool(b) => if b then 1 else 0
      case Str(s) => ParseInt(s).GetOr(0)
      case Null => 0
    }

    function AsStr(): string {
      match this
      case Str(s) => s
      case Int(i) => PrintInt(i)
      case Float(text) => text
      case Bool(b) => if b then "true" else "false"
      case Null => ""
    }
  }

  /** The digits of a float's display before its decimal point. */
  function WholePart(text: string): (w: string)
    ensures forall c <- w :: IsDigit(c)
  {
    if text == "" || !IsDigit(text[0]) then "" else [text[0]] + WholePart(text[1..])
  }

  /** `f as i64`: truncate toward zero, saturate at the ends of the range, NaN to 0. */
  function FloatToInt(text: string): i64 {
    if text == "NaN" then 0
    else if text == "inf" then I64_MAX
    else if text == "-inf" then I64_MIN
    else
      var neg := text != "" && text[0] == '-';
      var whole: int := NumeralValue(WholePart(if neg then text[1..] else text), 10);
      var x: int := if neg then -whole else whole;
      if x < I64_MIN then I64_MIN else if x > I64_MAX then I64_MAX else x
  }

  lemma {:induction false} WholePartOfDigits(s: string)
    requires forall c <- s :: IsDigit(c)
    ensures WholePart(s) == s
  {
    if s != "" {
      assert s[0] in s;
      WholePartOfDigits(s[1..]);
    }
  }

  /** An integer's decimal form is "0" only for zero, and is none of the texts a float's
      display has of its own. */
  lemma IntegerTexts(i: i64)
    ensures PrintInt(i) == "0" <==> i == 0
    ensures PrintInt(i) !in {"-0", "NaN", "inf", "-inf"}
  {
    var text := PrintInt(i);
    assert text[0] in text && (|text| > 1 ==> text[1] in text);
    assert PrintInt(0) == "0";
    if text == "0" { PrintIntInjective(i, 0); }
    if i < 0 {
      assert text[1..] == Numeral(-(i as int), 10);
      if text == "-0" { NumeralInjective(-(i as int), 0, 10); }
    }
  }

  lemma IntegralFloatToInt(i: i64)
    ensures FloatToInt(PrintInt(i)) == i
  {
    IntegerTexts(i);
    var n: int := i;
    var digits := Numeral(if n < 0 then -n else n, 10);
    NumeralRoundTrip(if n < 0 then -n else n, 10);
    WholePartOfDigits(digits);
    hide NumeralValue, Numeral, WholePart;
    assert n < 0 ==> PrintInt(i)[1..] == digits;
  }

  /** A float whose display is an integer's reads in every way as that integer, and so
      does the display as a text. */
  lemma IntegralFloatReadsAsInt(i: i64)
    ensures var f := Float(PrintInt(i));
            f.AsInt() == i && f.AsStr() == Int(i).AsStr() && f.AsBool() == Int(i).AsBool()
    ensures Str(PrintInt(i)).AsInt() == i
  {
    ParseIntPrintInt(i);
    IntegralFloatToInt(i);
    IntegerTexts(i);
  }

  datatype PathSeg = Field(name: string) | Index(key: string)

  /** A dotted name whose steps are field names or quoted keys in brackets. */
  datatype Path = Path(segments: seq<PathSeg>)

  datatype BinOp = And | Or | Eq | Neq | Lt | Lte | Gt | Gte | Add | Sub | Mul | Div

  datatype Expr =
    | Literal(value: Value)
    | PathRef(path: Path)
    | Call(call: CallExpr)
    | Binary(op: BinOp, left: Expr, right: Expr)
    | Not(expr: Expr)

  datatype CallExpr = CallExpr(name: string, args: seq<Expr>)

  datatype Stmt = Assign(target: Path, value: Expr) | Do(action: CallExpr)

  datatype RuleAst = RuleAst(name: string, salience: int, when: Expr, then_: seq<Stmt>)
}
