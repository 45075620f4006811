/** The canonical printer of GRL expressions (grl/printer.rs), whose output keys the
    hash-consing of alpha nodes, and its unique readability.

    `hidden` stands for the standard library's table of characters that the debug
    form of a string shows as `\u{...}`; nothing is assumed about it. */
module GrlPrinter {
  import opened Text
  import opened GrlAst

  // ----- the printed form -----

  function EscapeChar(c: char, hidden: char -> bool): string {
    if c == '\0' then "\\0"
    else if c == '\t' then "\\t"
    else if c == '\r' then "\\r"
    else if c == '\n' then "\\n"
    else if c == '\"' then "\\\""
    else if c == '\\' then "\\\\"
    else if hidden(c) then "\\u{" + Numeral(c as int, 16) + "}"
    else [c]
  }

  function Escape(s: string, hidden: char -> bool): string {
    if s == "" then "" else EscapeChar(s[0], hidden) + Escape(s[1..], hidden)
  }

  function PrintSegment(segment: PathSeg, first: bool): string {
    match segment
    case Field(name) => if first then name else "." + name
    case Index(key) => "[\"" + key + "\"]"
  }

  function PrintSegments(segments: seq<PathSeg>, first: bool): string {
    if segments == [] then "" else PrintSegment(segments[0], first) + PrintSegments(segments[1..], false)
  }

  function PrintPath(p: Path): string { PrintSegments(p.segments, true) }

  function PrintValue(v: Value, hidden: char -> bool): string {
    match v
    case Null => "null"
    case Bool(b) => if b then "true" else "false"
    case Int(i) => PrintInt(i)
    case Float(text) => text
    case Str(s) => "\"" + Escape(s, hidden) + "\""
  }

  function BinSym(op: BinOp): string {
    match op
    case And => "&&" case Or => "||"
    case Eq => "==" case Neq => "!="
    case Lt => "<" case Lte => "<="
    case Gt => ">" case Gte => ">="
    case Add => "+" case Sub => "-"
    case Mul => "*" case Div => "/"
  }

  function PrintExpr(e: Expr, hidden: char -> bool): string
    decreases e, 0
  {
    match e
    case Literal(v) => PrintValue(v, hidden)
    case PathRef(p) => PrintPath(p)
    case Call(c) => c.name + "(" + PrintArgs(c.args, true, hidden) + ")"
    case Not(x) => "(!" + PrintExpr(x, hidden) + ")"
    case Binary(op, l, r) =>
      "(" + PrintExpr(l, hidden) + " " + BinSym(op) + " " + PrintExpr(r, hidden) + ")"
  }

  /** The arguments, each after the first preceded by a comma. */
  function PrintArgs(args: seq<Expr>, first: bool, hidden: char -> bool): string
    decreases args, 1
  {
    if args == [] then ""
    else (if first then "" else ",") + PrintExpr(args[0], hidden) + PrintArgs(args[1..], false, hidden)
  }

  /** The output buffer the printer appends to. */
  class Buffer {
    var out: string

    constructor ()
      ensures out == ""
    {
      out := "";
    }

    method FormatExpr(e: Expr, hidden: char -> bool)
      modifies this
      ensures out == old(out) + PrintExpr(e, hidden)
      decreases e, 1
    {
      match e
      case Literal(v) =>
        FormatValue(v, hidden);
      case PathRef(p) =>
        FormatPath(p);
      case Call(c) =>
        FormatCall(c, hidden);
      case Not(x) =>
        FormatNot(x, hidden);
      case Binary(op, l, r) =>
        FormatBinary(op, l, r, hidden);
    }

    method FormatNot(x: Expr, hidden: char -> bool)
      modifies this
      ensures out == old(out) + ("(!" + PrintExpr(x, hidden) + ")")
      decreases Not(x), 0
    {
      hide PrintExpr;
      out := out + "(";
      out := out + "!";
      FormatExpr(x, hidden);
      out := out + ")";
    }

    method FormatBinary(op: BinOp, l: Expr, r: Expr, hidden: char -> bool)
      modifies this
      ensures out == old(out) + ("(" + PrintExpr(l, hidden) + " " + BinSym(op) + " " + PrintExpr(r, hidden) + ")")
      decreases Binary(op, l, r), 0
    {
      hide PrintExpr, BinSym;
      ghost var start := out;
      out := out + "(";
      FormatExpr(l, hidden);
      out := out + " ";
      out := out + BinSym(op);
      out := out + " ";
      FormatExpr(r, hidden);
      out := out + ")";
      assert out == start + "(" + PrintExpr(l, hidden) + " " + BinSym(op) + " " + PrintExpr(r, hidden) + ")";
      JoinGroup(start, PrintExpr(l, hidden), BinSym(op), PrintExpr(r, hidden));
    }

    lemma JoinGroup(start: string, l: string, sym: string, r: string)
      ensures start + "(" + l + " " + sym + " " + r + ")" == start + ("(" + l + " " + sym + " " + r + ")")
    {
    }

    method FormatCall(c: CallExpr, hidden: char -> bool)
      modifies this
      ensures out == old(out) + (c.name + "(" + PrintArgs(c.args, true, hidden) + ")")
      decreases c
    {
      hide PrintExpr;
      out := out + (c.name + "(");
      ghost var start := out;
      for i := 0 to |c.args|
        invariant start + PrintArgs(c.args, true, hidden) == out + PrintArgs(c.args[i..], i == 0, hidden)
      {
        if i > 0 { out := out + ","; }
        FormatExpr(c.args[i], hidden);
        assert c.args[i..][1..] == c.args[i + 1..];
      }
      assert PrintArgs(c.args[|c.args|..], |c.args| == 0, hidden) == "";
      assert out == start + PrintArgs(c.args, true, hidden);
      out := out + ")";
    }

    method FormatValue(v: Value, hidden: char -> bool)
      modifies this
      ensures out == old(out) + PrintValue(v, hidden)
    {
      match v
      case Null => out := out + "null";
      case Bool(b) => out := out + (if b then "true" else "false");
      case Int(i) => out := out + PrintInt(i);
      case Float(text) => out := out + text;
      case Str(s) => out := out + ("\"" + Escape(s, hidden) + "\"");
    }

    method FormatPath(p: Path)
      modifies this
      ensures out == old(out) + PrintPath(p)
    {
      hide PrintSegment;
      for i := 0 to |p.segments|
        invariant old(out) + PrintPath(p) == out + PrintSegments(p.segments[i..], i == 0)
      {
        FormatSegment(p.segments[i], i == 0);
        assert p.segments[i..][1..] == p.segments[i + 1..];
      }
      assert PrintSegments(p.segments[|p.segments|..], |p.segments| == 0) == "";
    }

    method FormatSegment(segment: PathSeg, first: bool)
      modifies this
      ensures out == old(out) + PrintSegment(segment, first)
    {
      match segment
      case Field(name) =>
        if !first { out := out + "."; }
        out := out + name;
      case Index(key) =>
        out := out + ("[\"" + key + "\"]");
    }
  }

  // ----- expressions the printer keeps apart -----

  predicate IsIdentStart(c: char) { 'a' <= c <= 'z' || 'A' <= c <= 'Z' || c == '_' }

  predicate IsIdentChar(c: char) { IsIdentStart(c) || IsDigit(c) }

  /** An `ident` of the grammar. */
  predicate IsIdent(s: string) {
    s != "" && IsIdentStart(s[0]) && forall c <- s :: IsIdentChar(c)
  }

  predicate IsKeyword(s: string) { s == "true" || s == "false" || s == "null" }

  predicate IsNumberChar(c: char) { IsDigit(c) || c == '-' || c == '.' }

  /** A finite float with a fractional part. */
  predicate IsFractional(text: string) {
    text != "" && (IsDigit(text[0]) || text[0] == '-') && '.' in text && forall c <- text :: IsNumberChar(c)
  }

  /** The key contains the two characters that end an index step. */
  predicate ClosesIndex(key: string) {
    exists i | 0 <= i < |key| - 1 :: key[i] == '\"' && key[i + 1] == ']'
  }

  predicate WellFormedSegment(segment: PathSeg) {
    match segment
    case Field(name) => IsIdent(name)
    case Index(key) => !ClosesIndex(key)
  }

  predicate WellFormedPath(p: Path) {
    && p.segments != [] && p.segments[0].Field? && !IsKeyword(p.segments[0].name)
    && forall segment <- p.segments :: WellFormedSegment(segment)
  }

  /** What the grammar yields, without the two forms on which the printer is
      ambiguous: float literals with no fractional part, and `"]` in index keys. */
  predicate WellFormed(e: Expr) {
    match e
    case Literal(v) => v.Float? ==> IsFractional(v.text)
    case PathRef(p) => WellFormedPath(p)
    case Call(c) => IsIdent(c.name) && forall a <- c.args :: WellFormed(a)
    case Not(x) => WellFormed(x)
    case Binary(_, l, r) => WellFormed(l) && WellFormed(r)
  }

  // ----- unique readability -----

  predicate IsDelimiter(c: char) { c == ' ' || c == ')' || c == ',' }

  /** What may follow a printed expression inside a larger printed form. */
  predicate Delimited(s: string) { s == "" || IsDelimiter(s[0]) }

  /** The character a two-character escape stands for, from its letter. */
  function Unescape(letter: char): char {
    match letter
    case '0' => '\0'
    case 't' => '\t'
    case 'r' => '\r'
    case 'n' => '\n'
    case _ => letter
  }

  /** The three shapes of an escaped character. */
  lemma EscapeShape(c: char, hidden: char -> bool)
    ensures var e := EscapeChar(c, hidden);
            || (e == [c] && c != '\\')
            || (|e| == 2 && e[0] == '\\' && e[1] != 'u' && c == Unescape(e[1]))
            || (e == "\\u{" + Numeral(c as int, 16) + "}")
  {
    hide Numeral;
  }

  lemma EscapeCharUnique(c: char, d: char, x: string, y: string, hidden: char -> bool)
    requires EscapeChar(c, hidden) + x == EscapeChar(d, hidden) + y
    ensures c == d && x == y
  {
    var a, b := EscapeChar(c, hidden), EscapeChar(d, hidden);
    EscapeShape(c, hidden);
    EscapeShape(d, hidden);
    hide EscapeChar;
    var u := a + x;
    assert u[0] == a[0] && u[0] == b[0];
    assert |a| > 1 ==> u[1] == a[1];
    assert |b| > 1 ==> u[1] == b[1];
    if |a| > 2 && |b| > 2 {
      var m, n := Numeral(c as int, 16), Numeral(d as int, 16);
      assert m + ("}" + x) == u[3..] == n + ("}" + y);
      RunUnique(IsHexDigit, m, n, "}" + x, "}" + y);
      NumeralInjective(c as int, d as int, 16);
    }
    hide Numeral;
    assert |a| == |b|;
    assert x == u[|a|..] == y;
  }

  lemma {:induction false} EscapeUnique(s: string, t: string, x: string, y: string, hidden: char -> bool)
    requires Escape(s, hidden) + "\"" + x == Escape(t, hidden) + "\"" + y
    ensures s == t && x == y
  {
    hide EscapeChar;
    var u := Escape(s, hidden) + "\"" + x;
    EscapeHead(s, x, hidden);
    EscapeHead(t, y, hidden);
    if s == "" || t == "" {
      assert x == u[1..] == y;
    } else {
      var s', t' := Escape(s[1..], hidden) + "\"" + x, Escape(t[1..], hidden) + "\"" + y;
      assert EscapeChar(s[0], hidden) + s' == u == EscapeChar(t[0], hidden) + t';
      EscapeCharUnique(s[0], t[0], s', t', hidden);
      EscapeUnique(s[1..], t[1..], x, y, hidden);
      assert s == [s[0]] + s[1..] && t == [t[0]] + t[1..];
    }
  }

  lemma EscapeHead(s: string, x: string, hidden: char -> bool)
    ensures (Escape(s, hidden) + "\"" + x)[0] == '\"' <==> s == ""
  {
    if s != "" {
      assert (Escape(s, hidden) + "\"" + x)[0] == EscapeChar(s[0], hidden)[0];
    }
  }

  /** The identifier run at the front of a printed keyword, path or call. */
  function Word(e: Expr, hidden: char -> bool): string
    requires WellFormed(e) && IsWord(e)
  {
    match e
    case Literal(v) => PrintValue(v, hidden)
    case PathRef(p) => p.segments[0].name
    case Call(c) => c.name
  }

  /** The rest of a printed keyword, path or call. */
  function Tail(e: Expr, hidden: char -> bool): string
    requires WellFormed(e) && IsWord(e)
  {
    match e
    case Literal(v) => ""
    case PathRef(p) => PrintSegments(p.segments[1..], false)
    case Call(c) => "(" + PrintArgs(c.args, true, hidden) + ")"
  }

  predicate IsWord(e: Expr) { e.PathRef? || e.Call? || (e.Literal? && (e.value.Null? || e.value.Bool?)) }

  predicate IsNumber(e: Expr) { e.Literal? && (e.value.Int? || e.value.Float?) }

  predicate IsText(e: Expr) { e.Literal? && e.value.Str? }

  predicate IsGroup(e: Expr) { e.Not? || e.Binary? }

  lemma WordParts(e: Expr, s: string, hidden: char -> bool)
    requires WellFormed(e) && IsWord(e) && Delimited(s)
    ensures PrintExpr(e, hidden) == Word(e, hidden) + Tail(e, hidden)
    ensures IsIdent(Word(e, hidden))
    ensures var t := Tail(e, hidden) + s; t == "" || !IsIdentChar(t[0])
  {
    match e
    case Literal(v) =>
      assert Tail(e, hidden) + s == s;
    case PathRef(p) =>
      PathWord(p, s);
      hide PrintSegments;
    case Call(c) =>
      CallWord(c, s, PrintArgs(c.args, true, hidden));
      hide PrintArgs;
  }

  lemma PathWord(p: Path, s: string)
    requires WellFormedPath(p) && Delimited(s)
    ensures var name, tail := p.segments[0].name, PrintSegments(p.segments[1..], false);
            && PrintPath(p) == name + tail
            && IsIdent(name)
            && (tail + s == "" || !IsIdentChar((tail + s)[0]))
  {
    assert p.segments[0] in p.segments;
    SegmentsHead(p.segments[1..], s);
  }

  lemma CallWord(c: CallExpr, s: string, args: string)
    ensures c.name + "(" + args + ")" == c.name + ("(" + args + ")")
    ensures (("(" + args + ")") + s)[0] == '('
    ensures (("(" + args + ")") + s)[1..] == args + ")" + s
  {
  }

  lemma SegmentsHead(segments: seq<PathSeg>, s: string)
    requires Delimited(s)
    ensures var t := PrintSegments(segments, false) + s;
            && (segments == [] ==> t == s)
            && (segments != [] ==> t != "" && t[0] == (if segments[0].Field? then '.' else '['))
  {
  }

  /** The first character of a printed expression tells which kind it is. */
  lemma Head(e: Expr, s: string, hidden: char -> bool)
    requires WellFormed(e)
    ensures var t := PrintExpr(e, hidden) + s;
            && PrintExpr(e, hidden) != "" && t != ""
            && t[0] == PrintExpr(e, hidden)[0]
            && (IsGroup(e) <==> t[0] == '(')
            && (IsText(e) <==> t[0] == '\"')
            && (IsNumber(e) <==> IsDigit(t[0]) || t[0] == '-')
            && (IsWord(e) <==> IsIdentStart(t[0]))
  {
    if IsWord(e) {
      WordParts(e, "", hidden);
    }
  }

  lemma IndexKeyNotShorter(m: string, n: string, x: string, y: string)
    requires !ClosesIndex(n) && m + ("\"]" + x) == n + ("\"]" + y)
    ensures |m| >= |n|
  {
    var v := n + ("\"]" + y);
    assert v[|m|] == (m + ("\"]" + x))[|m|] == '\"';
    assert v[|m| + 1] == (m + ("\"]" + x))[|m| + 1] == ']';
    assert v[|n|] == '\"';
    assert forall i | 0 <= i < |n| :: n[i] == v[i];
  }

  /** A key without the closing pair is read up to the first such pair. */
  lemma IndexKeyUnique(m: string, n: string, x: string, y: string)
    requires !ClosesIndex(m) && !ClosesIndex(n)
    requires m + ("\"]" + x) == n + ("\"]" + y)
    ensures m == n && x == y
  {
    IndexKeyNotShorter(m, n, x, y);
    IndexKeyNotShorter(n, m, y, x);
    var u := m + ("\"]" + x);
    assert m == u[..|m|] == (n + ("\"]" + y))[..|n|] == n;
    assert x == u[|m| + 2..] == (n + ("\"]" + y))[|n| + 2..] == y;
  }

  lemma IndexText(key: string, x: string)
    ensures (PrintSegment(Index(key), false) + x)[2..] == key + ("\"]" + x)
  {
    assert PrintSegment(Index(key), false) + x == "[\"" + (key + ("\"]" + x));
  }

  lemma SegmentUnique(a: PathSeg, b: PathSeg, x: string, y: string)
    requires WellFormedSegment(a) && WellFormedSegment(b)
    requires (x == "" || !IsIdentChar(x[0])) && (y == "" || !IsIdentChar(y[0]))
    requires PrintSegment(a, false) + x == PrintSegment(b, false) + y
    ensures a == b && x == y
  {
    var u := PrintSegment(a, false) + x;
    assert u[0] == PrintSegment(a, false)[0];
    assert u[0] == PrintSegment(b, false)[0];
    match a
    case Field(m) =>
      assert m + x == u[1..] == b.name + y;
      RunUnique(IsIdentChar, m, b.name, x, y);
    case Index(m) =>
      IndexText(m, x);
      IndexText(b.key, y);
      IndexKeyUnique(m, b.key, x, y);
  }

  lemma SegmentsStep(a: seq<PathSeg>, s: string)
    requires a != []
    ensures PrintSegments(a, false) + s == PrintSegment(a[0], false) + (PrintSegments(a[1..], false) + s)
  {
    hide PrintSegment;
  }

  lemma FirstSegmentUnique(a: seq<PathSeg>, b: seq<PathSeg>, s: string, t: string)
    requires a != [] && b != [] && WellFormedSegment(a[0]) && WellFormedSegment(b[0])
    requires Delimited(s) && Delimited(t)
    requires PrintSegments(a, false) + s == PrintSegments(b, false) + t
    ensures a[0] == b[0] && PrintSegments(a[1..], false) + s == PrintSegments(b[1..], false) + t
  {
    SegmentsHead(a[1..], s);
    SegmentsHead(b[1..], t);
    SegmentsStep(a, s);
    SegmentsStep(b, t);
    hide PrintSegment, PrintSegments, WellFormedSegment;
    SegmentUnique(a[0], b[0], PrintSegments(a[1..], false) + s, PrintSegments(b[1..], false) + t);
  }

  lemma {:induction false} SegmentsUnique(a: seq<PathSeg>, b: seq<PathSeg>, s: string, t: string)
    requires (forall x <- a :: WellFormedSegment(x)) && (forall x <- b :: WellFormedSegment(x))
    requires Delimited(s) && Delimited(t)
    requires PrintSegments(a, false) + s == PrintSegments(b, false) + t
    ensures a == b && s == t
    decreases |a|
  {
    SegmentsHead(a, s);
    SegmentsHead(b, t);
    hide PrintSegments, WellFormedSegment, Delimited;
    if a != [] && b != [] {
      FirstSegmentUnique(a, b, s, t);
      SegmentsUnique(a[1..], b[1..], s, t);
    }
  }

  /** Printed expressions are uniquely readable in every context. */
  lemma {:induction false} PrintUnique(e: Expr, f: Expr, s: string, t: string, hidden: char -> bool)
    requires WellFormed(e) && WellFormed(f)
    requires Delimited(s) && Delimited(t)
    requires PrintExpr(e, hidden) + s == PrintExpr(f, hidden) + t
    ensures e == f && s == t
    decreases e, 1
  {
    hide PrintExpr, PrintValue, Escape, Word, Tail;
    var u := PrintExpr(e, hidden) + s;
    Head(e, s, hidden);
    Head(f, t, hidden);
    if IsGroup(e) {
      GroupUnique(e, f, s, t, hidden);
    } else if IsText(e) {
      TextUnique(e, f, s, t, hidden);
    } else if IsNumber(e) {
      NumberUnique(e, f, s, t, hidden);
    } else {
      WordParts(e, s, hidden);
      WordParts(f, t, hidden);
      var x, y := Tail(e, hidden) + s, Tail(f, hidden) + t;
      assert Word(e, hidden) + x == u == Word(f, hidden) + y;
      RunUnique(IsIdentChar, Word(e, hidden), Word(f, hidden), x, y);
      TailUnique(e, f, s, t, hidden);
    }
  }

  lemma TextUnique(e: Expr, f: Expr, s: string, t: string, hidden: char -> bool)
    requires IsText(e) && IsText(f)
    requires PrintExpr(e, hidden) + s == PrintExpr(f, hidden) + t
    ensures e == f && s == t
  {
    hide Escape;
    var x, y := Escape(e.value.s, hidden), Escape(f.value.s, hidden);
    assert x + "\"" + s == (PrintExpr(e, hidden) + s)[1..];
    assert y + "\"" + t == (PrintExpr(f, hidden) + t)[1..];
    EscapeUnique(e.value.s, f.value.s, s, t, hidden);
  }

  lemma NumberUnique(e: Expr, f: Expr, s: string, t: string, hidden: char -> bool)
    requires WellFormed(e) && WellFormed(f) && IsNumber(e) && IsNumber(f)
    requires Delimited(s) && Delimited(t)
    requires PrintExpr(e, hidden) + s == PrintExpr(f, hidden) + t
    ensures e == f && s == t
  {
    var v, w := e.value, f.value;
    var x, y := PrintValue(v, hidden), PrintValue(w, hidden);
    RunUnique(IsNumberChar, x, y, s, t);
    assert v.Float? <==> '.' in x;
    assert w.Float? <==> '.' in y;
    if v.Int? {
      PrintIntInjective(v.i, w.i);
    }
  }

  lemma {:induction false} GroupUnique(e: Expr, f: Expr, s: string, t: string, hidden: char -> bool)
    requires WellFormed(e) && WellFormed(f) && IsGroup(e) && IsGroup(f)
    requires Delimited(s) && Delimited(t)
    requires PrintExpr(e, hidden) + s == PrintExpr(f, hidden) + t
    ensures e == f && s == t
    decreases e, 0
  {
    hide PrintExpr;
    var u := PrintExpr(e, hidden) + s;
    GroupParts(e, s, hidden);
    GroupParts(f, t, hidden);
    if e.Not? {
      PrintUnique(e.expr, f.expr, ")" + s, ")" + t, hidden);
    } else {
      var x, y := GroupRest(e, s, hidden), GroupRest(f, t, hidden);
      PrintUnique(e.left, f.left, " " + x, " " + y, hidden);
      assert x == (" " + x)[1..] == (" " + y)[1..] == y;
      var p, q := PrintExpr(e.right, hidden) + (")" + s), PrintExpr(f.right, hidden) + (")" + t);
      RunUnique(c => c != ' ', BinSym(e.op), BinSym(f.op), " " + p, " " + q);
      assert p == (" " + p)[1..] == (" " + q)[1..] == q;
      PrintUnique(e.right, f.right, ")" + s, ")" + t, hidden);
    }
    assert s == (")" + s)[1..] == (")" + t)[1..] == t;
  }

  function GroupRest(e: Expr, s: string, hidden: char -> bool): string
    requires e.Binary?
  {
    BinSym(e.op) + (" " + (PrintExpr(e.right, hidden) + (")" + s)))
  }

  lemma GroupParts(e: Expr, s: string, hidden: char -> bool)
    requires WellFormed(e) && IsGroup(e)
    ensures var u := PrintExpr(e, hidden) + s;
            && |u| >= 2
            && (e.Not? <==> u[1] == '!')
            && (e.Not? ==> u[2..] == PrintExpr(e.expr, hidden) + (")" + s))
            && (e.Binary? ==> u[1..] == PrintExpr(e.left, hidden) + (" " + GroupRest(e, s, hidden)))
  {
    var u := PrintExpr(e, hidden) + s;
    if e.Binary? {
      Head(e.left, " " + GroupRest(e, s, hidden), hidden);
      BinaryParts(e, s, hidden);
      assert u[1] == u[1..][0];
    } else {
      assert u == "(!" + (PrintExpr(e.expr, hidden) + (")" + s));
    }
  }

  lemma BinaryParts(e: Expr, s: string, hidden: char -> bool)
    requires e.Binary?
    ensures PrintExpr(e, hidden) + s == "(" + (PrintExpr(e.left, hidden) + (" " + GroupRest(e, s, hidden)))
  {
    var l, r := PrintExpr(e.left, hidden), PrintExpr(e.right, hidden);
    assert PrintExpr(e, hidden) == "(" + l + " " + BinSym(e.op) + " " + r + ")";
    hide PrintExpr, BinSym;
  }

  lemma {:induction false} TailUnique(e: Expr, f: Expr, s: string, t: string, hidden: char -> bool)
    requires WellFormed(e) && WellFormed(f) && IsWord(e) && IsWord(f)
    requires Delimited(s) && Delimited(t)
    requires Word(e, hidden) == Word(f, hidden) && Tail(e, hidden) + s == Tail(f, hidden) + t
    ensures e == f && s == t
    decreases e, 0
  {
    TailHead(e, s, hidden);
    TailHead(f, t, hidden);
    match e
    case Literal(v) =>
      hide Tail, PrintExpr;
    case PathRef(p) =>
      PathTailUnique(p, f.path, s, t);
    case Call(c) =>
      CallWord(c, s, PrintArgs(c.args, true, hidden));
      CallWord(f.call, t, PrintArgs(f.call.args, true, hidden));
      hide PrintExpr, PrintArgs;
      ArgsUnique(c.args, f.call.args, true, s, t, hidden);
  }

  lemma PathTailUnique(p: Path, q: Path, s: string, t: string)
    requires WellFormedPath(p) && WellFormedPath(q) && p.segments[0].name == q.segments[0].name
    requires Delimited(s) && Delimited(t)
    requires PrintSegments(p.segments[1..], false) + s == PrintSegments(q.segments[1..], false) + t
    ensures p == q && s == t
  {
    hide PrintSegments;
    SegmentsUnique(p.segments[1..], q.segments[1..], s, t);
    assert p.segments == [p.segments[0]] + p.segments[1..];
    assert q.segments == [q.segments[0]] + q.segments[1..];
  }

  /** A call's tail opens with a parenthesis; only a path's word is not a keyword. */
  lemma TailHead(e: Expr, s: string, hidden: char -> bool)
    requires WellFormed(e) && IsWord(e) && Delimited(s)
    ensures var x := Tail(e, hidden) + s;
            && (e.Call? <==> x != "" && x[0] == '(')
            && (e.Literal? ==> x == s && IsKeyword(Word(e, hidden)))
            && (e.PathRef? ==> !IsKeyword(Word(e, hidden)))
  {
    if e.PathRef? {
      SegmentsHead(e.path.segments[1..], s);
    }
  }

  lemma {:induction false} ArgsUnique(a: seq<Expr>, b: seq<Expr>, first: bool, s: string, t: string,
                                      hidden: char -> bool)
    requires (forall x <- a :: WellFormed(x)) && (forall x <- b :: WellFormed(x))
    requires PrintArgs(a, first, hidden) + ")" + s == PrintArgs(b, first, hidden) + ")" + t
    ensures a == b && s == t
    decreases a
  {
    var u := PrintArgs(a, first, hidden) + ")" + s;
    ArgsParts(a, first, s, hidden);
    ArgsParts(b, first, t, hidden);
    if a == [] || b == [] {
      assert s == u[1..] == t;
    } else {
      var x, y := PrintArgs(a[1..], false, hidden) + ")" + s, PrintArgs(b[1..], false, hidden) + ")" + t;
      ArgsParts(a[1..], false, s, hidden);
      ArgsParts(b[1..], false, t, hidden);
      assert PrintExpr(a[0], hidden) + x == PrintExpr(b[0], hidden) + y;
      PrintUnique(a[0], b[0], x, y, hidden);
      ArgsUnique(a[1..], b[1..], false, s, t, hidden);
      assert a == [a[0]] + a[1..] && b == [b[0]] + b[1..];
    }
  }

  lemma ArgsParts(a: seq<Expr>, first: bool, s: string, hidden: char -> bool)
    requires forall x <- a :: WellFormed(x)
    ensures var u := PrintArgs(a, first, hidden) + ")" + s;
            && u != ""
            && (a == [] <==> u[0] == ')')
            && (!first ==> Delimited(u))
            && (a != [] ==> u[if first then 0 else 1..] ==
                            PrintExpr(a[0], hidden) + (PrintArgs(a[1..], false, hidden) + ")" + s))
  {
    var u := PrintArgs(a, first, hidden) + ")" + s;
    if a != [] {
      var rest := PrintArgs(a[1..], false, hidden) + ")" + s;
      Head(a[0], rest, hidden);
      assert u == (if first then "" else ",") + (PrintExpr(a[0], hidden) + rest);
    }
  }

  /** Two well-formed expressions share a key only if they are the same expression. */
  lemma KeysDistinguish(e: Expr, f: Expr, hidden: char -> bool)
    requires WellFormed(e) && WellFormed(f)
    ensures PrintExpr(e, hidden) == PrintExpr(f, hidden) <==> e == f
  {
    if PrintExpr(e, hidden) == PrintExpr(f, hidden) {
      assert PrintExpr(e, hidden) + "" == PrintExpr(e, hidden);
      assert PrintExpr(f, hidden) + "" == PrintExpr(f, hidden);
      PrintUnique(e, f, "", "", hidden);
    }
  }

  // ----- where the printer is ambiguous -----

  /** `f(1)` and `f(1.0)` share a key. */
  lemma IntegralFloatsCollide(hidden: char -> bool)
    ensures var one := Call(CallExpr("f", [Literal(Int(1))]));
            var float := Call(CallExpr("f", [Literal(Float("1"))]));
            one != float && PrintExpr(one, hidden) == PrintExpr(float, hidden)
  {
    assert PrintInt(1) == "1";
  }

  /** `Request.Headers["a"]["b"]`, two index steps, and `Request.Headers["a\"][\"b"]`, one,
      share a key. */
  lemma QuotedIndexKeysCollide(hidden: char -> bool)
    ensures var two := PathRef(Path([Field("Request"), Field("Headers"), Index("a"), Index("b")]));
            var one := PathRef(Path([Field("Request"), Field("Headers"), Index("a\"][\"b")]));
            two != one && PrintExpr(two, hidden) == PrintExpr(one, hidden)
  {
    var two := [Field("Request"), Field("Headers"), Index("a"), Index("b")];
    var one := [Field("Request"), Field("Headers"), Index("a\"][\"b")];
    assert two[1..] == [Field("Headers"), Index("a"), Index("b")] && two[1..][1..] == [Index("a"), Index("b")];
    assert two[2..] == [Index("a"), Index("b")] && two[2..][1..] == [Index("b")];
    assert one[1..] == [Field("Headers"), Index("a\"][\"b")] && one[1..][1..] == [Index("a\"][\"b")];
    IndexStepsCollide();
    assert PrintSegments(two, true) == "Request" + (".Headers" + PrintSegments([Index("a"), Index("b")], false));
    assert PrintSegments(one, true) == "Request" + (".Headers" + PrintSegments([Index("a\"][\"b")], false));
  }

  lemma IndexStepsCollide()
    ensures PrintSegments([Index("a"), Index("b")], false) == PrintSegments([Index("a\"][\"b")], false)
  {
    assert [Index("a"), Index("b")][1..] == [Index("b")];
  }
}
