/** Condition trees of the priority-ordered rule engine, evaluated by compiling every
    regex anew (rule/condition.rs) or through the cache the loader filled
    (optimized_rule/condition.rs). */
module LinearConditions {
  import opened Wrappers
  import opened Strings

  datatype Field = Ip | Path | Header | Payload | Cookie | Method | ContentType | SessionId | DeviceFp

  datatype MatchType = Exact | Wildcard | Regex | Cidr | Presence | Absence

  datatype ConditionLeaf = ConditionLeaf(
    field: Field,
    matchType: MatchType,
    value: string,
    headerName: Option<string>,
    cookieName: Option<string>,
    caseSensitive: bool,
    negate: bool,
    compiledRegexKey: Option<string>)

  datatype ConditionNode =
    | And(children: seq<ConditionNode>)
    | Or(children: seq<ConditionNode>)
    | Leaf(leaf: ConditionLeaf)

  /** The libraries a condition calls: regexes, globs, address ranges, Unicode case. */
  datatype Lib = Lib(
    validRegex: string -> bool,
    isMatch: (string, string) -> bool,            // pattern, text
    globMatch: (string, bool, string) -> bool,    // pattern, ignoring case, text
    cidrContains: (string, string) -> bool,       // range, address
    toLowercase: string -> string)

  datatype RequestContext = RequestContext(
    ip: string,
    path: string,
    method_: string,
    headers: string -> Option<string>,   // the header's value, if it is readable text
    payload: seq<int>,
    payloadText: string,                 // the payload as text, empty if it is not UTF-8
    cookies: map<string, string>,
    tierKey: string,
    sessionId: string,
    deviceFp: string,
    contentType: Option<string>)

  /** How an evaluator decides a regex leaf on a text. */
  type RegexTest = (ConditionLeaf, string) -> bool

  predicate MatchValue(subject: string, leaf: ConditionLeaf, lib: Lib, regex: RegexTest) {
    match leaf.matchType
    case Exact => if leaf.caseSensitive then subject == leaf.value else EqIgnoreAsciiCase(subject, leaf.value)
    case Wildcard => lib.globMatch(leaf.value, !leaf.caseSensitive, subject)
    case Regex => regex(leaf, subject)
    case Cidr => lib.cidrContains(leaf.value, subject)
    case Presence => subject != ""
    case Absence => subject == ""
  }

  function HeaderValue(leaf: ConditionLeaf, ctx: RequestContext): string {
    ctx.headers(leaf.headerName.GetOr("")).GetOr("")
  }

  function CookieValue(leaf: ConditionLeaf, ctx: RequestContext): string {
    var name := leaf.cookieName.GetOr("");
    if name in ctx.cookies then ctx.cookies[name] else ""
  }

  predicate EvalLeaf(leaf: ConditionLeaf, ctx: RequestContext, lib: Lib, regex: RegexTest) {
    var result :=
      match leaf.field
      case Ip => MatchValue(ctx.ip, leaf, lib, regex)
      case Path => MatchValue(ctx.path, leaf, lib, regex)
      case Method => MatchValue(ctx.method_, leaf, lib, regex)
      case SessionId => MatchValue(ctx.sessionId, leaf, lib, regex)
      case DeviceFp => MatchValue(ctx.deviceFp, leaf, lib, regex)
      case ContentType => MatchValue(ctx.contentType.GetOr(""), leaf, lib, regex)
      case Header => MatchValue(HeaderValue(leaf, ctx), leaf, lib, regex)
      case Cookie => MatchValue(CookieValue(leaf, ctx), leaf, lib, regex)
      case Payload =>
        if leaf.matchType.Presence? then ctx.payload != []
        else if leaf.matchType.Absence? then ctx.payload == []
        else MatchValue(ctx.payloadText, leaf, lib, regex);
    if leaf.negate then !result else result
  }

  predicate EvalNode(node: ConditionNode, ctx: RequestContext, lib: Lib, regex: RegexTest) {
    match node
    case And(children) => forall c <- children :: EvalNode(c, ctx, lib, regex)
    case Or(children) => exists c <- children :: EvalNode(c, ctx, lib, regex)
    case Leaf(leaf) => EvalLeaf(leaf, ctx, lib, regex)
  }

  // ----- the two regex tests -----

  const IGNORE_CASE := "(?i)"

  /** The pattern a regex leaf stands for. */
  function Pattern(leaf: ConditionLeaf): string {
    if !leaf.caseSensitive && !(IGNORE_CASE <= leaf.value) then IGNORE_CASE + leaf.value else leaf.value
  }

  /** Compile the pattern and match; a pattern that does not compile matches nothing. */
  function Recompiling(lib: Lib): RegexTest {
    (leaf: ConditionLeaf, subject: string) => lib.validRegex(Pattern(leaf)) && lib.isMatch(Pattern(leaf), subject)
  }

  /** Compiled regexes by cache key, each standing for the pattern it was compiled from. */
  type CompiledRegexes = map<string, string>

  /** Look the leaf's regex up in the cache; a missing one matches nothing. */
  function Cached(compiled: CompiledRegexes, lib: Lib): RegexTest {
    (leaf: ConditionLeaf, subject: string) =>
      match leaf.compiledRegexKey
      case Some(key) => key in compiled && lib.isMatch(compiled[key], subject)
      case None => false
  }

  predicate NaiveEval(node: ConditionNode, ctx: RequestContext, lib: Lib) {
    EvalNode(node, ctx, lib, Recompiling(lib))
  }

  predicate CachedEval(node: ConditionNode, ctx: RequestContext, lib: Lib, compiled: CompiledRegexes) {
    EvalNode(node, ctx, lib, Cached(compiled, lib))
  }

  // ----- patterns and keys in a tree -----

  /** The patterns of the regex leaves, from left to right. */
  function Patterns(node: ConditionNode): seq<string>
    decreases node, 0
  {
    match node
    case And(children) => PatternsOfAll(children)
    case Or(children) => PatternsOfAll(children)
    case Leaf(leaf) => if leaf.matchType.Regex? then [Pattern(leaf)] else []
  }

  function PatternsOfAll(nodes: seq<ConditionNode>): seq<string>
    decreases nodes, 1
  {
    if nodes == [] then [] else PatternsOfAll(nodes[..|nodes| - 1]) + Patterns(nodes[|nodes| - 1])
  }

  lemma {:induction false} PatternsOfMember(nodes: seq<ConditionNode>, i: nat)
    requires i < |nodes|
    ensures forall p <- Patterns(nodes[i]) :: p in PatternsOfAll(nodes)
  {
    if i < |nodes| - 1 { PatternsOfMember(nodes[..|nodes| - 1], i); }
  }

  /** The tree with every regex leaf given its pattern's key. */
  function WithKeys(node: ConditionNode, keys: map<string, string>): ConditionNode
    decreases node
  {
    match node
    case And(children) =>
      And(seq(|children|, i requires 0 <= i < |children| => WithKeys(children[i], keys)))
    case Or(children) =>
      Or(seq(|children|, i requires 0 <= i < |children| => WithKeys(children[i], keys)))
    case Leaf(leaf) =>
      if leaf.matchType.Regex? && Pattern(leaf) in keys
      then Leaf(leaf.(compiledRegexKey := Some(keys[Pattern(leaf)])))
      else node
  }

  /** Every pattern of the tree has a key, under which its own regex is found. */
  ghost predicate Served(node: ConditionNode, keys: map<string, string>, compiled: CompiledRegexes, lib: Lib) {
    forall p <- Patterns(node) ::
      p in keys && keys[p] in compiled && compiled[keys[p]] == p && lib.validRegex(p)
  }

  /** Evaluation through the cache agrees with recompiling on every request. */
  lemma {:induction false} CacheAgrees(node: ConditionNode, keys: map<string, string>, compiled: CompiledRegexes,
                                       ctx: RequestContext, lib: Lib)
    requires Served(node, keys, compiled, lib)
    ensures CachedEval(WithKeys(node, keys), ctx, lib, compiled) == NaiveEval(node, ctx, lib)
    decreases node
  {
    match node
    case Leaf(leaf) =>
      if leaf.matchType.Regex? {
        assert Pattern(leaf) in Patterns(node);
      }
    case _ =>
      var cs := node.children;
      var ds := WithKeys(node, keys).children;
      forall i | 0 <= i < |cs|
        ensures CachedEval(ds[i], ctx, lib, compiled) == NaiveEval(cs[i], ctx, lib)
      {
        PatternsOfMember(cs, i);
        CacheAgrees(cs[i], keys, compiled, ctx, lib);
      }
      SameQuantified(cs, ds, ctx, lib, compiled);
  }

  lemma SameQuantified(cs: seq<ConditionNode>, ds: seq<ConditionNode>, ctx: RequestContext, lib: Lib,
                       compiled: CompiledRegexes)
    requires |cs| == |ds|
    requires forall i | 0 <= i < |cs| :: CachedEval(ds[i], ctx, lib, compiled) == NaiveEval(cs[i], ctx, lib)
    ensures (forall d <- ds :: CachedEval(d, ctx, lib, compiled)) <==> (forall c <- cs :: NaiveEval(c, ctx, lib))
    ensures (exists d <- ds :: CachedEval(d, ctx, lib, compiled)) <==> (exists c <- cs :: NaiveEval(c, ctx, lib))
  {
    hide EvalNode;
    assert forall i | 0 <= i < |cs| :: cs[i] in cs && ds[i] in ds;
    assert forall c <- cs :: exists i | 0 <= i < |cs| :: cs[i] == c;
    assert forall d <- ds :: exists i | 0 <= i < |ds| :: ds[i] == d;
  }
}
