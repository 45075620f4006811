# mini-waf rule engines, verified

A Dafny model of the rule engines of a web application firewall, with proofs of the
properties their design rests on.  Three engines and their text machinery are covered.

* **GRL rules on a RETE network.**  Rules written in the GRL language (`when` a condition
  holds `then` perform statements) are compiled to alpha nodes, which are shared between
  rules by a pretty-printed key, and to flattened boolean guards.  A firing loop then runs
  the rules forward on one request: it recomputes the alpha nodes, fires the first eligible
  rule by salience, updates an overlay of assigned paths and an outcome, and starts over,
  at most sixteen times.  The main theorem, `ReteEngine.RunRefinesInterpreter`, is that
  this agrees, from every memory and for every number of cycles, with an interpreter that
  evaluates every condition directly, provided that leaves which share a node may.  It
  rests on the unique readability of the printer (`GrlPrinter.PrintUnique`) and on the
  exact condition for compilation to preserve meaning
  (`ReteMeaning.CompilationPreservesMeaningExactly`).  That proviso is exact over any stock of
  leaves (`ReteExactness.OutcomeExactly`).  What every run keeps (`FiringRuns`,
  `ReteEngine.Fire`) needs none.
* **Priority-ordered rules.**  Condition trees whose regexes are compiled once into a cache
  under generated keys.  Evaluation through the cache agrees with recompiling on every
  request, and the answer is a rule of minimal priority whatever an unstable sort does.
* **CRS text machinery.**  The decoders and normalisers applied before matching, the chain
  of transformations with its copy-avoiding fast paths, and the parser of rule files
  with its state machine for chains: which rules it emits, and exactly when a member comes
  out without its head or a head without its member.
* **Two glob matchers.**  One backtracks, the other searches greedily; both are proved
  against the language of the pattern and related to each other.

## How it is organised

| file | models |
|---|---|
| `Wrappers`, `Text`, `Strings`, `Bytes` | options and results; integers, numerals, text search, UTF-8, percent-decoding |
| `GrlAst`, `GrlPrinter`, `GrlEval` | syntax trees, the canonical printer, the evaluator |
| `StableSort`, `ReteNetwork`, `ReteMeaning` | compilation and what it preserves |
| `Firing`, `FiringRuns` | the firing loop for any way of deciding conditions, and properties of every run |
| `ReteEngine`, `ReteExactness` | the engine, its refinement of the naive interpreter, and that the refinement needs what it asks for |
| `GrlLaws`, `FiringLaws`, `ReteLaws` | what values, calls and connectives mean, what statements store and decide, and what that makes of compiled requests |
| `LinearConditions`, `LinearLoader`, `LinearEvaluator` | condition trees, the loader with its cache, the evaluators |
| `LinearLaws` | what an answer says of the loaded rules and of the request, without the evaluator's own terms |
| `Glob` | the two glob matchers |
| `Base64`, `Escapes`, `Transforms` | the transformations |
| `EscapeLaws`, `TransformLaws` | what each transformation does, against encoders and by its parts |
| `CrsParser`, `CrsChains`, `CrsLaws` | the rule-file parser, the chains that rules declare, and what single lines and parts of files become |

Code that updates state is modelled by classes and loops (`GrlPrinter.Buffer`,
`ReteNetwork.Network`, `ReteEngine.WorkingMemory`, `LinearLoader.RegexCache`,
`LinearEvaluator.RuleEvaluator`, and the decoding loops); each is proved to compute a
function, and the lemmas are about that function.  `dafny verify dfyconfig.toml` checks
everything.

What the engines call is a parameter about which nothing is assumed: of the libraries,
regexes (which patterns compile, what they match), globset, Unicode case and white space,
and the table of characters a string's debug form hides; of the repository, the functions
registered for GRL, the fields of the request, the address-range test and the parser of a
CRS rule's operator.  The one exception is `Transforms.Sound`, which states two promises of
the Rust standard library: decoding valid UTF-8 returns it unchanged, and lower-casing an
ASCII text without capitals does nothing.

## Where the code and its documentation differ

The model follows the code.  Each item names the lemma that shows the difference.

* The registry is documented as overriding built-in functions
  (crates/waf-engine/src/rules/grl/registry.rs:73-75), but a `matches` with a literal
  pattern is precompiled and never looks at the registry: `ReteMeaning.OverrideIsIgnored`,
  and exactly when it matters, `ReteMeaning.FastPathExact`.
* `allow()` is described as short-circuiting and passing immediately
  (docs/rule_engine.md:130), but a challenge or a rate limit set by an earlier rule wins:
  `ReteExactness.AllowDoesNotUndoChallenge`, and exactly when, `FiringRuns.PassesExactly`.
* Alpha nodes are described as keyed by a canonical form
  (crates/waf-engine/src/rules/rete/mod.rs:3-5); it is not injective on floats with an
  integral value nor on index keys that contain `"]`, which the grammar allows
  (crates/waf-engine/src/rules/grl/grl.pest:53-54): `GrlPrinter.IntegralFloatsCollide`,
  `GrlPrinter.QuotedIndexKeysCollide`, `ReteExactness.SharedHeaderBlocks`.
* A transformation chain is documented as returning a borrowed text when nothing modifies
  the input (crates/waf-engine/src/rules/crs/transform.rs:12-13):
  `Transforms.UnchangedButOwned`; and its fast paths are not always right outside ASCII:
  `Transforms.CommentFastPathShows`, `Transforms.LowercaseFastPathShows`.
* Members of a chain are skipped when an earlier line was dropped, but a head that parses
  is kept when a later member does not
  (crates/waf-engine/src/rules/crs/parser.rs:21-24): `CrsChains.HeadWithoutMember`,
  and exactly when, `CrsParser.WholeOrNothing`.  Nor is every member of a dropped head
  skipped, since the test for `chain` reads the last quoted text of the line:
  `CrsChains.MemberWithoutHead`, and exactly when, `CrsChains.OrphansExactly` with
  `CrsChains.ChainTestExactly`.
* Path normalisation is described as collapsing `../` sequences
  (crates/waf-engine/src/rules/crs/transform.rs:160); one pass leaves some:
  `Transforms.ParentStepSurvives`, and exactly when, `Transforms.NormalizePathLoop`.
* Entities are replaced one after another, `&amp;` before most others
  (crates/waf-engine/src/rules/crs/transform.rs:171-182), so a decoder named for HTML decodes
  some texts twice: `TransformLaws.EntityDecodedTwice`, and exactly when,
  `TransformLaws.EntityRoundTrip`.
* The greedy glob matcher never checks that the text ends
  (crates/optimized_rule/src/condition.rs:136): `Glob.AnchoredExactly`.

## Model

| member | source | states |
|---|---|---|
| `GrlPrinter.PrintUnique` | crates/waf-engine/src/rules/grl/printer.rs:9-62 | Unique readability: if the printed forms of two well-formed expressions, each followed by the end of the text or a delimiter, are equal texts, then the expressions and the remainders are equal |
| `GrlPrinter.KeysDistinguish` | crates/waf-engine/src/rules/rete/mod.rs:81-89 | Two well-formed expressions have the same hash-consing key exactly when they are the same expression |
| `GrlPrinter.EscapeUnique` | crates/waf-engine/src/rules/grl/printer.rs:49 | The quoted debug form of a string ends at its own closing quote and determines the string, whatever characters the standard library chooses to show as `\u{...}` |
| `GrlPrinter.IntegralFloatsCollide` | crates/waf-engine/src/rules/grl/printer.rs:47-48 | Where the key is ambiguous: `f(1)` and `f(1.0)` are different expressions with one key |
| `GrlPrinter.QuotedIndexKeysCollide` | crates/waf-engine/src/rules/grl/ast.rs:109 | Where the key is ambiguous: `Request.Headers["a"]["b"]`, two index steps, and one step whose key contains `"]`, have one key |
| `GrlPrinter.Buffer.FormatExpr` | crates/waf-engine/src/rules/grl/printer.rs:15-32 | The printer appends to its buffer exactly the printed form that the readability lemmas speak of |
| `GrlPrinter.Buffer.FormatCall` | crates/waf-engine/src/rules/grl/printer.rs:34-41 | The argument loop appends the name and the arguments separated by commas, with no comma before the first |
| `GrlPrinter.Buffer.FormatPath` | crates/waf-engine/src/rules/grl/ast.rs:101-114 | The segment loop appends a path with dots between fields, none before the first, and bracketed quoted index keys |
| `GrlPrinter.Buffer.FormatValue` | crates/waf-engine/src/rules/grl/printer.rs:43-51 | Appends a literal's printed form |
| `GrlLaws.PrintedOperators` | crates/waf-engine/src/rules/grl/printer.rs:15-32 | Every binary expression is printed as its left operand, its own operator and its right operand in parentheses, each of the twelve operators as the language writes it |
| `GrlLaws.EscapeConcat` | crates/waf-engine/src/rules/grl/printer.rs:49 | A string is written character by character, in order |
| `GrlAst.IntegralFloatReadsAsInt` | crates/waf-engine/src/rules/grl/ast.rs:80-98 | A float whose display is an integer's reads, as integer, text and truth value, like that integer; and the integer's text parses back to it |
| `Text.ParseIntPrintInt` | crates/waf-engine/src/rules/grl/ast.rs:85-93 | Parsing the decimal form of any 64-bit integer gives the integer back |
| `GrlLaws.PlainReadings` | crates/waf-engine/src/rules/grl/ast.rs:71-98 | Truth, integer and text of booleans, of Null and of texts: a text is true exactly if it is not empty, and reads as zero if it is no integer |
| `GrlLaws.SignedTextReads` | crates/waf-engine/src/rules/grl/ast.rs:85-93 | A text that is a sign or none, any leading zeros and a numeral reads as that integer if it fits into 64 bits, and as zero if not |
| `GrlLaws.OtherTextReadsZero` | crates/waf-engine/src/rules/grl/ast.rs:85-93 | A text with any character but digits and signs, or with a sign alone, reads as zero |
| `GrlLaws.FloatTruncates` | crates/waf-engine/src/rules/grl/ast.rs:80-88 | A float reads as its integer part, toward zero, and as the nearest end of the 64-bit range beyond it |
| `GrlEval.EqualityIsTextual` | crates/waf-engine/src/rules/rete/engine.rs:205-215 | Except between two floats, equality holds exactly when the text forms are equal; it is symmetric, and reflexive for everything but NaN |
| `GrlEval.EqualityIsNotTransitive` | crates/waf-engine/src/rules/rete/engine.rs:205-215 | Equality is not transitive: witnesses through the float zeros and through NaN and its text |
| `GrlEval.EqualityChainsExactly` | crates/waf-engine/src/rules/rete/engine.rs:205-215 | Of two equal pairs with a common middle, the ends are unequal exactly in three cases: both are NaN, or the middle and one end are the two float zeros and the other end is no float |
| `GrlEval.ComparisonLaws` | crates/waf-engine/src/rules/rete/engine.rs:185-190 | The comparisons look only at the values' integer readings and are one total order of them: `<=` is total and transitive and antisymmetric up to the reading, `<` its strict part, `>` and `>=` the converses; `!=` negates `==` |
| `GrlEval.ArithmeticIsModular` | crates/waf-engine/src/rules/rete/engine.rs:191-197 | On values that are not text, `+`, `-` and `*` are the integer operations modulo 2^64, and subtracting undoes adding even after overflow |
| `GrlEval.DivisionTruncates` | crates/waf-engine/src/rules/rete/engine.rs:198 | Division truncates toward zero for dividends of either sign, divides by one for divisors below one, and never overflows |
| `GrlEval.PlusAssociatesExactly` | crates/waf-engine/src/rules/rete/engine.rs:191-195 | `+` associates, as concatenation or modulo 2^64, exactly except where text at one end meets a sum at the other that reads unlike its two parts put together |
| `GrlEval.EvalReadsOnlyItsPaths` | crates/waf-engine/src/rules/rete/engine.rs:167-175 | The value of an expression depends on the assignment overlay only at paths written in the expression |
| `GrlLaws.ConnectivesMean` | crates/waf-engine/src/rules/rete/engine.rs:172-183 | `&&`, `//` and `!` are conjunction, disjunction and negation of the operands' truth, and obey De Morgan as values |
| `GrlLaws.ComparesInOrder` | crates/waf-engine/src/rules/rete/engine.rs:185-190 | A comparison is true exactly if the integer reading of its left operand stands in that order to the one of its right operand |
| `GrlLaws.OperandsInOrder` | crates/waf-engine/src/rules/rete/engine.rs:191-198 | Subtraction takes the right operand from the left one modulo 2^64, and division divides the left one by the right one |
| `GrlLaws.RegisteredCall` | crates/waf-engine/src/rules/grl/registry.rs:73-80 | For every name and number of arguments, a call of a registered function has the value the function gives to the values of the arguments in order |
| `GrlLaws.BuiltinCall` | crates/waf-engine/src/rules/grl/functions.rs:12-46 | Any other call has the value of the built-in function on them; `matches` searches its first argument for the pattern that is its second, missing arguments being empty, and is false for a pattern that does not compile |
| `GrlLaws.EvalUsesOnlyItsFunctions` | crates/waf-engine/src/rules/grl/registry.rs:73-80 | Environments with the same registered functions, and with built-in ones that agree on the names that are not registered, give every expression that uses these names the same value |
| `ReteNetwork.Network.InternAlpha` | crates/waf-engine/src/rules/rete/mod.rs:81-89 | Interning returns the position of the expression's key in the table, extends the table by a node with the next id exactly if the key is new, and keeps the index the exact inverse of the keys |
| `ReteNetwork.Network.CompileGuard` | crates/waf-engine/src/rules/rete/mod.rs:57-79 | The guard built while the table grows is the one read off the final table, and the table is extended by the condition's leaves from left to right |
| `ReteNetwork.Network.CompileRule` | crates/waf-engine/src/rules/rete/mod.rs:41-49 | Compiling one more rule appends its terminal and leaves every earlier terminal what it would be over the larger table |
| `ReteNetwork.Network.Compile` | crates/waf-engine/src/rules/rete/mod.rs:39-53 | The network holds one node per first-seen key with an exact index, ids equal to positions, and the terminals of all rules over that table, stably sorted by descending salience |
| `ReteNetwork.GuardIsStable` | crates/waf-engine/src/rules/rete/mod.rs:57-89 | Growing the table never changes the guard of a condition whose leaves are known |
| `ReteNetwork.InternAppend` | crates/waf-engine/src/rules/rete/mod.rs:81-89 | Interning leaves in two batches is interning them in one |
| `StableSort.SortDescIsStable` | crates/waf-engine/src/rules/rete/mod.rs:50-51 | The sort is a descending rearrangement that keeps terminals of equal salience in order |
| `StableSort.StableSortUnique` | crates/waf-engine/src/rules/rete/mod.rs:50-51 | Descending order with equal-key runs preserved leaves one arrangement only, so any stable sort gives this one |
| `ReteMeaning.CompilationPreservesMeaning` | crates/waf-engine/src/rules/rete/mod.rs:39-131 | For every rule, request and overlay: if leaves that share a node may (the node of each gives the truth of every leaf printed like it), the compiled guard over the alpha vector equals the truth of the condition under the evaluator, through sharing, flattening and precompiled regexes, whatever rules are compiled before and after |
| `ReteMeaning.GuardMeaning` | crates/waf-engine/src/rules/rete/mod.rs:57-79 | The same for one condition over any table whose entries answer its leaves |
| `ReteMeaning.RepresentedExactly` | crates/waf-engine/src/rules/rete/mod.rs:81-89 | Every leaf is tested by itself exactly when no two different leaves of the rules share a key |
| `ReteMeaning.WellFormedKeysIdentify` | crates/waf-engine/src/rules/rete/mod.rs:81-89 | Rules over well-formed conditions never share a key by accident |
| `ReteMeaning.CompilationPreservesMeaningExactly` | crates/waf-engine/src/rules/rete/mod.rs:39-131 | Over any stock of leaves, all guards of all lists of rules built from them agree with their conditions exactly when leaves that share a node may |
| `ReteMeaning.InterchangeableExactly` | crates/waf-engine/src/rules/rete/mod.rs:81-114 | With no registered `matches` that differs from the built-in one, leaves may share nodes exactly when leaves that print alike are true alike |
| `ReteMeaning.KeysIdentifySuffices` | crates/waf-engine/src/rules/rete/mod.rs:81-89 | In particular they may, under every overlay, when no two different leaves print alike |
| `ReteMeaning.IntegralFloatsShareSafely` | crates/waf-engine/src/rules/rete/mod.rs:81-89 | A collision can be harmless: `f() < 1` and `f() < 1.0` share one node, rightly |
| `ReteMeaning.QuotedIndexKeyReadsAnotherPath` | crates/waf-engine/src/rules/rete/mod.rs:81-89 | A collision can show: of two rules over request headers, the guard of the second answers with the value of header `a`, which the first reads, instead of the header whose name contains `"]`, which is absent |
| `ReteMeaning.FastPathExact` | crates/waf-engine/src/rules/rete/engine.rs:118-132 | For every expression and overlay the precompiled regex gives the truth of the expression, exactly when any registered `matches` agrees with the built-in one on literal patterns that compile; the registry is documented as overriding built-ins, the fast path never consults it |
| `ReteMeaning.OverrideIsIgnored` | crates/waf-engine/src/rules/rete/engine.rs:118-132 | A witness: a registered `matches` that always answers false is passed over by a precompiled node |
| `ReteMeaning.MergeEval` | crates/waf-engine/src/rules/rete/mod.rs:116-131 | Flattening merges of conjunctions and disjunctions keep their truth value under every alpha vector |
| `ReteMeaning.GuardShape` | crates/waf-engine/src/rules/rete/mod.rs:57-131 | No conjunction stands directly under a conjunction nor a disjunction under a disjunction, each has at least two parts, and the guard's ids are those of the condition's leaves in source order |
| `ReteMeaning.IdsInRange` | crates/waf-engine/src/rules/rete/terminal.rs:31 | Every id in a compiled guard is a table position, so the default for unknown ids is never used |
| `ReteMeaning.InternDistinct` | crates/waf-engine/src/rules/rete/mod.rs:81-89 | No two nodes of a network have the same key |
| `ReteMeaning.AlphaCount` | crates/waf-engine/src/rules/rete/mod.rs:91 | The number of alpha nodes is the number of distinct printed leaves |
| `ReteEngine.RunRefinesInterpreter` | crates/waf-engine/src/rules/rete/engine.rs:48-92 | Refinement: for rules whose leaves share nodes safely, from every memory and for every number of cycles, the firing loop over the compiled network ends with the overlay, outcome and fired set of the naive interpreter that evaluates conditions directly in stable salience order |
| `ReteExactness.RefinementExactly` | crates/waf-engine/src/rules/rete/engine.rs:48-92 | Over any stock of leaves, the compiled network and the naive interpreter run alike for all lists of rules built from them, from all memories and for all numbers of cycles, exactly when leaves that share a node may under every overlay |
| `ReteExactness.OutcomeExactly` | crates/waf-engine/src/rules/rete/engine.rs:48-92 | Over any stock of leaves, every request ends with the interpreter's outcome for all lists of rules built from them, from the empty memory and with sixteen cycles, exactly under that same condition: an overlay on which it fails is written by a rule of the list |
| `ReteExactness.SharedHeaderBlocks` | crates/waf-engine/src/rules/rete/mod.rs:81-89 | A request that the engine blocks and the interpreter lets pass: a test of an absent header shares a node with a test of a present one |
| `ReteLaws.CompiledRunSameAnswers` | crates/waf-engine/src/rules/grl/registry.rs:73-80 | So do the runs of the compiled network |
| `ReteLaws.ConditionDecides` | crates/waf-engine/src/rules/rete/engine.rs:48-112 | A single rule that blocks decides, compiled and run, every request by the truth of its condition: block with its reason if it holds, pass if not |
| `ReteLaws.RegisteredConditionDecides` | crates/waf-engine/src/rules/grl/registry.rs:73-80 | In particular by what a registered function, of any name but `matches` and with any arguments, gives to the values of the arguments |
| `ReteLaws.ScoresAccumulate` | crates/waf-engine/src/rules/rete/engine.rs:136-141 | Of three compiled rules, two add 80 and 90 to the request's score and the third blocks from 150 on: the request is blocked |
| `ReteEngine.SameRun` | crates/waf-engine/src/rules/rete/engine.rs:60-89 | Two agendas with the same names and statements, eligible alike position by position, run alike |
| `ReteEngine.SameChoice` | crates/waf-engine/src/rules/rete/engine.rs:62-73 | In every memory such agendas choose the same position |
| `ReteEngine.SortCommutes` | crates/waf-engine/src/rules/rete/mod.rs:50-51 | Sorting the compiled terminals is compiling the sorted rules |
| `ReteEngine.EngineFiresGreatestSalience` | crates/waf-engine/src/rules/rete/engine.rs:66-84 | On every network the terminal that fires has the greatest salience of all terminals whose guards hold and that have not fired, and is the first of those as loaded |
| `ReteEngine.EngineIsOnePass` | crates/waf-engine/src/rules/rete/engine.rs:60-89 | On every network, if no rule assigns a path that a test of a terminal ahead of it depends on, the engine's run is one left-to-right pass over its terminals |
| `ReteEngine.EngineIsOnePassExactly` | crates/waf-engine/src/rules/rete/engine.rs:60-89 | For terminals of distinct names it is, from every memory and for every number of cycles, exactly when no firing that leaves the run undecided makes a terminal at or ahead of it eligible |
| `ReteEngine.CompileAndFire` | crates/waf-engine/src/rules/rete/engine.rs:48-92 | For every list of rules and request, compiling and firing matches distinct rule names, at most sixteen; if leaves share nodes safely the outcome is that of the naive interpreter on the rules |
| `ReteEngine.Fire` | crates/waf-engine/src/rules/rete/engine.rs:48-92 | On every compiled network, colliding keys and overriding functions included, the outcome is that of the loop and the run is orderly: matched rules distinct, at most sixteen, rule names, all fired, and stopped by a decision, by quiescence, or by the cap only with more than sixteen names; if leaves share nodes safely it is the outcome of the naive interpreter |
| `ReteEngine.FireLoop` | crates/waf-engine/src/rules/rete/engine.rs:60-91 | The loop with its three exits computes the run that restarts after every firing, from the empty memory and with sixteen cycles |
| `ReteEngine.FireFirst` | crates/waf-engine/src/rules/rete/engine.rs:66-86 | One scan fires the first terminal that holds and has not fired, records it, performs its statements in order, and changes nothing if there is none |
| `ReteEngine.WorkingMemory.RunStmts` | crates/waf-engine/src/rules/rete/engine.rs:77-79 | Performs the statements in order, each seeing the overlay, outcome and fired set its predecessors left |
| `ReteEngine.WorkingMemory.RunAction` | crates/waf-engine/src/rules/rete/engine.rs:146-163 | Performs one action: its new outcome and fired set, and no change to the overlay |
| `ReteEngine.WorkingMemory.WritePath` | crates/waf-engine/src/rules/rete/working_memory.rs:44-52 | What was written is read back in place of the request's own field, and every other path reads as before |
| `FiringRuns.RunFiresFreshNames` | crates/waf-engine/src/rules/rete/engine.rs:56-91 | Every run of the loop, over any network or by the naive interpreter, from any memory: it appends at most as many names as there are cycles, none twice and none fired or retracted before, all of them rule names and all recorded as fired; it stops because the outcome is decided, no rule is eligible, or the cycles are used up |
| `FiringRuns.RunIsOrderly` | crates/waf-engine/src/rules/rete/engine.rs:56-91 | The matched rules of a request are distinct rule names, at most sixteen, all of them fired, and the cap alone stops a run only with more than sixteen names |
| `FiringRuns.RunSplits` | crates/waf-engine/src/rules/rete/engine.rs:60-89 | A run of a + b cycles is a run of a cycles that decided the outcome, or one continued for b more |
| `FiringRuns.OnlyTheLastRuleDecides` | crates/waf-engine/src/rules/rete/engine.rs:87-88 | A run that goes on to fire further rules was undecided: only the last fired rule can block or allow |
| `FiringRuns.RetractedNeverFires` | crates/waf-engine/src/rules/rete/engine.rs:73 | A name fired or retracted by some cycle does not fire in any later one |
| `FiringRuns.RetractPreventsFiring` | crates/waf-engine/src/rules/rete/engine.rs:157 | After a rule with a `retract` action has fired, the rule named by the action's argument, evaluated where the action stands, does not fire |
| `FiringRuns.CapIsNotTheReason` | crates/waf-engine/src/rules/rete/engine.rs:13 | With no more distinct rule names than cycles, a run ends by a decision or because nothing is eligible, never by the cap alone |
| `FiringRuns.CapStopsTheRun` | crates/waf-engine/src/rules/rete/engine.rs:13 | With more than sixteen rules that always hold and neither decide nor retract, the cap does bite: sixteen fire and the next is still eligible |
| `FiringRuns.GreatestSalienceFires` | crates/waf-engine/src/rules/rete/engine.rs:66-84 | In any sorted agenda, the production that fires has the greatest salience of all eligible ones and is, among those of its salience, the first eligible as written |
| `FiringRuns.LoadOrderDoesNotMatter` | crates/waf-engine/src/rules/rete/mod.rs:50-51 | Rules of pairwise distinct salience are considered in the same order however they were loaded |
| `FiringRuns.PerformAllEffects` | crates/waf-engine/src/rules/rete/engine.rs:136-163 | A reason, the allow flag, a challenge and a delay are set after a rule's statements exactly if they were before or the rule has the action; names are retracted only by `retract`; one log line is added per `log` or unknown action; the overlay grows by exactly the assigned paths |
| `FiringRuns.LastActionWins` | crates/waf-engine/src/rules/rete/engine.rs:149-155 | The last `block`, `challenge` or `rate_limit` of a rule determines the reason, kind or delay, from its arguments under the overlay at that point; a delay is the integer argument modulo 2^64, sixty without one |
| `FiringLaws.LastAssignmentWins` | crates/waf-engine/src/rules/rete/engine.rs:136-141 | After any statements, an assignment and statements that do not assign its path, the path reads as the value of the assigned expression under the overlay the statements before left |
| `FiringLaws.UnassignedReadsAsBefore` | crates/waf-engine/src/rules/rete/working_memory.rs:44-52 | A path that a rule does not assign reads after it as before it |
| `FiringLaws.IncrementAdds` | crates/waf-engine/src/rules/rete/engine.rs:136-141 | After `p = p + k`, wherever it stands in a rule that does not assign `p` later, `p` reads as its value before plus `k`, modulo 2^64 |
| `FiringLaws.IncrementsAddUp` | crates/waf-engine/src/rules/rete/engine.rs:136-141 | Two increments of one path in one rule add up modulo 2^64 |
| `FiringLaws.IncrementsOfRulesAddUp` | crates/waf-engine/src/rules/rete/engine.rs:136-141 | So do those of two rules that fire one after the other |
| `FiringLaws.LogAppends` | crates/waf-engine/src/rules/rete/engine.rs:142-163 | Wherever it stands, `log` appends the text of its argument under the overlay it meets, empty without one; an action the engine does not know appends a line naming it; lines already there stay in front |
| `FiringLaws.DecisionPrecedence` | crates/waf-engine/src/rules/rete/engine.rs:95-112 | A block wins over everything, a challenge over a rate limit, whose seconds are passed on, and only an outcome with none of them passes |
| `FiringLaws.InterpretSameAnswers` | crates/waf-engine/src/rules/grl/registry.rs:73-80 | The interpreter's runs depend on the registry for registered names and on the built-in functions for the others only, from every memory and for all numbers of cycles |
| `FiringRuns.FiringDecides` | crates/waf-engine/src/rules/rete/engine.rs:86-88 | A rule that fires while nothing is decided ends the run exactly if it contains `block` or `allow` |
| `ReteExactness.AllowDoesNotUndoChallenge` | crates/waf-engine/src/rules/rete/engine.rs:97-111 | Against the description of `allow()` as passing immediately: on a compiled network, after an earlier rule's challenge, the decision is to challenge |
| `FiringRuns.PassesExactly` | crates/waf-engine/src/rules/rete/engine.rs:97-111 | After any rule has fired the request passes exactly if nothing before it blocked, challenged or limited and the rule does not either; its `allow` actions play no part |
| `FiringRuns.FiringKeepsConditions` | crates/waf-engine/src/rules/rete/engine.rs:136-175 | Non-interference: firing a rule changes the truth of a condition only if it assigns a path written in that condition |
| `FiringRuns.FiringKeepsAlphas` | crates/waf-engine/src/rules/rete/engine.rs:118-203 | The same for an alpha node, precompiled or not |
| `FiringRuns.RecomputeOnlyTouched` | crates/waf-engine/src/rules/rete/engine.rs:62-64 | Recomputing only the nodes that mention an assigned path gives the vector that the engine recomputes in full |
| `FiringRuns.RestartingIsOnePassExactly` | crates/waf-engine/src/rules/rete/engine.rs:60-89 | For productions of distinct names, restarting from the top after every firing is one pass, from every memory and for every number of cycles, exactly when no firing that leaves the run undecided makes one at or ahead of it eligible |
| `FiringRuns.RestartingIsOnePass` | crates/waf-engine/src/rules/rete/engine.rs:60-89 | In particular for assignments that only feed productions further down, or none: restarting from the top is one left-to-right pass that stops at a decision or after the given number of firings |
| `FiringRuns.InterpreterIsOnePass` | crates/waf-engine/src/rules/rete/engine.rs:60-89 | The same for the naive interpreter, if no rule assigns a path written in a condition ahead of it |
| `ReteExactness.EngineNeedsRestart` | crates/waf-engine/src/rules/rete/engine.rs:81-84 | Without that condition they differ: two rules of which the second enables the first; the engine fires both, one pass would fire one |
| `LinearConditions.CacheAgrees` | optimized_rule/condition.rs:26-114 | On every condition tree with every pattern served by the cache, and every request, evaluation through the cache equals evaluation that recompiles each regex (rule/condition.rs:24-112) |
| `LinearLoader.Compile` | optimized_rule/loader.rs:103-174 | Loading succeeds exactly on rules whose patterns all compile, whose ids are distinct and whose deltas and priorities are in range; the result is the finished rules sorted by priority, each served by the cache, with one regex per distinct pattern; handing out keys never fails |
| `LinearLoader.RegexCache.AddLeaf` | optimized_rule/loader.rs:488-512 | Adding a leaf fails exactly for a regex leaf whose pattern does not compile, with the rule's id; otherwise the cache gains the pattern under the next key exactly if it is new |
| `LinearLoader.RegexCache.Collect` | optimized_rule/loader.rs:477-515 | Collection fails exactly if some pattern of the tree does not compile; otherwise the cache holds the earlier patterns and then the tree's new ones in order |
| `LinearLoader.KeysLeadBack` | optimized_rule/loader.rs:506-508 | Every cached pattern has a key, and no other text has |
| `LinearLoader.CompiledLeadsBack` | optimized_rule/loader.rs:506-508 | The n-th key leads to the regex of the n-th pattern, although keys are numbered by the size of the growing map |
| `LinearLoader.CompiledKeys` | optimized_rule/loader.rs:506-508 | The cache has one key per distinct pattern and no others: numbering by size never reuses a key |
| `LinearLoader.Populate` | optimized_rule/loader.rs:518-548 | Handing out keys fails exactly if a pattern of the tree has none, and otherwise gives every regex leaf its own pattern's key |
| `LinearLoader.Validate` | optimized_rule/loader.rs:117-146 | Validation passes exactly on distinct ids and fields in range; otherwise it reports the first offending rule, the repeated id before the delta before the priority |
| `LinearLoader.CollectRules` | optimized_rule/loader.rs:112-115 | The first pass over all rules succeeds exactly if every pattern compiles, and leaves every pattern cached once, in order |
| `LinearLoader.PopulateRules` | optimized_rule/loader.rs:148-168 | The second pass succeeds exactly if every pattern has a key, and finishes the rules in order |
| `LinearLoader.SortUnstable` | optimized_rule/loader.rs:170-171 | A rearrangement by ascending priority, with nothing promised about ties |
| `LinearEvaluator.RuleEvaluator.Evaluate` | optimized_rule/mod.rs:94-132 | On a compiled rule set the answer is the match of an enabled, unskipped, tier-matching, non-log rule of minimal priority whose condition holds when recompiled, or none if there is no such rule |
| `LinearEvaluator.FirstMatch` | optimized_rule/mod.rs:94-132 | The loop returns the match of the first rule that answers, in the order given, and none exactly if none answers |
| `LinearEvaluator.FirstMatchIsAnswer` | optimized_rule/mod.rs:94-132 | Whatever the unstable sort does with ties, the first match is an answer for the rules as loaded |
| `LinearEvaluator.NaiveAnswers` | rule/mod.rs:94-132 | The engine that recompiles gives answers of the same kind |
| `LinearEvaluator.AnswerUniqueExactly` | optimized_rule/loader.rs:170-171 | There is only one answer to a request, however ties fall, exactly when all rules of minimal priority that answer it give the same match |
| `LinearEvaluator.AnswersAreFirstMatches` | optimized_rule/loader.rs:170-171 | A match is an answer exactly if some arrangement by priority, which the unstable sort may produce, has it as its first match: every answer arises from some order of ties |
| `LinearEvaluator.LoadOrderDoesNotMatter` | optimized_rule/loader.rs:170-171 | With pairwise distinct priorities, the answers to a request over two load orders, by either engine, are equal, although the cache keys differ |
| `LinearEvaluator.ReloadReordered` | optimized_rule/mod.rs:83-132 | End to end: loading rules, evaluating, reloading them in another order and evaluating again; both lists are accepted or neither, and with distinct priorities both evaluations give the same match for every request and skip list |
| `LinearEvaluator.AcceptanceIgnoresOrder` | optimized_rule/loader.rs:103-146 | Whether a list of rules is accepted does not depend on its order |
| `LinearLaws.AnswerCarriesRule` | optimized_rule/mod.rs:118-130 | Every answer carries the id, description, action, score and source of one loaded rule, `system` for a source left out, and is neither a log action nor skipped |
| `LinearLaws.OnlyLiveRulesAnswer` | optimized_rule/mod.rs:100-116 | Rules that are disabled, skipped, of another tier or that only log may be left out without changing any answer |
| `LinearLaws.LeastLiveRuleAnswers` | optimized_rule/mod.rs:94-132 | If a rule that takes part has a smaller priority number than all others, and matches, its match is the only answer |
| `LinearLaws.TreesMean` | optimized_rule/condition.rs:26-32 | A loaded rule with a conjunction answers exactly the requests it answers with every part alone as its condition; with a disjunction, those it answers with some part |
| `LinearLaws.EmptyTrees` | optimized_rule/condition.rs:28-29 | The empty conjunction answers every request, the empty disjunction none |
| `LinearLaws.NegationMeans` | optimized_rule/condition.rs:75 | A rule with a leaf negated answers exactly the requests it does not answer with the leaf |
| `LinearLaws.DeMorgan` | optimized_rule/condition.rs:26-75 | A disjunction of negated leaves answers exactly when the conjunction of the leaves does not, and the other way round |
| `LinearLaws.LeafLooksAt` | optimized_rule/condition.rs:34-44 | For each field that is one text of the request, a rule with a leaf on it answers exactly as that text compares under the leaf's match type, the result turned round if the leaf is negated |
| `LinearLaws.LeafLooksInside` | optimized_rule/condition.rs:45-73 | The same for headers, cookies and the payload: the named entry or an empty text, and presence and absence of the payload's bytes |
| `LinearLaws.Comparing` | optimized_rule/condition.rs:78-114 | What each match type asks of a text: equality with or without regard to the case of ASCII letters, the glob, the regex, the address range, presence and absence |
| `LinearLaws.IgnoringCaseWrittenOut` | optimized_rule/loader.rs:489-494 | A regex leaf that ignores case and the same leaf with `(?i)` written in front answer the same requests |
| `LinearLaws.LoadAndEvaluate` | optimized_rule/mod.rs:83-132 | End to end: loading succeeds exactly on acceptable rules, evaluation then gives an answer in the sense of these rows, and with a single rule it matches exactly if that rule does |
| `Glob.LanguageOfConcat` | crates/rule/src/condition.rs:119-154 | The language of a concatenation of patterns is the concatenation of their languages |
| `Glob.MatchRecursiveIsLanguage` | crates/rule/src/condition.rs:119-154 | The backtracking matcher decides the language in which `*` is any text and `?` any character |
| `Glob.MatchRecursiveConcat` | crates/rule/src/condition.rs:119-154 | It matches a concatenation of patterns exactly if the text splits into a match of each |
| `Glob.DoubledStar` | crates/rule/src/condition.rs:128-138 | Doubling a star anywhere changes nothing |
| `Glob.GlobMatch` | crates/optimized_rule/src/condition.rs:114-137 | Greedy leftmost search is complete: it succeeds exactly if some prefix of the text is in the pattern's language |
| `Glob.LeftmostIsBest` | crates/optimized_rule/src/condition.rs:128-134 | Taking the leftmost occurrence of a part loses no way of placing the remaining parts |
| `Glob.GreedyIsRecursiveWithStar` | crates/optimized_rule/src/condition.rs:114-137 | On patterns without `?`, the greedy matcher is the backtracking one with a star added at the end |
| `Glob.AnchoredExactly` | crates/optimized_rule/src/condition.rs:136 | It decides whole texts, as its name and comment say, exactly for the patterns that end in a star |
| `Base64.DecodeEncode` | crates/waf-engine/src/rules/crs/transform.rs:225-259 | Decoding inverts the padded encoding of section 4 of RFC 4648 for every byte sequence, also with bytes outside the alphabet scattered through the text |
| `Base64.InsertedNoise` | crates/waf-engine/src/rules/crs/transform.rs:235 | Bytes outside the alphabet and the padding character change nothing, wherever they stand |
| `Base64.DecodeConcatenation` | crates/waf-engine/src/rules/crs/transform.rs:238-257 | Padding ends a group, not the text: whatever follows an encoding is decoded as well |
| `Base64.DecodeUnpadded` | crates/waf-engine/src/rules/crs/transform.rs:238 | Without padding only whole groups are decoded, so all bytes come back exactly if there was no padding to drop |
| `Base64.PaddingStops` | crates/waf-engine/src/rules/crs/transform.rs:245 | Padding in the first or second place of a group ends the decoding there |
| `Base64.PaddingInside` | crates/waf-engine/src/rules/crs/transform.rs:248-255 | After padding in the third place of a group the fourth is not looked at |
| `Base64.SpareBits` | crates/waf-engine/src/rules/crs/transform.rs:246-250 | Bits that an encoder leaves zero before padding are not looked at |
| `Base64.Base64Decode` | crates/waf-engine/src/rules/crs/transform.rs:235-257 | The filtering and decoding loops compute the decoder that the round trips speak of |
| `Bytes.UrlRoundTrip` | crates/waf-engine/src/rules/crs/transform.rs:69-85 | Percent-decoding inverts every percent-encoding that encodes the percent sign |
| `Bytes.UrlDecodeUni` | crates/waf-engine/src/rules/crs/transform.rs:69-85 | The loop computes that decoder |
| `Bytes.UrlUnchangedExactly` | crates/waf-engine/src/rules/crs/transform.rs:73-83 | Decoding never lengthens a text, and leaves it as it is exactly if it has no complete escape: truncated and malformed ones stay |
| `Bytes.EncodedCharacter` | crates/waf-engine/src/rules/crs/transform.rs:127-128 | The bytes of a character are a sequence of section 3 of RFC 3629 whose value is the character's code |
| `Bytes.Utf8Injective` | crates/waf-engine/src/rules/crs/transform.rs:127-128 | The bytes of a text determine the text |
| `Escapes.DecodersAgreeExactly` | crates/waf-engine/src/rules/crs/transform.rs:100-144 | The byte decoder's output is the UTF-8 of the character decoder's (lines 186-221) exactly for inputs whose bytes are ASCII, both as written and as named by complete `\xHH` escapes; truncated, malformed and surrogate escapes included |
| `Escapes.DecodersCompared` | crates/waf-engine/src/rules/crs/transform.rs:186-221 | On all other inputs the byte decoder emits strictly fewer bytes |
| `Escapes.EscapeSeqDecodeLoop` | crates/waf-engine/src/rules/crs/transform.rs:100-144 | The C-escape loop computes the first decoder |
| `Escapes.JsDecodeLoop` | crates/waf-engine/src/rules/crs/transform.rs:186-221 | The JavaScript-escape loop computes the second |
| `EscapeLaws.UnicodeEscapeDecodes` | crates/waf-engine/src/rules/crs/transform.rs:118-129 | For every character below U+10000 outside the surrogates, `\u` and the four digits of its code in base 16, of either case, decode to the character in one decoder (lines 200-205) and to its UTF-8 in the other, whatever follows |
| `EscapeLaws.ByteEscapeDecodes` | crates/waf-engine/src/rules/crs/transform.rs:110-117 | For every byte, `\x` and its two digits decode to it, whatever follows |
| `EscapeLaws.ControlEscapeDecodes` | crates/waf-engine/src/rules/crs/transform.rs:107-109 | `\n`, `\r` and `\t` decode to 10, 13 and 9 |
| `EscapeLaws.OtherBytesStay` | crates/waf-engine/src/rules/crs/transform.rs:130-141 | Bytes outside escapes stay, and so does the backslash before any other letter |
| `EscapeLaws.MalformedEscapesStay` | crates/waf-engine/src/rules/crs/transform.rs:110-129 | The backslash of a truncated or malformed `\x` or `\u` stays, and decoding goes on behind it |
| `EscapeLaws.DecodesInParts` | crates/waf-engine/src/rules/crs/transform.rs:100-144 | Both decoders decode a text part by part wherever no escape can reach over the cut |
| `EscapeLaws.EscapeInText` | crates/waf-engine/src/rules/crs/transform.rs:100-144 | So an escape in the middle of a text decodes to its character and leaves what stands before and after |
| `EscapeLaws.EscapeRoundTrip` | crates/waf-engine/src/rules/crs/transform.rs:186-221 | Both decoders invert the encoder that writes every character of a text as a `\u` escape |
| `EscapeLaws.ByteEscapeRoundTrip` | crates/waf-engine/src/rules/crs/transform.rs:100-144 | The byte decoder inverts the one that writes every byte as a `\x` escape |
| `Strings.CollapseSlashes` | crates/waf-engine/src/rules/crs/transform.rs:164-166 | Replacing `//` by `/` until none is left terminates, and leaves the text with every run of slashes collapsed to one and all else unchanged |
| `Strings.ReplaceShortens` | crates/waf-engine/src/rules/crs/transform.rs:165 | Each replacement round strictly shortens a text that contains `//` |
| `Transforms.NormalizePathLoop` | crates/waf-engine/src/rules/crs/transform.rs:159-167 | The loop computes the normal form, which has no `//`; it still contains `../` (or `..\`) exactly if the decoded text contains `..../` (or `....\`), of which the single pass removes two dots |
| `Transforms.ParentStepSurvives` | crates/waf-engine/src/rules/crs/transform.rs:162 | A witness: `....//` is normalised to `../` |
| `Transforms.ReplaceCommentsLoop` | crates/waf-engine/src/rules/crs/transform.rs:263-284 | The scanning loop computes the function of which the next rows say what becomes of comments |
| `Transforms.KeptUpToComment` | crates/waf-engine/src/rules/crs/transform.rs:278-281 | Bytes before the first comment opener are kept, each as the character of its code |
| `Transforms.BlockCommentVanishes` | crates/waf-engine/src/rules/crs/transform.rs:268-272 | Behind any opener-free text, a block comment up to its first closer vanishes and the rest is treated afresh |
| `Transforms.UnclosedCommentVanishes` | crates/waf-engine/src/rules/crs/transform.rs:273-275 | Behind any opener-free text, a block comment that is never closed takes the rest of the text with it |
| `Transforms.LineCommentVanishes` | crates/waf-engine/src/rules/crs/transform.rs:276-277 | Behind any opener-free text, a line comment vanishes up to its line feed, which stays, or to the end |
| `Transforms.CommentFree` | crates/waf-engine/src/rules/crs/transform.rs:263-284 | On a text without comment openers, comment removal is the identity exactly for ASCII texts |
| `TransformLaws.EntityRoundTrip` | crates/waf-engine/src/rules/crs/transform.rs:171-182 | Decoding gives a text back from the text with `<`, `>`, `&` and both quotes written as entities, exactly if the text has none of the seven entities that are replaced after `&amp;` |
| `TransformLaws.DecodeEncoded` | crates/waf-engine/src/rules/crs/transform.rs:171-182 | For every text: decoding its encoding decodes, besides, those seven entities of the text itself, a second time |
| `TransformLaws.EntityDecodedTwice` | crates/waf-engine/src/rules/crs/transform.rs:173-174 | A witness: the text `&quot;` does not come back from its encoding |
| `TransformLaws.EntitiesDecode` | crates/waf-engine/src/rules/crs/transform.rs:171-182 | Each of the ten entities, between texts without `&` and `;`, decodes to the character it stands for |
| `TransformLaws.RemovesExactly` | crates/waf-engine/src/rules/crs/transform.rs:23-26 | Removing nulls, or white space, drops exactly these characters wherever they stand and keeps the others in order |
| `TransformLaws.CompressesRuns` | crates/waf-engine/src/rules/crs/transform.rs:153-155 | A run of white space between other characters becomes one space, and the text around it is treated on its own |
| `TransformLaws.CompressesNothing` | crates/waf-engine/src/rules/crs/transform.rs:153-155 | A text without white space stays as it is |
| `TransformLaws.TrimsEnds` | crates/waf-engine/src/rules/crs/transform.rs:27-31 | Trimming drops the white space at both ends and nothing else |
| `TransformLaws.LengthCounts` | crates/waf-engine/src/rules/crs/transform.rs:59 | The length is written so that it reads back as the number of characters |
| `TransformLaws.UrlDecodes` | crates/waf-engine/src/rules/crs/transform.rs:69-85 | The step inverts percent-encoding of a text's UTF-8 |
| `TransformLaws.Base64Decodes` | crates/waf-engine/src/rules/crs/transform.rs:225-259 | The step inverts the Base64 encoding of a text's UTF-8 |
| `TransformLaws.EscapesDecode` | crates/waf-engine/src/rules/crs/transform.rs:100-221 | Both escape steps invert writing a text in `\u` escapes |
| `TransformLaws.LeftAlone` | crates/waf-engine/src/rules/crs/transform.rs:159-167 | Path normalisation leaves texts without percent signs, parent steps and double slashes alone, and two transforms every text |
| `Transforms.StepExact` | crates/waf-engine/src/rules/crs/transform.rs:17-61 | One step with its borrow fast path gives what the full transform gives, exactly if it is safe: a comment-free text passed on by comment removal is ASCII, and a text without ASCII capitals passed on by lower-casing is its own lower case, which depends on the Unicode table and is stated as that |
| `Transforms.FastPathsAreSound` | crates/waf-engine/src/rules/crs/transform.rs:14-64 | If every step of a chain is such a step, the chain equals folding the full transforms |
| `Transforms.FastPathsOnAscii` | crates/waf-engine/src/rules/crs/transform.rs:14-64 | On every chain and input whose intermediate texts are ASCII, the fast paths change nothing |
| `Transforms.CommentFastPathShows` | crates/waf-engine/src/rules/crs/transform.rs:46-49 | Outside ASCII they can: a concrete input |
| `Transforms.LowercaseFastPathShows` | crates/waf-engine/src/rules/crs/transform.rs:32-36 | So does the one of lower-casing: a capital outside ASCII is handed on although its lower case differs |
| `Transforms.BorrowedExactly` | crates/waf-engine/src/rules/crs/transform.rs:10-14 | The result is borrowed, and then is the input, exactly if every transform takes its fast path on the input |
| `Transforms.UnchangedButOwned` | crates/waf-engine/src/rules/crs/transform.rs:12-13 | Against the doc comment: a chain that modifies nothing can still return an owned text |
| `Transforms.ApplyTransforms` | crates/waf-engine/src/rules/crs/transform.rs:14-64 | The loop applies the steps in order, starting from the borrowed input |
| `CrsParser.ParseConf` | crates/waf-engine/src/rules/crs/parser.rs:18-61 | The parsed items are, in order, the named markers and exactly the rules that parse along with every earlier rule of their chain, as the line test sees chains; the skip counter stays in {0, 1} |
| `CrsParser.NoOrphans` | crates/waf-engine/src/rules/crs/parser.rs:21-24 | A rule that continues a chain as the line test sees it is never emitted without the rule it continues (chains as the actions declare them: the rows of CrsChains) |
| `CrsParser.LongestParsingPrefix` | crates/waf-engine/src/rules/crs/parser.rs:32-51 | Of every chain exactly the lines before the first that does not parse are emitted |
| `CrsParser.WholeOrNothing` | crates/waf-engine/src/rules/crs/parser.rs:32-51 | A chain is emitted whole or not at all exactly if its head does not parse or all its lines do; otherwise a head is emitted without its members |
| `CrsLaws.FileOfParts` | crates/waf-engine/src/rules/crs/parser.rs:18-61 | Cutting a file where no dropped rule's chain is open cuts its items: both parts are parsed as if they stood alone |
| `CrsLaws.DropOpenExactly` | crates/waf-engine/src/rules/crs/parser.rs:33-53 | Where that is, line by line: a marker always closes the chain, an ignored line changes nothing, and a rule opens or continues it exactly if it has `chain` and is dropped |
| `CrsLaws.OpenDropTakes` | crates/waf-engine/src/rules/crs/parser.rs:33-40 | While the chain of a dropped rule is open, the next rule is not emitted, whatever it is |
| `CrsLaws.RuleAfterMarker` | crates/waf-engine/src/rules/crs/parser.rs:52-53 | A rule with only ignored lines between it and the marker before it is emitted exactly if it parses, whatever was dropped before |
| `CrsLaws.PreviousRuleExactly` | crates/waf-engine/src/rules/crs/parser.rs:28-58 | The rule that a line may continue is the nearest line before it that is not ignored, if that is a rule |
| `CrsLaws.OtherLine` | crates/waf-engine/src/rules/crs/parser.rs:29-31 | Comments and other directives are ignored, white space around them aside, also those that begin with `SecRule` without white space after it |
| `CrsLaws.RuleLineSpaced` | crates/waf-engine/src/rules/crs/parser.rs:31-32 | `SecRule` with any white space before and after it is a rule with the rest of the line |
| `CrsLaws.MarkerLine` | crates/waf-engine/src/rules/crs/parser.rs:52-57 | `SecMarker` and a quoted name is a marker of that name, without white space inside or outside the quotes |
| `CrsLaws.RuleExactly` | crates/waf-engine/src/rules/crs/parser.rs:103-125 | A line is read as a given rule exactly if it has the form targets, white space, quoted operator, quoted actions and anything, with these targets and actions, and the trimmed operator is one that is supported and reads as this one |
| `CrsLaws.FieldsExactly` | crates/waf-engine/src/rules/crs/parser.rs:129-146 | A line has given fields exactly if it is written in this form; quotes escaped by a backslash belong to a field |
| `CrsLaws.ChainWordExactly` | crates/waf-engine/src/rules/crs/parser.rs:73 | A token is `chain` exactly if, white space around it aside, it has these five letters, each small or capital |
| `CrsChains.HeadWithoutMember` | crates/waf-engine/src/rules/crs/parser.rs:40-51 | A witness: a head with a supported operator is emitted although its member has an unsupported one |
| `CrsParser.HasChainReadsLastQuoted` | crates/waf-engine/src/rules/crs/parser.rs:67-77 | The chain test looks at the last quoted text of the line and nothing else |
| `CrsParser.ParseDquoted` | crates/waf-engine/src/rules/crs/parser.rs:134-146 | The scanning loop finds the first double quote that no backslash escapes, a backslash itself escaped not counting |
| `CrsChains.SplitActions` | crates/waf-engine/src/rules/crs/parser.rs:406-421 | The loop cuts the actions at the commas outside single quotes, but for an empty last token |
| `CrsChains.ReadChain` | crates/waf-engine/src/rules/crs/parser.rs:355-402 | The action loop sets the chain flag exactly if one of those tokens is `chain` |
| `CrsChains.DeclaresChainExactly` | crates/waf-engine/src/rules/crs/parser.rs:355-421 | That is exactly if, of the pieces between all commas, some `chain` begins behind an even number of single quotes |
| `CrsChains.ChainTestExactly` | crates/waf-engine/src/rules/crs/parser.rs:65-77 | On every line with its three fields, the quick test looks for `chain` in the last quoted text of the line, and agrees with the declared flag exactly when that text has a `chain` piece just if the actions have one outside single quotes |
| `CrsChains.PlainChainTest` | crates/waf-engine/src/rules/crs/parser.rs:65-77 | In particular they agree on lines without single quotes in the actions and without further double quotes in or after them |
| `CrsChains.OrphansExactly` | crates/waf-engine/src/rules/crs/parser.rs:21-51 | A declared member is emitted without the rule it continues exactly if that rule is dropped, the quick test does not see its `chain`, and the member parses |
| `CrsChains.NoDeclaredOrphans` | crates/waf-engine/src/rules/crs/parser.rs:21-51 | So a file in which the test sees every declared chain has no orphans |
| `CrsChains.MemberWithoutHead` | crates/waf-engine/src/rules/crs/parser.rs:65-77 | Against the comment that members of a dropped head are skipped: a head that declares `chain` and quotes a word in its message is dropped for its operator, and its member is emitted alone |

## Left out

- FiringRuns.RestartingIsOnePassExactly: asks for distinct names; of rules that share a name only one fires, and a step back to one of the same name may not show
- GrlPrinter.KeysDistinguish: holds on well-formed expressions; which of the others share a key is shown by examples, not characterised
- CrsChains.ReadChain: compares with ASCII case folding where the source lower-cases, which differs on no token, as no other character lowers to a letter of `chain`
- Transforms.FastPathsAreSound: safe steps are sufficient for a chain; a later transform may hide the difference that an unsafe step makes (single steps are exact, `Transforms.StepExact`)
- GrlEval.ArithmeticIsModular: overflow wraps, as in release builds; the panics of debug builds are not modelled
- GrlEval.EvalReadsOnlyItsPaths: registered and built-in functions are pure functions of their arguments and the request; the built-in ones other than `matches` are one parameter
- LinearLoader.Populate: returns the tree with keys filled in instead of writing the leaves in place, because the condition trees are values here
- LinearEvaluator.RuleEvaluator.Evaluate: replacing the rule set concurrently with an evaluation (the atomic swap) is not modelled; an evaluation reads one rule set
- Floats are identified by their displayed text; the payload bits of a NaN are not modelled
- Integer widths of salience, priority, risk score deltas and the fire counter (their values are far from the limits and only compared)
- How request paths resolve to request fields (`resolve` and the form decoder in rete/working_memory.rs): one parameter per request
- The GRL text parser and the YAML converter: rules are given as syntax trees
- The insides of regex, globset, MaxMind and of the address-range test `cidr_contains`, and of the SQL and XSS detectors
- `Outcome.risk_delta`: no statement writes it
- Installing plugins and enriching requests: a registry is given
- Joining continued lines, and reading the targets and the actions of a rule other than `chain`: lines come joined, and the parser of operators is a parameter
- Evaluation of CRS rules, their operators, targets and transaction state
- Response, rate-limit and challenge settings of priority-ordered rules: copied unchanged
- The loader in rule/loader.rs: the naive engine is given its rules in sorted order
- The evaluators in crates/rule and crates/optimized_rule beyond their glob matchers, and the unused matcher in crates/rule/src/lib.rs
- Case folding of the backtracking glob matcher's inputs: it is applied to both texts before the matching modelled here
- Replacement characters for invalid UTF-8: the decoders are stated on bytes
- Proxy, administration, storage, file watching, Consul and YAML loading, and modules without behaviour
