/** The two hand-written glob matchers: recursive backtracking
    (crates/rule/src/condition.rs) and greedy leftmost search
    (crates/optimized_rule/src/condition.rs). */
module Glob {
  import opened Wrappers
  import opened Strings

  // ----- the language of a pattern -----

  /** Does `t` belong to the language of `p`?  `*` stands for any text and, when `wild`,
      `?` for any one character. */
  ghost predicate InLanguage(p: string, t: string, wild: bool) {
    if p == "" then t == ""
    else if p[0] == '*' then exists k | 0 <= k <= |t| :: InLanguage(p[1..], t[k..], wild)
    else t != "" && (p[0] == t[0] || (wild && p[0] == '?')) && InLanguage(p[1..], t[1..], wild)
  }

  /** `t` is a text of `p` followed by a text of `q`. */
  ghost predicate Splits(p: string, q: string, t: string, wild: bool) {
    exists k | 0 <= k <= |t| :: InLanguage(p, t[..k], wild) && InLanguage(q, t[k..], wild)
  }

  /** A concatenation of patterns stands for the concatenation of their languages. */
  lemma {:induction false} LanguageOfConcat(p: string, q: string, t: string, wild: bool)
    ensures InLanguage(p + q, t, wild) <==> Splits(p, q, t, wild)
    decreases |p|, 1
  {
    if p == "" {
      assert p + q == q && t[0..] == t;
      assert InLanguage(p, t[..0], wild);
    } else {
      assert (p + q)[0] == p[0] && (p + q)[1..] == p[1..] + q;
      if p[0] == '*' {
        StarThenConcat(p, q, t, wild);
      } else {
        if t != "" { LanguageOfConcat(p[1..], q, t[1..], wild); }
        HeadThenConcat(p, q, t, wild);
      }
    }
  }

  lemma {:induction false} StarThenConcat(p: string, q: string, t: string, wild: bool)
    requires p != "" && p[0] == '*' && (p + q)[1..] == p[1..] + q
    ensures InLanguage(p + q, t, wild) <==> Splits(p, q, t, wild)
    decreases |p|, 0
  {
    StarUnfolds(p + q, p[1..] + q, t, wild);
    hide InLanguage, Splits;
    forall i | 0 <= i <= |t|
      ensures InLanguage(p[1..] + q, t[i..], wild) <==> Splits(p[1..], q, t[i..], wild)
    {
      LanguageOfConcat(p[1..], q, t[i..], wild);
    }
    if InLanguage(p + q, t, wild) {
      var i :| 0 <= i <= |t| && InLanguage(p[1..] + q, t[i..], wild);
      SplitUnderStar(p, q, t, i, wild);
    }
    if Splits(p, q, t, wild) {
      SplitUnderStarBack(p, q, t, wild);
    }
  }

  lemma SplitUnderStar(p: string, q: string, t: string, i: nat, wild: bool)
    requires p != "" && p[0] == '*' && i <= |t| && Splits(p[1..], q, t[i..], wild)
    ensures Splits(p, q, t, wild)
  {
    var j :| 0 <= j <= |t[i..]| && InLanguage(p[1..], t[i..][..j], wild) && InLanguage(q, t[i..][j..], wild);
    StarSplit(p, t, i, i + j, wild);
    hide InLanguage;
    assert t[i..][j..] == t[i + j..];
  }

  lemma SplitUnderStarBack(p: string, q: string, t: string, wild: bool)
    requires p != "" && p[0] == '*' && Splits(p, q, t, wild)
    ensures exists i | 0 <= i <= |t| :: Splits(p[1..], q, t[i..], wild)
  {
    var k :| 0 <= k <= |t| && InLanguage(p, t[..k], wild) && InLanguage(q, t[k..], wild);
    StarSplitBack(p, t, k, wild);
    hide InLanguage;
    var i :| 0 <= i <= k && InLanguage(p[1..], t[i..][..k - i], wild);
    assert t[i..][k - i..] == t[k..];
    assert Splits(p[1..], q, t[i..], wild);
  }

  lemma StarUnfolds(p: string, rest: string, t: string, wild: bool)
    requires p != "" && p[0] == '*' && p[1..] == rest
    ensures InLanguage(p, t, wild) <==> exists i | 0 <= i <= |t| :: InLanguage(rest, t[i..], wild)
  {
  }

  lemma StarSplit(p: string, t: string, i: nat, k: nat, wild: bool)
    requires p != "" && p[0] == '*' && i <= k <= |t| && InLanguage(p[1..], t[i..][..k - i], wild)
    ensures InLanguage(p, t[..k], wild)
  {
    assert t[..k][i..] == t[i..][..k - i];
  }

  lemma StarSplitBack(p: string, t: string, k: nat, wild: bool)
    requires p != "" && p[0] == '*' && k <= |t| && InLanguage(p, t[..k], wild)
    ensures exists i | 0 <= i <= k :: InLanguage(p[1..], t[i..][..k - i], wild)
  {
    var i :| 0 <= i <= k && InLanguage(p[1..], t[..k][i..], wild);
    assert t[i..][..k - i] == t[..k][i..];
  }

  lemma HeadThenConcat(p: string, q: string, t: string, wild: bool)
    requires p != "" && p[0] != '*' && (p + q)[0] == p[0] && (p + q)[1..] == p[1..] + q
    requires t != "" ==> (InLanguage(p[1..] + q, t[1..], wild) <==> Splits(p[1..], q, t[1..], wild))
    ensures InLanguage(p + q, t, wild) <==> Splits(p, q, t, wild)
  {
    if InLanguage(p + q, t, wild) {
      var k :| 0 <= k <= |t[1..]| && InLanguage(p[1..], t[1..][..k], wild) && InLanguage(q, t[1..][k..], wild);
      assert t[..k + 1][1..] == t[1..][..k] && t[k + 1..] == t[1..][k..];
      assert InLanguage(p, t[..k + 1], wild);
    }
    if k :| 0 <= k <= |t| && InLanguage(p, t[..k], wild) && InLanguage(q, t[k..], wild) {
      assert t[..k][1..] == t[1..][..k - 1] && t[k..] == t[1..][k - 1..];
    }
  }

  lemma StarIsEverything(t: string, wild: bool)
    ensures InLanguage("*", t, wild)
  {
    assert InLanguage("*"[1..], t[|t|..], wild);
  }

  lemma TwoStars(t: string, wild: bool)
    ensures InLanguage("**", t, wild)
  {
    StarIsEverything(t, wild);
    assert "**"[1..] == "*" && t[0..] == t;
  }

  /** Doubling a star changes nothing. */
  lemma DoubledStar(p: string, q: string, t: string, wild: bool)
    ensures InLanguage(p + "**" + q, t, wild) <==> InLanguage(p + "*" + q, t, wild)
  {
    if InLanguage(p + "**" + q, t, wild) { SameMiddle(p, "**", "*", q, t, wild); }
    if InLanguage(p + "*" + q, t, wild) { SameMiddle(p, "*", "**", q, t, wild); }
  }

  lemma SameMiddle(p: string, a: string, b: string, q: string, t: string, wild: bool)
    requires (a == "*" || a == "**") && (b == "*" || b == "**")
    requires InLanguage(p + a + q, t, wild)
    ensures InLanguage(p + b + q, t, wild)
  {
    LanguageOfConcat(p + a, q, t, wild);
    var k :| 0 <= k <= |t| && InLanguage(p + a, t[..k], wild) && InLanguage(q, t[k..], wild);
    LanguageOfConcat(p, a, t[..k], wild);
    var j :| 0 <= j <= k && InLanguage(p, t[..k][..j], wild);
    if b == "*" { StarIsEverything(t[..k][j..], wild); } else { TwoStars(t[..k][j..], wild); }
    LanguageOfConcat(p, b, t[..k], wild);
    LanguageOfConcat(p + b, q, t, wild);
  }

  // ----- recursive backtracking -----

  predicate MatchRecursive(p: string, t: string)
    decreases |p| + |t|
  {
    if p == "" && t == "" then true
    else if p == "" then false
    else if p[0] == '*' then
      MatchRecursive(p[1..], t) || (t != "" && MatchRecursive(p, t[1..]))
    else if p[0] == '?' then
      t != "" && MatchRecursive(p[1..], t[1..])
    else
      t != "" && t[0] == p[0] && MatchRecursive(p[1..], t[1..])
  }

  /** The recursive matcher decides the language in which `?` is a wildcard. */
  lemma {:induction false} MatchRecursiveIsLanguage(p: string, t: string)
    ensures MatchRecursive(p, t) <==> InLanguage(p, t, true)
    decreases |p| + |t|
  {
    if p != "" && p[0] == '*' {
      MatchRecursiveIsLanguage(p[1..], t);
      assert t[0..] == t;
      if t != "" {
        MatchRecursiveIsLanguage(p, t[1..]);
        assert forall k | 1 <= k <= |t| :: t[k..] == t[1..][k - 1..];
        assert forall k | 0 <= k <= |t[1..]| :: t[1..][k..] == t[k + 1..];
      }
    } else if p != "" && t != "" {
      MatchRecursiveIsLanguage(p[1..], t[1..]);
    }
  }

  /** The language equation of the recursive matcher. */
  lemma MatchRecursiveConcat(p: string, q: string, t: string)
    ensures MatchRecursive(p + q, t) <==>
              exists k | 0 <= k <= |t| :: MatchRecursive(p, t[..k]) && MatchRecursive(q, t[k..])
  {
    MatchRecursiveIsLanguage(p + q, t);
    LanguageOfConcat(p, q, t, true);
    forall k | 0 <= k <= |t|
      ensures MatchRecursive(p, t[..k]) == InLanguage(p, t[..k], true)
      ensures MatchRecursive(q, t[k..]) == InLanguage(q, t[k..], true)
    {
      MatchRecursiveIsLanguage(p, t[..k]);
      MatchRecursiveIsLanguage(q, t[k..]);
    }
  }

  // ----- greedy leftmost search -----

  /** `hay.find(needle)`: the leftmost occurrence. */
  method Find(hay: string, needle: string) returns (pos: Option<nat>)
    ensures pos.Some? ==> pos.value <= |hay| && needle <= hay[pos.value..]
    ensures pos.Some? ==> forall i | 0 <= i < pos.value :: !(needle <= hay[i..])
    ensures pos.None? ==> forall i | 0 <= i <= |hay| :: !(needle <= hay[i..])
  {
    for i := 0 to |hay| + 1
      invariant forall j | 0 <= j < i :: !(needle <= hay[j..])
    {
      if needle <= hay[i..] { return Some(i); }
    }
    return None;
  }

  /** The parts occur in `r` one after another, the first at the very start. */
  ghost predicate StartsEmbedded(parts: seq<string>, r: string)
    requires parts != []
    decreases |parts|, 0
  {
    parts[0] <= r && Embedded(parts[1..], r[|parts[0]|..])
  }

  /** The parts occur in `r` one after another. */
  ghost predicate Embedded(parts: seq<string>, r: string)
    decreases |parts|, 1
  {
    parts != [] ==> exists k | 0 <= k <= |r| :: StartsEmbedded(parts, r[k..])
  }

  /** Some prefix of `t` is in the language of `p`. */
  ghost predicate PrefixInLanguage(p: string, t: string) {
    exists k | 0 <= k <= |t| :: InLanguage(p, t[..k], false)
  }

  /** Greedy leftmost search decides whether some prefix of the text is in the language
      of the pattern; no end anchor is checked. */
  method GlobMatch(pattern: string, text: string) returns (matched: bool)
    ensures matched == PrefixInLanguage(pattern, text)
  {
    var parts := SplitOn(pattern, '*');
    EmbeddingIsPrefix(pattern, text);
    if !(parts[0] <= text) { return false; }
    var remaining := text[|parts[0]|..];
    for i := 1 to |parts|
      invariant PrefixInLanguage(pattern, text) <==> Embedded(parts[i..], remaining)
    {
      assert parts[i..][0] == parts[i] && parts[i..][1..] == parts[i + 1..];
      var pos := Find(remaining, parts[i]);
      match pos {
        case Some(k) =>
          LeftmostIsBest(parts[i..], remaining, k);
          remaining := remaining[k + |parts[i]|..];
        case None =>
          return false;
      }
    }
    return true;
  }

  /** Parts that occur in a suffix occur in the whole. */
  lemma EmbeddedInSuffix(parts: seq<string>, r: string, i: nat)
    requires i <= |r| && Embedded(parts, r[i..])
    ensures Embedded(parts, r)
  {
    if parts != [] {
      var k :| 0 <= k <= |r[i..]| && StartsEmbedded(parts, r[i..][k..]);
      assert r[i..][k..] == r[i + k..];
    }
  }

  /** Taking the leftmost occurrence of the first part loses no embedding. */
  lemma LeftmostIsBest(parts: seq<string>, r: string, pos: nat)
    requires parts != [] && pos <= |r| && parts[0] <= r[pos..]
    requires forall i | 0 <= i < pos :: !(parts[0] <= r[i..])
    ensures Embedded(parts, r) <==> Embedded(parts[1..], r[pos + |parts[0]|..])
  {
    var n := |parts[0]|;
    assert r[pos..][n..] == r[pos + n..];
    if Embedded(parts, r) {
      var k :| 0 <= k <= |r| && StartsEmbedded(parts, r[k..]);
      LaterEmbedding(parts, r, pos, k);
    }
    if Embedded(parts[1..], r[pos + n..]) {
      assert StartsEmbedded(parts, r[pos..]);
    }
  }

  lemma LaterEmbedding(parts: seq<string>, r: string, pos: nat, k: nat)
    requires parts != [] && pos <= k <= |r| && StartsEmbedded(parts, r[k..]) && pos + |parts[0]| <= |r|
    ensures Embedded(parts[1..], r[pos + |parts[0]|..])
  {
    var n := |parts[0]|;
    var tail := r[pos + n..];
    assert r[k..][n..] == tail[k - pos..];
    hide Embedded;
    EmbeddedInSuffix(parts[1..], tail, k - pos);
  }

  lemma {:induction false} EmbeddingIsPrefix(p: string, t: string)
    ensures StartsEmbedded(SplitOn(p, '*'), t) <==> PrefixInLanguage(p, t)
  {
    if p == "" {
      assert InLanguage(p, t[..0], false);
    } else if p[0] == '*' {
      assert SplitOn(p, '*')[1..] == SplitOn(p[1..], '*');
      assert t[0..] == t;
      forall k | 0 <= k <= |t|
        ensures StartsEmbedded(SplitOn(p[1..], '*'), t[k..]) <==> PrefixInLanguage(p[1..], t[k..])
      {
        EmbeddingIsPrefix(p[1..], t[k..]);
      }
      StarPrefix(p, t);
    } else {
      var parts := SplitOn(p[1..], '*');
      assert SplitOn(p, '*')[1..] == parts[1..];
      if t != "" {
        EmbeddingIsPrefix(p[1..], t[1..]);
        assert [p[0]] + parts[0] <= t <==> p[0] == t[0] && parts[0] <= t[1..];
        assert parts[0] <= t[1..] ==> t[1..][|parts[0]|..] == t[1 + |parts[0]|..];
      }
      CharPrefix(p, t);
    }
  }

  lemma StarPrefix(p: string, t: string)
    requires p != "" && p[0] == '*'
    ensures PrefixInLanguage(p, t) <==> exists k | 0 <= k <= |t| :: PrefixInLanguage(p[1..], t[k..])
  {
    if n :| 0 <= n <= |t| && InLanguage(p, t[..n], false) {
      var k :| 0 <= k <= n && InLanguage(p[1..], t[..n][k..], false);
      assert t[k..][..n - k] == t[..n][k..];
      assert PrefixInLanguage(p[1..], t[k..]);
    }
    if k :| 0 <= k <= |t| && PrefixInLanguage(p[1..], t[k..]) {
      var n :| 0 <= n <= |t[k..]| && InLanguage(p[1..], t[k..][..n], false);
      assert t[..k + n][k..] == t[k..][..n];
      assert InLanguage(p, t[..k + n], false);
    }
  }

  lemma CharPrefix(p: string, t: string)
    requires p != "" && p[0] != '*'
    ensures PrefixInLanguage(p, t) <==> t != "" && p[0] == t[0] && PrefixInLanguage(p[1..], t[1..])
  {
    if n :| 0 <= n <= |t| && InLanguage(p, t[..n], false) {
      assert t[1..][..n - 1] == t[..n][1..];
    }
    if t != "" && p[0] == t[0] && PrefixInLanguage(p[1..], t[1..]) {
      var n :| 0 <= n <= |t[1..]| && InLanguage(p[1..], t[1..][..n], false);
      assert t[..n + 1][1..] == t[1..][..n];
      assert InLanguage(p, t[..n + 1], false);
    }
  }

  // ----- how the two matchers relate -----

  lemma {:induction false} WildcardFree(p: string, t: string)
    requires '?' !in p
    ensures InLanguage(p, t, true) <==> InLanguage(p, t, false)
  {
    if p != "" {
      if p[0] == '*' {
        forall k | 0 <= k <= |t|
          ensures InLanguage(p[1..], t[k..], true) <==> InLanguage(p[1..], t[k..], false)
        {
          WildcardFree(p[1..], t[k..]);
        }
      } else if t != "" {
        WildcardFree(p[1..], t[1..]);
      }
    }
  }

  lemma PrefixIsTrailingStar(p: string, t: string)
    ensures PrefixInLanguage(p, t) <==> InLanguage(p + "*", t, false)
  {
    LanguageOfConcat(p, "*", t, false);
    forall k | 0 <= k <= |t|
      ensures InLanguage("*", t[k..], false)
    {
      StarIsEverything(t[k..], false);
    }
  }

  /** On patterns without `?`, the greedy matcher is the recursive one with a star added
      at the end. */
  lemma GreedyIsRecursiveWithStar(p: string, t: string)
    requires '?' !in p
    ensures PrefixInLanguage(p, t) <==> MatchRecursive(p + "*", t)
  {
    PrefixIsTrailingStar(p, t);
    WildcardFree(p + "*", t);
    MatchRecursiveIsLanguage(p + "*", t);
  }

  /** The shortest word of a pattern's language: the pattern without its stars. */
  function Unstarred(p: string): string {
    if p == "" then "" else if p[0] == '*' then Unstarred(p[1..]) else [p[0]] + Unstarred(p[1..])
  }

  lemma {:induction false} UnstarredMatches(p: string)
    ensures InLanguage(p, Unstarred(p), false)
  {
    if p != "" {
      UnstarredMatches(p[1..]);
      assert Unstarred(p)[0..] == Unstarred(p);
    }
  }

  /** The greedy matcher matches whole texts, as a glob should, exactly for the patterns
      that end in a star. */
  lemma AnchoredExactly(p: string)
    ensures (forall t :: PrefixInLanguage(p, t) <==> InLanguage(p, t, false))
            <==> p != "" && p[|p| - 1] == '*'
  {
    if p != "" && p[|p| - 1] == '*' {
      var q := p[..|p| - 1];
      assert p == q + "*";
      forall t
        ensures PrefixInLanguage(p, t) <==> InLanguage(p, t, false)
      {
        PrefixIsTrailingStar(p, t);
        DoubledStar(q, "", t, false);
        assert q + "**" + "" == p + "*" && q + "*" + "" == p;
      }
    } else {
      UnmatchedExtension(p);
    }
  }

  /** A text the greedy matcher accepts although the whole of it does not match. */
  lemma UnmatchedExtension(p: string)
    requires p == "" || p[|p| - 1] != '*'
    ensures exists t :: PrefixInLanguage(p, t) && !InLanguage(p, t, false)
  {
    var w := Unstarred(p);
    UnstarredMatches(p);
    var c := if p != "" && p[|p| - 1] == 'x' then 'y' else 'x';
    var t := w + [c];
    assert t[..|w|] == w;
    assert PrefixInLanguage(p, t);
    if p != "" {
      var q, last := p[..|p| - 1], [p[|p| - 1]];
      assert p == q + last;
      LanguageOfConcat(q, last, t, false);
      forall k | 0 <= k <= |t|
        ensures !InLanguage(last, t[k..], false)
      {
        SingleCharacter(last, t[k..]);
      }
    }
  }

  lemma SingleCharacter(c: string, t: string)
    requires |c| == 1 && c[0] != '*'
    ensures InLanguage(c, t, false) <==> t == c
  {
    assert c[1..] == "";
  }
}
