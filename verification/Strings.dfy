/** Search and replacement in texts, as `str` provides them, and the slash-collapsing
    loop of `normalize_path` (crs/transform.rs). */
module Strings {

  /** `s.contains(pattern)`. */
  predicate Contains(s: string, pattern: string) {
    exists i | 0 <= i <= |s| :: pattern <= s[i..]
  }

  /** `s.replace(pattern, with)`: every leftmost non-overlapping occurrence. */
  function Replace(s: string, pattern: string, with: string): string
    requires pattern != ""
  {
    if s == "" then ""
    else if pattern <= s then with + Replace(s[|pattern|..], pattern, with)
    else [s[0]] + Replace(s[1..], pattern, with)
  }

  /** The characters that satisfy `keep`, in order. */
  function Filter(s: string, keep: char -> bool): string {
    if s == "" then "" else (if keep(s[0]) then [s[0]] else "") + Filter(s[1..], keep)
  }

  lemma {:induction false} FilterAll(s: string, keep: char -> bool)
    requires forall c <- s :: keep(c)
    ensures Filter(s, keep) == s
  {
    if s != "" {
      assert s[0] in s;
      FilterAll(s[1..], keep);
    }
  }

  lemma {:induction false} ReplaceAbsentChar(s: string, pattern: string, with: string)
    requires pattern != "" && pattern[0] !in s
    ensures Replace(s, pattern, with) == s
  {
    if s != "" {
      assert s[0] in s;
      ReplaceAbsentChar(s[1..], pattern, with);
    }
  }

  /** `s.split(separator)`. */
  function SplitOn(s: string, separator: char): (parts: seq<string>)
    ensures |parts| >= 1
  {
    if s == "" then [""]
    else
      var parts := SplitOn(s[1..], separator);
      if s[0] == separator then [""] + parts else [[s[0]] + parts[0]] + parts[1..]
  }

  function ToAsciiLower(c: char): char {
    if 'A' <= c <= 'Z' then (c as int + 32) as char else c
  }

  predicate EqIgnoreAsciiCase(s: string, t: string) {
    |s| == |t| && forall i | 0 <= i < |s| :: ToAsciiLower(s[i]) == ToAsciiLower(t[i])
  }

  // ----- trimming -----

  function TrimStart(s: string, drop: char -> bool): string {
    if s != "" && drop(s[0]) then TrimStart(s[1..], drop) else s
  }

  function TrimEnd(s: string, drop: char -> bool): string {
    if s != "" && drop(s[|s| - 1]) then TrimEnd(s[..|s| - 1], drop) else s
  }

  function Trim(s: string, drop: char -> bool): string { TrimEnd(TrimStart(s, drop), drop) }

  lemma {:induction false} TrimsStart(a: string, t: string, drop: char -> bool)
    requires (forall c <- a :: drop(c)) && (t == "" || !drop(t[0]))
    ensures TrimStart(a + t, drop) == t
  {
    if a == "" {
      assert a + t == t;
    } else {
      assert a[0] in a && (a + t)[1..] == a[1..] + t;
      TrimsStart(a[1..], t, drop);
    }
  }

  lemma {:induction false} TrimsEnd(t: string, b: string, drop: char -> bool)
    requires (forall c <- b :: drop(c)) && (t == "" || !drop(t[|t| - 1]))
    ensures TrimEnd(t + b, drop) == t
  {
    if b == "" {
      assert t + b == t;
    } else {
      var s := t + b;
      assert b[|b| - 1] in b && s[..|s| - 1] == t + b[..|b| - 1];
      TrimsEnd(t, b[..|b| - 1], drop);
    }
  }

  /** Trimming drops what is to be dropped at both ends, and nothing else. */
  lemma TrimsBoth(a: string, t: string, b: string, drop: char -> bool)
    requires (forall c <- a + b :: drop(c)) && t != "" && !drop(t[0]) && !drop(t[|t| - 1])
    ensures Trim(a + t + b, drop) == t
  {
    assert forall c <- a :: c in a + b;
    assert forall c <- b :: c in a + b;
    assert a + t + b == a + (t + b) && (t + b)[0] == t[0];
    TrimsStart(a, t + b, drop);
    TrimsEnd(t, b, drop);
  }

  // ----- runs of slashes -----

  /** The character at `i` follows a slash and is one. */
  predicate RepeatsSlash(s: string, i: nat)
    requires i < |s|
  {
    i > 0 && s[i - 1] == '/' && s[i] == '/'
  }

  /** The text without the slashes that follow a slash. */
  function Collapsed(s: string): string {
    if s == "" then ""
    else Collapsed(s[..|s| - 1]) + (if RepeatsSlash(s, |s| - 1) then "" else [s[|s| - 1]])
  }

  /** The same, from the front: a slash before a slash is dropped. */
  function CollapseFront(s: string): string {
    if |s| <= 1 then s
    else (if s[0] == '/' && s[1] == '/' then "" else [s[0]]) + CollapseFront(s[1..])
  }

  lemma {:induction false} CollapseFrontSnoc(s: string, c: char)
    ensures CollapseFront(s + [c]) ==
            CollapseFront(s) + (if s != "" && s[|s| - 1] == '/' && c == '/' then "" else [c])
  {
    var t := s + [c];
    if |s| <= 1 {
      assert |s| == 1 ==> t[1..] == [c];
    } else {
      CollapseFrontSnoc(s[1..], c);
      assert t[1..] == s[1..] + [c];
    }
  }

  lemma {:induction false} CollapseFrontIsCollapsed(s: string)
    ensures CollapseFront(s) == Collapsed(s)
  {
    if s != "" {
      var init, last := s[..|s| - 1], s[|s| - 1];
      CollapseFrontIsCollapsed(init);
      CollapseFrontSnoc(init, last);
      assert s == init + [last];
    }
  }

  /** Collapsing depends on the rest only through its own collapse and first character. */
  lemma CollapseFrontCons(c: char, x: string, y: string)
    requires CollapseFront(x) == CollapseFront(y)
    requires x == "" <==> y == ""
    requires x != "" ==> x[0] == y[0]
    ensures CollapseFront([c] + x) == CollapseFront([c] + y)
  {
    assert ([c] + x)[1..] == x && ([c] + y)[1..] == y;
  }

  lemma {:induction false} ReplaceKeepsCollapse(s: string)
    ensures CollapseFront(Replace(s, "//", "/")) == CollapseFront(s)
    ensures var r := Replace(s, "//", "/");
            (r == "" <==> s == "") && (s != "" ==> r[0] == s[0])
  {
    if s != "" {
      if "//" <= s {
        var x := s[2..];
        ReplaceKeepsCollapse(x);
        CollapseFrontCons('/', Replace(x, "//", "/"), x);
        assert s[1..] == ['/'] + x;
        assert Replace(s, "//", "/") == ['/'] + Replace(x, "//", "/");
      } else {
        ReplaceKeepsCollapse(s[1..]);
        CollapseFrontCons(s[0], Replace(s[1..], "//", "/"), s[1..]);
        assert s == [s[0]] + s[1..];
      }
    }
  }

  lemma {:induction false} ReplaceShortens(s: string)
    ensures |Replace(s, "//", "/")| <= |s|
    ensures Contains(s, "//") ==> |Replace(s, "//", "/")| < |s|
  {
    if s != "" {
      if "//" <= s {
        ReplaceShortens(s[2..]);
      } else {
        ReplaceShortens(s[1..]);
        if i :| 0 <= i <= |s| && "//" <= s[i..] {
          assert s[i..] == s[1..][i - 1..];
        }
      }
    }
  }

  lemma {:induction false} NoDoubleSlash(s: string)
    requires !Contains(s, "//")
    ensures CollapseFront(s) == s
  {
    if |s| > 1 {
      assert !("//" <= s[0..]);
      forall i | 0 <= i <= |s[1..]|
        ensures !("//" <= s[1..][i..])
      {
        assert s[1..][i..] == s[i + 1..];
      }
      NoDoubleSlash(s[1..]);
    }
  }

  /** Replacing `//` by `/` until none is left ends, and leaves the text with every run
      of slashes collapsed to one and nothing else changed. */
  method CollapseSlashes(s: string) returns (out: string)
    ensures out == Collapsed(s)
    ensures !Contains(out, "//")
  {
    out := s;
    while Contains(out, "//")
      invariant CollapseFront(out) == CollapseFront(s)
      decreases |out|
    {
      ReplaceShortens(out);
      ReplaceKeepsCollapse(out);
      out := Replace(out, "//", "/");
    }
    NoDoubleSlash(out);
    CollapseFrontIsCollapsed(s);
  }

  // ----- parent steps under one pass of replacement -----

  lemma ContainsCons(s: string, pattern: string)
    requires s != "" && pattern != ""
    ensures Contains(s, pattern) <==> pattern <= s || Contains(s[1..], pattern)
  {
    if i :| 0 <= i <= |s| && pattern <= s[i..] {
      if i == 0 {
        assert s[0..] == s;
      } else {
        assert s[i..] == s[1..][i - 1..];
      }
    }
    if pattern <= s { assert pattern <= s[0..]; }
    if i :| 0 <= i <= |s[1..]| && pattern <= s[1..][i..] {
      assert s[1..][i..] == s[i + 1..];
    }
  }

  lemma PrefixMembers(s: string, pattern: string)
    requires pattern <= s
    ensures forall c <- pattern :: c in s
  {
    assert forall i | 0 <= i < |pattern| :: s[i] == pattern[i];
  }

  /** A text without some character of the pattern is left alone. */
  lemma {:induction false} ReplaceWithout(s: string, pattern: string, with: string, c: char)
    requires c in pattern && c !in s
    ensures Replace(s, pattern, with) == s
  {
    if s != "" {
      if pattern <= s {
        PrefixMembers(s, pattern);
        assert false;
      }
      ReplaceWithout(s[1..], pattern, with, c);
    }
  }

  /** `n` dots and a character. */
  function DotsThen(n: nat, c: char): (p: string)
    ensures p != "" && |p| == n + 1
    ensures n > 0 ==> p[0] == '.' && p[1..] == DotsThen(n - 1, c)
  {
    if n == 0 then [c] else ['.'] + DotsThen(n - 1, c)
  }

  /** One pass of removing parent steps under separator `c`. */
  function StripParents(s: string, c: char): string { Replace(s, DotsThen(2, c), [c]) }

  lemma TwoDots(s: string, c: char)
    ensures DotsThen(2, c) <= s <==> |s| > 2 && s[0] == '.' && s[1] == '.' && s[2] == c
  {
    assert DotsThen(2, c) == ['.', '.', c];
  }

  lemma FourDots(s: string, c: char)
    ensures DotsThen(4, c) <= s <==> |s| > 4 && s[0] == '.' && s[1] == '.' && s[2] == '.' && s[3] == '.' && s[4] == c
  {
    assert DotsThen(2, c) == ['.', '.', c];
    assert DotsThen(4, c) == ['.', '.', '.', '.', c];
  }

  lemma StripStep(s: string, c: char)
    requires s != ""
    ensures DotsThen(2, c) <= s ==> StripParents(s, c) == [c] + StripParents(s[3..], c)
    ensures !(DotsThen(2, c) <= s) ==> StripParents(s, c) == [s[0]] + StripParents(s[1..], c)
  {
  }

  /** A run of dots and another character stands at the front afterwards as before. */
  lemma {:induction false} FrontKept(s: string, n: nat, c: char, e: char)
    requires c != '.' && e != '.' && c != e
    ensures DotsThen(n, e) <= StripParents(s, c) <==> DotsThen(n, e) <= s
  {
    if s != "" {
      TwoDots(s, c);
      StripStep(s, c);
      hide StripParents, Replace;
      if DotsThen(2, c) <= s {
        NoOtherAt(s, n, c, e);
      } else if n > 0 {
        FrontKept(s[1..], n - 1, c, e);
        assert DotsThen(n, e) == ['.'] + DotsThen(n - 1, e) && s == [s[0]] + s[1..];
        hide DotsThen;
        PrefixCons('.', DotsThen(n - 1, e), s[0], s[1..]);
        PrefixCons('.', DotsThen(n - 1, e), s[0], StripParents(s[1..], c));
      } else {
        assert DotsThen(0, e) == [e];
        hide DotsThen;
      }
    }
  }

  lemma PrefixCons(a: char, x: string, b: char, y: string)
    ensures [a] + x <= [b] + y <==> a == b && x <= y
  {
    assert ([a] + x)[1..] == x && ([b] + y)[1..] == y;
    if a == b && x <= y {
      assert forall i | 0 <= i < |x| :: x[i] == y[i];
      assert [b] + y == [a] + x + y[|x|..];
    }
    if [a] + x <= [b] + y {
      assert ([b] + y)[..1 + |x|] == [a] + x;
      assert y[..|x|] == ([b] + y)[1..1 + |x|] == x;
      assert b == ([b] + y)[0] == ([a] + x)[0] == a;
      assert y == y[..|x|] + y[|x|..];
    }
  }

  /** Inside two dots and `c`, no other run of dots and another character begins. */
  lemma NoOtherAt(s: string, n: nat, c: char, e: char)
    requires DotsThen(2, c) <= s && c != '.' && e != '.' && c != e
    ensures !(DotsThen(n, e) <= s)
    ensures n > 0 ==> !(DotsThen(n, e) <= s[1..]) && !(DotsThen(n, e) <= s[2..])
  {
    TwoDots(s, c);
    var p := DotsThen(n, e);
    if n > 1 {
      assert p[1] == p[1..][0];
      assert n > 2 ==> p[2] == p[1..][1..][0];
      assert n == 2 ==> p == ['.', '.', e];
    }
  }

  /** One pass under `c` neither makes nor destroys parent steps under another separator. */
  lemma {:induction false} OtherParentsKept(s: string, n: nat, c: char, e: char)
    requires c != '.' && e != '.' && c != e && n > 0
    ensures Contains(StripParents(s, c), DotsThen(n, e)) <==> Contains(s, DotsThen(n, e))
  {
    if s != "" {
      var p := DotsThen(n, e);
      TwoDots(s, c);
      StripStep(s, c);
      FrontKept(s, n, c, e);
      ContainsCons(s, p);
      ContainsCons(StripParents(s, c), p);
      hide StripParents, Replace, Contains, DotsThen;
      if DotsThen(2, c) <= s {
        NoOtherAt(s, n, c, e);
        OtherParentsKept(s[3..], n, c, e);
        ContainsCons(s[1..], p);
        ContainsCons(s[2..], p);
        assert s[1..][1..] == s[2..] && s[2..][1..] == s[3..];
        assert ([c] + StripParents(s[3..], c))[1..] == StripParents(s[3..], c);
      } else {
        OtherParentsKept(s[1..], n, c, e);
        assert ([s[0]] + StripParents(s[1..], c))[1..] == StripParents(s[1..], c);
      }
    }
  }

  /** A parent step stands at the front afterwards exactly where four dots stood. */
  lemma FrontAfterPass(s: string, c: char)
    requires c != '.'
    ensures DotsThen(2, c) <= StripParents(s, c) <==> DotsThen(4, c) <= s
  {
    TwoDots(s, c);
    FourDots(s, c);
    TwoDots(StripParents(s, c), c);
    if s != "" {
      StripStep(s, c);
      if !(DotsThen(2, c) <= s) && |s| > 1 {
        TwoDots(s[1..], c);
        StripStep(s[1..], c);
        if !(DotsThen(2, c) <= s[1..]) && |s| > 2 {
          TwoDots(s[2..], c);
          StripStep(s[2..], c);
        }
      }
    }
    hide StripParents, Replace, DotsThen;
  }

  /** After one pass a parent step is left exactly if there was one with four dots. */
  lemma {:induction false} ParentsLeft(s: string, c: char)
    requires c != '.'
    ensures Contains(StripParents(s, c), DotsThen(2, c)) <==> Contains(s, DotsThen(4, c))
  {
    if s != "" {
      var p, q := DotsThen(2, c), DotsThen(4, c);
      TwoDots(s, c);
      StripStep(s, c);
      FrontAfterPass(s, c);
      FourDots(s, c);
      ContainsCons(s, q);
      ContainsCons(StripParents(s, c), p);
      hide StripParents, Replace, Contains, DotsThen;
      if DotsThen(2, c) <= s {
        ParentsLeft(s[3..], c);
        FourDots(s[1..], c);
        FourDots(s[2..], c);
        ContainsCons(s[1..], q);
        ContainsCons(s[2..], q);
        assert s[1..][1..] == s[2..] && s[2..][1..] == s[3..];
        assert ([c] + StripParents(s[3..], c))[1..] == StripParents(s[3..], c);
      } else {
        ParentsLeft(s[1..], c);
        assert ([s[0]] + StripParents(s[1..], c))[1..] == StripParents(s[1..], c);
      }
    }
  }

  /** What a pattern at the front says about the first character and the rest. */
  lemma FrontParts(s: string, n: nat, e: char)
    requires s != ""
    ensures n == 0 ==> (DotsThen(n, e) <= s <==> s[0] == e)
    ensures n > 0 ==> (DotsThen(n, e) <= s <==> s[0] == '.' && DotsThen(n - 1, e) <= s[1..])
  {
    assert s == [s[0]] + s[1..];
    if n > 0 {
      PrefixCons('.', DotsThen(n - 1, e), s[0], s[1..]);
      assert DotsThen(n, e) == ['.'] + DotsThen(n - 1, e);
    }
  }

  /** Collapsing slashes keeps such a pattern at the front. */
  lemma {:induction false} FrontCollapsed(s: string, n: nat, e: char)
    requires e != '.'
    ensures DotsThen(n, e) <= CollapseFront(s) <==> DotsThen(n, e) <= s
  {
    if |s| > 1 {
      FirstKept(s);
      FrontParts(s, n, e);
      FrontParts(CollapseFront(s), n, e);
      hide DotsThen;
      if n > 0 && s[0] == '.' {
        assert CollapseFront(s)[1..] == CollapseFront(s[1..]);
        FrontCollapsed(s[1..], n - 1, e);
      }
    }
  }

  lemma {:induction false} FirstKept(s: string)
    requires s != ""
    ensures CollapseFront(s) != "" && CollapseFront(s)[0] == s[0]
  {
    if |s| > 1 { FirstKept(s[1..]); }
  }

  /** Collapsing slashes neither makes nor destroys parent steps. */
  lemma {:induction false} ParentsCollapsed(s: string, n: nat, e: char)
    requires e != '.' && n > 0
    ensures Contains(CollapseFront(s), DotsThen(n, e)) <==> Contains(s, DotsThen(n, e))
  {
    if |s| > 1 {
      var p := DotsThen(n, e);
      FrontCollapsed(s, n, e);
      FrontParts(s, n, e);
      FirstKept(s);
      ContainsCons(s, p);
      ContainsCons(CollapseFront(s), p);
      ParentsCollapsed(s[1..], n, e);
      hide Contains, DotsThen;
      if s[0] == '/' && s[1] == '/' {
        assert CollapseFront(s) == CollapseFront(s[1..]);
      } else {
        assert CollapseFront(s)[1..] == CollapseFront(s[1..]);
      }
    }
  }
}
