/** Text helpers shared by the rule engines: numerals, maximal runs, and the
    integer parser and printer of the Rust standard library. */
module Text {
  import opened Wrappers

  const I64_MIN: int := -0x8000_0000_0000_0000
  const I64_MAX: int := 0x7fff_ffff_ffff_ffff

  /** A 64-bit signed integer. */
  type i64 = x: int | I64_MIN <= x <= I64_MAX

  /** Two's-complement wrap-around of `x` to 64 bits. */
  function Wrap64(x: int): (r: i64)
    ensures (r - x) % 0x1_0000_0000_0000_0000 == 0
  {
    (x - I64_MIN) % 0x1_0000_0000_0000_0000 + I64_MIN
  }

  // ----- numerals -----

  predicate IsBase(base: nat) { base == 10 || base == 16 }

  function Digit(d: nat): char
    requires d < 16
  {
    "0123456789abcdef"[d]
  }

  predicate IsDigit(c: char) { '0' <= c <= '9' }

  predicate IsHexDigit(c: char) { IsDigit(c) || 'a' <= c <= 'f' }

  function DigitValue(c: char): (d: nat)
    requires IsHexDigit(c)
    ensures d < 16 && Digit(d) == c
  {
    if IsDigit(c) then (c as int) - ('0' as int) else (c as int) - ('a' as int) + 10
  }

  /** `n` written in `base`, without leading zeros. */
  function Numeral(n: nat, base: nat): (s: string)
    requires IsBase(base)
    ensures s != [] && (base == 10 ==> IsDigit(s[0]))
    ensures forall c <- s :: IsHexDigit(c) && (base == 10 ==> IsDigit(c))
    decreases n
  {
    if n < base then [Digit(n)] else Numeral(n / base, base) + [Digit(n % base)]
  }

  function NumeralValue(s: string, base: nat): nat
    requires forall c <- s :: IsHexDigit(c)
  {
    if s == [] then 0 else base * NumeralValue(s[..|s| - 1], base) + DigitValue(s[|s| - 1])
  }

  lemma NumeralValueStep(s: string, d: nat, base: nat)
    requires d < 16 && forall c <- s :: IsHexDigit(c)
    ensures NumeralValue(s + [Digit(d)], base) == base * NumeralValue(s, base) + d
  {
    var t := s + [Digit(d)];
    assert t[..|t| - 1] == s;
  }

  lemma {:induction false} NumeralRoundTrip(n: nat, base: nat)
    requires IsBase(base)
    ensures NumeralValue(Numeral(n, base), base) == n
  {
    if n >= base {
      NumeralRoundTrip(n / base, base);
      NumeralValueStep(Numeral(n / base, base), n % base, base);
      assert base == 10 || base == 16;
    } else {
      assert Numeral(n, base) == [] + [Digit(n)];
      NumeralValueStep([], n, base);
    }
  }

  lemma NumeralInjective(m: nat, n: nat, base: nat)
    requires IsBase(base) && Numeral(m, base) == Numeral(n, base)
    ensures m == n
  {
    NumeralRoundTrip(m, base);
    NumeralRoundTrip(n, base);
  }

  // ----- signed decimals -----

  /** `i64::to_string`. */
  function PrintInt(i: int): (s: string)
    ensures s != [] && (if i < 0 then s[0] == '-' else IsDigit(s[0]))
    ensures forall c <- s :: c == '-' || IsDigit(c)
  {
    if i < 0 then "-" + Numeral(-i, 10) else Numeral(i, 10)
  }

  lemma PrintIntInjective(i: int, j: int)
    requires PrintInt(i) == PrintInt(j)
    ensures i == j
  {
    hide Numeral;
    assert i < 0 <==> PrintInt(i)[0] == '-';
    if i < 0 {
      assert Numeral(-i, 10) == PrintInt(i)[1..] == Numeral(-j, 10);
      NumeralInjective(-i, -j, 10);
    } else {
      NumeralInjective(i, j, 10);
    }
  }

  /** `str::parse::<i64>`: an optional sign, at least one digit, in range. */
  function ParseInt(s: string): Option<i64> {
    var digits := if s != [] && (s[0] == '-' || s[0] == '+') then s[1..] else s;
    if digits == [] || exists c <- digits :: !IsDigit(c) then None
    else
      var v: int := NumeralValue(digits, 10);
      var x: int := if s[0] == '-' then -v else v;
      if I64_MIN <= x <= I64_MAX then Some(x) else None
  }

  lemma ParseIntPrintInt(i: i64)
    ensures ParseInt(PrintInt(i)) == Some(i)
  {
    var m: int := i;
    var n: nat := if m < 0 then -m else m;
    NumeralRoundTrip(n, 10);
    var digits, s := Numeral(n, 10), PrintInt(i);
    hide Numeral, NumeralValue, IsHexDigit;
    assert forall c <- digits :: IsDigit(c);
    assert digits == if s[0] == '-' || s[0] == '+' then s[1..] else s;
  }

  // ----- maximal runs -----

  /** Two texts that start with a run of `cls` characters, each run ended by the
      text's end or by a character outside `cls`, are equal only run by run. */
  lemma RunUnique(cls: char -> bool, a: string, b: string, s: string, t: string)
    requires (forall c <- a :: cls(c)) && (forall c <- b :: cls(c))
    requires (s == [] || !cls(s[0])) && (t == [] || !cls(t[0]))
    requires a + s == b + t
    ensures a == b && s == t
  {
    var u := a + s;
    assert forall i | 0 <= i < |a| :: u[i] == a[i] && cls(u[i]);
    assert forall i | 0 <= i < |b| :: u[i] == (b + t)[i] == b[i] && cls(u[i]);
    assert |a| < |u| ==> u[|a|] == s[0];
    assert |b| < |u| ==> u[|b|] == (b + t)[|b|] == t[0];
    assert |a| == |b|;
    assert a == u[..|a|] == b;
    assert s == u[|a|..] == t;
  }
}
