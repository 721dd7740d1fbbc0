/** The numeric conversions of printf that the tools use (`%d`, `%lu`, `%lx`, `%N.Nx`)
    and the reader that inverts them. */
module Numerals {
  import opened Common

  type Base = b: int | b == 10 || b == 16 witness 10

  function DigitChar(d: int): (c: char)
    requires 0 <= d < 16
    ensures DigitValue(c) == Some(d)
  {
    if d < 10 then '0' + d as char else 'a' + (d - 10) as char
  }

  lemma DigitSpelling(d: int)
    requires 0 <= d < 16
    ensures DigitChar(d) == "0123456789abcdef"[d]
  {
  }

  /** The value of a digit, lower or upper case. */
  function DigitValue(c: char): (v: Option<int>)
    ensures v.Some? ==> 0 <= v.value < 16
  {
    if '0' <= c <= '9' then Some(c as int - '0' as int)
    else if 'a' <= c <= 'f' then Some(c as int - 'a' as int + 10)
    else if 'A' <= c <= 'F' then Some(c as int - 'A' as int + 10)
    else None
  }

  predicate IsDigit(c: char, base: Base) {
    DigitValue(c).Some? && DigitValue(c).value < base
  }

  predicate AllDigits(s: string, base: Base) {
    forall i :: 0 <= i < |s| ==> IsDigit(s[i], base)
  }

  /** `%lu` (base 10) or `%lx` (base 16) of n. */
  function Numeral(n: nat, base: Base): (s: string)
    ensures |s| > 0 && AllDigits(s, base)
    decreases n
  {
    if n < base then [DigitChar(n)]
    else Numeral(n / base, base) + [DigitChar(n % base)]
  }

  /** The number a string of digits denotes. */
  function Value(s: string, base: Base): (n: nat)
    requires AllDigits(s, base)
  {
    if s == [] then 0
    else Value(s[..|s|-1], base) * base + DigitValue(s[|s|-1]).value
  }

  lemma {:induction false} ValueOfNumeral(n: nat, base: Base)
    ensures Value(Numeral(n, base), base) == n
    decreases n
  {
    if n >= base {
      var s := Numeral(n, base);
      assert s[..|s|-1] == Numeral(n / base, base);
      ValueOfNumeral(n / base, base);
      if base == 10 {
        assert Value(s, 10) == Value(s[..|s|-1], 10) * 10 + n % 10;
      } else {
        assert Value(s, 16) == Value(s[..|s|-1], 16) * 16 + n % 16;
      }
    }
  }

  /** Numerals are printed without leading zeros. */
  lemma {:induction false} NoLeadingZero(n: nat, base: Base)
    ensures Numeral(n, base)[0] == '0' ==> n == 0
    decreases n
  {
    if n >= base {
      NoLeadingZero(n / base, base);
      assert Numeral(n, base)[0] == Numeral(n / base, base)[0];
      assert n / base > 0;
    } else {
      assert DigitValue(DigitChar(n)) == Some(n);
    }
  }

  /** Digits are written most significant first. */
  lemma {:induction false} ValueConcat(a: string, b: string, base: Base)
    requires AllDigits(a, base) && AllDigits(b, base)
    ensures AllDigits(a + b, base)
    ensures Value(a + b, base) == Value(a, base) * Pow(base, |b|) + Value(b, base)
  {
    if b == [] {
      assert a + b == a;
    } else {
      var init := b[..|b| - 1];
      assert (a + b)[..|a + b| - 1] == a + init;
      ValueConcat(a, init, base);
      Shift(Value(a, base), Pow(base, |init|), base);
    }
  }

  lemma Shift(v: nat, p: nat, base: Base)
    ensures v * p * base == v * (p * base)
  {
  }

  function Pow(base: Base, k: nat): (p: nat)
    ensures p >= 1
  {
    if k == 0 then 1 else Pow(base, k - 1) * base
  }

  /** w digits in the given base spell exactly the numbers below base^w. */
  lemma {:induction false} ValueBound(s: string, base: Base)
    requires AllDigits(s, base)
    ensures Value(s, base) < Pow(base, |s|)
  {
    if s != [] {
      ValueBound(s[..|s|-1], base);
      if base == 10 {
        assert Pow(10, |s|) == Pow(10, |s| - 1) * 10;
      } else {
        assert Pow(16, |s|) == Pow(16, |s| - 1) * 16;
      }
    }
  }

  /** n as exactly w digits, the high ones zero. */
  function Fixed(n: nat, w: nat): (s: string)
    ensures |s| == w && AllDigits(s, 16)
  {
    if w == 0 then [] else Fixed(n / 16, w - 1) + [DigitChar(n % 16)]
  }

  /** `%W.Wx`: the hexadecimal numeral, zero-padded on the left to at least w characters. */
  function PadHex(n: nat, w: nat): string {
    var s := Numeral(n, 16);
    if |s| >= w then s else Zeros(w - |s|) + s
  }

  function Zeros(k: nat): (s: string)
    ensures |s| == k && forall i :: 0 <= i < k ==> s[i] == '0'
  {
    if k == 0 then [] else Zeros(k - 1) + ['0']
  }

  /** Below 16^w the padded form has exactly w characters: no `%W.Wx` field overflows. */
  lemma {:induction false} PadHexIsFixed(n: nat, w: nat)
    requires w >= 1 && n < Pow(16, w)
    ensures PadHex(n, w) == Fixed(n, w)
    decreases w
  {
    if w == 1 {
      assert Pow(16, 1) == Pow(16, 0) * 16 == 16;
      assert Fixed(n, 1) == Fixed(n / 16, 0) + [DigitChar(n)];
    } else if n < 16 {
      assert Pow(16, w - 1) >= 1;
      FixedZero(w - 1);
    } else {
      PadHexIsFixed(n / 16, w - 1);
      assert Numeral(n, 16) == Numeral(n / 16, 16) + [DigitChar(n % 16)];
    }
  }

  lemma {:induction false} FixedZero(w: nat)
    ensures Fixed(0, w) == Zeros(w)
  {
    if w > 0 {
      FixedZero(w - 1);
    }
  }

  lemma {:induction false} ValueOfFixed(n: nat, w: nat)
    requires n < Pow(16, w)
    ensures Value(Fixed(n, w), 16) == n
    decreases w
  {
    if w > 0 {
      var s := Fixed(n, w);
      assert s[..w-1] == Fixed(n / 16, w - 1);
      ValueOfFixed(n / 16, w - 1);
    }
  }

  function LowerChar(c: char): char {
    if 'A' <= c <= 'Z' then c - 'A' + 'a' else c
  }

  function Lower(s: string): (t: string)
    ensures |t| == |s| && forall i :: 0 <= i < |s| ==> t[i] == LowerChar(s[i])
  {
    seq(|s|, i requires 0 <= i < |s| => LowerChar(s[i]))
  }

  /** Reading hexadecimal digits and printing them at the same width only changes case. */
  lemma {:induction false} FixedOfValue(s: string)
    requires AllDigits(s, 16)
    ensures Fixed(Value(s, 16), |s|) == Lower(s)
  {
    if s != [] {
      var h := s[..|s|-1];
      FixedOfValue(h);
      var c := s[|s|-1];
      assert DigitChar(DigitValue(c).value) == LowerChar(c);
      assert Value(s, 16) / 16 == Value(h, 16) && Value(s, 16) % 16 == DigitValue(c).value;
    }
  }

  /** How many digits of the base `s` starts with. */
  function DigitRun(s: string, base: Base): (k: nat)
    ensures k <= |s| && AllDigits(s[..k], base)
    ensures k < |s| ==> !IsDigit(s[k], base)
  {
    if s == [] || !IsDigit(s[0], base) then 0
    else
      var k := DigitRun(s[1..], base);
      assert s[..1+k] == [s[0]] + s[1..][..k];
      1 + k
  }

  /** Reads a numeral of at least one digit off the front of `s`: its value and the rest. */
  function ReadNumeral(s: string, base: Base): (r: Option<(nat, string)>)
    ensures r.Some? ==> |r.value.1| < |s|
  {
    var k := DigitRun(s, base);
    if k == 0 then None else Some((Value(s[..k], base), s[k..]))
  }

  lemma {:induction false} DigitRunOf(s: string, rest: string, base: Base)
    requires AllDigits(s, base) && (rest == [] || !IsDigit(rest[0], base))
    ensures DigitRun(s + rest, base) == |s|
  {
    if s == [] {
      assert s + rest == rest;
    } else {
      assert (s + rest)[1..] == s[1..] + rest;
      assert IsDigit((s + rest)[0], base);
      DigitRunOf(s[1..], rest, base);
    }
  }

  /** printf and the reader are inverse whenever no digit follows. */
  lemma ReadNumeralOf(n: nat, base: Base, rest: string)
    requires rest == [] || !IsDigit(rest[0], base)
    ensures ReadNumeral(Numeral(n, base) + rest, base) == Some((n, rest))
  {
    var s := Numeral(n, base);
    DigitRunOf(s, rest, base);
    assert (s + rest)[..|s|] == s && (s + rest)[|s|..] == rest;
    ValueOfNumeral(n, base);
  }
}
