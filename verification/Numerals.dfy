/**
  Positional numerals in the bases the formatter prints (2, 8, 10 and 16).
  `Numeral` is the text a correct integer printer produces; `Value` reads it back.
  Everything the printers are proved against is stated with these two functions.
 */
module Numerals {

  function Pow(b: nat, e: nat): nat {
    if e == 0 then 1 else b * Pow(b, e - 1)
  }

  function DigitChar(d: nat, upper: bool): char
    requires d < 16
  {
    if d < 10 then '0' + d as char else (if upper then 'A' else 'a') + (d - 10) as char
  }

  predicate IsDecimal(c: char) {
    '0' <= c <= '9'
  }

  /** The value of a digit character; characters that are no digit read as 16. */
  function DigitValue(c: char): nat {
    if IsDecimal(c) then (c - '0') as nat
    else if 'a' <= c <= 'f' then (c - 'a') as nat + 10
    else if 'A' <= c <= 'F' then (c - 'A') as nat + 10
    else 16
  }

  lemma DigitCharReads(d: nat, upper: bool)
    requires d < 16
    ensures DigitValue(DigitChar(d, upper)) == d
    ensures DigitChar(d, upper) == '0' <==> d == 0
    ensures d < 10 ==> DigitChar(d, upper) == '0' + d as char && IsDecimal(DigitChar(d, upper))
  {
  }

  /** The numeral of `n`, most significant digit first, without leading zeros. */
  function Numeral(n: nat, base: nat, upper: bool): (s: string)
    requires 2 <= base <= 16
    ensures |s| >= 1
    decreases n
  {
    if n < base then [DigitChar(n, upper)]
    else
      QuotientSmaller(n, base);
      Numeral(n / base, base, upper) + [DigitChar(n % base, upper)]
  }

  lemma QuotientSmaller(n: nat, base: nat)
    requires 2 <= base <= n
    ensures 0 < n / base < n
  {
    var q, r := n / base, n % base;
    assert n == base * q + r;
    MulMono(2, base, q);
  }

  lemma MulMono(a: nat, b: nat, c: nat)
    requires a <= b
    ensures a * c <= b * c && c * a <= c * b
  {
  }

  /** Reads a digit string in a base; the characters need not be canonical. */
  function Value(s: string, base: nat): nat {
    if s == [] then 0
    else Value(s[..|s| - 1], base) * base + DigitValue(s[|s| - 1])
  }

  predicate IsNumeralText(s: string, base: nat, upper: bool)
    requires 2 <= base <= 16
  {
    && s != []
    && (|s| > 1 ==> s[0] != '0')
    && forall k :: 0 <= k < |s| ==> DigitValue(s[k]) < base && s[k] == DigitChar(DigitValue(s[k]), upper)
  }

  /** One step of a digit loop: the last digit, and what the quotient still prints. */
  lemma NumeralStep(n: nat, base: nat, upper: bool)
    requires 2 <= base <= 16
    ensures n % base < base
    ensures n / base == 0 ==> Numeral(n, base, upper) == [DigitChar(n % base, upper)]
    ensures n / base != 0 ==>
              && n / base < n
              && Numeral(n, base, upper) == Numeral(n / base, base, upper) + [DigitChar(n % base, upper)]
  {
    DivMod(n, base);
    if n >= base {
      QuotientSmaller(n, base);
    } else {
      DivModUnique(n, base, 0, n);
    }
  }

  /** The decimal printer's two-digits-per-step identity. */
  lemma NumeralTwoSteps(n: nat)
    requires n >= 100
    ensures Numeral(n, 10, false)
         == Numeral(n / 100, 10, false) + [DigitChar(n % 100 / 10, false), DigitChar(n % 100 % 10, false)]
  {
    var m := n / 10;
    DigitSplit(n);
    assert Numeral(n, 10, false) == Numeral(m, 10, false) + [DigitChar(n % 10, false)];
    assert Numeral(m, 10, false) == Numeral(n / 100, 10, false) + [DigitChar(n % 100 / 10, false)];
  }

  lemma DigitSplit(n: nat)
    ensures n / 10 / 10 == n / 100 && n / 10 % 10 == n % 100 / 10 && n % 10 == n % 100 % 10
  {
  }

  /** A numeral of `n` is canonical text and reads back as `n`: printing inverts reading. */
  lemma {:induction false} NumeralReads(n: nat, base: nat, upper: bool)
    requires 2 <= base <= 16
    ensures Value(Numeral(n, base, upper), base) == n
    ensures IsNumeralText(Numeral(n, base, upper), base, upper)
    ensures n != 0 ==> Numeral(n, base, upper)[0] != '0'
    decreases n
  {
    var d := n % base;
    DigitCharReads(d, upper);
    if n < base {
      assert Numeral(n, base, upper) == [DigitChar(n, upper)];
      SingleDigit(n, base, upper);
    } else {
      QuotientSmaller(n, base);
      NumeralReads(n / base, base, upper);
      var init := Numeral(n / base, base, upper);
      ValueAppend(init, DigitChar(d, upper), base);
      DivMod(n, base);
    }
  }

  lemma DivMod(n: nat, base: nat)
    requires base > 0
    ensures n == n / base * base + n % base == base * (n / base) + n % base
    ensures n % base < base
  {
  }

  lemma ValueAppend(s: string, c: char, base: nat)
    ensures Value(s + [c], base) == Value(s, base) * base + DigitValue(c)
  {
    assert (s + [c])[..|s|] == s;
  }

  /** Canonical texts are the only ones: equal value forces equal text. */
  lemma {:induction false} NumeralUnique(s: string, base: nat, upper: bool)
    requires 2 <= base <= 16
    requires IsNumeralText(s, base, upper)
    ensures s == Numeral(Value(s, base), base, upper)
    decreases |s|
  {
    var init, d := s[..|s| - 1], DigitValue(s[|s| - 1]);
    assert s == init + [DigitChar(d, upper)];
    if |s| == 1 {
      SingleDigit(d, base, upper);
    } else {
      InitIsNumeralText(s, base, upper);
      NumeralUnique(init, base, upper);
      LeadingDigit(Value(init, base), base, upper);
      NumeralAppend(Value(init, base), d, base, upper);
    }
  }

  lemma SingleDigit(d: nat, base: nat, upper: bool)
    requires 2 <= base <= 16 && d < base
    ensures Value([DigitChar(d, upper)], base) == d
  {
    DigitCharReads(d, upper);
    var s := [DigitChar(d, upper)];
    assert Value(s, base) == Value(s[..0], base) * base + DigitValue(s[0]);
    assert Value(s[..0], base) == 0;
  }

  lemma InitIsNumeralText(s: string, base: nat, upper: bool)
    requires 2 <= base <= 16
    requires |s| > 1 && IsNumeralText(s, base, upper)
    ensures IsNumeralText(s[..|s| - 1], base, upper)
  {
  }

  lemma NumeralAppend(q: nat, d: nat, base: nat, upper: bool)
    requires 2 <= base <= 16 && q > 0 && d < base
    ensures Numeral(q * base + d, base, upper) == Numeral(q, base, upper) + [DigitChar(d, upper)]
  {
    MulMono(1, q, base);
    DivModUnique(q * base + d, base, q, d);
  }

  lemma LeadingDigit(n: nat, base: nat, upper: bool)
    requires 2 <= base <= 16
    requires Numeral(n, base, upper)[0] != '0'
    ensures n > 0
  {
    DigitCharReads(0, upper);
  }

  lemma DivModUnique(n: nat, base: nat, q: nat, r: nat)
    requires 0 < base && n == q * base + r && r < base
    ensures n / base == q && n % base == r
  {
    var q', r' := n / base, n % base;
    assert n == q' * base + r';
    assert (q' + 1) * base == q' * base + base;
    assert (q + 1) * base == q * base + base;
    if q' < q {
      MulMono(q' + 1, q, base);
    } else if q < q' {
      MulMono(q + 1, q', base);
    }
  }

  /** The length of a numeral is the number of digits of its value. */
  lemma {:induction false} NumeralLength(n: nat, base: nat, upper: bool)
    requires 2 <= base <= 16
    ensures var d := |Numeral(n, base, upper)|;
            n < Pow(base, d) && (n == 0 || Pow(base, d - 1) <= n)
    ensures n == 0 ==> |Numeral(n, base, upper)| == 1
    decreases n
  {
    if n >= base {
      QuotientSmaller(n, base);
      NumeralLength(n / base, base, upper);
      PowStep(n, base, |Numeral(n / base, base, upper)|);
    } else {
      assert Pow(base, 1) == base * Pow(base, 0);
    }
  }

  lemma PowStep(n: nat, base: nat, d: nat)
    requires 2 <= base && d >= 1
    requires Pow(base, d - 1) <= n / base < Pow(base, d)
    ensures Pow(base, d) <= n < Pow(base, d + 1)
  {
    var q := n / base;
    assert n == base * q + n % base;
    MulMono(Pow(base, d - 1), q, base);
    MulMono(q + 1, Pow(base, d), base);
    assert base * (q + 1) == base * q + base;
  }

  lemma {:induction false} PowMono(b: nat, e: nat, f: nat)
    requires b >= 1 && e <= f
    ensures 1 <= Pow(b, e) <= Pow(b, f)
    decreases f
  {
    if f > 0 {
      if e < f {
        PowMono(b, e, f - 1);
        MulMono(1, b, Pow(b, f - 1));
      } else {
        PowMono(b, e - 1, f - 1);
        MulMono(1, b, Pow(b, e - 1));
      }
    }
  }

  /** The digit count is determined by the two power bounds. */
  lemma DigitCountUnique(n: nat, base: nat, upper: bool, d: nat)
    requires 2 <= base <= 16
    requires d >= 1 && n < Pow(base, d) && (d == 1 || Pow(base, d - 1) <= n)
    ensures d == |Numeral(n, base, upper)|
  {
    NumeralLength(n, base, upper);
    var e := |Numeral(n, base, upper)|;
    if d < e {
      PowMono(base, d, e - 1);
      if n == 0 { assert false; }
    } else if e < d {
      PowMono(base, e, d - 1);
    }
  }
}
