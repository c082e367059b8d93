/** What the layouts mean, without the functions that compute them: where fill, sign, prefix and digits stand. */
module LayoutLaws {
  import opened Outcomes
  import opened Layout
  import MachineInts
  import Numerals
  import Strings

  predicate AllAre(s: string, c: char) {
    forall k :: 0 <= k < |s| ==> s[k] == c
  }

  /** Where a number stands in its text: its sign in front, and what follows the sign. */
  predicate NumberStands(t: string, front: string, back: string, width: nat, fill: char, align: Alignment) {
    var content, n := front + back, |front| + |back|;
    if width <= n then t == content
    else
      && |t| == width
      && (align == Left ==> t[..n] == content && AllAre(t[n..], fill))
      && (align == Right || align == Default ==> AllAre(t[..width - n], fill) && t[width - n..] == content)
      && (align == Center ==>
            var before := (width - n) / 2;
            AllAre(t[..before], fill) && t[before..before + n] == content && AllAre(t[before + n..], fill))
      && (align == Numeric ==>
            && t[..|front|] == front && t[width - |back|..] == back
            && AllAre(t[|front|..width - |back|], fill))
  }

  /** Where a text stands: in front, unless it is told to stand behind or in the middle. */
  predicate TextStands(t: string, text: string, width: nat, fill: char, align: Alignment) {
    var n := |text|;
    if width <= n then t == text
    else
      && |t| == width
      && (align == Right ==> AllAre(t[..width - n], fill) && t[width - n..] == text)
      && (align == Center ==>
            var before := (width - n) / 2;
            AllAre(t[..before], fill) && t[before..before + n] == text && AllAre(t[before + n..], fill))
      && (align != Right && align != Center ==> t[..n] == text && AllAre(t[n..], fill))
  }

  lemma ThreeParts(t: string, a: string, b: string, c: string)
    requires t == a + b + c
    ensures |t| == |a| + |b| + |c|
    ensures t[..|a|] == a && t[|a|..|a| + |b|] == b && t[|a| + |b|..] == c
    ensures t[..|a| + |b|] == a + b && t[|a|..] == b + c
  {
  }

  lemma TextLayoutStands(spec: FormatSpec, text: string)
    ensures TextStands(TextLayout(spec, text), text, spec.width, spec.fill, spec.align)
  {
    var p := TextPads(spec, |text|);
    ThreeParts(TextLayout(spec, text), Strings.Repeat(spec.fill, p.before), text, Strings.Repeat(spec.fill, p.after));
  }

  lemma NumberLayoutStands(spec: FormatSpec, sign: string, body: string)
    ensures NumberStands(NumberLayout(spec, sign, body), sign, body, spec.width, spec.fill, spec.align)
  {
    var t := NumberLayout(spec, sign, body);
    var p := NumberPads(spec, |sign| + |body|);
    var before, between, after := Strings.Repeat(spec.fill, p.before), Strings.Repeat(spec.fill, p.between),
                                  Strings.Repeat(spec.fill, p.after);
    if spec.width <= |sign| + |body| {
      assert before == between == after == "";
      assert t == sign + body;
    } else if spec.align == Numeric {
      assert before == after == "";
      assert t == sign + between + body;
      ThreeParts(t, sign, between, body);
    } else {
      assert between == "";
      assert t == before + (sign + body) + after;
      ThreeParts(t, before, sign + body, after);
    }
  }

  // ---------------------------------------------------------------- integers

  /** The value of digits, most significant first. */
  function ValueOf(digits: seq<nat>, base: nat): nat {
    if digits == [] then 0 else ValueOf(digits[..|digits| - 1], base) * base + digits[|digits| - 1]
  }

  /** The text writes these digits with these symbols. */
  predicate Spells(s: string, digits: seq<nat>, symbols: string, base: nat) {
    && |s| == |digits| && base <= |symbols|
    && forall k :: 0 <= k < |s| ==> digits[k] < base && s[k] == symbols[digits[k]]
  }

  predicate IsIntegerCode(code: char) {
    || code == '\0' || code == 'd' || code == 'x' || code == 'X'
    || code == 'b' || code == 'B' || code == 'o'
  }

  /** How an integer may be written. */
  datatype Written = Written(sign: string, prefix: string, text: string, digits: seq<nat>, base: nat)
  {
    predicate Signs(value: int, spec: FormatSpec) {
      && (value < 0 ==> sign == "-")
      && (value >= 0 && spec.signFlag && spec.plusFlag ==> sign == "+")
      && (value >= 0 && spec.signFlag && !spec.plusFlag ==> sign == " ")
      && (value >= 0 && !spec.signFlag ==> sign == "")
    }

    predicate Prefixes(spec: FormatSpec) {
      && (!spec.hashFlag ==> prefix == "")
      && (spec.hashFlag && (spec.code == 'x' || spec.code == 'X' || spec.code == 'b' || spec.code == 'B') ==>
            prefix == ['0', spec.code])
      && (spec.hashFlag && spec.code == 'o' ==> prefix == "0")
      && (spec.hashFlag && (spec.code == '\0' || spec.code == 'd') ==> prefix == "")
    }

    /** Lower-case digits but for the code X, and no leading zero. */
    predicate HasDigits(value: int, code: char) {
      && |text| >= 1 && (|text| > 1 ==> text[0] != '0')
      && Spells(text, digits, if code == 'X' then UpperSymbols() else LowerSymbols(), base)
      && ValueOf(digits, base) == (if value < 0 then -value else value)
    }

    predicate InBase(code: char) {
      && (code == '\0' || code == 'd' ==> base == 10)
      && (code == 'x' || code == 'X' ==> base == 16)
      && (code == 'b' || code == 'B' ==> base == 2)
      && (code == 'o' ==> base == 8)
    }

    /** `t` is the integer, written to the specification. */
    predicate Prints(t: string, value: int, spec: FormatSpec) {
      && Signs(value, spec) && Prefixes(spec) && HasDigits(value, spec.code) && InBase(spec.code)
      && NumberStands(t, sign, prefix + text, spec.width, spec.fill, spec.align)
    }
  }

  function LowerSymbols(): string { "0123456789abcdef" }

  function UpperSymbols(): string { "0123456789ABCDEF" }

  ghost predicate IsInteger(t: string, value: int, spec: FormatSpec) {
    exists w: Written :: w.Prints(t, value, spec)
  }

  lemma SymbolsAreDigits(d: nat)
    requires d < 16
    ensures |LowerSymbols()| == |UpperSymbols()| == 16
    ensures LowerSymbols()[d] == Numerals.DigitChar(d, false) && UpperSymbols()[d] == Numerals.DigitChar(d, true)
  {
    match d
    case 0 => case 1 => case 2 => case 3 => case 4 => case 5 => case 6 => case 7 =>
    case 8 => case 9 => case 10 => case 11 => case 12 => case 13 => case 14 => case 15 =>
  }

  lemma {:induction false} NumeralSpells(n: nat, base: nat, upper: bool) returns (digits: seq<nat>)
    requires 2 <= base <= 16
    ensures Spells(Numerals.Numeral(n, base, upper), digits, if upper then UpperSymbols() else LowerSymbols(), base)
    ensures ValueOf(digits, base) == n
    decreases n
  {
    SymbolsAreDigits(n % base);
    if n < base {
      digits := [n];
      SymbolsAreDigits(n);
      assert [n][..0] == [];
      assert ValueOf([n], base) == ValueOf([], base) * base + n;
    } else {
      Numerals.QuotientSmaller(n, base);
      var init := NumeralSpells(n / base, base, upper);
      digits := init + [n % base];
      assert digits[..|digits| - 1] == init;
      Numerals.DivMod(n, base);
    }
  }

  /**
    What an integer prints, for every value and specification: its sign, prefix and digits are these characters,
    they stand where the alignment says, and exactly the codes listed are known.
   */
  lemma RenderIntPrints(value: int, spec: FormatSpec)
    ensures IsIntegerCode(spec.code) ==>
              RenderInt(value, spec).Ok? && IsInteger(RenderInt(value, spec).value, value, spec)
    ensures !IsIntegerCode(spec.code) ==> RenderInt(value, spec) == Err(UnknownTypeCode(spec.code, "integer"))
  {
    if IsIntegerCode(spec.code) {
      var w := DigitsPrint(value, spec.code);
      w := w.(sign := SignText(value, spec), prefix := PrefixText(spec));
      SignPrints(value, spec, w);
      PrefixPrints(spec, w);
      NumberLayoutStands(spec, w.sign, w.prefix + w.text);
      assert w.Prints(RenderInt(value, spec).value, value, spec);
    }
  }

  lemma SignPrints(value: int, spec: FormatSpec, w: Written)
    requires w.sign == SignText(value, spec)
    ensures w.Signs(value, spec)
  {
  }

  lemma PrefixPrints(spec: FormatSpec, w: Written)
    requires w.prefix == PrefixText(spec)
    ensures w.Prefixes(spec)
  {
  }

  lemma DigitsPrint(value: int, code: char) returns (w: Written)
    requires IsIntegerCode(code)
    ensures BaseOf(code).Some? && w.text == DigitsText(MachineInts.Abs(value), code)
    ensures w.HasDigits(value, code) && w.InBase(code)
  {
    var base, upper, n := BaseOf(code).value, code == 'X', MachineInts.Abs(value);
    var digits := NumeralSpells(n, base, upper);
    Numerals.NumeralReads(n, base, upper);
    NumeralStart(n, base, upper);
    w := Written("", "", DigitsText(n, code), digits, base);
  }

  lemma NumeralStart(n: nat, base: nat, upper: bool)
    requires 2 <= base <= 16
    ensures |Numerals.Numeral(n, base, upper)| > 1 ==> Numerals.Numeral(n, base, upper)[0] != '0'
  {
    Numerals.NumeralReads(n, base, upper);
  }
}
