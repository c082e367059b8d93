/**
  The grammar of format strings, as a syntax with a printer. Parsing what the printer prints gives back
  the meaning of the syntax: for whole templates, field specifications and numbers.
 */
module TemplateGrammar {
  import opened Outcomes
  import opened Numerals
  import MachineInts
  import opened Layout
  import opened Strings
  import opened Templates

  // ---------------------------------------------------------------- numbers

  predicate AllDecimal(s: string) {
    forall k :: 0 <= k < |s| ==> IsDecimal(s[k])
  }

  /** Reading digits from the left, starting from a value already read. */
  function ValueFrom(value: nat, s: string): nat
    decreases |s|
  {
    if s == "" then value else ValueFrom(value * 10 + DigitValue(s[0]), s[1..])
  }

  lemma {:induction false} ValueFromAppend(value: nat, s: string, c: char)
    ensures ValueFrom(value, s + [c]) == ValueFrom(value, s) * 10 + DigitValue(c)
    decreases |s|
  {
    if s == "" {
      assert "" + [c] == [c];
      assert ValueFrom(value * 10 + DigitValue(c), "") == value * 10 + DigitValue(c);
    } else {
      assert (s + [c])[1..] == s[1..] + [c];
      ValueFromAppend(value * 10 + DigitValue(s[0]), s[1..], c);
    }
  }

  lemma {:induction false} ValueFromZero(s: string)
    ensures ValueFrom(0, s) == Value(s, 10)
  {
    if s != "" {
      var init, last := s[..|s| - 1], s[|s| - 1];
      assert s == init + [last];
      ValueFromZero(init);
      ValueFromAppend(0, init, last);
    }
  }

  lemma {:induction false} ValueFromGrows(value: nat, s: string)
    ensures ValueFrom(value, s) >= value
    decreases |s|
  {
    if s != "" { ValueFromGrows(value * 10 + DigitValue(s[0]), s[1..]); }
  }

  /** `ParseUInt` is exact below 2^32 and stops at the first character that is no digit. */
  lemma {:induction false} ParseUIntExact(digits: string, rest: string, value: nat, open: nat)
    requires AllDecimal(digits) && !IsDecimal(Peek(rest))
    requires ValueFrom(value, digits) < UINT_MODULUS
    ensures ParseUInt(digits + rest, value, open) == Ok((ValueFrom(value, digits), rest))
    decreases |digits|
  {
    if digits == "" {
      assert "" + rest == rest;
    } else {
      var c, more := digits[0], digits[1..];
      assert digits + rest == [c] + (more + rest);
      ValueFromGrows(value * 10 + DigitValue(c), more);
      assert WrapDigit(value, c) == value * 10 + DigitValue(c);
      ParseUIntExact(more, rest, value * 10 + DigitValue(c), open);
    }
  }

  /** The value of the first `k` digits, wrapped to 32 bits. */
  function WrappedPrefix(digits: string, k: nat): nat
    requires k <= |digits|
  {
    Value(digits[..k], 10) % UINT_MODULUS
  }

  /** Some digit makes the wrapped value smaller: the only overflow the parser can notice. */
  ghost predicate WrapNoticed(digits: string) {
    exists k :: 0 <= k < |digits| && WrappedPrefix(digits, k + 1) < WrappedPrefix(digits, k)
  }

  /**
    What `ParseUInt` does with any digits at all: it fails exactly when some digit lowers the
    wrapped value, and otherwise returns the numeral's value modulo 2^32.
   */
  lemma ParseUIntWraps(digits: string, rest: string, open: nat)
    requires AllDecimal(digits) && !IsDecimal(Peek(rest))
    ensures ParseUInt(digits + rest, 0, open).Err? <==> WrapNoticed(digits)
    ensures !WrapNoticed(digits) ==>
              ParseUInt(digits + rest, 0, open) == Ok((Value(digits, 10) % UINT_MODULUS, rest))
  {
    assert digits[..0] == "";
    assert digits[0..] == digits;
    ParseUIntWrapsFrom(digits, 0, rest, open);
    assert digits[..|digits|] == digits;
  }

  lemma {:induction false} ParseUIntWrapsFrom(digits: string, k: nat, rest: string, open: nat)
    requires k <= |digits| && AllDecimal(digits) && !IsDecimal(Peek(rest))
    ensures ParseUInt(digits[k..] + rest, WrappedPrefix(digits, k), open).Err?
       <==> exists j :: k <= j < |digits| && WrappedPrefix(digits, j + 1) < WrappedPrefix(digits, j)
    ensures ParseUInt(digits[k..] + rest, WrappedPrefix(digits, k), open).Ok? ==>
              ParseUInt(digits[k..] + rest, WrappedPrefix(digits, k), open)
              == Ok((WrappedPrefix(digits, |digits|), rest))
    decreases |digits| - k
  {
    if k == |digits| {
      assert digits[k..] + rest == rest;
    } else {
      var s, v := digits[k..] + rest, WrappedPrefix(digits, k);
      assert s[0] == digits[k];
      assert s[1..] == digits[k + 1..] + rest;
      WrapStep(digits, k);
      ParseUIntWrapsFrom(digits, k + 1, rest, open);
    }
  }

  lemma WrapStep(digits: string, k: nat)
    requires k < |digits| && AllDecimal(digits)
    ensures WrapDigit(WrappedPrefix(digits, k), digits[k]) == WrappedPrefix(digits, k + 1)
  {
    var v, d := Value(digits[..k], 10), DigitValue(digits[k]);
    assert digits[..k + 1][..k] == digits[..k];
    assert Value(digits[..k + 1], 10) == v * 10 + d;
    assert v == v / UINT_MODULUS * UINT_MODULUS + v % UINT_MODULUS;
    MachineInts.ModOf(v * 10 + d, v / UINT_MODULUS * 10 + (v % UINT_MODULUS * 10 + d) / UINT_MODULUS,
          (v % UINT_MODULUS * 10 + d) % UINT_MODULUS, UINT_MODULUS);
  }

  /** The result is the numeral's value exactly when that is below 2^32. */
  lemma ParseUIntExactly(digits: string, rest: string, open: nat)
    requires AllDecimal(digits) && !IsDecimal(Peek(rest))
    ensures ParseUInt(digits + rest, 0, open) == Ok((Value(digits, 10), rest)) <==> Value(digits, 10) < UINT_MODULUS
  {
    if Value(digits, 10) < UINT_MODULUS {
      ValueFromZero(digits);
      ParseUIntExact(digits, rest, 0, open);
    } else {
      ParseUIntWraps(digits, rest, open);
    }
  }

  /** An overflow that goes unnoticed: the digits of five thousand million read as 705032704. */
  lemma WrapUnnoticed(open: nat)
    ensures var digits := "5" + Repeat('0', 9);
            && Value(digits, 10) == 5000000000
            && ParseUInt(digits + "}", 0, open) == Ok((705032704, "}"))
  {
    var digits := "5" + Repeat('0', 9);
    FiveAndZeros(digits, 9);
    PowersUpTo9();
    assert digits[..10] == digits;
    forall k | 0 <= k < 10 ensures WrappedPrefix(digits, k + 1) >= WrappedPrefix(digits, k) {
      FiveWraps(digits, k);
    }
    ParseUIntWraps(digits, "}", open);
  }

  lemma FiveWraps(digits: string, k: nat)
    requires digits == "5" + Repeat('0', 9) && k < 10
    ensures WrappedPrefix(digits, k + 1) >= WrappedPrefix(digits, k)
  {
    FiveAndZeros(digits, k);
    assert digits[..0] == "";
    if k > 0 {
      FiveAndZeros(digits, k - 1);
      PowMono(10, k - 1, 8);
      PowersUpTo9();
      assert k < 9 ==> Pow(10, k) <= Pow(10, 8) by { if k < 9 { PowMono(10, k, 8); } }
      assert Pow(10, k) == 10 * Pow(10, k - 1);
    }
  }

  lemma PowersUpTo9()
    ensures Pow(10, 8) == 100000000 && Pow(10, 9) == 1000000000
  {
  }

  lemma {:induction false} FiveAndZeros(digits: string, k: nat)
    requires digits == "5" + Repeat('0', 9) && k < 10
    ensures Value(digits[..k + 1], 10) == 5 * Pow(10, k)
  {
    assert digits[..k + 1][..k] == digits[..k];
    if k > 0 { FiveAndZeros(digits, k - 1); }
  }

  // ---------------------------------------------------------------- syntax

  datatype PrecisionText = DigitsPrecision(n: nat) | NestedField(index: Option<nat>)

  /** A field specification as written: `[[fill]align][sign][#][0][width][.precision][code]`. */
  datatype SpecText = SpecText(
    fill: Option<char>, align: Alignment, sign: Option<char>, hash: bool, zero: bool,
    width: Option<nat>, precision: Option<PrecisionText>, code: Option<char>)

  /** A template is literal text and fields; a field without index takes the next argument. */
  datatype Item = Text(s: string) | FieldText(index: Option<nat>, spec: SpecText)

  function AlignChar(a: Alignment): char
    requires a != Default
  {
    match a
    case Left => '<'
    case Right => '>'
    case Numeric => '='
    case Center => '^'
  }

  function PrintIndex(index: Option<nat>): string {
    if index.None? then "" else Numeral(index.value, 10, false)
  }

  function PrintAlign(spec: SpecText): string {
    if spec.align == Default then ""
    else (if spec.fill.None? then "" else [spec.fill.value]) + [AlignChar(spec.align)]
  }

  function PrintChar(c: Option<char>): string {
    if c.None? then "" else [c.value]
  }

  function PrintWidth(spec: SpecText): string {
    (if spec.zero then "0" else "") + PrintIndex(spec.width)
  }

  function PrintPrecision(p: Option<PrecisionText>): string {
    match p
    case None => ""
    case Some(DigitsPrecision(n)) => "." + Numeral(n, 10, false)
    case Some(NestedField(index)) => ".{" + (PrintIndex(index) + "}")
  }

  /** The specification from the sign on, in front of the text that follows it. */
  function PrintNumberSpec(spec: SpecText, rest: string): string {
    PrintChar(spec.sign) + ((if spec.hash then "#" else "") + (PrintWidth(spec)
      + (PrintPrecision(spec.precision) + (PrintChar(spec.code) + rest))))
  }

  function PrintSpec(spec: SpecText, rest: string): string {
    PrintAlign(spec) + PrintNumberSpec(spec, rest)
  }

  /** The colon is written only in front of a specification. */
  function PrintField(index: Option<nat>, spec: SpecText, rest: string): string {
    "{" + (PrintIndex(index) + (if PrintSpec(spec, "") == "" then "}" + rest else ":" + PrintSpec(spec, "}" + rest)))
  }

  /** Literal text with its braces doubled. */
  function Escape(s: string): string {
    if s == "" then "" else (if s[0] == '{' || s[0] == '}' then [s[0], s[0]] else [s[0]]) + Escape(s[1..])
  }

  function Print(items: seq<Item>): string {
    if items == [] then ""
    else
      match items[0]
      case Text(s) => Escape(s) + Print(items[1..])
      case FieldText(index, spec) => PrintField(index, spec, Print(items[1..]))
  }

  // ---------------------------------------------------------------- meaning

  predicate IsLetter(c: char) {
    'a' <= c <= 'z' || 'A' <= c <= 'Z'
  }

  /** An index may be used in this state of the parser, and names an argument. */
  predicate LegalIndex(index: Option<nat>, next: int, numArgs: nat) {
    match index
    case None => 0 <= next < numArgs
    case Some(k) => next <= 0 && k < numArgs && k < UINT_MODULUS
  }

  function UseOf(index: Option<nat>, next: int): IndexUse
    requires index.None? ==> next >= 0
  {
    if index.None? then Auto(next) else Manual(index.value)
  }

  function NextOf(index: Option<nat>, next: int): int {
    if index.None? then next + 1 else -1
  }

  /** The specification may be applied to the argument. */
  predicate LegalSpec(spec: SpecText, arg: ArgInfo) {
    && (spec.fill.Some? ==> spec.align != Default && spec.fill.value != '{' && spec.fill.value != '}')
    && (spec.align == Numeric || spec.sign.Some? || spec.hash || spec.zero ==> arg.IsNumeric())
    && (spec.sign.Some? ==> spec.sign.value in "+- " && !arg.IsUnsigned())
    && (spec.width.Some? ==> spec.width.value <= INT_MAX && (spec.width.value > 0 || spec.zero))
    && (spec.precision.Some? ==> arg.DoubleArg?)
    && (spec.code.Some? ==> IsLetter(spec.code.value))
  }

  predicate LegalPrecision(p: Option<PrecisionText>, next: int, args: seq<ArgInfo>) {
    match p
    case None => true
    case Some(DigitsPrecision(n)) => n <= INT_MAX
    case Some(NestedField(index)) =>
      && LegalIndex(index, next, |args|)
      && var arg := args[UseOf(index, next).k];
         arg.IntArg? && 0 <= arg.value <= INT_MAX
  }

  function SpecMeaning(spec: SpecText): FormatSpec {
    FormatSpec(
      if spec.width.None? then 0 else spec.width.value,
      if spec.zero then '0' else if spec.fill.None? then ' ' else spec.fill.value,
      if spec.zero then Numeric else spec.align,
      spec.sign == Some('+') || spec.sign == Some(' '),
      spec.sign == Some('+'),
      spec.hash,
      if spec.code.None? then '\0' else spec.code.value)
  }

  function PrecisionMeaning(p: Option<PrecisionText>, next: int, args: seq<ArgInfo>, rest: string): Precision
    requires LegalPrecision(p, next, args)
  {
    match p
    case None => Precision(-1, None, next, rest)
    case Some(DigitsPrecision(n)) => Precision(n, None, next, rest)
    case Some(NestedField(index)) =>
      var use := UseOf(index, next);
      Precision(args[use.k].value, Some(use), NextOf(index, next), rest)
  }

  predicate LegalField(index: Option<nat>, spec: SpecText, next: int, args: seq<ArgInfo>) {
    && LegalIndex(index, next, |args|)
    && LegalSpec(spec, args[UseOf(index, next).k])
    && LegalPrecision(spec.precision, NextOf(index, next), args)
  }

  function FieldMeaning(index: Option<nat>, spec: SpecText, next: int, args: seq<ArgInfo>, rest: string)
    : (Field, int, string)
    requires LegalField(index, spec, next, args)
  {
    var p := PrecisionMeaning(spec.precision, NextOf(index, next), args, rest);
    (Field(UseOf(index, next), SpecMeaning(spec), p.value, p.nested), p.next, rest)
  }

  predicate Legal(items: seq<Item>, next: int, args: seq<ArgInfo>) {
    if items == [] then true
    else
      match items[0]
      case Text(s) => Legal(items[1..], next, args)
      case FieldText(index, spec) =>
        LegalField(index, spec, next, args) && Legal(items[1..], FieldMeaning(index, spec, next, args, "").1, args)
  }

  function SegmentOf(c: char): Segment {
    if c == '{' || c == '}' then Escaped(c) else Plain(c)
  }

  function TextMeaning(s: string): seq<Segment> {
    if s == "" then []
    else [SegmentOf(s[0])] + TextMeaning(s[1..])
  }

  function Meaning(items: seq<Item>, next: int, args: seq<ArgInfo>): seq<Segment>
    requires Legal(items, next, args)
  {
    if items == [] then []
    else
      match items[0]
      case Text(s) => TextMeaning(s) + Meaning(items[1..], next, args)
      case FieldText(index, spec) =>
        var (field, next', _) := FieldMeaning(index, spec, next, args, "");
        [Hole(field)] + Meaning(items[1..], next', args)
  }

  // ---------------------------------------------------------------- parsing what is printed

  /** Where a character may stand in a specification: a later part has a higher rank. */
  function Rank(c: char): nat {
    if c == '+' || c == '-' || c == ' ' then 1
    else if c == '#' then 2
    else if IsDecimal(c) then 3
    else if c == '.' then 4
    else if IsLetter(c) then 5
    else if c == '}' then 6
    else 0
  }

  predicate StartsAt(s: string, rank: nat) {
    s != "" && Rank(s[0]) >= rank
  }

  lemma NumeralIsDecimal(n: nat)
    ensures AllDecimal(Numeral(n, 10, false)) && ValueFrom(0, Numeral(n, 10, false)) == n
    ensures n > 0 ==> Numeral(n, 10, false)[0] != '0'
  {
    var s := Numeral(n, 10, false);
    NumeralReads(n, 10, false);
    ValueFromZero(s);
    forall k | 0 <= k < |s| ensures IsDecimal(s[k]) {
      DigitCharReads(DigitValue(s[k]), false);
    }
  }

  lemma NumeralParses(n: nat, rest: string, open: nat)
    requires n < UINT_MODULUS && !IsDecimal(Peek(rest))
    ensures ParseUInt(Numeral(n, 10, false) + rest, 0, open) == Ok((n, rest))
    ensures IsDecimal(Peek(Numeral(n, 10, false) + rest))
  {
    NumeralIsDecimal(n);
    ParseUIntExact(Numeral(n, 10, false), rest, 0, open);
  }

  lemma IndexParses(index: Option<nat>, next: int, rest: string, open: nat, numArgs: nat)
    requires LegalIndex(index, next, numArgs) && (Peek(rest) == '}' || Peek(rest) == ':')
    ensures ParseArgIndex(PrintIndex(index) + rest, next, open, numArgs)
         == Ok((UseOf(index, next), NextOf(index, next), rest))
  {
    if index.None? {
      assert "" + rest == rest;
    } else {
      NumeralParses(index.value, rest, open);
    }
  }

  lemma AlignParses(spec: SpecText, arg: ArgInfo, rest: string, open: nat)
    requires LegalSpec(spec, arg) && rest != ""
    requires AlignOf(rest[0]) == Default && (spec.align == Default ==> AlignOf(Peek(rest[1..])) == Default)
    ensures ParseAlign(PrintAlign(spec) + rest, PLAIN, arg, open)
         == Ok((PLAIN.(fill := if spec.fill.None? then ' ' else spec.fill.value, align := spec.align), rest))
  {
    var s := PrintAlign(spec) + rest;
    if spec.align == Default {
      assert s == rest;
    } else if spec.fill.None? {
      assert s == [AlignChar(spec.align)] + rest;
    } else {
      assert s == [spec.fill.value, AlignChar(spec.align)] + rest;
    }
  }

  lemma SignParses(spec: SpecText, given: FormatSpec, arg: ArgInfo, rest: string, open: nat)
    requires LegalSpec(spec, arg) && StartsAt(rest, 2) && !given.signFlag && !given.plusFlag
    ensures ParseSign(PrintChar(spec.sign) + rest, given, arg, open)
         == Ok((given.(signFlag := SpecMeaning(spec).signFlag, plusFlag := SpecMeaning(spec).plusFlag), rest))
  {
    assert spec.sign.None? ==> PrintChar(spec.sign) + rest == rest;
  }

  lemma HashParses(spec: SpecText, given: FormatSpec, arg: ArgInfo, rest: string, open: nat)
    requires LegalSpec(spec, arg) && StartsAt(rest, 3) && !given.hashFlag
    ensures ParseHash((if spec.hash then "#" else "") + rest, given, arg, open) == Ok((given.(hashFlag := spec.hash), rest))
  {
    assert !spec.hash ==> (if spec.hash then "#" else "") + rest == rest;
  }

  lemma WidthParses(spec: SpecText, given: FormatSpec, arg: ArgInfo, rest: string, open: nat)
    requires LegalSpec(spec, arg) && StartsAt(rest, 4) && given.width == 0
    ensures ParseWidth(PrintWidth(spec) + rest, given, arg, open)
         == Ok((given.(width := SpecMeaning(spec).width,
                       fill := if spec.zero then '0' else given.fill,
                       align := if spec.zero then Numeric else given.align), rest))
  {
    var digits := PrintWidth(spec);
    if digits == "" {
      assert digits + rest == rest;
    } else {
      WidthDigits(spec, arg);
      ParseUIntExact(digits, rest, 0, open);
    }
  }

  lemma WidthDigits(spec: SpecText, arg: ArgInfo)
    requires LegalSpec(spec, arg) && PrintWidth(spec) != ""
    ensures AllDecimal(PrintWidth(spec)) && ValueFrom(0, PrintWidth(spec)) == SpecMeaning(spec).width
    ensures PrintWidth(spec)[0] == '0' <==> spec.zero
  {
    var number := PrintIndex(spec.width);
    if spec.width.Some? { NumeralIsDecimal(spec.width.value); }
    if spec.zero {
      assert PrintWidth(spec)[1..] == number;
      assert ValueFrom(0, PrintWidth(spec)) == ValueFrom(0, number);
    } else {
      assert PrintWidth(spec) == number;
    }
  }

  lemma PrecisionParses(p: Option<PrecisionText>, next: int, args: seq<ArgInfo>, arg: ArgInfo, rest: string, open: nat)
    requires LegalPrecision(p, next, args) && (p.Some? ==> arg.DoubleArg?) && StartsAt(rest, 5)
    ensures ParsePrecision(PrintPrecision(p) + rest, next, args, arg, open)
         == Ok(PrecisionMeaning(p, next, args, rest))
  {
    match p
    case None =>
      assert PrintPrecision(p) + rest == rest;
    case Some(DigitsPrecision(n)) =>
      DigitsParse(n, next, args, rest, open);
      DotThen(PrintPrecision(p), Numeral(n, 10, false), rest);
    case Some(NestedField(index)) =>
      NestedParses(index, next, args, rest, open);
      DotThen(PrintPrecision(p), "{" + (PrintIndex(index) + "}"), rest);
      BracesAssociate(PrintIndex(index), rest);
  }

  lemma BracesAssociate(s: string, rest: string)
    ensures "{" + (s + "}") + rest == "{" + (s + ("}" + rest))
  {
  }

  lemma DotThen(part: string, tail: string, rest: string)
    requires part == "." + tail
    ensures Peek(part + rest) == '.' && (part + rest)[1..] == tail + rest
  {
  }

  lemma DigitsParse(n: nat, next: int, args: seq<ArgInfo>, rest: string, open: nat)
    requires n <= INT_MAX && StartsAt(rest, 5)
    ensures ParsePrecisionValue(Numeral(n, 10, false) + rest, next, args, open) == Ok(Precision(n, None, next, rest))
  {
    NumeralParses(n, rest, open);
  }

  lemma NestedParses(index: Option<nat>, next: int, args: seq<ArgInfo>, rest: string, open: nat)
    requires LegalPrecision(Some(NestedField(index)), next, args)
    ensures ParsePrecisionValue("{" + (PrintIndex(index) + ("}" + rest)), next, args, open)
         == Ok(PrecisionMeaning(Some(NestedField(index)), next, args, rest))
  {
    var s := "{" + (PrintIndex(index) + ("}" + rest));
    assert s[1..] == PrintIndex(index) + ("}" + rest);
    IndexParses(index, next, "}" + rest, open + 1, |args|);
    assert ("}" + rest)[1..] == rest;
  }

  predicate NoAlign(s: string) {
    forall k :: 0 <= k < |s| ==> AlignOf(s[k]) == Default
  }

  lemma NumeralNoAlign(n: nat)
    ensures NoAlign(Numeral(n, 10, false))
  {
    NumeralIsDecimal(n);
    var s := Numeral(n, 10, false);
    assert forall k :: 0 <= k < |s| ==> IsDecimal(s[k]);
  }

  /** Behind its alignment, a specification holds no alignment character. */
  lemma NumberSpecNoAlign(spec: SpecText, arg: ArgInfo)
    requires LegalSpec(spec, arg)
    ensures NoAlign(PrintNumberSpec(spec, ""))
  {
    var code := PrintChar(spec.code) + "";
    var precision := PrintPrecision(spec.precision);
    var width := PrintWidth(spec);
    var hash := if spec.hash then "#" else "";
    PrecisionNoAlign(spec.precision);
    WidthNoAlign(spec);
    CharNoAlign(spec, arg);
    assert NoAlign(hash) && code == PrintChar(spec.code);
    NoAlignConcat(precision, code);
    NoAlignConcat(width, precision + code);
    NoAlignConcat(hash, width + (precision + code));
    NoAlignConcat(PrintChar(spec.sign), hash + (width + (precision + code)));
  }

  lemma WidthNoAlign(spec: SpecText)
    ensures NoAlign(PrintWidth(spec))
  {
    if spec.width.Some? { NumeralNoAlign(spec.width.value); }
    NoAlignConcat(if spec.zero then "0" else "", PrintIndex(spec.width));
  }

  lemma CharNoAlign(spec: SpecText, arg: ArgInfo)
    requires LegalSpec(spec, arg)
    ensures NoAlign(PrintChar(spec.sign)) && NoAlign(PrintChar(spec.code))
  {
  }

  lemma NoAlignConcat(a: string, b: string)
    requires NoAlign(a) && NoAlign(b)
    ensures NoAlign(a + b)
  {
  }

  lemma PrecisionNoAlign(p: Option<PrecisionText>)
    ensures NoAlign(PrintPrecision(p))
  {
    match p
    case None =>
    case Some(DigitsPrecision(n)) =>
      NumeralNoAlign(n);
    case Some(NestedField(index)) =>
      if index.Some? { NumeralNoAlign(index.value); }
      NoAlignConcat(PrintIndex(index), "}");
      NoAlignConcat(".{", PrintIndex(index) + "}");
  }

  lemma NumberSpecSplit(spec: SpecText, rest: string)
    ensures PrintNumberSpec(spec, rest) == PrintNumberSpec(spec, "") + rest
    ensures PrintSpec(spec, rest) == PrintSpec(spec, "") + rest
  {
    var code, precision, width := PrintChar(spec.code), PrintPrecision(spec.precision), PrintWidth(spec);
    var hash, sign := if spec.hash then "#" else "", PrintChar(spec.sign);
    assert code + "" == code;
    Associate(precision, code, rest);
    Associate(width, precision + code, rest);
    Associate(hash, width + (precision + code), rest);
    Associate(sign, hash + (width + (precision + code)), rest);
    Associate(PrintAlign(spec), PrintNumberSpec(spec, ""), rest);
  }

  /** Each part of a specification is followed by a character of a later part. */
  lemma PartsInOrder(spec: SpecText, arg: ArgInfo, rest: string)
    requires LegalSpec(spec, arg) && StartsAt(rest, 6)
    ensures var s5 := PrintChar(spec.code) + rest;
            var s4 := PrintPrecision(spec.precision) + s5;
            var s3 := PrintWidth(spec) + s4;
            var s2 := (if spec.hash then "#" else "") + s3;
            && StartsAt(s5, 5) && StartsAt(s4, 4) && StartsAt(s3, 3) && StartsAt(s2, 2)
            && StartsAt(PrintChar(spec.sign) + s2, 1)
  {
    PartThen(PrintChar(spec.code), rest, 5);
    var s5 := PrintChar(spec.code) + rest;
    PartThen(PrintPrecision(spec.precision), s5, 4);
    var s4 := PrintPrecision(spec.precision) + s5;
    if PrintWidth(spec) != "" { WidthDigits(spec, arg); }
    PartThen(PrintWidth(spec), s4, 3);
    var s3 := PrintWidth(spec) + s4;
    PartThen(if spec.hash then "#" else "", s3, 2);
    PartThen(PrintChar(spec.sign), (if spec.hash then "#" else "") + s3, 1);
  }

  lemma PartThen(part: string, rest: string, rank: nat)
    requires part == "" || Rank(part[0]) == rank
    requires StartsAt(rest, rank + 1)
    ensures StartsAt(part + rest, rank)
  {
    assert part == "" ==> part + rest == rest;
  }

  /**
    What a specification is taken for: its meaning, but for an empty one, which is given the alignment of the character
    behind the closing brace.
   */
  function Seen(spec: SpecText, rest: string): FormatSpec
    requires rest != ""
  {
    if PrintSpec(spec, "") == "" then SpecMeaning(spec).(align := AlignOf(Peek(rest[1..]))) else SpecMeaning(spec)
  }

  lemma LayoutParses(spec: SpecText, arg: ArgInfo, rest: string)
    requires LegalSpec(spec, arg) && StartsAt(rest, 6)
    ensures ParseLayout(PrintSpec(spec, rest), arg, 1)
         == Ok((Seen(spec, rest).(code := '\0'), PrintPrecision(spec.precision) + (PrintChar(spec.code) + rest)))
  {
    if PrintSpec(spec, "") == "" {
      EmptyLayoutParses(spec, arg, rest);
    } else {
      AlignAhead(spec, arg, rest);
      AlignParses(spec, arg, PrintNumberSpec(spec, rest), 1);
      NumberSpecParses(spec, arg, rest);
    }
  }

  lemma EmptyLayoutParses(spec: SpecText, arg: ArgInfo, rest: string)
    requires LegalSpec(spec, arg) && StartsAt(rest, 6) && PrintSpec(spec, "") == ""
    ensures PrintSpec(spec, rest) == rest == PrintPrecision(spec.precision) + (PrintChar(spec.code) + rest)
    ensures ParseLayout(rest, arg, 1) == Ok((Seen(spec, rest).(code := '\0'), rest))
  {
    NumberSpecSplit(spec, rest);
    assert "" + rest == rest;
    NothingWritten(spec);
  }

  /** From the sign to the width. */
  lemma NumberSpecParses(spec: SpecText, arg: ArgInfo, rest: string)
    requires LegalSpec(spec, arg) && StartsAt(rest, 6)
    ensures var aligned := PLAIN.(fill := if spec.fill.None? then ' ' else spec.fill.value, align := spec.align);
            var signed := ParseSign(PrintNumberSpec(spec, rest), aligned, arg, 1);
            && signed.Ok?
            && var hashed := ParseHash(signed.value.1, signed.value.0, arg, 1);
            && hashed.Ok?
            && ParseWidth(hashed.value.1, hashed.value.0, arg, 1)
               == Ok((SpecMeaning(spec).(code := '\0'), PrintPrecision(spec.precision) + (PrintChar(spec.code) + rest)))
  {
    PartsInOrder(spec, arg, rest);
    var s4 := PrintPrecision(spec.precision) + (PrintChar(spec.code) + rest);
    var s3 := PrintWidth(spec) + s4;
    var s2 := (if spec.hash then "#" else "") + s3;
    var aligned := PLAIN.(fill := if spec.fill.None? then ' ' else spec.fill.value, align := spec.align);
    SignParses(spec, aligned, arg, s2, 1);
    var signed := aligned.(signFlag := SpecMeaning(spec).signFlag, plusFlag := SpecMeaning(spec).plusFlag);
    HashParses(spec, signed, arg, s3, 1);
    WidthParses(spec, signed.(hashFlag := spec.hash), arg, s4, 1);
  }

  /** The look-ahead for an alignment finds none where none is written. */
  lemma AlignAhead(spec: SpecText, arg: ArgInfo, rest: string)
    requires LegalSpec(spec, arg) && StartsAt(rest, 6) && PrintSpec(spec, "") != ""
    ensures var s1 := PrintNumberSpec(spec, rest);
            s1 != "" && AlignOf(s1[0]) == Default && (spec.align == Default ==> AlignOf(Peek(s1[1..])) == Default)
  {
    var here := PrintNumberSpec(spec, "");
    NumberSpecSplit(spec, rest);
    NumberSpecNoAlign(spec, arg);
    assert PrintNumberSpec(spec, rest) == here + rest;
    if spec.align == Default {
      assert PrintSpec(spec, "") == here;
      assert Peek((here + rest)[1..]) == if |here| > 1 then here[1] else rest[0];
    }
  }

  lemma SpecParses(spec: SpecText, next: int, args: seq<ArgInfo>, arg: ArgInfo, rest: string)
    requires LegalSpec(spec, arg) && LegalPrecision(spec.precision, next, args)
    requires StartsAt(rest, 6)
    ensures ParseSpec(PrintSpec(spec, rest), next, args, arg)
         == Ok((Seen(spec, rest), PrecisionMeaning(spec.precision, next, args, rest)))
  {
    LayoutParses(spec, arg, rest);
    PartThen(PrintChar(spec.code), rest, 5);
    PrecisionParses(spec.precision, next, args, arg, PrintChar(spec.code) + rest, 1);
    CodeParses(spec, Seen(spec, rest), rest);
  }

  lemma CodeParses(spec: SpecText, seen: FormatSpec, rest: string)
    requires StartsAt(rest, 6) && (spec.code.Some? ==> IsLetter(spec.code.value))
    requires seen.code == SpecMeaning(spec).code
    ensures ParseCode(PrintChar(spec.code) + rest, seen.(code := '\0')) == (seen, rest)
  {
    assert spec.code.None? ==> PrintChar(spec.code) + rest == rest;
  }

  /** The spec parser is complete for its grammar: every written field parses to what it means. */
  lemma FieldParses(index: Option<nat>, spec: SpecText, next: int, args: seq<ArgInfo>, rest: string)
    requires LegalField(index, spec, next, args)
    ensures ParseField(PrintField(index, spec, rest)[1..], next, args)
         == Ok(FieldMeaning(index, spec, next, args, rest))
  {
    var use, next' := UseOf(index, next), NextOf(index, next);
    var behind := PrintField(index, spec, rest)[1..];
    if PrintSpec(spec, "") == "" {
      assert behind == PrintIndex(index) + ("}" + rest);
      IndexParses(index, next, "}" + rest, 1, |args|);
      NothingWritten(spec);
    } else {
      assert behind == PrintIndex(index) + (":" + PrintSpec(spec, "}" + rest));
      IndexParses(index, next, ":" + PrintSpec(spec, "}" + rest), 1, |args|);
      SpecParses(spec, next', args, args[use.k], "}" + rest);
      assert (":" + PrintSpec(spec, "}" + rest))[1..] == PrintSpec(spec, "}" + rest);
    }
    assert ("}" + rest)[1..] == rest;
  }

  lemma NothingWritten(spec: SpecText)
    requires PrintSpec(spec, "") == "" && (spec.fill.Some? ==> spec.align != Default)
    ensures SpecMeaning(spec) == PLAIN && spec.precision == None && spec.code == None
  {
  }

  /**
    Parsing inverts printing for whole templates: whatever was written by the grammar is
    read as what it means, without error.
   */
  lemma {:induction false} PrintedParses(items: seq<Item>, next: int, args: seq<ArgInfo>)
    requires Legal(items, next, args)
    ensures Parse(Print(items), next, args) == Parsed(Meaning(items, next, args), Complete)
  {
    if items != [] {
      match items[0]
      case Text(s) =>
        PrintedParses(items[1..], next, args);
        EscapedParses(s, Print(items[1..]), next, args);
      case FieldText(index, spec) =>
        var next' := FieldMeaning(index, spec, next, args, "").1;
        PrintedParses(items[1..], next', args);
        var rest := Print(items[1..]);
        FieldParses(index, spec, next, args, rest);
        FieldOpens(index, spec, next, args, rest);
    }
  }

  lemma FieldOpens(index: Option<nat>, spec: SpecText, next: int, args: seq<ArgInfo>, rest: string)
    requires LegalField(index, spec, next, args)
    ensures PrintField(index, spec, rest)[0] == '{' && Peek(PrintField(index, spec, rest)[1..]) != '{'
  {
    if index.Some? { NumeralIsDecimal(index.value); }
  }

  lemma {:induction false} EscapedParses(s: string, rest: string, next: int, args: seq<ArgInfo>)
    ensures Parse(Escape(s) + rest, next, args).segments == TextMeaning(s) + Parse(rest, next, args).segments
    ensures Parse(Escape(s) + rest, next, args).ending == Parse(rest, next, args).ending
    decreases |s|
  {
    if s == "" {
      assert Escape(s) + rest == rest;
    } else {
      EscapedParses(s[1..], rest, next, args);
      EscapedStep(s, rest, next, args);
    }
  }

  lemma EscapedStep(s: string, rest: string, next: int, args: seq<ArgInfo>)
    requires s != ""
    ensures Parse(Escape(s) + rest, next, args) == Prepend(SegmentOf(s[0]), Parse(Escape(s[1..]) + rest, next, args))
  {
    EscapeFirst(s, rest);
    CharParses(s[0], Escape(s[1..]) + rest, next, args);
  }

  lemma EscapeFirst(s: string, rest: string)
    requires s != ""
    ensures var c, more := s[0], Escape(s[1..]) + rest;
            Escape(s) + rest == (if c == '{' || c == '}' then [c, c] else [c]) + more
  {
  }

  lemma CharParses(c: char, more: string, next: int, args: seq<ArgInfo>)
    ensures c == '{' || c == '}' ==> Parse([c, c] + more, next, args) == Prepend(Escaped(c), Parse(more, next, args))
    ensures c != '{' && c != '}' ==> Parse([c] + more, next, args) == Prepend(Plain(c), Parse(more, next, args))
  {
    assert ([c, c] + more)[2..] == more && ([c] + more)[1..] == more;
  }
}
