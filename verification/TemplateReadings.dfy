/**
  Which templates are accepted, stated on their characters. A field has a reading if it has the shape
  `[index][:[[fill]align][sign][#][width][.precision][code]]`, each part taking what can belong to it;
  it is accepted exactly if it has one and the reading has no fault, and a fault is reported by its name.
 */
module TemplateReadings {
  import opened Outcomes
  import opened Layout
  import opened Templates
  import Numerals
  import MachineInts
  import TemplateGrammar
  import TemplateLaws

  /** Digits as they are written, or the index of a nested field. */
  datatype WrittenPrecision = Figures(digits: string) | Braced(index: string)

  datatype WrittenSpec = WrittenSpec(
    fill: Option<char>, align: Option<char>, sign: Option<char>, hash: bool,
    width: string, precision: Option<WrittenPrecision>, code: Option<char>)

  /** A replacement field; without a colon it has no specification. */
  datatype WrittenField = WrittenField(index: string, spec: Option<WrittenSpec>)

  // ---------------------------------------------------------------- text

  function CharText(c: Option<char>): string {
    if c.None? then "" else [c.value]
  }

  function PrecisionText(p: Option<WrittenPrecision>, rest: string): string {
    match p
    case None => rest
    case Some(Figures(digits)) => "." + (digits + rest)
    case Some(Braced(index)) => ".{" + (index + ("}" + rest))
  }

  // The text of a specification from one of its parts on, in front of the text behind it.

  function FromCode(w: WrittenSpec, rest: string): string {
    CharText(w.code) + rest
  }

  function FromPrecision(w: WrittenSpec, rest: string): string {
    PrecisionText(w.precision, FromCode(w, rest))
  }

  function FromWidth(w: WrittenSpec, rest: string): string {
    w.width + FromPrecision(w, rest)
  }

  function FromHash(w: WrittenSpec, rest: string): string {
    (if w.hash then "#" else "") + FromWidth(w, rest)
  }

  function FromSign(w: WrittenSpec, rest: string): string {
    CharText(w.sign) + FromHash(w, rest)
  }

  function FromFill(w: WrittenSpec, rest: string): string {
    CharText(w.fill) + (CharText(w.align) + FromSign(w, rest))
  }

  /** A field from behind its opening brace, in front of the text behind its closing one. */
  function FieldText(f: WrittenField, rest: string): string {
    f.index + if f.spec.None? then "}" + rest else ":" + FromFill(f.spec.value, "}" + rest)
  }

  // ---------------------------------------------------------------- readings

  predicate IsDigit(c: char) {
    '0' <= c <= '9'
  }

  predicate AreDigits(s: string) {
    forall k :: 0 <= k < |s| ==> IsDigit(s[k])
  }

  predicate IsAlign(c: char) {
    c == '<' || c == '>' || c == '=' || c == '^'
  }

  predicate IsSign(c: char) {
    c == '+' || c == '-' || c == ' '
  }

  predicate Begins(s: string, c: char) {
    s != "" && s[0] == c
  }

  // What each part may be, given the text behind it: none leaves anything behind that it could have taken.

  predicate AlignReads(fill: Option<char>, align: Option<char>, behind: string) {
    && (fill.Some? ==> align.Some? && fill.value != '{' && fill.value != '}')
    && (align.Some? ==> IsAlign(align.value))
    && (align.Some? && fill.None? ==> behind == "" || !IsAlign(behind[0]))
    && (align.None? ==>
          behind == "" || behind[0] == '}' || (!IsAlign(behind[0]) && (|behind| > 1 ==> !IsAlign(behind[1]))))
  }

  predicate SignReads(sign: Option<char>, behind: string) {
    if sign.Some? then IsSign(sign.value) else behind == "" || !IsSign(behind[0])
  }

  predicate HashReads(hash: bool, behind: string) {
    !hash ==> !Begins(behind, '#')
  }

  predicate DigitsRead(digits: string, behind: string) {
    AreDigits(digits) && (behind == "" || !IsDigit(behind[0]))
  }

  predicate PrecisionReads(p: Option<WrittenPrecision>, behind: string) {
    match p
    case None => !Begins(behind, '.')
    case Some(Figures(digits)) => digits != "" && DigitsRead(digits, behind)
    case Some(Braced(index)) => AreDigits(index)
  }

  predicate CodeReads(code: Option<char>) {
    code.Some? ==> code.value != '}'
  }

  /** The specification is what is read in front of `rest`, which begins with the closing brace. */
  predicate SpecReads(w: WrittenSpec, rest: string) {
    && Begins(rest, '}')
    && AlignReads(w.fill, w.align, FromSign(w, rest)) && SignReads(w.sign, FromHash(w, rest))
    && HashReads(w.hash, FromWidth(w, rest)) && DigitsRead(w.width, FromPrecision(w, rest))
    && PrecisionReads(w.precision, FromCode(w, rest)) && CodeReads(w.code)
  }

  predicate FieldReads(f: WrittenField, rest: string) {
    AreDigits(f.index) && (f.spec.Some? ==> SpecReads(f.spec.value, "}" + rest))
  }

  // ---------------------------------------------------------------- faults

  /** A number that is not accepted: one whose overflow is noticed, or one that is too big after wrapping. */
  ghost predicate TooBig(digits: string) {
    TemplateGrammar.WrapNoticed(digits) || Number(digits) > 0x7FFF_FFFF
  }

  function Number(digits: string): nat {
    Numerals.Value(digits, 10) % 0x1_0000_0000
  }

  predicate TakesNumberSigns(arg: ArgInfo) {
    arg.IntArg? || arg.DoubleArg?
  }

  predicate HasNoSign(arg: ArgInfo) {
    arg.IntArg? && (arg.t.UInt? || arg.t.ULong? || arg.t.ULongLong?)
  }

  ghost function IndexFault(index: string, next: int, numArgs: nat): Option<FormatError> {
    if index == "" then
      if next < 0 then Some(ManualToAutomatic) else if next >= numArgs then Some(IndexOutOfRange) else None
    else if next > 0 then Some(AutomaticToManual)
    else if TemplateGrammar.WrapNoticed(index) then Some(NumberTooBig)
    else if Number(index) >= numArgs then Some(IndexOutOfRange)
    else None
  }

  function IndexUseOf(index: string, next: int): IndexUse
    requires index == "" ==> next >= 0
  {
    if index == "" then Auto(next) else Manual(Number(index))
  }

  function NextOf(index: string, next: int): int {
    if index == "" then next + 1 else -1
  }

  ghost function LayoutFault(w: WrittenSpec, arg: ArgInfo): Option<FormatError> {
    if w.align == Some('=') && !TakesNumberSigns(arg) then Some(NeedsNumeric('='))
    else if w.sign.Some? && !TakesNumberSigns(arg) then Some(NeedsNumeric(w.sign.value))
    else if w.sign.Some? && HasNoSign(arg) then Some(NeedsSigned(w.sign.value))
    else if w.hash && !TakesNumberSigns(arg) then Some(NeedsNumeric('#'))
    else if w.width != "" && w.width[0] == '0' && !TakesNumberSigns(arg) then Some(NeedsNumeric('0'))
    else if TooBig(w.width) then Some(NumberTooBig)
    else None
  }

  ghost function PrecisionFault(p: Option<WrittenPrecision>, next: int, args: seq<ArgInfo>, arg: ArgInfo)
    : Option<FormatError>
  {
    match p
    case None => None
    case Some(Figures(digits)) =>
      if TooBig(digits) then Some(NumberTooBig)
      else if !arg.DoubleArg? then Some(PrecisionNeedsFloat)
      else None
    case Some(Braced(index)) =>
      var fault := IndexFault(index, next, |args|);
      if fault.Some? then fault
      else
        var nested := args[IndexUseOf(index, next).k];
        if !nested.IntArg? then Some(PrecisionNotInteger)
        else if nested.value < 0 then Some(NegativePrecision)
        else if nested.value > 0x7FFF_FFFF then Some(NumberTooBig)
        else if !arg.DoubleArg? then Some(PrecisionNeedsFloat)
        else None
  }

  ghost function SpecFault(w: WrittenSpec, next: int, args: seq<ArgInfo>, arg: ArgInfo): Option<FormatError> {
    if LayoutFault(w, arg).Some? then LayoutFault(w, arg) else PrecisionFault(w.precision, next, args, arg)
  }

  /** Why a field is refused, if it is. */
  ghost function Fault(f: WrittenField, next: int, args: seq<ArgInfo>): Option<FormatError> {
    var fault := IndexFault(f.index, next, |args|);
    if fault.Some? || f.spec.None? then fault
    else SpecFault(f.spec.value, NextOf(f.index, next), args, args[IndexUseOf(f.index, next).k])
  }

  /** An error is reported by its name if the text from somewhere in the field on closes the field. */
  ghost function Named(fault: FormatError, text: string): FormatError {
    if TemplateLaws.Closes(text, 1) then fault else UnmatchedOpen
  }

  // ---------------------------------------------------------------- meaning

  function AlignmentOf(c: char): Alignment {
    if c == '<' then Left
    else if c == '>' then Right
    else if c == '=' then Numeric
    else if c == '^' then Center
    else Default
  }

  predicate LeadingZero(w: WrittenSpec) {
    w.width != "" && w.width[0] == '0'
  }

  /** What a specification says; an empty one takes the alignment of the character behind the closing brace. */
  function SpecMeaning(w: WrittenSpec, rest: string): FormatSpec {
    FormatSpec(
      Number(w.width),
      if LeadingZero(w) then '0' else if w.fill.Some? then w.fill.value else ' ',
      if LeadingZero(w) then Numeric
      else if w.align.Some? then AlignmentOf(w.align.value)
      else if FromFill(w, "") == "" && |rest| > 1 then AlignmentOf(rest[1])
      else Default,
      w.sign == Some('+') || w.sign == Some(' '),
      w.sign == Some('+'),
      w.hash,
      if w.code.Some? then w.code.value else '\0')
  }

  ghost predicate PrecisionMeans(p: Option<WrittenPrecision>, next: int, args: seq<ArgInfo>) {
    match p
    case None => true
    case Some(Figures(digits)) => !TooBig(digits)
    case Some(Braced(index)) =>
      IndexFault(index, next, |args|).None? && args[IndexUseOf(index, next).k].IntArg?
  }

  ghost function PrecisionMeaning(p: Option<WrittenPrecision>, next: int, args: seq<ArgInfo>, rest: string): Precision
    requires PrecisionMeans(p, next, args)
  {
    match p
    case None => Precision(-1, None, next, rest)
    case Some(Figures(digits)) => Precision(Number(digits), None, next, rest)
    case Some(Braced(index)) =>
      var use := IndexUseOf(index, next);
      Precision(args[use.k].value, Some(use), NextOf(index, next), rest)
  }

  /** The field, the index state behind it, and what is left. */
  ghost function FieldMeaning(f: WrittenField, next: int, args: seq<ArgInfo>, rest: string): (Field, int, string)
    requires Fault(f, next, args).None?
  {
    var use, next' := IndexUseOf(f.index, next), NextOf(f.index, next);
    if f.spec.None? then (Field(use, PLAIN, -1, None), next', rest)
    else
      var p := PrecisionMeaning(f.spec.value.precision, next', args, "}" + rest);
      (Field(use, SpecMeaning(f.spec.value, "}" + rest), p.value, p.nested), p.next, rest)
  }

  // ---------------------------------------------------------------- every reading is decided

  predicate NoBraces(s: string) {
    '{' !in s && '}' !in s
  }

  /** Where an error is noticed does not matter for its report, as long as no brace is passed. */
  lemma {:induction false} ReportSkips(a: string, b: string, open: nat, error: FormatError)
    requires NoBraces(a)
    ensures Report(a + b, open, error) == Report(b, open, error)
    decreases |a|
  {
    if a == "" {
      assert a + b == b;
    } else {
      assert (a + b)[1..] == a[1..] + b;
      assert a[0] in a && forall c :: c in a[1..] ==> c in a;
      ReportSkips(a[1..], b, open, error);
    }
  }

  lemma {:induction false} UIntError(digits: string, rest: string, value: nat, open: nat)
    requires AreDigits(digits) && (rest == "" || !IsDigit(rest[0]))
    ensures ParseUInt(digits + rest, value, open).Err? ==>
              ParseUInt(digits + rest, value, open) == Err(Report(rest, open, NumberTooBig))
    decreases |digits|
  {
    if digits == "" {
      assert digits + rest == rest;
    } else {
      var s := digits + rest;
      assert s[1..] == digits[1..] + rest;
      DigitsNoBraces(digits[1..]);
      ReportSkips(digits[1..], rest, open, NumberTooBig);
      UIntError(digits[1..], rest, WrapDigit(value, s[0]), open);
    }
  }

  lemma DigitsNoBraces(digits: string)
    requires AreDigits(digits)
    ensures NoBraces(digits) && TemplateGrammar.AllDecimal(digits)
  {
  }

  lemma UIntDecided(digits: string, rest: string, open: nat)
    requires AreDigits(digits) && (rest == "" || !IsDigit(rest[0]))
    ensures ParseUInt(digits + rest, 0, open)
         == if TemplateGrammar.WrapNoticed(digits) then Err(Report(rest, open, NumberTooBig))
            else Ok((Number(digits), rest))
  {
    DigitsNoBraces(digits);
    UIntError(digits, rest, 0, open);
    TemplateGrammar.ParseUIntWraps(digits, rest, open);
  }

  lemma IndexDecided(index: string, rest: string, next: int, open: nat, numArgs: nat)
    requires AreDigits(index) && rest != "" && (rest[0] == '}' || rest[0] == ':')
    ensures var fault := IndexFault(index, next, numArgs);
            ParseArgIndex(index + rest, next, open, numArgs)
            == if fault.Some? then Err(Report(rest, open, fault.value))
               else Ok((IndexUseOf(index, next), NextOf(index, next), rest))
  {
    if index == "" {
      assert index + rest == rest;
    } else {
      UIntDecided(index, rest, open);
      assert (index + rest)[0] == index[0];
      DigitsNoBraces(index);
      ReportSkips(index, rest, open, AutomaticToManual);
    }
  }

  // ---------------------------------------------------------------- the parts of a specification

  lemma NothingEmpty(w: WrittenSpec, rest: string)
    requires rest != ""
    ensures FromCode(w, rest) != "" && FromPrecision(w, rest) != "" && FromWidth(w, rest) != ""
    ensures FromHash(w, rest) != "" && FromSign(w, rest) != ""
  {
  }

  /** Only an empty specification is followed by the brace at once. */
  lemma BraceEndsEmpty(w: WrittenSpec, rest: string)
    requires SpecReads(w, rest)
    ensures FromSign(w, rest)[0] == '}' <==>
              w.sign.None? && !w.hash && w.width == "" && w.precision.None? && w.code.None?
    ensures FromSign(w, rest)[0] == '}' ==> FromSign(w, rest) == rest
  {
    NothingEmpty(w, rest);
    assert "" + rest == rest;
    if w.sign.None? {
      assert FromSign(w, rest) == FromHash(w, rest);
      if !w.hash {
        assert FromHash(w, rest) == FromWidth(w, rest);
        if w.width == "" {
          assert FromWidth(w, rest) == FromPrecision(w, rest);
        } else {
          assert FromWidth(w, rest)[0] == w.width[0];
        }
      }
    }
  }

  function FillOf(w: WrittenSpec): char {
    if w.fill.Some? then w.fill.value else ' '
  }

  function AlignOfSpec(w: WrittenSpec, rest: string): Alignment {
    if w.align.Some? then AlignmentOf(w.align.value)
    else if FromFill(w, "") == "" && |rest| > 1 then AlignmentOf(rest[1])
    else Default
  }

  lemma AlignDecided(w: WrittenSpec, rest: string, arg: ArgInfo)
    requires SpecReads(w, rest)
    ensures ParseAlign(FromFill(w, rest), PLAIN, arg, 1)
         == if w.align == Some('=') && !TakesNumberSigns(arg) then Err(Report(FromSign(w, rest), 1, NeedsNumeric('=')))
            else Ok((PLAIN.(fill := FillOf(w), align := AlignOfSpec(w, rest)), FromSign(w, rest)))
  {
    var behind, s := FromSign(w, rest), FromFill(w, rest);
    NothingEmpty(w, rest);
    if w.align.None? {
      assert s == behind;
      NoAlignDecided(w, rest, arg);
    } else if w.fill.None? {
      AlignAlone(w.align.value, behind, arg);
      assert s == [w.align.value] + behind;
    } else {
      FillAndAlign(w.fill.value, w.align.value, behind, arg);
      assert s == [w.fill.value] + ([w.align.value] + behind);
    }
  }

  lemma AlignAlone(a: char, behind: string, arg: ArgInfo)
    requires IsAlign(a) && behind != "" && !IsAlign(behind[0])
    ensures ParseAlign([a] + behind, PLAIN, arg, 1)
         == if a == '=' && !TakesNumberSigns(arg) then Err(Report(behind, 1, NeedsNumeric('=')))
            else Ok((PLAIN.(fill := ' ', align := AlignmentOf(a)), behind))
  {
    assert ([a] + behind)[1..] == behind;
  }

  lemma FillAndAlign(fill: char, a: char, behind: string, arg: ArgInfo)
    requires IsAlign(a) && fill != '{' && fill != '}'
    ensures ParseAlign([fill] + ([a] + behind), PLAIN, arg, 1)
         == if a == '=' && !TakesNumberSigns(arg) then Err(Report(behind, 1, NeedsNumeric('=')))
            else Ok((PLAIN.(fill := fill, align := AlignmentOf(a)), behind))
  {
    var s := [fill] + ([a] + behind);
    assert s[1..] == [a] + behind && s[2..] == behind;
  }

  lemma NoAlignDecided(w: WrittenSpec, rest: string, arg: ArgInfo)
    requires SpecReads(w, rest) && w.align.None?
    ensures ParseAlign(FromSign(w, rest), PLAIN, arg, 1)
         == Ok((PLAIN.(fill := FillOf(w), align := AlignOfSpec(w, rest)), FromSign(w, rest)))
  {
    var behind := FromSign(w, rest);
    NothingEmpty(w, rest);
    BraceEndsEmpty(w, rest);
    EmptyText(w);
    if |behind| > 1 { assert behind[1..][0] == behind[1]; }
  }

  lemma EmptyText(w: WrittenSpec)
    ensures FromFill(w, "") == "" <==>
              w.fill.None? && w.align.None? && w.sign.None? && !w.hash && w.width == ""
              && w.precision.None? && w.code.None?
  {
  }

  lemma SignDecided(w: WrittenSpec, rest: string, given: FormatSpec, arg: ArgInfo)
    requires SpecReads(w, rest) && !given.signFlag && !given.plusFlag
    ensures ParseSign(FromSign(w, rest), given, arg, 1)
         == if w.sign.Some? && !TakesNumberSigns(arg) then
              Err(Report(FromHash(w, rest), 1, NeedsNumeric(w.sign.value)))
            else if w.sign.Some? && HasNoSign(arg) then Err(Report(FromHash(w, rest), 1, NeedsSigned(w.sign.value)))
            else Ok((given.(signFlag := w.sign == Some('+') || w.sign == Some(' '), plusFlag := w.sign == Some('+')),
                     FromHash(w, rest)))
  {
    NothingEmpty(w, rest);
    var s, behind := FromSign(w, rest), FromHash(w, rest);
    if w.sign.None? {
      assert s == behind;
    } else {
      var c := w.sign.value;
      assert s == [c] + behind && s[1..] == behind;
      assert NoBraces([c]);
      ReportSkips([c], behind, 1, NeedsNumeric(c));
      ReportSkips([c], behind, 1, NeedsSigned(c));
    }
  }

  lemma HashDecided(w: WrittenSpec, rest: string, given: FormatSpec, arg: ArgInfo)
    requires SpecReads(w, rest) && !given.hashFlag
    ensures ParseHash(FromHash(w, rest), given, arg, 1)
         == if w.hash && !TakesNumberSigns(arg) then Err(Report(FromWidth(w, rest), 1, NeedsNumeric('#')))
            else Ok((given.(hashFlag := w.hash), FromWidth(w, rest)))
  {
    NothingEmpty(w, rest);
    var s, behind := FromHash(w, rest), FromWidth(w, rest);
    if w.hash {
      assert s == ['#'] + behind && s[1..] == behind;
      ReportSkips(['#'], behind, 1, NeedsNumeric('#'));
    } else {
      assert s == behind;
    }
  }

  lemma WidthDecided(w: WrittenSpec, rest: string, given: FormatSpec, arg: ArgInfo)
    requires SpecReads(w, rest) && given.width == 0
    ensures ParseWidth(FromWidth(w, rest), given, arg, 1)
         == if LeadingZero(w) && !TakesNumberSigns(arg) then Err(Report(FromPrecision(w, rest), 1, NeedsNumeric('0')))
            else if TooBig(w.width) then Err(Report(FromPrecision(w, rest), 1, NumberTooBig))
            else Ok((given.(width := Number(w.width), fill := if LeadingZero(w) then '0' else given.fill,
                            align := if LeadingZero(w) then Numeric else given.align), FromPrecision(w, rest)))
  {
    NothingEmpty(w, rest);
    var s, behind := FromWidth(w, rest), FromPrecision(w, rest);
    if w.width == "" {
      assert s == behind;
      assert !TooBig("");
    } else {
      assert s[0] == w.width[0];
      UIntDecided(w.width, behind, 1);
      DigitsNoBraces(w.width);
      ReportSkips(w.width, behind, 1, NeedsNumeric('0'));
    }
  }

  lemma BracedText(index: string, behind: string)
    ensures var s := ".{" + (index + ("}" + behind));
            s[0] == '.' && s[1..] == "{" + (index + ("}" + behind)) && s[1..][1..] == index + ("}" + behind)
    ensures ("}" + behind)[1..] == behind
  {
  }

  lemma PrecisionDecided(w: WrittenSpec, rest: string, next: int, args: seq<ArgInfo>, arg: ArgInfo)
    requires SpecReads(w, rest)
    ensures var fault := PrecisionFault(w.precision, next, args, arg);
            && (fault.Some? ==> ParsePrecision(FromPrecision(w, rest), next, args, arg, 1)
                                == Err(Report(FromCode(w, rest), 1, fault.value)))
            && (fault.None? ==> PrecisionMeans(w.precision, next, args))
            && (fault.None? ==> ParsePrecision(FromPrecision(w, rest), next, args, arg, 1)
                                == Ok(PrecisionMeaning(w.precision, next, args, FromCode(w, rest))))
  {
    var s, behind := FromPrecision(w, rest), FromCode(w, rest);
    NothingEmpty(w, rest);
    match w.precision
    case None =>
    case Some(Figures(digits)) =>
      assert s == "." + (digits + behind) && s[1..] == digits + behind;
      assert (digits + behind)[0] == digits[0];
      UIntDecided(digits, behind, 1);
    case Some(Braced(index)) =>
      BracedText(index, behind);
      NestedDecided(index, behind, next, args);
  }

  lemma NestedDecided(index: string, behind: string, next: int, args: seq<ArgInfo>)
    requires AreDigits(index)
    ensures var fault := IndexFault(index, next, |args|);
            var value := ParsePrecisionValue("{" + (index + ("}" + behind)), next, args, 1);
            if fault.Some? then value == Err(Report(behind, 1, fault.value))
            else
              var nested := args[IndexUseOf(index, next).k];
              if !nested.IntArg? then value == Err(Report(behind, 1, PrecisionNotInteger))
              else if nested.value < 0 then value == Err(Report(behind, 1, NegativePrecision))
              else if nested.value > 0x7FFF_FFFF then value == Err(Report(behind, 1, NumberTooBig))
              else value == Ok(Precision(nested.value, Some(IndexUseOf(index, next)), NextOf(index, next), behind))
  {
    var s := "{" + (index + ("}" + behind));
    assert s[1..] == index + ("}" + behind) && ("}" + behind)[1..] == behind;
    IndexDecided(index, "}" + behind, next, 2, |args|);
  }

  lemma CodeDecided(w: WrittenSpec, rest: string, given: FormatSpec)
    requires SpecReads(w, rest) && given.code == '\0'
    ensures ParseCode(FromCode(w, rest), given)
         == (given.(code := if w.code.Some? then w.code.value else '\0'), rest)
  {
    if w.code.None? {
      assert FromCode(w, rest) == rest;
    } else {
      assert FromCode(w, rest)[1..] == rest;
    }
  }

  /** Up to the type code no brace is passed that is not closed. */
  lemma ReportsAgree(w: WrittenSpec, rest: string, error: FormatError)
    requires SpecReads(w, rest)
    ensures Report(FromPrecision(w, rest), 1, error) == Report(FromCode(w, rest), 1, error)
    ensures Report(FromWidth(w, rest), 1, error) == Report(FromCode(w, rest), 1, error)
    ensures Report(FromHash(w, rest), 1, error) == Report(FromCode(w, rest), 1, error)
    ensures Report(FromSign(w, rest), 1, error) == Report(FromCode(w, rest), 1, error)
    ensures Report(FromFill(w, rest), 1, error) == Report(FromCode(w, rest), 1, error)
  {
    PrecisionSkips(w.precision, FromCode(w, rest), error);
    DigitsNoBraces(w.width);
    ReportSkips(w.width, FromPrecision(w, rest), 1, error);
    ReportSkips(if w.hash then "#" else "", FromWidth(w, rest), 1, error);
    ReportSkips(CharText(w.sign), FromHash(w, rest), 1, error);
    ReportSkips(CharText(w.align), FromSign(w, rest), 1, error);
    ReportSkips(CharText(w.fill), CharText(w.align) + FromSign(w, rest), 1, error);
  }

  lemma PrecisionSkips(p: Option<WrittenPrecision>, behind: string, error: FormatError)
    requires p.Some? && p.value.Figures? ==> AreDigits(p.value.digits)
    requires p.Some? && p.value.Braced? ==> AreDigits(p.value.index)
    ensures Report(PrecisionText(p, behind), 1, error) == Report(behind, 1, error)
  {
    match p
    case None =>
    case Some(Figures(digits)) =>
      DigitsNoBraces(digits);
      ReportSkips(digits, behind, 1, error);
      ReportSkips(".", digits + behind, 1, error);
    case Some(Braced(index)) =>
      BracedText(index, behind);
      DigitsNoBraces(index);
      ReportSkips(index, "}" + behind, 2, error);
  }

  /** From the sign to the width, all errors reported from the type code on. */
  lemma SignToWidthDecided(w: WrittenSpec, rest: string, given: FormatSpec, arg: ArgInfo)
    requires SpecReads(w, rest) && !given.signFlag && !given.plusFlag && !given.hashFlag && given.width == 0
    ensures var fault := LayoutFault(w.(align := None), arg);
            ParseSignToWidth(FromSign(w, rest), given, arg)
            == if fault.Some? then Err(Report(FromCode(w, rest), 1, fault.value))
               else Ok((NumberMeaning(w, given), FromPrecision(w, rest)))
  {
    var fault := LayoutFault(w.(align := None), arg);
    if fault.Some? { ReportsAgree(w, rest, fault.value); }
    var signed := given.(signFlag := w.sign == Some('+') || w.sign == Some(' '), plusFlag := w.sign == Some('+'));
    SignDecided(w, rest, given, arg);
    HashDecided(w, rest, signed, arg);
    WidthDecided(w, rest, signed.(hashFlag := w.hash), arg);
  }

  function NumberMeaning(w: WrittenSpec, given: FormatSpec): FormatSpec {
    given.(signFlag := w.sign == Some('+') || w.sign == Some(' '), plusFlag := w.sign == Some('+'),
           hashFlag := w.hash, width := Number(w.width),
           fill := if LeadingZero(w) then '0' else given.fill,
           align := if LeadingZero(w) then Numeric else given.align)
  }

  function ParseSignToWidth(s: string, given: FormatSpec, arg: ArgInfo): Step<(FormatSpec, string)> {
    var (signed, s2) :- ParseSign(s, given, arg, 1);
    var (hashed, s3) :- ParseHash(s2, signed, arg, 1);
    ParseWidth(s3, hashed, arg, 1)
  }

  lemma LayoutDecided(w: WrittenSpec, rest: string, arg: ArgInfo)
    requires SpecReads(w, rest)
    ensures var fault := LayoutFault(w, arg);
            ParseLayout(FromFill(w, rest), arg, 1)
            == if fault.Some? then Err(Report(FromCode(w, rest), 1, fault.value))
               else Ok((SpecMeaning(w, rest).(code := '\0'), FromPrecision(w, rest)))
  {
    ReportsAgree(w, rest, NeedsNumeric('='));
    AlignDecided(w, rest, arg);
    var aligned := PLAIN.(fill := FillOf(w), align := AlignOfSpec(w, rest));
    SignToWidthDecided(w, rest, aligned, arg);
    assert NumberMeaning(w, aligned) == SpecMeaning(w, rest).(code := '\0');
    LayoutIsParts(FromFill(w, rest), arg);
  }

  lemma LayoutIsParts(s: string, arg: ArgInfo)
    ensures var aligned := ParseAlign(s, PLAIN, arg, 1);
            ParseLayout(s, arg, 1)
            == if aligned.Err? then Err(aligned.error) else ParseSignToWidth(aligned.value.1, aligned.value.0, arg)
  {
  }

  lemma SpecDecided(w: WrittenSpec, rest: string, next: int, args: seq<ArgInfo>, arg: ArgInfo)
    requires SpecReads(w, rest)
    ensures var fault := SpecFault(w, next, args, arg);
            && (fault.Some? ==> ParseSpec(FromFill(w, rest), next, args, arg)
                                == Err(Report(FromCode(w, rest), 1, fault.value)))
            && (fault.None? ==> PrecisionMeans(w.precision, next, args))
            && (fault.None? ==> ParseSpec(FromFill(w, rest), next, args, arg)
                                == Ok((SpecMeaning(w, rest), PrecisionMeaning(w.precision, next, args, rest))))
  {
    LayoutDecided(w, rest, arg);
    PrecisionDecided(w, rest, next, args, arg);
    CodeDecided(w, rest, SpecMeaning(w, rest).(code := '\0'));
  }

  /**
    Every field that has a reading is decided by it: it is accepted, with what it says, if the reading has
    no fault; otherwise the fault is reported by its name, or the brace if the field is not closed.
   */
  lemma FieldDecided(f: WrittenField, next: int, args: seq<ArgInfo>, rest: string)
    requires FieldReads(f, rest)
    ensures var fault := Fault(f, next, args);
            && (fault.Some? ==>
                  ParseField(FieldText(f, rest), next, args) == Err(Named(fault.value, FieldText(f, rest))))
            && (fault.None? ==>
                  ParseField(FieldText(f, rest), next, args) == Ok(FieldMeaning(f, next, args, rest)))
  {
    var fault := Fault(f, next, args);
    var behind := if f.spec.None? then "}" + rest else ":" + FromFill(f.spec.value, "}" + rest);
    IndexDecided(f.index, behind, next, 1, |args|);
    DigitsNoBraces(f.index);
    if fault.Some? {
      ReportSkips(f.index, behind, 1, fault.value);
      TemplateLaws.ReportIffClosed(FieldText(f, rest), 1, fault.value);
    }
    if f.spec.None? {
      assert ("}" + rest)[1..] == rest;
    } else if IndexFault(f.index, next, |args|).None? {
      SpecFieldDecided(f, next, args, rest);
    }
  }

  lemma SpecFieldDecided(f: WrittenField, next: int, args: seq<ArgInfo>, rest: string)
    requires FieldReads(f, rest) && f.spec.Some? && IndexFault(f.index, next, |args|).None?
    ensures var w, use := f.spec.value, IndexUseOf(f.index, next);
            var parsed := ParseFieldSpec(use, ":" + FromFill(w, "}" + rest), NextOf(f.index, next), args);
            var fault := Fault(f, next, args);
            && (fault.Some? ==> parsed == Err(Report(":" + FromFill(w, "}" + rest), 1, fault.value)))
            && (fault.None? ==> parsed == Ok(FieldMeaning(f, next, args, rest)))
  {
    var w, use, next' := f.spec.value, IndexUseOf(f.index, next), NextOf(f.index, next);
    var s := ":" + FromFill(w, "}" + rest);
    assert s[1..] == FromFill(w, "}" + rest);
    SpecDecided(w, "}" + rest, next', args, args[use.k]);
    assert ("}" + rest)[1..] == rest;
    var fault := Fault(f, next, args);
    if fault.Some? {
      ReportsAgree(w, "}" + rest, fault.value);
      ReportSkips(":", FromFill(w, "}" + rest), 1, fault.value);
    }
  }

  // ---------------------------------------------------------------- what is accepted has a reading

  lemma {:induction false} DigitSpan(s: string) returns (digits: string, rest: string)
    ensures s == digits + rest && DigitsRead(digits, rest)
    decreases |s|
  {
    if s != "" && IsDigit(s[0]) {
      digits, rest := DigitSpan(s[1..]);
      digits := [s[0]] + digits;
    } else {
      digits, rest := "", s;
    }
  }

  lemma AlignFound(s: string, arg: ArgInfo) returns (fill: Option<char>, align: Option<char>)
    requires ParseAlign(s, PLAIN, arg, 1).Ok?
    ensures var behind := ParseAlign(s, PLAIN, arg, 1).value.1;
            s == CharText(fill) + (CharText(align) + behind) && AlignReads(fill, align, behind)
  {
    var behind := ParseAlign(s, PLAIN, arg, 1).value.1;
    fill, align := None, None;
    if |s| > 1 && IsAlign(s[1]) && s[0] != '}' {
      fill, align := Some(s[0]), Some(s[1]);
      assert s == [s[0]] + ([s[1]] + s[2..]);
    } else if |s| > 0 && IsAlign(s[0]) {
      align := Some(s[0]);
      assert s == [s[0]] + s[1..];
    }
  }

  lemma SignFound(s: string, given: FormatSpec, arg: ArgInfo) returns (sign: Option<char>)
    requires ParseSign(s, given, arg, 1).Ok?
    ensures var behind := ParseSign(s, given, arg, 1).value.1;
            s == CharText(sign) + behind && SignReads(sign, behind)
  {
    sign := None;
    if s != "" && IsSign(s[0]) {
      sign := Some(s[0]);
      assert s == [s[0]] + s[1..];
    }
  }

  lemma HashFound(s: string, given: FormatSpec, arg: ArgInfo) returns (hash: bool)
    requires ParseHash(s, given, arg, 1).Ok?
    ensures var behind := ParseHash(s, given, arg, 1).value.1;
            s == (if hash then "#" else "") + behind && HashReads(hash, behind)
  {
    hash := Begins(s, '#');
    if hash { assert s == "#" + s[1..]; }
  }

  lemma WidthFound(s: string, given: FormatSpec, arg: ArgInfo) returns (width: string)
    requires ParseWidth(s, given, arg, 1).Ok?
    ensures var behind := ParseWidth(s, given, arg, 1).value.1;
            s == width + behind && DigitsRead(width, behind)
  {
    var rest;
    width, rest := DigitSpan(s);
    if width != "" {
      assert s[0] == width[0];
      UIntDecided(width, rest, 1);
    }
  }

  lemma PrecisionFound(s: string, next: int, args: seq<ArgInfo>, arg: ArgInfo) returns (p: Option<WrittenPrecision>)
    requires ParsePrecision(s, next, args, arg, 1).Ok?
    ensures var behind := ParsePrecision(s, next, args, arg, 1).value.rest;
            s == PrecisionText(p, behind) && PrecisionReads(p, behind)
  {
    p := None;
    if Begins(s, '.') {
      var tail := s[1..];
      assert s == "." + tail;
      if tail != "" && IsDigit(tail[0]) {
        var digits, rest := DigitSpan(tail);
        UIntDecided(digits, rest, 1);
        p := Some(Figures(digits));
      } else {
        var index := BracedFound(tail, next, args);
        p := Some(Braced(index));
        assert "." + ("{" + (index + ("}" + ParsePrecision(s, next, args, arg, 1).value.rest))) == s;
      }
    }
  }

  lemma BracedFound(s: string, next: int, args: seq<ArgInfo>) returns (index: string)
    requires (s == "" || !IsDigit(s[0])) && ParsePrecisionValue(s, next, args, 1).Ok?
    ensures var behind := ParsePrecisionValue(s, next, args, 1).value.rest;
            s == "{" + (index + ("}" + behind)) && AreDigits(index)
  {
    assert s == "{" + s[1..];
    var rest;
    index, rest := DigitSpan(s[1..]);
    IndexFound(index, rest, next, 2, |args|);
    assert rest == "}" + rest[1..];
  }

  /** Whatever is read as an index leaves the text behind its digits. */
  lemma IndexFound(index: string, rest: string, next: int, open: nat, numArgs: nat)
    requires DigitsRead(index, rest) && ParseArgIndex(index + rest, next, open, numArgs).Ok?
    ensures ParseArgIndex(index + rest, next, open, numArgs).value.2 == rest
  {
    if index == "" {
      assert index + rest == rest;
    } else {
      assert (index + rest)[0] == index[0];
      UIntDecided(index, rest, open);
    }
  }

  lemma LayoutFound(s: string, arg: ArgInfo) returns (w: WrittenSpec)
    requires ParseLayout(s, arg, 1).Ok?
    ensures w.precision.None? && w.code.None?
    ensures var behind := ParseLayout(s, arg, 1).value.1;
            var s3 := w.width + behind;
            var s2 := (if w.hash then "#" else "") + s3;
            var s1 := CharText(w.sign) + s2;
            && s == CharText(w.fill) + (CharText(w.align) + s1)
            && AlignReads(w.fill, w.align, s1) && SignReads(w.sign, s2) && HashReads(w.hash, s3)
            && DigitsRead(w.width, behind)
  {
    var (aligned, s1) := ParseAlign(s, PLAIN, arg, 1).value;
    var (signed, s2) := ParseSign(s1, aligned, arg, 1).value;
    var (hashed, s3) := ParseHash(s2, signed, arg, 1).value;
    var fill, align := AlignFound(s, arg);
    var sign := SignFound(s1, aligned, arg);
    var hash := HashFound(s2, signed, arg);
    var width := WidthFound(s3, hashed, arg);
    w := WrittenSpec(fill, align, sign, hash, width, None, None);
  }

  lemma SpecFound(s: string, next: int, args: seq<ArgInfo>, arg: ArgInfo) returns (w: WrittenSpec)
    requires ParseSpec(s, next, args, arg).Ok? && Begins(ParseSpec(s, next, args, arg).value.1.rest, '}')
    ensures var rest := ParseSpec(s, next, args, arg).value.1.rest;
            s == FromFill(w, rest) && SpecReads(w, rest)
  {
    var rest := ParseSpec(s, next, args, arg).value.1.rest;
    var (laidOut, s4) := ParseLayout(s, arg, 1).value;
    var s5 := ParsePrecision(s4, next, args, arg, 1).value.rest;
    var front := LayoutFound(s, arg);
    var precision := PrecisionFound(s4, next, args, arg);
    var code := CodeFound(s5, laidOut);
    w := front.(precision := precision, code := code);
    Assembled(w, s4, s5, rest);
  }

  lemma CodeFound(s: string, given: FormatSpec) returns (code: Option<char>)
    ensures var behind := ParseCode(s, given).1;
            s == CharText(code) + behind && CodeReads(code)
  {
    if s != "" && s[0] != '}' {
      code := Some(s[0]);
      assert s == [s[0]] + s[1..];
    } else {
      code := None;
    }
  }

  lemma Assembled(w: WrittenSpec, s4: string, s5: string, rest: string)
    requires s5 == CharText(w.code) + rest && s4 == PrecisionText(w.precision, s5)
    ensures FromCode(w, rest) == s5 && FromPrecision(w, rest) == s4
    ensures FromFill(w, rest)
         == CharText(w.fill)
            + (CharText(w.align) + (CharText(w.sign) + ((if w.hash then "#" else "") + (w.width + s4))))
  {
  }

  /** A field that is accepted has a reading; by `FieldDecided` that has no fault. */
  lemma FieldFound(s: string, next: int, args: seq<ArgInfo>) returns (f: WrittenField)
    requires ParseField(s, next, args).Ok?
    ensures var rest := ParseField(s, next, args).value.2;
            s == FieldText(f, rest) && FieldReads(f, rest) && Fault(f, next, args).None?
  {
    var rest := ParseField(s, next, args).value.2;
    var index, behind := DigitSpan(s);
    IndexFound(index, behind, next, 1, |args|);
    var (use, next', _) := ParseArgIndex(s, next, 1, |args|).value;
    var spec := BehindIndexFound(behind, use, next', args);
    f := WrittenField(index, spec);
    FieldDecided(f, next, args, rest);
  }

  lemma BehindIndexFound(s: string, use: IndexUse, next: int, args: seq<ArgInfo>) returns (spec: Option<WrittenSpec>)
    requires use.k < |args| && ParseFieldSpec(use, s, next, args).Ok?
    ensures var rest := ParseFieldSpec(use, s, next, args).value.2;
            && s == (if spec.None? then "}" + rest else ":" + FromFill(spec.value, "}" + rest))
            && (spec.Some? ==> SpecReads(spec.value, "}" + rest))
  {
    if Begins(s, ':') {
      var closing := ParseSpec(s[1..], next, args, args[use.k]).value.1.rest;
      var w := SpecFound(s[1..], next, args, args[use.k]);
      assert closing == "}" + closing[1..] && s == ":" + s[1..];
      spec := Some(w);
    } else {
      spec := None;
      assert s == "}" + s[1..];
    }
  }
}
