/**
  The format-string language, as a two-phase reference: `Parse` turns a template into segments and
  `RenderAll` turns segments into text. The writer's single-pass parser (module FormatParsers)
  is proved to have the same effect.

  A template is a C string: it holds no NUL, and reading at its end yields NUL. Each function takes
  the part of the template that is still unread and returns what it leaves.
 */
module Templates {
  import opened Outcomes
  import opened Numerals
  import MachineInts
  import opened Layout

  const INT_MAX: nat := 0x7FFF_FFFF
  const UINT_MODULUS: nat := 0x1_0000_0000

  /**
    `ArgInfo`. How a floating-point number prints, and how a custom argument prints itself,
    are given by the argument.
   */
  datatype ArgInfo =
    | IntArg(t: MachineInts.IntType, value: int)
    | DoubleArg(printDouble: (FormatSpec, int) -> Result<string, FormatError>)
    | CharArg(c: char)
    | StringArg(text: Option<string>)
    | PointerArg(address: nat)
    | CustomArg(printCustom: FormatSpec -> Result<string, FormatError>)
  {
    predicate Valid() {
      && (IntArg? ==> t.InRange(value))
      && (PointerArg? ==> MachineInts.IntType.ULong.InRange(address))
    }

    /** `type <= LAST_NUMERIC_TYPE` */
    predicate IsNumeric() {
      IntArg? || DoubleArg?
    }

    predicate IsUnsigned() {
      IntArg? && !t.Signed()
    }
  }

  predicate ValidArgs(args: seq<ArgInfo>) {
    forall k :: 0 <= k < |args| ==> args[k].Valid()
  }

  /** How a field named its argument: by position in the template, or by a written index. */
  datatype IndexUse = Auto(k: nat) | Manual(k: nat)

  datatype Field = Field(use: IndexUse, spec: FormatSpec, precision: int, nested: Option<IndexUse>)

  datatype Segment = Plain(c: char) | Escaped(c: char) | Hole(field: Field)

  /** How parsing ends: at the template's end, at a closing brace without field, or in a bad field. */
  datatype Ending = Complete | StrayBrace | Failed(error: FormatError)

  /** The segments up to the first syntax error, and how parsing ended. */
  datatype Parsed = Parsed(segments: seq<Segment>, ending: Ending)

  /** The part of a text that `c_str()` shows: it ends in front of the first NUL. */
  function CString(s: string): (t: string)
    ensures t <= s && '\0' !in t
    ensures t == s <==> '\0' !in s
    ensures |t| < |s| ==> s[|t|] == '\0'
  {
    if s == "" || s[0] == '\0' then "" else [s[0]] + CString(s[1..])
  }

  type Step<T> = Result<T, FormatError>

  function Peek(s: string): char {
    if s == "" then '\0' else s[0]
  }

  /**
    `ReportError`: the error, unless the rest of the template leaves a brace open; then
    the unmatched brace is reported instead.
   */
  function Report(rest: string, open: nat, error: FormatError): FormatError {
    if rest == "" then UnmatchedOpen
    else if rest[0] == '{' then Report(rest[1..], open + 1, error)
    else if rest[0] == '}' then (if open <= 1 then error else Report(rest[1..], open - 1, error))
    else Report(rest[1..], open, error)
  }

  /** One digit of `ParseUInt` in 32-bit arithmetic. */
  function WrapDigit(value: nat, c: char): nat
    requires IsDecimal(c)
  {
    (value * 10 + DigitValue(c)) % UINT_MODULUS
  }

  /** `ParseUInt` with the digits read so far folded into `value`. */
  function ParseUInt(s: string, value: nat, open: nat): (r: Step<(nat, string)>)
    ensures r.Ok? ==> |r.value.1| <= |s| && (IsDecimal(Peek(s)) ==> |r.value.1| < |s|)
  {
    if !IsDecimal(Peek(s)) then Ok((value, s))
    else
      var newValue := WrapDigit(value, s[0]);
      if newValue < value then Err(Report(s[1..], open, NumberTooBig))
      else ParseUInt(s[1..], newValue, open)
  }

  /** `ParseArgIndex`; `next` is the parser's `next_arg_index_`, negative once indices are manual. */
  function ParseArgIndex(s: string, next: int, open: nat, numArgs: nat): (r: Step<(IndexUse, int, string)>)
    ensures r.Ok? ==> r.value.0.k < numArgs && |r.value.2| <= |s|
  {
    if !IsDecimal(Peek(s)) then
      if Peek(s) != '}' && Peek(s) != ':' then Err(Report(s, open, InvalidIndex))
      else if next < 0 then Err(Report(s, open, ManualToAutomatic))
      else if next >= numArgs then Err(Report(s, open, IndexOutOfRange))
      else Ok((Auto(next), next + 1, s))
    else if next > 0 then Err(Report(s, open, AutomaticToManual))
    else
      var (index, rest) :- ParseUInt(s, 0, open);
      if index >= numArgs then Err(Report(rest, open, IndexOutOfRange))
      else Ok((Manual(index), -1, rest))
  }

  function AlignOf(c: char): Alignment {
    if c == '<' then Left
    else if c == '>' then Right
    else if c == '=' then Numeric
    else if c == '^' then Center
    else Default
  }

  /**
    Fill and alignment. The second character is looked at first; when it is an alignment
    but the first is the closing brace, the alignment sticks although nothing is consumed.
   */
  function ParseAlign(s: string, spec: FormatSpec, arg: ArgInfo, open: nat): (r: Step<(FormatSpec, string)>)
    ensures r.Ok? ==> |r.value.1| <= |s|
  {
    if s == "" then Ok((spec, s))
    else
      var second := AlignOf(Peek(s[1..]));
      if second != Default then
        if s[0] == '}' then Ok((spec.(align := second), s))
        else if s[0] == '{' then Err(Report(s, open, InvalidFill))
        else if second == Numeric && !arg.IsNumeric() then Err(Report(s[2..], open, NeedsNumeric('=')))
        else Ok((spec.(fill := s[0], align := second), s[2..]))
      else
        var first := AlignOf(s[0]);
        if first == Default then Ok((spec.(align := Default), s))
        else if first == Numeric && !arg.IsNumeric() then Err(Report(s[1..], open, NeedsNumeric('=')))
        else Ok((spec.(align := first), s[1..]))
  }

  function ParseSign(s: string, spec: FormatSpec, arg: ArgInfo, open: nat): (r: Step<(FormatSpec, string)>)
    ensures r.Ok? ==> |r.value.1| <= |s|
  {
    var c := Peek(s);
    if c != '+' && c != '-' && c != ' ' then Ok((spec, s))
    else if !arg.IsNumeric() then Err(Report(s, open, NeedsNumeric(c)))
    else if arg.IsUnsigned() then Err(Report(s, open, NeedsSigned(c)))
    else if c == '+' then Ok((spec.(signFlag := true, plusFlag := true), s[1..]))
    else if c == ' ' then Ok((spec.(signFlag := true), s[1..]))
    else Ok((spec, s[1..]))
  }

  function ParseHash(s: string, spec: FormatSpec, arg: ArgInfo, open: nat): (r: Step<(FormatSpec, string)>)
    ensures r.Ok? ==> |r.value.1| <= |s|
  {
    if Peek(s) != '#' then Ok((spec, s))
    else if !arg.IsNumeric() then Err(Report(s, open, NeedsNumeric('#')))
    else Ok((spec.(hashFlag := true), s[1..]))
  }

  function ParseWidth(s: string, spec: FormatSpec, arg: ArgInfo, open: nat): (r: Step<(FormatSpec, string)>)
    ensures r.Ok? ==> |r.value.1| <= |s|
  {
    if !IsDecimal(Peek(s)) then Ok((spec, s))
    else if s[0] == '0' && !arg.IsNumeric() then Err(Report(s, open, NeedsNumeric('0')))
    else
      var flagged := if s[0] == '0' then spec.(align := Numeric, fill := '0') else spec;
      var (width, rest) :- ParseUInt(s, 0, open);
      if width > INT_MAX then Err(Report(rest, open, NumberTooBig))
      else Ok((flagged.(width := width), rest))
  }

  /** The precision a nested field stands for. */
  function NestedPrecision(arg: ArgInfo): Step<nat> {
    if !arg.IntArg? then Err(PrecisionNotInteger)
    else if arg.value < 0 then Err(NegativePrecision)
    else if arg.value > INT_MAX then Err(NumberTooBig)
    else Ok(arg.value)
  }

  datatype Precision = Precision(value: int, nested: Option<IndexUse>, next: int, rest: string)

  function ParsePrecision(s: string, next: int, args: seq<ArgInfo>, arg: ArgInfo, open: nat): (r: Step<Precision>)
    ensures r.Ok? ==> |r.value.rest| <= |s|
  {
    if Peek(s) != '.' then Ok(Precision(-1, None, next, s))
    else
      var p :- ParsePrecisionValue(s[1..], next, args, open);
      if !arg.DoubleArg? then Err(Report(p.rest, open, PrecisionNeedsFloat)) else Ok(p)
  }

  function ParsePrecisionValue(s: string, next: int, args: seq<ArgInfo>, open: nat): (r: Step<Precision>)
    ensures r.Ok? ==> |r.value.rest| <= |s|
  {
    if IsDecimal(Peek(s)) then
      var (value, rest) :- ParseUInt(s, 0, open);
      if value > INT_MAX then Err(Report(rest, open, NumberTooBig))
      else Ok(Precision(value, None, next, rest))
    else if Peek(s) == '{' then
      var (use, next', rest) :- ParseArgIndex(s[1..], next, open + 1, |args|);
      var value := NestedPrecision(args[use.k]);
      if value.Err? then Err(Report(rest, open + 1, value.error))
      else if Peek(rest) != '}' then Err(UnmatchedOpen)
      else Ok(Precision(value.value, Some(use), next', rest[1..]))
    else Err(Report(s, open, MissingPrecision))
  }

  function ParseCode(s: string, spec: FormatSpec): (r: (FormatSpec, string))
    ensures |r.1| <= |s|
  {
    if Peek(s) != '}' && s != "" then (spec.(code := s[0]), s[1..]) else (spec, s)
  }

  /** Fill, alignment, sign, prefix flag and width. */
  function ParseLayout(s: string, arg: ArgInfo, open: nat): (r: Step<(FormatSpec, string)>)
    ensures r.Ok? ==> |r.value.1| <= |s|
  {
    var (aligned, s1) :- ParseAlign(s, PLAIN, arg, open);
    var (signed, s2) :- ParseSign(s1, aligned, arg, open);
    var (hashed, s3) :- ParseHash(s2, signed, arg, open);
    ParseWidth(s3, hashed, arg, open)
  }

  /** Everything after the colon of a field, up to its closing brace. */
  function ParseSpec(s: string, next: int, args: seq<ArgInfo>, arg: ArgInfo): (r: Step<(FormatSpec, Precision)>)
    ensures r.Ok? ==> |r.value.1.rest| <= |s|
  {
    var (laidOut, s1) :- ParseLayout(s, arg, 1);
    var p :- ParsePrecision(s1, next, args, arg, 1);
    var (spec, rest) := ParseCode(p.rest, laidOut);
    Ok((spec, p.(rest := rest)))
  }

  /** A replacement field, from behind its opening brace to behind its closing one. */
  function ParseField(s: string, next: int, args: seq<ArgInfo>): (r: Step<(Field, int, string)>)
    ensures r.Ok? ==> r.value.0.use.k < |args| && |r.value.2| < |s|
  {
    var (use, next', rest) :- ParseArgIndex(s, next, 1, |args|);
    ParseFieldSpec(use, rest, next', args)
  }

  /** A field from behind its argument index on. */
  function ParseFieldSpec(use: IndexUse, s: string, next: int, args: seq<ArgInfo>): (r: Step<(Field, int, string)>)
    requires use.k < |args|
    ensures r.Ok? ==> r.value.0.use == use && |r.value.2| < |s|
  {
    var (spec, p) :- if Peek(s) == ':' then ParseSpec(s[1..], next, args, args[use.k])
                     else Ok((PLAIN, Precision(-1, None, next, s)));
    if Peek(p.rest) != '}' then Err(UnmatchedOpen)
    else Ok((Field(use, spec, p.value, p.nested), p.next, p.rest[1..]))
  }

  function Parse(t: string, next: int, args: seq<ArgInfo>): (p: Parsed)
    ensures forall segment <- p.segments :: segment.Hole? ==> segment.field.use.k < |args|
    decreases |t|
  {
    if t == "" then Parsed([], Complete)
    else if t[0] != '{' && t[0] != '}' then Prepend(Plain(t[0]), Parse(t[1..], next, args))
    else if Peek(t[1..]) == t[0] then Prepend(Escaped(t[0]), Parse(t[2..], next, args))
    else if t[0] == '}' then Parsed([], StrayBrace)
    else
      var field := ParseField(t[1..], next, args);
      if field.Err? then Parsed([], Failed(field.error))
      else Prepend(Hole(field.value.0), Parse(field.value.2, field.value.1, args))
  }

  function Prepend(segment: Segment, p: Parsed): Parsed {
    p.(segments := [segment] + p.segments)
  }

  /** The text of one field. */
  function RenderField(field: Field, arg: ArgInfo): Step<string> {
    var spec := field.spec;
    match arg
    case IntArg(_, value) => RenderInt(value, spec)
    case DoubleArg(printDouble) => printDouble(spec, field.precision)
    case CharArg(c) =>
      if spec.code != '\0' && spec.code != 'c' then Err(UnknownTypeCode(spec.code, "char"))
      else Ok(TextLayout(spec, [c]))
    case StringArg(text) =>
      if spec.code != '\0' && spec.code != 's' then Err(UnknownTypeCode(spec.code, "string"))
      else if text.None? then Err(NullString)
      else Ok(TextLayout(spec, text.value))
    case PointerArg(address) =>
      if spec.code != '\0' && spec.code != 'p' then Err(UnknownTypeCode(spec.code, "pointer"))
      else RenderInt(address, PointerSpec(spec))
    case CustomArg(printCustom) =>
      if spec.code != '\0' then Err(UnknownTypeCode(spec.code, "object")) else printCustom(spec)
  }

  function PointerSpec(spec: FormatSpec): FormatSpec {
    spec.(signFlag := false, plusFlag := false, hashFlag := true, code := 'x')
  }

  /** The text up to the first field that cannot be rendered, and its error. */
  datatype Rendered = Rendered(text: string, error: Option<FormatError>)

  predicate InBounds(segments: seq<Segment>, args: seq<ArgInfo>) {
    forall segment <- segments :: segment.Hole? ==> segment.field.use.k < |args|
  }

  function RenderSegment(segment: Segment, args: seq<ArgInfo>): Step<string>
    requires segment.Hole? ==> segment.field.use.k < |args|
  {
    match segment
    case Plain(c) => Ok([c])
    case Escaped(c) => Ok([c])
    case Hole(field) => RenderField(field, args[field.use.k])
  }

  function Behind(text: string, rest: Rendered): Rendered {
    Rendered(text + rest.text, rest.error)
  }

  function RenderAll(segments: seq<Segment>, args: seq<ArgInfo>): Rendered
    requires InBounds(segments, args)
  {
    if segments == [] then Rendered("", None)
    else
      var first := RenderSegment(segments[0], args);
      if first.Err? then Rendered("", Some(first.error))
      else Behind(first.value, RenderAll(segments[1..], args))
  }

  /** The segments without the literal characters behind the last escape or field. */
  function Flushed(segments: seq<Segment>): (r: seq<Segment>)
    ensures r <= segments
  {
    if segments != [] && segments[|segments| - 1].Plain? then Flushed(segments[..|segments| - 1]) else segments
  }

  /**
    The effect of formatting: what is appended, and the error thrown if any. A rendering error
    comes before a later syntax error, and a stray closing brace loses the literal run before it.
   */
  function Outcome(t: string, args: seq<ArgInfo>): Rendered {
    OutcomeOf(Parse(t, 0, args), args)
  }

  function OutcomeOf(parsed: Parsed, args: seq<ArgInfo>): Rendered
    requires InBounds(parsed.segments, args)
  {
    var rendered := RenderAll(parsed.segments, args);
    if rendered.error.Some? then rendered
    else
      match parsed.ending
      case Complete => rendered
      case StrayBrace => Rendered(RenderAll(Flushed(parsed.segments), args).text, Some(UnmatchedClose))
      case Failed(error) => Rendered(rendered.text, Some(error))
  }
}
