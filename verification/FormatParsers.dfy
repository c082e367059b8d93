/**
  `BasicWriter::FormatParser`: formats while it parses, in one pass over the template. Its effect
  on the writer is that of the two-phase reference of module Templates.
 */
module FormatParsers {
  import opened Outcomes
  import opened Numerals
  import MachineInts
  import opened OutputArray
  import opened Layout
  import opened Strings
  import opened Writers
  import opened Templates

  class FormatParser {
    const args: seq<ArgInfo>
    var numOpenBraces: nat
    var nextArgIndex: int

    constructor (args: seq<ArgInfo>)
      ensures this.args == args && nextArgIndex == 0
    {
      this.args := args;
      numOpenBraces, nextArgIndex := 0, 0;
    }

    /** Scans the rest of the template for the brace that closes the field. */
    method ReportError(t: string, from: nat, error: FormatError) returns (reported: FormatError)
      requires from <= |t| && numOpenBraces >= 1
      ensures reported == Report(t[from..], numOpenBraces, error)
    {
      var s, open := from, numOpenBraces;
      while s < |t|
        invariant from <= s <= |t| && open >= 1
        invariant Report(t[from..], numOpenBraces, error) == Report(t[s..], open, error)
      {
        if t[s] == '{' {
          open := open + 1;
        } else if t[s] == '}' {
          open := open - 1;
          if open == 0 { return error; }
        }
        s := s + 1;
      }
      return UnmatchedOpen;
    }

    method ParseUInt(t: string, from: nat) returns (r: Step<nat>, s: nat)
      requires from < |t| && IsDecimal(t[from]) && numOpenBraces >= 1
      ensures from <= s <= |t|
      ensures r == match Templates.ParseUInt(t[from..], 0, numOpenBraces)
                   case Ok((value, rest)) => Ok(value)
                   case Err(e) => Err(e)
      ensures r.Ok? ==> Templates.ParseUInt(t[from..], 0, numOpenBraces).value.1 == t[s..]
    {
      var value := 0;
      s := from;
      while true
        invariant from <= s < |t| && IsDecimal(t[s])
        invariant Templates.ParseUInt(t[from..], 0, numOpenBraces) == Templates.ParseUInt(t[s..], value, numOpenBraces)
        decreases |t| - s
      {
        var newValue := WrapDigit(value, t[s]);
        s := s + 1;
        if newValue < value {
          var e := ReportError(t, s, NumberTooBig);
          return Err(e), s;
        }
        value := newValue;
        if s == |t| || !IsDecimal(t[s]) { break; }
      }
      return Ok(value), s;
    }

    method ParseArgIndex(t: string, from: nat) returns (r: Step<IndexUse>, s: nat)
      requires from <= |t| && numOpenBraces >= 1
      modifies this`nextArgIndex
      ensures from <= s <= |t|
      ensures match Templates.ParseArgIndex(t[from..], old(nextArgIndex), numOpenBraces, |args|)
              case Ok((use, next, rest)) => r == Ok(use) && nextArgIndex == next && rest == t[s..]
              case Err(e) => r == Err(e)
    {
      s := from;
      var index: nat;
      var use;
      if s == |t| || !IsDecimal(t[s]) {
        if s == |t| || (t[s] != '}' && t[s] != ':') {
          var e := ReportError(t, s, InvalidIndex);
          return Err(e), s;
        }
        if nextArgIndex < 0 {
          var e := ReportError(t, s, ManualToAutomatic);
          return Err(e), s;
        }
        index := nextArgIndex;
        use := Auto(index);
        nextArgIndex := nextArgIndex + 1;
      } else {
        if nextArgIndex > 0 {
          var e := ReportError(t, s, AutomaticToManual);
          return Err(e), s;
        }
        nextArgIndex := -1;
        var parsed;
        parsed, s := ParseUInt(t, s);
        if parsed.Err? { return Err(parsed.error), s; }
        index := parsed.value;
        use := Manual(index);
      }
      if index >= |args| {
        var e := ReportError(t, s, IndexOutOfRange);
        return Err(e), s;
      }
      return Ok(use), s;
    }

    method CheckSign(t: string, from: nat, arg: ArgInfo) returns (error: Option<FormatError>)
      requires from < |t| && numOpenBraces >= 1
      ensures error == if !arg.IsNumeric() then Some(Report(t[from..], numOpenBraces, NeedsNumeric(t[from])))
                       else if arg.IsUnsigned() then Some(Report(t[from..], numOpenBraces, NeedsSigned(t[from])))
                       else None
    {
      if !arg.IsNumeric() {
        var e := ReportError(t, from, NeedsNumeric(t[from]));
        return Some(e);
      }
      if arg.IsUnsigned() {
        var e := ReportError(t, from, NeedsSigned(t[from]));
        return Some(e);
      }
      return None;
    }

    method ParseAlign(t: string, from: nat, spec: FormatSpec, arg: ArgInfo) returns (r: Step<FormatSpec>, s: nat)
      requires from <= |t| && numOpenBraces >= 1
      ensures from <= s <= |t|
      ensures match Templates.ParseAlign(t[from..], spec, arg, numOpenBraces)
              case Ok((parsed, rest)) => r == Ok(parsed) && rest == t[s..]
              case Err(e) => r == Err(e)
    {
      s := from;
      if s == |t| { return Ok(spec), s; }
      var c := t[s];
      var p: int := s + 1;
      var align := Default;
      var fill := spec.fill;
      while p >= s
        invariant s == from && align == Default && fill == spec.fill
        invariant from - 1 <= p <= from + 1
        invariant p <= from ==> AlignOf(Peek(t[from + 1..])) == Default
        invariant p < from ==> AlignOf(t[from]) == Default
        decreases p
      {
        align := AlignOf(if p < |t| then t[p] else '\0');
        if align != Default {
          if p != s {
            if c == '}' { break; }
            if c == '{' {
              var e := ReportError(t, s, InvalidFill);
              return Err(e), s;
            }
            s := s + 2;
            fill := c;
          } else {
            s := s + 1;
          }
          if align == Numeric && !arg.IsNumeric() {
            var e := ReportError(t, s, NeedsNumeric('='));
            return Err(e), s;
          }
          break;
        }
        p := p - 1;
      }
      return Ok(spec.(fill := fill, align := align)), s;
    }

    method ParseSignAndHash(t: string, from: nat, given: FormatSpec, arg: ArgInfo) returns (r: Step<FormatSpec>, s: nat)
      requires from <= |t| && numOpenBraces >= 1
      ensures from <= s <= |t|
      ensures match Templates.ParseSign(t[from..], given, arg, numOpenBraces)
              case Err(e) => r == Err(e)
              case Ok((signed, rest1)) =>
                match Templates.ParseHash(rest1, signed, arg, numOpenBraces)
                case Err(e) => r == Err(e)
                case Ok((hashed, rest2)) => r == Ok(hashed) && rest2 == t[s..]
    {
      var spec := given;
      s := from;
      if s < |t| && (t[s] == '+' || t[s] == '-' || t[s] == ' ') {
        var error := CheckSign(t, s, arg);
        if error.Some? { return Err(error.value), s; }
        if t[s] == '+' {
          spec := spec.(signFlag := true, plusFlag := true);
        } else if t[s] == ' ' {
          spec := spec.(signFlag := true);
        }
        s := s + 1;
      }
      if s < |t| && t[s] == '#' {
        if !arg.IsNumeric() {
          var e := ReportError(t, s, NeedsNumeric('#'));
          return Err(e), s;
        }
        spec := spec.(hashFlag := true);
        s := s + 1;
      }
      return Ok(spec), s;
    }

    method ParseWidth(t: string, from: nat, given: FormatSpec, arg: ArgInfo) returns (r: Step<FormatSpec>, s: nat)
      requires from <= |t| && numOpenBraces >= 1
      ensures from <= s <= |t|
      ensures match Templates.ParseWidth(t[from..], given, arg, numOpenBraces)
              case Ok((parsed, rest)) => r == Ok(parsed) && rest == t[s..]
              case Err(e) => r == Err(e)
    {
      var spec := given;
      s := from;
      if s < |t| && IsDecimal(t[s]) {
        if t[s] == '0' {
          if !arg.IsNumeric() {
            var e := ReportError(t, s, NeedsNumeric('0'));
            return Err(e), s;
          }
          spec := spec.(align := Numeric, fill := '0');
        }
        var value;
        value, s := ParseUInt(t, s);
        if value.Err? { return Err(value.error), s; }
        if value.value > INT_MAX {
          var e := ReportError(t, s, NumberTooBig);
          return Err(e), s;
        }
        spec := spec.(width := value.value);
      }
      return Ok(spec), s;
    }

    method ParsePrecision(t: string, from: nat, arg: ArgInfo) returns (r: Step<(int, Option<IndexUse>)>, s: nat)
      requires from <= |t| && numOpenBraces == 1
      modifies this
      ensures from <= s <= |t|
      ensures match Templates.ParsePrecision(t[from..], old(nextArgIndex), args, arg, 1)
              case Ok(p) =>
                r == Ok((p.value, p.nested)) && nextArgIndex == p.next && p.rest == t[s..] && numOpenBraces == 1
              case Err(e) => r == Err(e)
    {
      s := from;
      if s == |t| || t[s] != '.' { return Ok((-1, None)), s; }
      s := s + 1;
      var precision, nested := 0, None;
      if s < |t| && IsDecimal(t[s]) {
        var value;
        value, s := ParseUInt(t, s);
        if value.Err? { return Err(value.error), s; }
        if value.value > INT_MAX {
          var e := ReportError(t, s, NumberTooBig);
          return Err(e), s;
        }
        precision := value.value;
      } else if s < |t| && t[s] == '{' {
        s := s + 1;
        numOpenBraces := numOpenBraces + 1;
        var use;
        use, s := ParseArgIndex(t, s);
        if use.Err? { return Err(use.error), s; }
        var value := NestedPrecision(args[use.value.k]);
        if value.Err? {
          var e := ReportError(t, s, value.error);
          return Err(e), s;
        }
        precision, nested := value.value, Some(use.value);
        if s == |t| || t[s] != '}' { return Err(UnmatchedOpen), s; }
        s := s + 1;
        numOpenBraces := numOpenBraces - 1;
      } else {
        var e := ReportError(t, s, MissingPrecision);
        return Err(e), s;
      }
      if !arg.DoubleArg? {
        var e := ReportError(t, s, PrecisionNeedsFloat);
        return Err(e), s;
      }
      return Ok((precision, nested)), s;
    }

    method ParseLayout(t: string, from: nat, arg: ArgInfo) returns (r: Step<FormatSpec>, s: nat)
      requires from <= |t| && numOpenBraces == 1
      ensures from <= s <= |t|
      ensures match Templates.ParseLayout(t[from..], arg, 1)
              case Ok((spec, rest)) => r == Ok(spec) && rest == t[s..]
              case Err(e) => r == Err(e)
    {
      r, s := ParseAlign(t, from, PLAIN, arg);
      if r.Err? { return; }
      r, s := ParseSignAndHash(t, s, r.value, arg);
      if r.Err? { return; }
      r, s := ParseWidth(t, s, r.value, arg);
    }

    method ParseSpec(t: string, from: nat, arg: ArgInfo)
      returns (r: Step<(FormatSpec, int, Option<IndexUse>)>, s: nat)
      requires from <= |t| && numOpenBraces == 1
      modifies this
      ensures from <= s <= |t|
      ensures match Templates.ParseSpec(t[from..], old(nextArgIndex), args, arg)
              case Ok((spec, p)) =>
                r == Ok((spec, p.value, p.nested)) && nextArgIndex == p.next && p.rest == t[s..]
              case Err(e) => r == Err(e)
    {
      var spec;
      spec, s := ParseLayout(t, from, arg);
      if spec.Err? { return Err(spec.error), s; }
      var precision;
      precision, s := ParsePrecision(t, s, arg);
      if precision.Err? { return Err(precision.error), s; }
      var result := spec.value;
      if s < |t| && t[s] != '}' {
        result := result.(code := t[s]);
        s := s + 1;
      }
      return Ok((result, precision.value.0, precision.value.1)), s;
    }

    method ParseField(t: string, from: nat) returns (r: Step<Field>, s: nat)
      requires from <= |t|
      modifies this
      ensures from <= s <= |t|
      ensures match Templates.ParseField(t[from..], old(nextArgIndex), args)
              case Ok((field, next, rest)) => r == Ok(field) && nextArgIndex == next && rest == t[s..] && s > from
              case Err(e) => r == Err(e)
    {
      numOpenBraces := 1;
      var use;
      use, s := ParseArgIndex(t, from);
      if use.Err? { return Err(use.error), s; }
      r, s := ParseFieldSpec(use.value, t, s);
    }

    method ParseFieldSpec(use: IndexUse, t: string, from: nat) returns (r: Step<Field>, s: nat)
      requires from <= |t| && numOpenBraces == 1 && use.k < |args|
      modifies this
      ensures from <= s <= |t|
      ensures match Templates.ParseFieldSpec(use, t[from..], old(nextArgIndex), args)
              case Ok((field, next, rest)) => r == Ok(field) && nextArgIndex == next && rest == t[s..] && s > from
              case Err(e) => r == Err(e)
    {
      var spec, precision, nested := PLAIN, -1, None;
      s := from;
      if s < |t| && t[s] == ':' {
        s := s + 1;
        var parsed;
        parsed, s := ParseSpec(t, s, args[use.k]);
        if parsed.Err? { return Err(parsed.error), s; }
        spec, precision, nested := parsed.value.0, parsed.value.1, parsed.value.2;
      }
      if s == |t| || t[s] != '}' { return Err(UnmatchedOpen), s; }
      s := s + 1;
      return Ok(Field(use, spec, precision, nested)), s;
    }

    /** The switch over the argument's type at the end of each field. */
    method FormatArgument(writer: Writer, field: Field) returns (error: Option<FormatError>)
      requires writer.Valid() && field.use.k < |args| && ValidArgs(args)
      modifies writer.buffer, writer.buffer.ptr
      ensures writer.Valid() && (writer.buffer.ptr == old(writer.buffer.ptr) || fresh(writer.buffer.ptr))
      ensures writer.buffer.capacity == Resized(old(writer.buffer.capacity), writer.buffer.size)
      ensures match RenderField(field, args[field.use.k])
              case Ok(text) => error == None && writer.Contents() == old(writer.Contents()) + text
              case Err(e) => error == Some(e) && writer.Contents() == old(writer.Contents())
    {
      var spec := field.spec;
      match args[field.use.k]
      case IntArg(t, value) =>
        error := writer.FormatInt(t, value, spec);
      case DoubleArg(printDouble) =>
        error := Emit(writer, printDouble(spec, field.precision));
      case CharArg(c) =>
        if spec.code != '\0' && spec.code != 'c' { return Some(UnknownTypeCode(spec.code, "char")); }
        writer.FormatString([c], spec);
        return None;
      case StringArg(text) =>
        if spec.code != '\0' && spec.code != 's' { return Some(UnknownTypeCode(spec.code, "string")); }
        if text.None? { return Some(NullString); }
        writer.FormatString(text.value, spec);
        return None;
      case PointerArg(address) =>
        if spec.code != '\0' && spec.code != 'p' { return Some(UnknownTypeCode(spec.code, "pointer")); }
        error := writer.FormatInt(MachineInts.IntType.ULong, address, PointerSpec(spec));
      case CustomArg(printCustom) =>
        if spec.code != '\0' { return Some(UnknownTypeCode(spec.code, "object")); }
        error := Emit(writer, printCustom(spec));
    }

    /** Appends what an argument printed by itself. */
    method Emit(writer: Writer, printed: Step<string>) returns (error: Option<FormatError>)
      requires writer.Valid()
      modifies writer.buffer, writer.buffer.ptr
      ensures writer.Valid() && (writer.buffer.ptr == old(writer.buffer.ptr) || fresh(writer.buffer.ptr))
      ensures writer.buffer.capacity == Resized(old(writer.buffer.capacity), writer.buffer.size)
      ensures match printed
              case Ok(text) => error == None && writer.Contents() == old(writer.Contents()) + text
              case Err(e) => error == Some(e) && writer.Contents() == old(writer.Contents())
    {
      if printed.Err? { return Some(printed.error); }
      writer.FormatString(printed.value, PLAIN);
      return None;
    }

    /**
      `Format`. `inBounds` is false when a literal run does not fit the array `append` grows;
      the model stops there. Otherwise the effect is the reference outcome, text and error alike,
      of the template up to its first NUL.
     */
    method Format(writer: Writer, format: string) returns (error: Option<FormatError>, inBounds: bool)
      requires writer.Valid() && ValidArgs(args)
      modifies this, writer.buffer, writer.buffer.ptr
      ensures writer.Valid() && (writer.buffer.ptr == old(writer.buffer.ptr) || fresh(writer.buffer.ptr))
      ensures inBounds <==> RunsFit(CString(format), 0, 0, args, old(writer.Space()))
      ensures inBounds ==>
                && writer.Contents() == old(writer.Contents()) + Outcome(CString(format), args).text
                && error == Outcome(CString(format), args).error
      ensures old(writer.Contents()) <= writer.Contents()
    {
      nextArgIndex := 0;
      SinglePassIsOutcome(CString(format), args);
      error, inBounds := FormatFrom(writer, CString(format));
    }

    /** The loop of `Format`. */
    method FormatFrom(writer: Writer, format: string) returns (error: Option<FormatError>, inBounds: bool)
      requires writer.Valid() && ValidArgs(args)
      modifies this, writer.buffer, writer.buffer.ptr
      ensures writer.Valid() && (writer.buffer.ptr == old(writer.buffer.ptr) || fresh(writer.buffer.ptr))
      ensures inBounds <==> RunsFit(format, 0, old(nextArgIndex), args, old(writer.Space()))
      ensures inBounds ==>
                && writer.Contents() == old(writer.Contents()) + SinglePass(format, "", old(nextArgIndex), args).text
                && error == SinglePass(format, "", old(nextArgIndex), args).error
      ensures old(writer.Contents()) <= writer.Contents()
    {
      ghost var was, text := writer.Contents(), "";
      ghost var outcome := SinglePass(format, "", nextArgIndex, args);
      ghost var fits := RunsFit(format, 0, nextArgIndex, args, writer.Space());
      assert format[0..] == format && format[0..0] == "";
      var start, s := 0, 0;
      inBounds := true;
      while s < |format|
        invariant start <= s <= |format| && inBounds
        invariant writer.Valid() && (writer.buffer.ptr == old(writer.buffer.ptr) || fresh(writer.buffer.ptr))
        invariant Ahead(format, start, s, nextArgIndex, args, writer.Space(), text, outcome, fits)
        invariant writer.Contents() == was + text
      {
        if format[s] != '{' && format[s] != '}' {
          AheadPastText(format, start, s, nextArgIndex, args, writer.Space(), text, outcome, fits);
          s := s + 1;
          continue;
        }
        ghost var added;
        var done, end;
        error, inBounds, done, end, added := FormatBrace(writer, format, start, s);
        if !inBounds { return None, false; }
        Associate(was, text, added);
        if done { return error, true; }
        AheadPastBrace(format, end, nextArgIndex, args, writer.Space(), text, added, outcome, fits);
        text := text + added;
        start, s := end, end;
      }
      assert format[s..] == "" && |format[start..s]| == s - start;
      assert outcome == Rendered(text + format[start..s], None);
      inBounds := writer.AppendLiteral(format[start..s]);
      Associate(was, text, format[start..s]);
      return None, inBounds;
    }

    /** The part of the loop that handles the brace at `s`; `done` says that the loop ends there. */
    method FormatBrace(writer: Writer, format: string, start: nat, s: nat)
      returns (error: Option<FormatError>, inBounds: bool, done: bool, end: nat, ghost added: string)
      requires writer.Valid() && ValidArgs(args)
      requires start <= s < |format| && (format[s] == '{' || format[s] == '}')
      modifies this, writer.buffer, writer.buffer.ptr
      ensures writer.Valid() && (writer.buffer.ptr == old(writer.buffer.ptr) || fresh(writer.buffer.ptr))
      ensures s < end <= |format|
      ensures RunsFit(format[s..], s - start, old(nextArgIndex), args, old(writer.Space()))
         <==> inBounds && (done || RunsFit(format[end..], 0, nextArgIndex, args, writer.Space()))
      ensures writer.Contents() == old(writer.Contents()) + added
      ensures inBounds ==>
                SinglePass(format[s..], format[start..s], old(nextArgIndex), args)
                == if done then Rendered(added, error)
                   else Behind(added, SinglePass(format[end..], "", nextArgIndex, args))
    {
      var c := format[s];
      end, added, done, error := s + 1, "", true, None;
      if end < |format| && format[end] == c {
        EscapeStep(format, start, s, nextArgIndex, args, writer.Space());
        inBounds := writer.AppendLiteral(format[start..end]);
        if inBounds { added := format[start..end]; }
        end, done := end + 1, false;
        return;
      }
      if c == '}' {
        StrayStep(format, start, s, nextArgIndex, args, writer.Space());
        error, inBounds := Some(UnmatchedClose), true;
        return;
      }
      FieldStep(format, start, s, nextArgIndex, args, writer.Space());
      ghost var effect := FieldEffect("", Templates.ParseField(format[s + 1..], nextArgIndex, args), args);
      error, inBounds, end := FormatField(writer, format, start, s);
      if inBounds { added := format[start..s] + effect.text; }
      done := error.Some?;
    }

    /** The part of the loop that handles a field whose opening brace is at `s`. */
    method FormatField(writer: Writer, format: string, start: nat, s: nat)
      returns (error: Option<FormatError>, inBounds: bool, end: nat)
      requires writer.Valid() && ValidArgs(args)
      requires start <= s < |format|
      modifies this, writer.buffer, writer.buffer.ptr
      ensures writer.Valid() && (writer.buffer.ptr == old(writer.buffer.ptr) || fresh(writer.buffer.ptr))
      ensures inBounds <==> old(writer.Space()).Takes(s - start)
      ensures !inBounds ==> writer.Contents() == old(writer.Contents())
      ensures s < end <= |format|
      ensures var parsed := Templates.ParseField(format[s + 1..], old(nextArgIndex), args);
              var effect := FieldEffect("", parsed, args);
              inBounds ==>
                && writer.Contents() == old(writer.Contents()) + (format[start..s] + effect.text)
                && writer.Space() == old(writer.Space()).AfterAppend(s - start).AfterResize(|effect.text|)
                && error == effect.error
                && (error.None? ==>
                      parsed.Ok? && parsed.value.1 == nextArgIndex && parsed.value.2 == format[end..])
    {
      end := s + 1;
      ghost var run, was := format[start..s], writer.Contents();
      ghost var effect := FieldEffect("", Templates.ParseField(format[s + 1..], nextArgIndex, args), args);
      assert |run| == s - start;
      inBounds := writer.AppendLiteral(format[start..s]);
      if !inBounds { return None, false, end; }
      Associate(was, run, effect.text);
      error, end := ParseAndFormat(writer, format, s + 1);
    }

    /** Parses the field behind `s` and formats its argument. */
    method ParseAndFormat(writer: Writer, format: string, s: nat) returns (error: Option<FormatError>, end: nat)
      requires writer.Valid() && ValidArgs(args) && s <= |format|
      modifies this, writer.buffer, writer.buffer.ptr
      ensures writer.Valid() && (writer.buffer.ptr == old(writer.buffer.ptr) || fresh(writer.buffer.ptr))
      ensures s <= end <= |format|
      ensures var parsed := Templates.ParseField(format[s..], old(nextArgIndex), args);
              var effect := FieldEffect("", parsed, args);
              && writer.Contents() == old(writer.Contents()) + effect.text
              && writer.Space() == old(writer.Space()).AfterResize(|effect.text|)
              && error == effect.error
              && (error.None? ==>
                    s < end && parsed.Ok? && parsed.value.1 == nextArgIndex && parsed.value.2 == format[end..])
    {
      ghost var parsed := Templates.ParseField(format[s..], nextArgIndex, args);
      var field;
      field, end := ParseField(format, s);
      if field.Err? { return Some(field.error), end; }
      assert parsed.Ok? && parsed.value.0 == field.value;
      ghost var text := RenderField(field.value, args[field.value.use.k]);
      assert text.Ok? ==> "" + text.value == text.value;
      error := FormatArgument(writer, field.value);
    }
  }

  /** What a field appends, with the literal run before it, and its error. */
  function FieldEffect(run: string, parsed: Step<(Field, int, string)>, args: seq<ArgInfo>): Rendered
    requires parsed.Ok? ==> parsed.value.0.use.k < |args|
  {
    if parsed.Err? then Rendered(run, Some(parsed.error))
    else
      var text := RenderField(parsed.value.0, args[parsed.value.0.use.k]);
      if text.Err? then Rendered(run, Some(text.error)) else Rendered(run + text.value, None)
  }

  lemma EffectBehindRun(run: string, parsed: Step<(Field, int, string)>, args: seq<ArgInfo>)
    requires parsed.Ok? ==> parsed.value.0.use.k < |args|
    ensures FieldEffect(run, parsed, args) == Behind(run, FieldEffect("", parsed, args))
  {
    assert run + "" == run;
    if parsed.Ok? {
      var text := RenderField(parsed.value.0, args[parsed.value.0.use.k]);
      assert text.Ok? ==> "" + text.value == text.value;
    }
  }

  /** The single pass over what is left of a template, with a literal run still to be copied. */
  function SinglePass(t: string, run: string, next: int, args: seq<ArgInfo>): Rendered
    decreases |t|
  {
    if t == "" then Rendered(run, None)
    else if t[0] != '{' && t[0] != '}' then SinglePass(t[1..], run + [t[0]], next, args)
    else if Peek(t[1..]) == t[0] then Behind(run + [t[0]], SinglePass(t[2..], "", next, args))
    else if t[0] == '}' then Rendered("", Some(UnmatchedClose))
    else
      var parsed := Templates.ParseField(t[1..], next, args);
      var effect := FieldEffect(run, parsed, args);
      if effect.error.Some? then effect
      else Behind(effect.text, SinglePass(parsed.value.2, "", parsed.value.1, args))
  }

  lemma BehindTwice(a: string, b: string, rest: Rendered)
    ensures Behind(a, Behind(b, rest)) == Behind(a + b, rest)
  {
  }

  /**
    Whether every literal run still to be copied, `run` characters of which have been read, fits the array when its
    turn comes.
   */
  predicate RunsFit(t: string, run: nat, next: int, args: seq<ArgInfo>, space: Room)
    decreases |t|
  {
    if t == "" then space.Takes(run)
    else if t[0] != '{' && t[0] != '}' then RunsFit(t[1..], run + 1, next, args, space)
    else if Peek(t[1..]) == t[0] then
      space.Takes(run + 1) && RunsFit(t[2..], 0, next, args, space.AfterAppend(run + 1))
    else if t[0] == '}' then true
    else
      space.Takes(run) &&
      var parsed := Templates.ParseField(t[1..], next, args);
      var effect := FieldEffect("", parsed, args);
      effect.error.Some? ||
        RunsFit(parsed.value.2, 0, parsed.value.1, args, space.AfterAppend(run).AfterResize(|effect.text|))
  }

  // One step of the pass, with positions in the template for what is left of it.

  lemma Slices(format: string, start: nat, s: nat)
    requires start <= s < |format|
    ensures format[start..s + 1] == format[start..s] + [format[s]]
    ensures format[s..][1..] == format[s + 1..]
    ensures s + 1 < |format| ==> format[s..][2..] == format[s + 2..]
  {
  }

  lemma TextStep(format: string, start: nat, s: nat, next: int, args: seq<ArgInfo>, space: Room)
    requires start <= s < |format| && format[s] != '{' && format[s] != '}'
    ensures SinglePass(format[s..], format[start..s], next, args)
         == SinglePass(format[s + 1..], format[start..s + 1], next, args)
    ensures RunsFit(format[s..], s - start, next, args, space) == RunsFit(format[s + 1..], s + 1 - start, next, args, space)
  {
    Slices(format, start, s);
  }

  lemma EscapeStep(format: string, start: nat, s: nat, next: int, args: seq<ArgInfo>, space: Room)
    requires start <= s && s + 1 < |format| && (format[s] == '{' || format[s] == '}') && format[s + 1] == format[s]
    ensures SinglePass(format[s..], format[start..s], next, args)
         == Behind(format[start..s + 1], SinglePass(format[s + 2..], "", next, args))
    ensures RunsFit(format[s..], s - start, next, args, space)
         == (space.Takes(s + 1 - start) && RunsFit(format[s + 2..], 0, next, args, space.AfterAppend(s + 1 - start)))
  {
    Slices(format, start, s);
  }

  lemma StrayStep(format: string, start: nat, s: nat, next: int, args: seq<ArgInfo>, space: Room)
    requires start <= s < |format| && format[s] == '}' && (s + 1 < |format| ==> format[s + 1] != '}')
    ensures SinglePass(format[s..], format[start..s], next, args) == Rendered("", Some(UnmatchedClose))
    ensures RunsFit(format[s..], s - start, next, args, space)
  {
    Slices(format, start, s);
  }

  lemma FieldStep(format: string, start: nat, s: nat, next: int, args: seq<ArgInfo>, space: Room)
    requires start <= s < |format| && format[s] == '{' && (s + 1 < |format| ==> format[s + 1] != '{')
    ensures var run, parsed := format[start..s], Templates.ParseField(format[s + 1..], next, args);
            var effect := FieldEffect("", parsed, args);
            && SinglePass(format[s..], run, next, args)
               == (if effect.error.Some? then Behind(run, effect)
                   else Behind(run + effect.text, SinglePass(parsed.value.2, "", parsed.value.1, args)))
            && RunsFit(format[s..], s - start, next, args, space)
               == (space.Takes(s - start) && (effect.error.Some? ||
                     RunsFit(parsed.value.2, 0, parsed.value.1, args,
                             space.AfterAppend(s - start).AfterResize(|effect.text|))))
  {
    Slices(format, start, s);
    EffectBehindRun(format[start..s], Templates.ParseField(format[s + 1..], next, args), args);
  }

  /** Where the loop of `Format` stands: what it has appended, and what is still to come. */
  ghost predicate Ahead(format: string, start: nat, s: nat, next: int, args: seq<ArgInfo>, space: Room,
                        text: string, outcome: Rendered, fits: bool)
    requires start <= s <= |format|
  {
    && outcome == Behind(text, SinglePass(format[s..], format[start..s], next, args))
    && fits == RunsFit(format[s..], s - start, next, args, space)
  }

  lemma AheadPastText(format: string, start: nat, s: nat, next: int, args: seq<ArgInfo>, space: Room,
                      text: string, outcome: Rendered, fits: bool)
    requires start <= s < |format| && format[s] != '{' && format[s] != '}'
    requires Ahead(format, start, s, next, args, space, text, outcome, fits)
    ensures Ahead(format, start, s + 1, next, args, space, text, outcome, fits)
  {
    TextStep(format, start, s, next, args, space);
  }

  lemma AheadPastBrace(format: string, end: nat, next: int, args: seq<ArgInfo>, space: Room,
                       text: string, added: string, outcome: Rendered, fits: bool)
    requires end <= |format|
    requires outcome == Behind(text, Behind(added, SinglePass(format[end..], "", next, args)))
    requires fits == RunsFit(format[end..], 0, next, args, space)
    ensures Ahead(format, end, end, next, args, space, text + added, outcome, fits)
  {
    BehindTwice(text, added, SinglePass(format[end..], "", next, args));
    assert format[end..end] == "";
  }

  /** A template of at most half the capacity always fits. */
  lemma {:induction false} SmallTemplatesFit(t: string, run: nat, next: int, args: seq<ArgInfo>, space: Room)
    requires run + |t| <= space.capacity / 2 && space.size <= space.capacity
    ensures RunsFit(t, run, next, args, space)
    decreases |t|
  {
    if t == "" {
    } else if t[0] != '{' && t[0] != '}' {
      SmallTemplatesFit(t[1..], run + 1, next, args, space);
    } else if Peek(t[1..]) == t[0] {
      SmallTemplatesFit(t[2..], 0, next, args, space.AfterAppend(run + 1));
    } else if t[0] == '{' {
      var parsed := Templates.ParseField(t[1..], next, args);
      var effect := FieldEffect("", parsed, args);
      if effect.error.None? {
        var after := space.AfterAppend(run).AfterResize(|effect.text|);
        SmallTemplatesFit(parsed.value.2, 0, parsed.value.1, args, after);
      }
    }
  }

  lemma {:induction false} LettersFit(letters: nat, t: string, run: nat, next: int, args: seq<ArgInfo>, space: Room)
    ensures RunsFit(Repeat('x', letters) + t, run, next, args, space) == RunsFit(t, run + letters, next, args, space)
    decreases letters
  {
    var s := Repeat('x', letters) + t;
    if letters == 0 {
      assert s == t;
    } else {
      assert s[1..] == Repeat('x', letters - 1) + t;
      LettersFit(letters - 1, t, run + 1, next, args, space);
    }
  }

  lemma EscapedBraceFits(t: string, run: nat, next: int, args: seq<ArgInfo>, space: Room)
    ensures RunsFit("{{" + t, run, next, args, space)
         == (space.Takes(run + 1) && RunsFit(t, 0, next, args, space.AfterAppend(run + 1)))
  {
    var s := "{{" + t;
    assert s[0] == '{' && s[1..][0] == '{' && s[2..] == t;
  }

  /** Two runs of letters with an escaped brace between them. */
  lemma TwoRuns(n: nat, m: nat, args: seq<ArgInfo>, space: Room)
    ensures RunsFit(Repeat('x', n) + ("{{" + Repeat('x', m)), 0, 0, args, space)
         == (space.Takes(n + 1) && space.AfterAppend(n + 1).Takes(m))
  {
    var letters := Repeat('x', m);
    LettersFit(n, "{{" + letters, 0, 0, args, space);
    EscapedBraceFits(letters, n, 0, args, space);
    LettersFit(m, "", 0, 0, args, space.AfterAppend(n + 1));
    assert letters + "" == letters;
  }

  /** The boundary for a new writer: behind 400 letters and an escaped brace, 349 letters fit and 350 do not. */
  lemma LongTemplateDoesNotFit(args: seq<ArgInfo>)
    ensures RunsFit(Repeat('x', 400) + ("{{" + Repeat('x', 349)), 0, 0, args, Room(0, 500))
    ensures !RunsFit(Repeat('x', 400) + ("{{" + Repeat('x', 350)), 0, 0, args, Room(0, 500))
  {
    TwoRuns(400, 349, args, Room(0, 500));
    TwoRuns(400, 350, args, Room(0, 500));
  }

  function Plains(text: string): seq<Segment> {
    seq(|text|, k requires 0 <= k < |text| => Plain(text[k]))
  }

  function WithRun(run: string, p: Parsed): Parsed {
    p.(segments := Plains(run) + p.segments)
  }

  /** Single-pass formatting has the effect of parsing everything first and rendering then. */
  lemma SinglePassIsOutcome(format: string, args: seq<ArgInfo>)
    ensures SinglePass(format, "", 0, args) == Outcome(format, args)
  {
    PassIsOutcome(format, "", 0, args);
    var p := Parse(format, 0, args);
    assert Plains("") + p.segments == p.segments;
  }

  lemma {:induction false} PassIsOutcome(t: string, run: string, next: int, args: seq<ArgInfo>)
    ensures InBounds(WithRun(run, Parse(t, next, args)).segments, args)
    ensures SinglePass(t, run, next, args) == OutcomeOf(WithRun(run, Parse(t, next, args)), args)
    decreases |t|
  {
    var here := Parse(t, next, args);
    if t == "" {
      RunOnly(run, Complete, args);
    } else if t[0] != '{' && t[0] != '}' {
      var rest := Parse(t[1..], next, args);
      PassIsOutcome(t[1..], run + [t[0]], next, args);
      assert Plains(run + [t[0]]) == Plains(run) + [Plain(t[0])];
      assert Plains(run) + ([Plain(t[0])] + rest.segments) == Plains(run + [t[0]]) + rest.segments;
    } else if Peek(t[1..]) == t[0] {
      PassIsOutcome(t[2..], "", next, args);
      BehindEscape(run, t[0], Parse(t[2..], next, args), args);
    } else if t[0] == '}' {
      RunOnly(run, StrayBrace, args);
    } else {
      var parsed := Templates.ParseField(t[1..], next, args);
      if parsed.Err? {
        RunOnly(run, Failed(parsed.error), args);
      } else {
        PassIsOutcome(parsed.value.2, "", parsed.value.1, args);
        BehindField(run, parsed.value.0, Parse(parsed.value.2, parsed.value.1, args), args);
      }
    }
  }

  /** A literal run at the end of what can be parsed. */
  lemma RunOnly(run: string, ending: Ending, args: seq<ArgInfo>)
    ensures InBounds(WithRun(run, Parsed([], ending)).segments, args)
    ensures OutcomeOf(WithRun(run, Parsed([], ending)), args)
         == match ending
            case Complete => Rendered(run, None)
            case StrayBrace => Rendered("", Some(UnmatchedClose))
            case Failed(error) => Rendered(run, Some(error))
  {
    RenderPlains(run, args);
    FlushedRun([], run);
    assert [] + Plains(run) == Plains(run) == Plains(run) + [];
  }

  lemma WithRunPrepend(run: string, segment: Segment, rest: Parsed)
    ensures WithRun(run, Prepend(segment, rest)) == Parsed(Plains(run) + [segment] + rest.segments, rest.ending)
    ensures WithRun("", rest) == rest
  {
    assert Plains("") + rest.segments == rest.segments;
    Associate(Plains(run), [segment], rest.segments);
  }

  /** A literal run and the segment behind it. */
  lemma FrontRenders(run: string, segment: Segment, args: seq<ArgInfo>)
    requires segment.Hole? ==> segment.field.use.k < |args|
    ensures InBounds(Plains(run) + [segment], args)
    ensures var text := RenderSegment(segment, args);
            RenderAll(Plains(run) + [segment], args)
            == if text.Err? then Rendered(run, Some(text.error)) else Rendered(run + text.value, None)
  {
    RenderPlains(run, args);
    RenderConcat(Plains(run), [segment], args);
    var text := RenderSegment(segment, args);
    assert RenderAll([], args) == Rendered("", None);
    assert [segment][1..] == [];
    assert text.Ok? ==> text.value + "" == text.value;
    assert run + "" == run;
  }

  lemma BehindEscape(run: string, c: char, rest: Parsed, args: seq<ArgInfo>)
    requires InBounds(WithRun("", rest).segments, args)
    ensures InBounds(WithRun(run, Prepend(Escaped(c), rest)).segments, args)
    ensures OutcomeOf(WithRun(run, Prepend(Escaped(c), rest)), args)
         == Behind(run + [c], OutcomeOf(WithRun("", rest), args))
  {
    WithRunPrepend(run, Escaped(c), rest);
    FrontRenders(run, Escaped(c), args);
    OutcomeConcat(Plains(run) + [Escaped(c)], rest, args);
  }

  lemma BehindField(run: string, field: Field, rest: Parsed, args: seq<ArgInfo>)
    requires field.use.k < |args| && InBounds(WithRun("", rest).segments, args)
    ensures var whole := WithRun(run, Prepend(Hole(field), rest));
            var text := RenderField(field, args[field.use.k]);
            && InBounds(whole.segments, args)
            && OutcomeOf(whole, args) == if text.Err? then Rendered(run, Some(text.error))
                                         else Behind(run + text.value, OutcomeOf(WithRun("", rest), args))
  {
    WithRunPrepend(run, Hole(field), rest);
    FrontRenders(run, Hole(field), args);
    OutcomeConcat(Plains(run) + [Hole(field)], rest, args);
  }

  /** The outcome of segments in front of others, when literals cannot be lost across the seam. */
  lemma OutcomeConcat(front: seq<Segment>, rest: Parsed, args: seq<ArgInfo>)
    requires front != [] && !front[|front| - 1].Plain?
    requires InBounds(front, args) && InBounds(rest.segments, args)
    ensures InBounds(front + rest.segments, args)
    ensures OutcomeOf(Parsed(front + rest.segments, rest.ending), args)
         == if RenderAll(front, args).error.Some? then RenderAll(front, args)
            else Behind(RenderAll(front, args).text, OutcomeOf(rest, args))
  {
    RenderConcat(front, rest.segments, args);
    FlushedConcat(front, rest.segments);
    RenderConcat(front, Flushed(rest.segments), args);
  }

  lemma {:induction false} FlushedConcat(front: seq<Segment>, rest: seq<Segment>)
    requires front != [] && !front[|front| - 1].Plain?
    ensures Flushed(front + rest) == front + Flushed(rest)
    decreases |rest|
  {
    var all := front + rest;
    if rest != [] {
      assert all[|all| - 1] == rest[|rest| - 1];
      assert all[..|all| - 1] == front + rest[..|rest| - 1];
      if rest[|rest| - 1].Plain? { FlushedConcat(front, rest[..|rest| - 1]); }
    }
  }

  lemma {:induction false} FlushedRun(flushed: seq<Segment>, run: string)
    requires flushed == []
    ensures Flushed(flushed + Plains(run)) == flushed
  {
    var all := flushed + Plains(run);
    if run == "" {
      assert all == flushed;
    } else {
      var shorter := run[..|run| - 1];
      assert all[..|all| - 1] == flushed + Plains(shorter);
      FlushedRun(flushed, shorter);
    }
  }

  lemma {:induction false} RenderConcat(a: seq<Segment>, b: seq<Segment>, args: seq<ArgInfo>)
    requires InBounds(a, args) && InBounds(b, args)
    ensures InBounds(a + b, args)
    ensures RenderAll(a + b, args) == if RenderAll(a, args).error.Some? then RenderAll(a, args)
                                      else Behind(RenderAll(a, args).text, RenderAll(b, args))
  {
    if a == [] {
      assert a + b == b;
    } else {
      assert (a + b)[1..] == a[1..] + b;
      assert (a + b)[0] == a[0];
      RenderConcat(a[1..], b, args);
      var first := RenderSegment(a[0], args);
      if first.Ok? { BehindTwice(first.value, RenderAll(a[1..], args).text, RenderAll(b, args)); }
    }
  }

  lemma {:induction false} RenderPlains(text: string, args: seq<ArgInfo>)
    ensures InBounds(Plains(text), args) && RenderAll(Plains(text), args) == Rendered(text, None)
  {
    if text != "" {
      assert Plains(text)[1..] == Plains(text[1..]);
      RenderPlains(text[1..], args);
      assert text == [text[0]] + text[1..];
    }
  }
}
