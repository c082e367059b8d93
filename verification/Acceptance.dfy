/** Which templates are accepted and what becomes of the others, stated on their characters. */
module Acceptance {
  import opened Outcomes
  import opened Layout
  import opened Templates
  import opened TemplateReadings
  import FormatParsers
  import Strings
  import TemplateLaws

  /** A template is literal characters, doubled braces, and fields. */
  datatype Piece = Literal(c: char) | Doubled(c: char) | Replaced(f: WrittenField)

  /** The pieces in front of the text behind them. */
  function Text(pieces: seq<Piece>, tail: string): string {
    if pieces == [] then tail
    else
      var rest := Text(pieces[1..], tail);
      match pieces[0]
      case Literal(c) => [c] + rest
      case Doubled(c) => [c, c] + rest
      case Replaced(f) => "{" + FieldText(f, rest)
  }

  predicate IsBrace(c: char) {
    c == '{' || c == '}'
  }

  predicate PiecesRead(pieces: seq<Piece>, tail: string) {
    if pieces == [] then true
    else
      && (pieces[0].Literal? ==> !IsBrace(pieces[0].c))
      && (pieces[0].Doubled? ==> IsBrace(pieces[0].c))
      && (pieces[0].Replaced? ==> FieldReads(pieces[0].f, Text(pieces[1..], tail)))
      && PiecesRead(pieces[1..], tail)
  }

  /** The index state behind a field and its nested precision. */
  function NextBehind(f: WrittenField, next: int): int {
    var next' := NextOf(f.index, next);
    if f.spec.Some? && f.spec.value.precision.Some? && f.spec.value.precision.value.Braced? then
      NextOf(f.spec.value.precision.value.index, next')
    else next'
  }

  function NextBehindAll(pieces: seq<Piece>, next: int): int {
    if pieces == [] then next
    else NextBehindAll(pieces[1..], if pieces[0].Replaced? then NextBehind(pieces[0].f, next) else next)
  }

  ghost predicate Faultless(pieces: seq<Piece>, next: int, args: seq<ArgInfo>) {
    if pieces == [] then true
    else if pieces[0].Replaced? then
      Fault(pieces[0].f, next, args).None? && Faultless(pieces[1..], NextBehind(pieces[0].f, next), args)
    else Faultless(pieces[1..], next, args)
  }

  ghost function Segments(pieces: seq<Piece>, tail: string, next: int, args: seq<ArgInfo>): seq<Segment>
    requires Faultless(pieces, next, args)
  {
    if pieces == [] then []
    else
      match pieces[0]
      case Literal(c) => [Plain(c)] + Segments(pieces[1..], tail, next, args)
      case Doubled(c) => [Escaped(c)] + Segments(pieces[1..], tail, next, args)
      case Replaced(f) =>
        [Hole(FieldMeaning(f, next, args, Text(pieces[1..], tail)).0)]
        + Segments(pieces[1..], tail, NextBehind(f, next), args)
  }

  // ---------------------------------------------------------------- reading and parsing agree

  lemma FieldMeets(f: WrittenField, next: int, args: seq<ArgInfo>, rest: string)
    requires Fault(f, next, args).None?
    ensures FieldMeaning(f, next, args, rest).1 == NextBehind(f, next)
    ensures FieldMeaning(f, next, args, rest).0.use == IndexUseOf(f.index, next)
    ensures IndexUseOf(f.index, next).k < |args|
  {
  }

  lemma FieldParses(f: WrittenField, next: int, args: seq<ArgInfo>, rest: string)
    requires FieldReads(f, rest)
    ensures var t, fault := "{" + FieldText(f, rest), Fault(f, next, args);
            && (fault.Some? ==> Parse(t, next, args) == Parsed([], Failed(Named(fault.value, FieldText(f, rest)))))
            && (fault.None? ==>
                  Parse(t, next, args)
                  == Prepend(Hole(FieldMeaning(f, next, args, rest).0), Parse(rest, NextBehind(f, next), args)))
  {
    var t := "{" + FieldText(f, rest);
    assert t[1..] == FieldText(f, rest);
    NoBraceFirst(f, rest);
    FieldDecided(f, next, args, rest);
    if Fault(f, next, args).None? { FieldMeets(f, next, args, rest); }
  }

  lemma NoBraceFirst(f: WrittenField, rest: string)
    requires FieldReads(f, rest)
    ensures FieldText(f, rest) != "" && FieldText(f, rest)[0] != '{'
  {
    if f.index != "" { assert FieldText(f, rest)[0] == f.index[0]; }
  }

  lemma {:induction false} PiecesParse(pieces: seq<Piece>, tail: string, next: int, args: seq<ArgInfo>)
    requires PiecesRead(pieces, tail) && Faultless(pieces, next, args)
    ensures var behind := Parse(tail, NextBehindAll(pieces, next), args);
            Parse(Text(pieces, tail), next, args)
            == Parsed(Segments(pieces, tail, next, args) + behind.segments, behind.ending)
    decreases |pieces|
  {
    if pieces != [] {
      var rest := Text(pieces[1..], tail);
      match pieces[0]
      case Literal(c) =>
        assert ([c] + rest)[1..] == rest;
        PiecesParse(pieces[1..], tail, next, args);
        Strings.Associate([Plain(c)], Segments(pieces[1..], tail, next, args),
                          Parse(tail, NextBehindAll(pieces, next), args).segments);
      case Doubled(c) =>
        assert ([c, c] + rest)[1..][0] == c && ([c, c] + rest)[2..] == rest;
        PiecesParse(pieces[1..], tail, next, args);
        Strings.Associate([Escaped(c)], Segments(pieces[1..], tail, next, args),
                          Parse(tail, NextBehindAll(pieces, next), args).segments);
      case Replaced(f) =>
        FieldParses(f, next, args, rest);
        PiecesParse(pieces[1..], tail, NextBehind(f, next), args);
        Strings.Associate([Hole(FieldMeaning(f, next, args, rest).0)],
                          Segments(pieces[1..], tail, NextBehind(f, next), args),
                          Parse(tail, NextBehindAll(pieces, next), args).segments);
    }
  }

  lemma {:induction false} PiecesFound(t: string, next: int, args: seq<ArgInfo>) returns (pieces: seq<Piece>)
    requires Parse(t, next, args).ending.Complete?
    ensures t == Text(pieces, "") && PiecesRead(pieces, "") && Faultless(pieces, next, args)
    decreases |t|
  {
    if t == "" {
      pieces := [];
    } else if !IsBrace(t[0]) {
      var rest := PiecesFound(t[1..], next, args);
      pieces := OneMore(Literal(t[0]), rest);
      assert t == [t[0]] + t[1..];
    } else if Peek(t[1..]) == t[0] {
      var rest := PiecesFound(t[2..], next, args);
      pieces := OneMore(Doubled(t[0]), rest);
      assert t == [t[0], t[0]] + t[2..];
    } else {
      var (_, next', behind) := ParseField(t[1..], next, args).value;
      var f := FieldFound(t[1..], next, args);
      FieldDecided(f, next, args, behind);
      FieldMeets(f, next, args, behind);
      var rest := PiecesFound(behind, next', args);
      pieces := OneMore(Replaced(f), rest);
      assert t == "{" + t[1..];
    }
  }

  lemma OneMore(first: Piece, rest: seq<Piece>) returns (pieces: seq<Piece>)
    ensures pieces == [first] + rest && pieces[0] == first && pieces[1..] == rest
  {
    pieces := [first] + rest;
  }

  // ---------------------------------------------------------------- the results

  /** A template with a reading without fault prints what its pieces print, and is never refused as a template. */
  lemma ReadingsAreAccepted(pieces: seq<Piece>, args: seq<ArgInfo>)
    requires PiecesRead(pieces, "") && Faultless(pieces, 0, args)
    ensures InBounds(Segments(pieces, "", 0, args), args)
    ensures Outcome(Text(pieces, ""), args) == RenderAll(Segments(pieces, "", 0, args), args)
  {
    PiecesParse(pieces, "", 0, args);
    assert Segments(pieces, "", 0, args) + [] == Segments(pieces, "", 0, args);
  }

  /** And only such templates are accepted. */
  lemma AcceptedIsRead(t: string, args: seq<ArgInfo>) returns (pieces: seq<Piece>)
    requires Outcome(t, args).error.None?
    ensures t == Text(pieces, "") && PiecesRead(pieces, "") && Faultless(pieces, 0, args)
  {
    pieces := PiecesFound(t, 0, args);
  }

  /** What is appended and thrown, given what is in front of the place where the template goes wrong. */
  function Broken(front: Rendered, error: FormatError): Rendered {
    if front.error.Some? then front else Rendered(front.text, Some(error))
  }

  /**
    The first fault of a template is reported by its name, or as an unmatched brace if its field is not closed, with
    everything in front of the field already appended.
   */
  lemma FaultIsReported(front: seq<Piece>, f: WrittenField, rest: string, args: seq<ArgInfo>)
    requires PiecesRead(front, "{" + FieldText(f, rest)) && Faultless(front, 0, args) && FieldReads(f, rest)
    requires Fault(f, NextBehindAll(front, 0), args).Some?
    ensures var tail, fault := "{" + FieldText(f, rest), Fault(f, NextBehindAll(front, 0), args).value;
            && InBounds(Segments(front, tail, 0, args), args)
            && Outcome(Text(front, tail), args)
               == Broken(RenderAll(Segments(front, tail, 0, args), args), Named(fault, FieldText(f, rest)))
  {
    var tail := "{" + FieldText(f, rest);
    PiecesParse(front, tail, 0, args);
    FieldParses(f, NextBehindAll(front, 0), args, rest);
    assert Segments(front, tail, 0, args) + [] == Segments(front, tail, 0, args);
  }

  /**
    A closing brace without a field loses the literal characters between it and the last field or doubled brace.
   */
  lemma StrayBraceIsReported(front: seq<Piece>, run: string, rest: string, args: seq<ArgInfo>)
    requires front != [] ==> !front[|front| - 1].Literal?
    requires NoBraces(run) && !Begins(rest, '}')
    requires PiecesRead(front, run + ("}" + rest)) && Faultless(front, 0, args)
    ensures var tail := run + ("}" + rest);
            && InBounds(Segments(front, tail, 0, args), args)
            && Outcome(Text(front, tail), args)
               == Broken(RenderAll(Segments(front, tail, 0, args), args), UnmatchedClose)
  {
    var tail := run + ("}" + rest);
    PiecesParse(front, tail, 0, args);
    RunParses(run, rest, NextBehindAll(front, 0), args);
    LastSegment(front, tail, 0, args);
    RunIsLost(Segments(front, tail, 0, args), run, args);
  }

  lemma RunIsLost(segments: seq<Segment>, run: string, args: seq<ArgInfo>)
    requires segments != [] ==> !segments[|segments| - 1].Plain?
    requires InBounds(segments + FormatParsers.Plains(run), args)
    ensures InBounds(segments, args)
    ensures OutcomeOf(Parsed(segments + FormatParsers.Plains(run), StrayBrace), args)
         == Broken(RenderAll(segments, args), UnmatchedClose)
  {
    assert forall segment <- segments :: segment in segments + FormatParsers.Plains(run);
    FormatParsers.RenderPlains(run, args);
    FormatParsers.RenderConcat(segments, FormatParsers.Plains(run), args);
    FormatParsers.FlushedRun([], run);
    assert [] + FormatParsers.Plains(run) == FormatParsers.Plains(run);
    if segments == [] {
      assert segments + FormatParsers.Plains(run) == FormatParsers.Plains(run);
    } else {
      FormatParsers.FlushedConcat(segments, FormatParsers.Plains(run));
      assert segments + [] == segments;
    }
  }

  lemma {:induction false} RunParses(run: string, rest: string, next: int, args: seq<ArgInfo>)
    requires NoBraces(run) && !Begins(rest, '}')
    ensures Parse(run + ("}" + rest), next, args) == Parsed(FormatParsers.Plains(run), StrayBrace)
    decreases |run|
  {
    var t := run + ("}" + rest);
    if run == "" {
      assert t == "}" + rest && t[1..] == rest;
    } else {
      assert run[0] in run && forall c :: c in run[1..] ==> c in run;
      assert t[1..] == run[1..] + ("}" + rest);
      RunParses(run[1..], rest, next, args);
      assert FormatParsers.Plains(run) == [Plain(run[0])] + FormatParsers.Plains(run[1..]);
    }
  }

  lemma {:induction false} LastSegment(pieces: seq<Piece>, tail: string, next: int, args: seq<ArgInfo>)
    requires Faultless(pieces, next, args)
    ensures |Segments(pieces, tail, next, args)| == |pieces|
    ensures pieces != [] ==>
              (Segments(pieces, tail, next, args)[|pieces| - 1].Plain? <==> pieces[|pieces| - 1].Literal?)
    decreases |pieces|
  {
    if pieces != [] {
      LastSegment(pieces[1..], tail, if pieces[0].Replaced? then NextBehind(pieces[0].f, next) else next, args);
    }
  }

  /** A field that has no reading is refused, whatever follows. */
  lemma UnreadableIsRefused(front: seq<Piece>, s: string, args: seq<ArgInfo>)
    requires PiecesRead(front, "{" + s) && Faultless(front, 0, args) && !Begins(s, '{')
    requires forall f: WrittenField, rest: string :: FieldReads(f, rest) ==> s != FieldText(f, rest)
    ensures Outcome(Text(front, "{" + s), args).error.Some?
  {
    var tail, next := "{" + s, NextBehindAll(front, 0);
    PiecesParse(front, tail, 0, args);
    assert tail[1..] == s;
    if ParseField(s, next, args).Ok? {
      var f := FieldFound(s, next, args);
      assert false;
    }
  }

  /** A brace cannot be a fill character. */
  lemma BraceFillIsReported(front: seq<Piece>, index: string, align: char, rest: string, args: seq<ArgInfo>)
    requires var s := index + (":{" + ([align] + rest));
             PiecesRead(front, "{" + s) && Faultless(front, 0, args)
    requires AreDigits(index) && IndexFault(index, NextBehindAll(front, 0), |args|).None? && IsAlign(align)
    ensures var s := index + (":{" + ([align] + rest));
            && InBounds(Segments(front, "{" + s, 0, args), args)
            && Outcome(Text(front, "{" + s), args)
               == Broken(RenderAll(Segments(front, "{" + s, 0, args), args), Named(InvalidFill, s))
  {
    var s := index + (":{" + ([align] + rest));
    BraceFillIsRefused(index, align, rest, NextBehindAll(front, 0), args);
    RefusedBehind(front, s, Named(InvalidFill, s), args);
  }

  lemma BraceFillIsRefused(index: string, align: char, rest: string, next: int, args: seq<ArgInfo>)
    requires AreDigits(index) && IndexFault(index, next, |args|).None? && IsAlign(align)
    ensures var s := index + (":{" + ([align] + rest));
            ParseField(s, next, args) == Err(Named(InvalidFill, s)) && !Begins(s, '{')
  {
    var spec := "{" + ([align] + rest);
    var s := index + (":" + spec);
    assert ":{" + ([align] + rest) == ":" + spec;
    assert (":" + spec)[1..] == spec && spec[1..] == [align] + rest;
    IndexDecided(index, ":" + spec, next, 1, |args|);
    DigitsNoBraces(index);
    ReportSkips(":", spec, 1, InvalidFill);
    ReportSkips(index, ":" + spec, 1, InvalidFill);
    TemplateLaws.ReportIffClosed(s, 1, InvalidFill);
    assert index != "" ==> s[0] == index[0];
  }

  /** A field that is refused with this error, behind pieces that are accepted. */
  lemma RefusedBehind(front: seq<Piece>, s: string, error: FormatError, args: seq<ArgInfo>)
    requires PiecesRead(front, "{" + s) && Faultless(front, 0, args) && !Begins(s, '{')
    requires ParseField(s, NextBehindAll(front, 0), args) == Err(error)
    ensures InBounds(Segments(front, "{" + s, 0, args), args)
    ensures Outcome(Text(front, "{" + s), args) == Broken(RenderAll(Segments(front, "{" + s, 0, args), args), error)
  {
    var tail := "{" + s;
    PiecesParse(front, tail, 0, args);
    assert tail[1..] == s;
    assert Parse(tail, NextBehindAll(front, 0), args) == Parsed([], Failed(error));
    assert Segments(front, tail, 0, args) + [] == Segments(front, tail, 0, args);
  }
}
