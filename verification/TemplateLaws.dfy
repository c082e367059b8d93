/** What holds of every template: argument indices, escaping, error precedence, and one oddity. */
module TemplateLaws {
  import opened Outcomes
  import Numerals
  import opened Layout
  import opened Templates
  import opened TemplateGrammar

  // ---------------------------------------------------------------- argument indices

  function FieldUses(field: Field): (uses: seq<IndexUse>)
    ensures |uses| >= 1
  {
    [field.use] + if field.nested.Some? then [field.nested.value] else []
  }

  /** The indices a template uses, nested precisions included, in the order they are met. */
  function Uses(segments: seq<Segment>): seq<IndexUse> {
    if segments == [] then []
    else (if segments[0].Hole? then FieldUses(segments[0].field) else []) + Uses(segments[1..])
  }

  predicate AllManual(uses: seq<IndexUse>) {
    forall k :: 0 <= k < |uses| ==> uses[k].Manual?
  }

  /** The k-th use takes the k-th argument after `next`. */
  predicate InOrder(uses: seq<IndexUse>, next: nat) {
    forall k :: 0 <= k < |uses| ==> uses[k] == Auto(next + k)
  }

  predicate Disciplined(uses: seq<IndexUse>, next: int) {
    if next < 0 then AllManual(uses)
    else if next > 0 then InOrder(uses, next)
    else AllManual(uses) || InOrder(uses, 0)
  }

  predicate Within(uses: seq<IndexUse>, n: nat) {
    forall k :: 0 <= k < |uses| ==> uses[k].k < n
  }

  /**
    Index discipline: the fields of a template either all name their arguments or all leave it to
    their order, the k-th of them then taking argument k; and no index reaches past the arguments.
    This holds for everything read before an error, too.
   */
  lemma IndexDiscipline(t: string, args: seq<ArgInfo>)
    ensures var uses := Uses(Parse(t, 0, args).segments);
            (AllManual(uses) || InOrder(uses, 0)) && Within(uses, |args|)
  {
    DisciplineFrom(t, 0, args);
  }

  lemma {:induction false} DisciplineFrom(t: string, next: int, args: seq<ArgInfo>)
    ensures Disciplined(Uses(Parse(t, next, args).segments), next)
    ensures Within(Uses(Parse(t, next, args).segments), |args|)
    decreases |t|
  {
    if t == "" {
    } else if t[0] != '{' && t[0] != '}' {
      DisciplineFrom(t[1..], next, args);
      UsesBehind(Plain(t[0]), Parse(t[1..], next, args).segments);
    } else if Peek(t[1..]) == t[0] {
      DisciplineFrom(t[2..], next, args);
      UsesBehind(Escaped(t[0]), Parse(t[2..], next, args).segments);
    } else if t[0] == '{' {
      var parsed := ParseField(t[1..], next, args);
      if parsed.Ok? {
        var (field, next', rest) := parsed.value;
        DisciplineFrom(rest, next', args);
        FieldDiscipline(t[1..], next, args);
        UsesBehind(Hole(field), Parse(rest, next', args).segments);
        DisciplineJoins(FieldUses(field), Uses(Parse(rest, next', args).segments), next, next');
      }
    }
  }

  lemma UsesBehind(segment: Segment, rest: seq<Segment>)
    ensures Uses([segment] + rest) == (if segment.Hole? then FieldUses(segment.field) else []) + Uses(rest)
    ensures !segment.Hole? ==> Uses([segment] + rest) == Uses(rest)
  {
    assert ([segment] + rest)[1..] == rest;
  }

  lemma DisciplineJoins(a: seq<IndexUse>, b: seq<IndexUse>, next: int, next': int)
    requires |a| >= 1 && Moves(a, next, next') && Disciplined(b, next')
    ensures Disciplined(a + b, next)
  {
    if next' > 0 {
      forall k | |a| <= k < |a| + |b| ensures (a + b)[k] == Auto(next + k) {
        assert (a + b)[k] == b[k - |a|] == Auto(next' + (k - |a|));
      }
    }
  }

  /** How uses move the parser's index state. */
  predicate Moves(uses: seq<IndexUse>, next: int, next': int) {
    if next' < 0 then next <= 0 && AllManual(uses)
    else next >= 0 && InOrder(uses, next) && next' == next + |uses|
  }

  lemma IndexMoves(s: string, next: int, open: nat, numArgs: nat)
    requires ParseArgIndex(s, next, open, numArgs).Ok?
    ensures var (use, next', _) := ParseArgIndex(s, next, open, numArgs).value;
            Moves([use], next, next') && use.k < numArgs
  {
  }

  lemma FieldDiscipline(s: string, next: int, args: seq<ArgInfo>)
    requires ParseField(s, next, args).Ok?
    ensures var (field, next', _) := ParseField(s, next, args).value;
            Moves(FieldUses(field), next, next') && Within(FieldUses(field), |args|)
  {
    IndexMoves(s, next, 1, |args|);
    var (use, next1, rest) := ParseArgIndex(s, next, 1, |args|).value;
    SpecDiscipline(use, rest, next1, args);
    var (field, next', _) := ParseField(s, next, args).value;
    if field.nested.Some? {
      assert FieldUses(field) == [use, field.nested.value];
    } else {
      assert FieldUses(field) == [use];
    }
  }

  lemma SpecDiscipline(use: IndexUse, s: string, next: int, args: seq<ArgInfo>)
    requires use.k < |args| && ParseFieldSpec(use, s, next, args).Ok?
    ensures var (field, next', _) := ParseFieldSpec(use, s, next, args).value;
            && (field.nested.None? ==> next' == next)
            && (field.nested.Some? ==> Moves([field.nested.value], next, next') && field.nested.value.k < |args|)
  {
    if Peek(s) == ':' {
      var laidOut := ParseLayout(s[1..], args[use.k], 1);
      PrecisionDiscipline(laidOut.value.1, next, args, args[use.k]);
    }
  }

  lemma PrecisionDiscipline(s: string, next: int, args: seq<ArgInfo>, arg: ArgInfo)
    requires ParsePrecision(s, next, args, arg, 1).Ok?
    ensures var p := ParsePrecision(s, next, args, arg, 1).value;
            && (p.nested.None? ==> p.next == next)
            && (p.nested.Some? ==> Moves([p.nested.value], next, p.next) && p.nested.value.k < |args|)
  {
    if Peek(s) == '.' && !Numerals.IsDecimal(Peek(s[1..])) {
      IndexMoves(s[1..][1..], next, 2, |args|);
    }
  }

  // ---------------------------------------------------------------- whole templates

  /** A template printed from the grammar appends what its fields render to. */
  lemma PrintedOutcome(items: seq<Item>, args: seq<ArgInfo>)
    requires Legal(items, 0, args)
    ensures InBounds(Meaning(items, 0, args), args)
    ensures Outcome(Print(items), args) == RenderAll(Meaning(items, 0, args), args)
  {
    PrintedParses(items, 0, args);
  }

  /**
    Brace escaping round-trips: a text with its braces doubled prints itself, up to its first NUL, whatever the
    arguments.
   */
  lemma EscapeRoundTrip(s: string, args: seq<ArgInfo>)
    ensures Outcome(CString(Escape(s)), args) == Rendered(CString(s), None)
  {
    EscapeCString(s);
    EscapedPrintsItself(CString(s), args);
  }

  lemma {:induction false} EscapeCString(s: string)
    ensures CString(Escape(s)) == Escape(CString(s))
  {
    if s != "" && s[0] != '\0' {
      var c, more := s[0], s[1..];
      EscapeCString(more);
      EscapeNext(c, more);
      EscapeNext(c, CString(more));
      assert s == [c] + more;
      CStringNext(c, more);
      CStringNext(c, Escape(more));
      CStringNext(c, [c] + Escape(more));
    }
  }

  lemma EscapeNext(c: char, s: string)
    ensures Escape([c] + s) == if c == '{' || c == '}' then [c] + ([c] + Escape(s)) else [c] + Escape(s)
  {
    assert ([c] + s)[1..] == s;
    assert [c, c] + Escape(s) == [c] + ([c] + Escape(s));
  }

  lemma CStringNext(c: char, s: string)
    requires c != '\0'
    ensures CString([c] + s) == [c] + CString(s)
  {
    assert ([c] + s)[1..] == s;
  }

  lemma EscapedPrintsItself(s: string, args: seq<ArgInfo>)
    ensures Outcome(Escape(s), args) == Rendered(s, None)
  {
    EscapedParses(s, "", 0, args);
    assert Escape(s) + "" == Escape(s);
    TextRenders(s, args);
    assert TextMeaning(s) + [] == TextMeaning(s);
  }

  lemma {:induction false} TextRenders(s: string, args: seq<ArgInfo>)
    ensures InBounds(TextMeaning(s), args) && RenderAll(TextMeaning(s), args) == Rendered(s, None)
  {
    if s != "" {
      TextRenders(s[1..], args);
      assert TextMeaning(s)[1..] == TextMeaning(s[1..]);
      assert s == [s[0]] + s[1..];
    }
  }

  // ---------------------------------------------------------------- error precedence

  /** How many braces are open behind a text. */
  function Depth(s: string, open: int): int {
    if s == "" then open
    else Depth(s[..|s| - 1], open) + (if s[|s| - 1] == '{' then 1 else if s[|s| - 1] == '}' then -1 else 0)
  }

  lemma {:induction false} DepthFirst(c: char, s: string, open: int)
    ensures Depth([c] + s, open) == Depth(s, open + (if c == '{' then 1 else if c == '}' then -1 else 0))
    decreases |s|
  {
    if s == "" {
      assert ([c] + s)[..0] == "";
    } else {
      assert ([c] + s)[..|s|] == [c] + s[..|s| - 1];
      DepthFirst(c, s[..|s| - 1], open);
    }
  }

  ghost predicate Closes(rest: string, open: int) {
    exists k :: 0 <= k <= |rest| && Depth(rest[..k], open) == 0
  }

  /** An error is reported as itself exactly when the rest of the template closes the open braces. */
  lemma {:induction false} ReportIffClosed(rest: string, open: nat, error: FormatError)
    requires open >= 1
    ensures Report(rest, open, error) == if Closes(rest, open) then error else UnmatchedOpen
    decreases |rest|
  {
    assert rest[..0] == "";
    if rest != "" {
      var c, more := rest[0], rest[1..];
      forall k | 1 <= k <= |rest|
        ensures Depth(rest[..k], open)
             == Depth(more[..k - 1], open + (if c == '{' then 1 else if c == '}' then -1 else 0))
      {
        assert rest[..k] == [c] + more[..k - 1];
        DepthFirst(c, more[..k - 1], open);
      }
      if c == '}' && open == 1 {
        assert Depth(rest[..1], open) == Depth(more[..0], 0);
      } else {
        var open' := open + (if c == '{' then 1 else if c == '}' then -1 else 0);
        ReportIffClosed(more, open', error);
        if Closes(more, open') {
          var k :| 0 <= k <= |more| && Depth(more[..k], open') == 0;
          assert Depth(rest[..k + 1], open) == Depth(more[..k + 1 - 1], open');
        }
        if Closes(rest, open) {
          var k :| 0 <= k <= |rest| && Depth(rest[..k], open) == 0;
          assert k >= 1 && Depth(more[..k - 1], open') == 0;
        }
      }
    }
  }

  // ---------------------------------------------------------------- an oddity

  /**
    A field with an empty specification, `{:}`, is given the alignment of the character behind it.
    Its specification is the plain one exactly when that character is no alignment.
   */
  lemma EmptySpecLooksAhead(use: IndexUse, rest: string, next: int, args: seq<ArgInfo>)
    requires use.k < |args|
    ensures ParseFieldSpec(use, ":}" + rest, next, args)
         == Ok((Field(use, PLAIN.(align := AlignOf(Peek(rest))), -1, None), next, rest))
    ensures PLAIN.(align := AlignOf(Peek(rest))) == PLAIN <==> AlignOf(Peek(rest)) == Default
  {
    var s := "}" + rest;
    assert (":}" + rest)[1..] == s && s[1..] == rest;
  }

  /** Numbers, characters, strings and pointers print the same under such an alignment. */
  lemma BareAlignmentShowsNothing(align: Alignment, arg: ArgInfo)
    requires !arg.DoubleArg? && !arg.CustomArg?
    ensures var bare := Field(Auto(0), PLAIN, -1, None);
            RenderField(bare.(spec := PLAIN.(align := align)), arg) == RenderField(bare, arg)
  {
  }

  /** An argument that prints its alignment. */
  function Tell(): ArgInfo {
    CustomArg((spec: FormatSpec) => Ok(if spec.align == Left then "L" else "D"))
  }

  /** A custom argument can tell: the literal character behind its field reaches it as an alignment. */
  lemma CustomSeesTheNextCharacter()
    ensures Outcome("{:}" + "<", [Tell()]) == Rendered("L" + "<", None)
    ensures Outcome("{:}" + ".", [Tell()]) == Rendered("D" + ".", None)
  {
    OneEmptyField("<", Tell(), "L");
    OneEmptyField(".", Tell(), "D");
  }

  lemma OneEmptyField(rest: string, arg: ArgInfo, text: string)
    requires |rest| == 1 && rest[0] != '{' && rest[0] != '}'
    requires arg.CustomArg? && arg.printCustom(PLAIN.(align := AlignOf(rest[0]))) == Ok(text)
    ensures Outcome("{:}" + rest, [arg]) == Rendered(text + rest, None)
  {
    var t := "{:}" + rest;
    EmptySpecLooksAhead(Auto(0), rest, 1, [arg]);
    assert t[1..] == ":}" + rest;
    var field := Field(Auto(0), PLAIN.(align := AlignOf(Peek(rest))), -1, None);
    assert Parse(rest[1..], 1, [arg]) == Parsed([], Complete);
    assert Parse(rest, 1, [arg]) == Parsed([Plain(rest[0])], Complete);
    var segments := [Hole(field), Plain(rest[0])];
    assert Parse(t, 0, [arg]) == Parsed(segments, Complete);
    assert segments[1..] == [Plain(rest[0])] && segments[1..][1..] == [];
    assert RenderAll([], [arg]) == Rendered("", None);
    assert RenderAll(segments[1..], [arg]) == Rendered([rest[0]] + "", None);
    assert RenderAll(segments, [arg]) == Rendered(text + ([rest[0]] + ""), None);
  }
}
