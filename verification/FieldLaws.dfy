/** What a template with one field prints for each kind of argument, stated on its characters. */
module FieldLaws {
  import opened Outcomes
  import opened Layout
  import opened LayoutLaws
  import opened Templates
  import opened TemplateReadings
  import Acceptance

  /** The field is accepted for its argument. */
  ghost predicate Accepted(f: WrittenField, args: seq<ArgInfo>) {
    FieldReads(f, "") && Fault(f, 0, args).None?
  }

  function ArgumentOf(f: WrittenField, args: seq<ArgInfo>): ArgInfo
    requires IndexUseOf(f.index, 0).k < |args|
  {
    args[IndexUseOf(f.index, 0).k]
  }

  /** What the field says; without a colon, nothing. */
  function Says(f: WrittenField): FormatSpec {
    if f.spec.None? then FormatSpec(0, ' ', Default, false, false, false, '\0') else SpecMeaning(f.spec.value, "}")
  }

  function Only(f: WrittenField): string {
    "{" + FieldText(f, "")
  }

  function Prints(text: string): Rendered {
    Rendered(text, None)
  }

  function Refuses(error: FormatError): Rendered {
    Rendered("", Some(error))
  }

  /** The outcome is the rendering of the field. */
  lemma OneField(f: WrittenField, args: seq<ArgInfo>)
    requires Accepted(f, args)
    ensures IndexUseOf(f.index, 0).k < |args|
    ensures var field := FieldMeaning(f, 0, args, "").0;
            var rendered := RenderField(field, ArgumentOf(f, args));
            && field.spec == Says(f)
            && Outcome(Only(f), args) == if rendered.Err? then Refuses(rendered.error) else Prints(rendered.value)
  {
    var pieces, field := [Acceptance.Replaced(f)], FieldMeaning(f, 0, args, "").0;
    Acceptance.FieldMeets(f, 0, args, "");
    assert pieces[1..] == [] && Acceptance.Text([], "") == "";
    assert Acceptance.Text(pieces, "") == Only(f);
    Acceptance.ReadingsAreAccepted(pieces, args);
    var segments := Acceptance.Segments(pieces, "", 0, args);
    assert segments == [Hole(field)] && segments[1..] == [];
    assert RenderAll([], args) == Rendered("", None);
    var rendered := RenderField(field, ArgumentOf(f, args));
    assert rendered.Ok? ==> rendered.value + "" == rendered.value;
  }

  /** A character prints itself, with no code or 'c'. */
  lemma CharacterPrints(f: WrittenField, args: seq<ArgInfo>, c: char)
    requires Accepted(f, args) && IndexUseOf(f.index, 0).k < |args| && ArgumentOf(f, args) == CharArg(c)
    ensures var spec := Says(f);
            if spec.code == '\0' || spec.code == 'c' then
              exists text: string ::
                Outcome(Only(f), args) == Prints(text) && TextStands(text, [c], spec.width, spec.fill, spec.align)
            else Outcome(Only(f), args) == Refuses(UnknownTypeCode(spec.code, "char"))
  {
    OneField(f, args);
    TextLayoutStands(Says(f), [c]);
    assert Says(f).code == '\0' || Says(f).code == 'c' ==> Outcome(Only(f), args) == Prints(TextLayout(Says(f), [c]));
  }

  /** A string prints itself, with no code or 's'; a null pointer is refused. */
  lemma StringPrints(f: WrittenField, args: seq<ArgInfo>, s: Option<string>)
    requires Accepted(f, args) && IndexUseOf(f.index, 0).k < |args| && ArgumentOf(f, args) == StringArg(s)
    ensures var spec := Says(f);
            if spec.code != '\0' && spec.code != 's' then
              Outcome(Only(f), args) == Refuses(UnknownTypeCode(spec.code, "string"))
            else if s.None? then Outcome(Only(f), args) == Refuses(NullString)
            else
              exists text: string ::
                Outcome(Only(f), args) == Prints(text) && TextStands(text, s.value, spec.width, spec.fill, spec.align)
  {
    OneField(f, args);
    if s.Some? {
      TextLayoutStands(Says(f), s.value);
      assert Says(f).code == '\0' || Says(f).code == 's' ==>
          Outcome(Only(f), args) == Prints(TextLayout(Says(f), s.value));
    }
  }

  /** An integer prints its own value to the field's own specification. */
  lemma IntegerPrints(f: WrittenField, args: seq<ArgInfo>)
    requires Accepted(f, args) && IndexUseOf(f.index, 0).k < |args| && ArgumentOf(f, args).IntArg?
    ensures var spec, value := Says(f), ArgumentOf(f, args).value;
            if IsIntegerCode(spec.code) then
              exists text: string :: Outcome(Only(f), args) == Prints(text) && IsInteger(text, value, spec)
            else Outcome(Only(f), args) == Refuses(UnknownTypeCode(spec.code, "integer"))
  {
    OneField(f, args);
    RenderIntPrints(ArgumentOf(f, args).value, Says(f));
    if IsIntegerCode(Says(f).code) {
      var text := RenderInt(ArgumentOf(f, args).value, Says(f)).value;
      assert Outcome(Only(f), args) == Prints(text);
    }
  }

  /** The specification under which a pointer prints: hexadecimal with its prefix, whatever flags were written. */
  function AsPointer(spec: FormatSpec): FormatSpec {
    FormatSpec(spec.width, spec.fill, spec.align, false, false, true, 'x')
  }

  /** A pointer prints "0x" and the lower-case hexadecimal digits of its address, with no code or 'p'. */
  lemma PointerPrints(f: WrittenField, args: seq<ArgInfo>, address: nat)
    requires Accepted(f, args) && IndexUseOf(f.index, 0).k < |args| && ArgumentOf(f, args) == PointerArg(address)
    ensures var spec := Says(f);
            if spec.code == '\0' || spec.code == 'p' then
              exists text: string ::
                Outcome(Only(f), args) == Prints(text) && IsInteger(text, address, AsPointer(spec))
            else Outcome(Only(f), args) == Refuses(UnknownTypeCode(spec.code, "pointer"))
  {
    OneField(f, args);
    RenderIntPrints(address, AsPointer(Says(f)));
    if Says(f).code == '\0' || Says(f).code == 'p' {
      var text := RenderInt(address, AsPointer(Says(f))).value;
      assert Outcome(Only(f), args) == Prints(text);
    }
  }

  /** What pointers look like, spelled out. */
  lemma PointerLooks(text: string, address: nat, spec: FormatSpec)
    requires IsInteger(text, address, AsPointer(spec))
    ensures exists digits: seq<nat>, hex: string ::
              && Spells(hex, digits, LowerSymbols(), 16) && ValueOf(digits, 16) == address
              && NumberStands(text, "", "0x" + hex, spec.width, spec.fill, spec.align)
  {
    var w: Written :| w.Prints(text, address, AsPointer(spec));
    assert Spells(w.text, w.digits, LowerSymbols(), 16);
    assert w.prefix == "0x";
  }

  /** Flags written for a pointer change nothing. */
  lemma PointersIgnoreFlags(field: Field, address: nat, signFlag: bool, plusFlag: bool, hashFlag: bool)
    ensures RenderField(field, PointerArg(address))
         == RenderField(field.(spec := field.spec.(signFlag := signFlag, plusFlag := plusFlag, hashFlag := hashFlag)),
                        PointerArg(address))
  {
  }

  /** A floating-point number prints what its printer says for the field's specification and precision. */
  lemma DoublePrints(f: WrittenField, args: seq<ArgInfo>)
    requires Accepted(f, args) && IndexUseOf(f.index, 0).k < |args| && ArgumentOf(f, args).DoubleArg?
    requires f.spec.Some? ==> f.spec.value.precision.None? || f.spec.value.precision.value.Figures?
    ensures var precision := if f.spec.Some? && f.spec.value.precision.Some?
                             then Number(f.spec.value.precision.value.digits) else -1;
            var printed := ArgumentOf(f, args).printDouble(Says(f), precision);
            Outcome(Only(f), args) == if printed.Err? then Refuses(printed.error) else Prints(printed.value)
  {
    OneField(f, args);
  }

  /** With a nested field, the precision is the integer it names. */
  lemma DoublePrintsNested(f: WrittenField, args: seq<ArgInfo>)
    requires Accepted(f, args) && IndexUseOf(f.index, 0).k < |args| && ArgumentOf(f, args).DoubleArg?
    requires f.spec.Some? && f.spec.value.precision.Some? && f.spec.value.precision.value.Braced?
    ensures var use := IndexUseOf(f.spec.value.precision.value.index, NextOf(f.index, 0));
            && use.k < |args| && args[use.k].IntArg? && 0 <= args[use.k].value <= 0x7FFF_FFFF
            && var printed := ArgumentOf(f, args).printDouble(Says(f), args[use.k].value);
               Outcome(Only(f), args) == if printed.Err? then Refuses(printed.error) else Prints(printed.value)
  {
    OneField(f, args);
  }

  /** A custom argument prints itself for the field's specification, and takes no code. */
  lemma CustomPrints(f: WrittenField, args: seq<ArgInfo>)
    requires Accepted(f, args) && IndexUseOf(f.index, 0).k < |args| && ArgumentOf(f, args).CustomArg?
    ensures if Says(f).code != '\0' then Outcome(Only(f), args) == Refuses(UnknownTypeCode(Says(f).code, "object"))
            else
              var printed := ArgumentOf(f, args).printCustom(Says(f));
              Outcome(Only(f), args) == if printed.Err? then Refuses(printed.error) else Prints(printed.value)
  {
    OneField(f, args);
    CustomRenders(FieldMeaning(f, 0, args, "").0, ArgumentOf(f, args));
  }

  lemma CustomRenders(field: Field, arg: ArgInfo)
    requires arg.CustomArg?
    ensures RenderField(field, arg)
         == if field.spec.code != '\0' then Err(UnknownTypeCode(field.spec.code, "object"))
            else arg.printCustom(field.spec)
  {
  }
}
