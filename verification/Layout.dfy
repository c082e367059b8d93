/**
  What a formatted field looks like: a pure layout of fill, sign, prefix and digits.
  The in-place writer is proved against these functions.
 */
module Layout {
  import opened Outcomes
  import opened Numerals
  import MachineInts
  import opened Strings

  datatype Alignment = Default | Left | Right | Center | Numeric

  /** `FormatSpec`; the type code `'\0'` stands for no code. */
  datatype FormatSpec = FormatSpec(
    width: nat, fill: char, align: Alignment,
    signFlag: bool, plusFlag: bool, hashFlag: bool, code: char)

  const PLAIN: FormatSpec := FormatSpec(0, ' ', Default, false, false, false, '\0')

  function Padding(width: nat, size: nat): nat {
    if width <= size then 0 else width - size
  }

  /** How much fill goes before the sign, between sign and body, and after the body. */
  datatype Pads = Pads(before: nat, between: nat, after: nat)

  /** Only the numeric alignment separates the sign from the body; the default is the right. */
  function NumberPads(spec: FormatSpec, size: nat): (p: Pads)
    ensures p.before + p.between + p.after == Padding(spec.width, size)
  {
    var pad := Padding(spec.width, size);
    match spec.align
    case Left => Pads(0, 0, pad)
    case Center => Pads(pad / 2, 0, pad - pad / 2)
    case Numeric => Pads(0, pad, 0)
    case Right => Pads(pad, 0, 0)
    case Default => Pads(pad, 0, 0)
  }

  function NumberLayout(spec: FormatSpec, sign: string, body: string): (s: string)
    ensures |s| == |sign| + |body| + Padding(spec.width, |sign| + |body|)
  {
    var p := NumberPads(spec, |sign| + |body|);
    Repeat(spec.fill, p.before) + sign + Repeat(spec.fill, p.between) + body + Repeat(spec.fill, p.after)
  }

  /** Text: left-aligned unless told otherwise. */
  function TextPads(spec: FormatSpec, size: nat): (p: Pads)
    ensures p.before + p.after == Padding(spec.width, size) && p.between == 0
  {
    var pad := Padding(spec.width, size);
    match spec.align
    case Right => Pads(pad, 0, 0)
    case Center => Pads(pad / 2, 0, pad - pad / 2)
    case _ => Pads(0, 0, pad)
  }

  function TextLayout(spec: FormatSpec, text: string): (s: string)
    ensures |s| == |text| + Padding(spec.width, |text|)
  {
    var p := TextPads(spec, |text|);
    Repeat(spec.fill, p.before) + text + Repeat(spec.fill, p.after)
  }

  function SignText(value: int, spec: FormatSpec): string {
    if value < 0 then "-"
    else if spec.signFlag then (if spec.plusFlag then "+" else " ")
    else ""
  }

  function BaseOf(code: char): Option<nat> {
    if code == '\0' || code == 'd' then Some(10)
    else if code == 'x' || code == 'X' then Some(16)
    else if code == 'b' || code == 'B' then Some(2)
    else if code == 'o' then Some(8)
    else None
  }

  function PrefixText(spec: FormatSpec): string {
    if !spec.hashFlag then ""
    else if spec.code in "xXbB" then ['0', spec.code]
    else if spec.code == 'o' then "0"
    else ""
  }

  function DigitsText(n: nat, code: char): (s: string)
    requires BaseOf(code).Some?
    ensures |s| >= 1
  {
    Numeral(n, BaseOf(code).value, code == 'X')
  }

  /** What the writer appends for an integer. */
  function RenderInt(value: int, spec: FormatSpec): Result<string, FormatError> {
    if BaseOf(spec.code).None? then Err(UnknownTypeCode(spec.code, "integer"))
    else Ok(NumberLayout(spec, SignText(value, spec), PrefixText(spec) + DigitsText(MachineInts.Abs(value), spec.code)))
  }

  /** Where the body of a number starts in its layout. */
  function BodyStart(spec: FormatSpec, signSize: nat, size: nat): nat {
    var p := NumberPads(spec, size);
    p.before + signSize + p.between
  }

  /** Cell `k` of a number of `size` characters holds what it must, unless it belongs to the body. */
  predicate FrameCell(c: char, k: nat, spec: FormatSpec, sign: string, size: nat) {
    var p := NumberPads(spec, size);
    if k < p.before then c == spec.fill
    else if k < p.before + |sign| then c == sign[k - p.before]
    else if k < p.before + |sign| + p.between then c == spec.fill
    else if k < p.before + p.between + size then true
    else c == spec.fill
  }

  /** A text followed by cells that hold everything of a number's layout except its body. */
  ghost predicate Framed(cells: string, was: string, spec: FormatSpec, sign: string, size: nat) {
    && |cells| == |was| + size + Padding(spec.width, size)
    && (forall k :: 0 <= k < |was| ==> cells[k] == was[k])
    && (forall k :: |was| <= k < |cells| ==> FrameCell(cells[k], k - |was|, spec, sign, size))
  }

  /** The cells in front of the body and behind it. */
  lemma FrameSegments(cells: string, was: string, spec: FormatSpec, sign: string, size: nat)
    requires |sign| <= size && Framed(cells, was, spec, sign, size)
    ensures var p := NumberPads(spec, size);
            var at := |was| + BodyStart(spec, |sign|, size);
            && at + (size - |sign|) <= |cells|
            && cells[..at] == was + (Repeat(spec.fill, p.before) + sign + Repeat(spec.fill, p.between))
            && cells[at + (size - |sign|)..] == Repeat(spec.fill, p.after)
  {
    var p := NumberPads(spec, size);
    var at := |was| + BodyStart(spec, |sign|, size);
    forall k | 0 <= k < at
      ensures cells[k] == (was + (Repeat(spec.fill, p.before) + sign + Repeat(spec.fill, p.between)))[k]
    {
      if |was| <= k { assert FrameCell(cells[k], k - |was|, spec, sign, size); }
    }
  }

  /** Writing the body into such cells completes the layout. */
  lemma OverwrittenFrame(cells: string, was: string, front: string, body: string, after: string)
    requires |was| + |front| + |body| <= |cells|
    requires cells[..|was| + |front|] == was + front
    requires cells[|was| + |front| + |body|..] == after
    ensures Overwritten(cells, |was| + |front|, body) == was + (front + body + after)
  {
  }

  /** Cells that become `was` and the laid-out number once its body, ending at `last`, is written. */
  predicate Ready(cells: string, was: string, spec: FormatSpec, sign: string, body: string, last: nat) {
    && last < |cells|
    && |body| <= last + 1
    && Overwritten(cells, last + 1 - |body|, body) == was + NumberLayout(spec, sign, body)
  }

  lemma FramedIsReady(cells: string, was: string, spec: FormatSpec, sign: string, body: string, last: nat)
    requires body != "" && Framed(cells, was, spec, sign, |sign| + |body|)
    requires last + 1 == |was| + BodyStart(spec, |sign|, |sign| + |body|) + |body|
    ensures Ready(cells, was, spec, sign, body, last)
  {
    var p := NumberPads(spec, |sign| + |body|);
    var front := Repeat(spec.fill, p.before) + sign + Repeat(spec.fill, p.between);
    FrameSegments(cells, was, spec, sign, |sign| + |body|);
    OverwrittenFrame(cells, was, front, body, Repeat(spec.fill, p.after));
  }

  /** A rendered number, taken apart: padding, sign and body in their places. */
  datatype Parts = Parts(before: string, sign: string, between: string, prefix: string, digits: string, after: string)
  {
    function Text(): string {
      before + sign + between + prefix + digits + after
    }

    function Number(base: nat): int {
      if sign == "-" then -(Value(digits, base) as int) else Value(digits, base) as int
    }

    /** The parts are those of a number printed to this specification. */
    ghost predicate Exact(value: int, spec: FormatSpec)
      requires BaseOf(spec.code).Some?
    {
      var content := |sign| + |prefix| + |digits|;
      && |Text()| == (if spec.width <= content then content else spec.width)
      && PaddedWith(spec.fill)
      && IsNumeralText(digits, BaseOf(spec.code).value, spec.code == 'X')
      && Number(BaseOf(spec.code).value) == value
    }

    predicate PaddedWith(fill: char) {
      && (forall c <- before :: c == fill)
      && (forall c <- between :: c == fill)
      && (forall c <- after :: c == fill)
    }
  }

  function PartsOf(value: int, spec: FormatSpec): Parts
    requires BaseOf(spec.code).Some?
  {
    var sign, prefix, digits := SignText(value, spec), PrefixText(spec), DigitsText(MachineInts.Abs(value), spec.code);
    var p := NumberPads(spec, |sign| + |prefix| + |digits|);
    Parts(Repeat(spec.fill, p.before), sign, Repeat(spec.fill, p.between), prefix, digits, Repeat(spec.fill, p.after))
  }

  /**
    Integer layout is exact: the text has max(width, content) characters, falls into fill, sign,
    prefix and digits, its digits are canonical and read, with the sign, as the value, and no
    placeholder cell shows unless the fill itself is the NUL character.
   */
  lemma RenderIntExact(value: int, spec: FormatSpec)
    requires BaseOf(spec.code).Some?
    ensures RenderInt(value, spec) == Ok(PartsOf(value, spec).Text())
    ensures PartsOf(value, spec).Exact(value, spec)
    ensures spec.fill != '\0' ==> '\0' !in PartsOf(value, spec).Text()
  {
    PartsMakeText(value, spec);
    PartsArePadded(value, spec);
    PartsRead(value, spec);
    if spec.fill != '\0' { NoPlaceholder(value, spec); }
  }

  lemma PartsMakeText(value: int, spec: FormatSpec)
    requires BaseOf(spec.code).Some?
    ensures NumberLayout(spec, SignText(value, spec), PrefixText(spec) + DigitsText(MachineInts.Abs(value), spec.code))
         == PartsOf(value, spec).Text()
  {
    var p := PartsOf(value, spec);
    assert p.Text() == p.before + p.sign + p.between + (p.prefix + p.digits) + p.after;
  }

  lemma PartsRead(value: int, spec: FormatSpec)
    requires BaseOf(spec.code).Some?
    ensures PartsOf(value, spec).Number(BaseOf(spec.code).value) == value
    ensures IsNumeralText(PartsOf(value, spec).digits, BaseOf(spec.code).value, spec.code == 'X')
  {
    NumeralReads(MachineInts.Abs(value), BaseOf(spec.code).value, spec.code == 'X');
  }

  lemma PartsArePadded(value: int, spec: FormatSpec)
    requires BaseOf(spec.code).Some?
    ensures PartsOf(value, spec).PaddedWith(spec.fill)
  {
  }

  lemma NoPlaceholder(value: int, spec: FormatSpec)
    requires BaseOf(spec.code).Some? && spec.fill != '\0'
    ensures '\0' !in PartsOf(value, spec).Text()
  {
    var p := PartsOf(value, spec);
    PartsArePadded(value, spec);
    NumeralHasNoNul(MachineInts.Abs(value), BaseOf(spec.code).value, spec.code == 'X');
    assert '\0' !in p.sign && '\0' !in p.prefix && '\0' !in p.digits;
    assert '\0' !in p.before && '\0' !in p.between && '\0' !in p.after;
  }

  lemma NumeralHasNoNul(n: nat, base: nat, upper: bool)
    requires 2 <= base <= 16
    ensures '\0' !in Numeral(n, base, upper)
  {
    NumeralReads(n, base, upper);
    var s := Numeral(n, base, upper);
    forall k | 0 <= k < |s| ensures s[k] != '\0' {
      DigitCharReads(DigitValue(s[k]), upper);
    }
  }
}
