/**
  `BasicWriter`: formats integers and strings straight into the output array. Each method
  is proved to append exactly the layout that module Layout defines.
 */
module Writers {
  import opened Outcomes
  import opened Numerals
  import DigitCount
  import opened MachineInts
  import DecimalPrinters
  import opened OutputArray
  import opened Layout
  import opened Strings

  const INLINE_BUFFER_SIZE: nat := 500

  class Writer {
    const buffer: Array<char>

    ghost predicate Valid()
      reads this, buffer
    {
      buffer.Valid()
    }

    function Contents(): string
      requires Valid()
      reads this, buffer, buffer.ptr
    {
      buffer.Contents()
    }

    function Space(): Room
      reads this, buffer
    {
      Room(buffer.size, buffer.capacity)
    }

    constructor ()
      ensures Valid() && fresh(buffer) && fresh(buffer.ptr)
      ensures Contents() == "" && Space() == Room(0, INLINE_BUFFER_SIZE)
    {
      buffer := new Array<char>(INLINE_BUFFER_SIZE);
    }

    /** Adds `n` cells of unknown content and returns the index of the first. */
    method GrowBuffer(n: nat) returns (p: nat)
      requires Valid()
      modifies buffer
      ensures Valid() && (buffer.ptr == old(buffer.ptr) || fresh(buffer.ptr))
      ensures p == old(buffer.size) && buffer.size == p + n
      ensures forall k :: 0 <= k < p ==> buffer.ptr[k] == old(buffer.ptr[k])
      ensures buffer.capacity == Resized(old(buffer.capacity), buffer.size)
      ensures unchanged(old(buffer.ptr))
    {
      p := buffer.size;
      ghost var was := Contents();
      buffer.Resize(p + n);
      assert forall k :: 0 <= k < p ==> buffer.ptr[k] == Contents()[..p][k] == was[k];
    }

    /** `std::fill` */
    method Fill(from: nat, to: nat, c: char)
      requires Valid() && from <= to <= buffer.size
      modifies buffer.ptr
      ensures forall k :: 0 <= k < buffer.ptr.Length ==>
                buffer.ptr[k] == if from <= k < to then c else old(buffer.ptr[k])
    {
      forall k | from <= k < to {
        buffer.ptr[k] := c;
      }
    }

    /** Fills both sides of a centred content and returns where the content goes. */
    method FillPadding(at: nat, totalSize: nat, contentSize: nat, fill: char) returns (content: nat)
      requires Valid() && contentSize <= totalSize && at + totalSize <= buffer.size
      modifies buffer.ptr
      ensures content == at + (totalSize - contentSize) / 2
      ensures forall k :: 0 <= k < buffer.ptr.Length ==>
                buffer.ptr[k] == if at <= k < content || content + contentSize <= k < at + totalSize then fill
                                 else old(buffer.ptr[k])
    {
      var padding := totalSize - contentSize;
      var leftPadding := padding / 2;
      Fill(at, at + leftPadding, fill);
      content := at + leftPadding;
      Fill(content + contentSize, content + contentSize + (padding - leftPadding), fill);
    }

    /**
      Reserves the cells of a number and fills everything but its body. A missing sign is
      written as a NUL into the body's first cell, which the caller overwrites.
      Returns the index of the body's last cell. Any body of the right size can follow.
     */
    method PrepareFilledBuffer(size: nat, spec: FormatSpec, sign: string, ghost body: string) returns (last: nat)
      requires Valid() && |sign| <= 1 && body != "" && size == |sign| + |body|
      modifies buffer, buffer.ptr
      ensures Valid() && (buffer.ptr == old(buffer.ptr) || fresh(buffer.ptr))
      ensures buffer.capacity == Resized(old(buffer.capacity), buffer.size)
      ensures Ready(Contents(), old(Contents()), spec, sign, body, last)
    {
      ghost var was := Contents();
      last := PrepareCells(size, spec, sign);
      assert forall k :: 0 <= k < |was| ==> Contents()[k] == was[k];
      FramedIsReady(Contents(), was, spec, sign, body, last);
    }

    /** The cell writes of `PrepareFilledBuffer`. */
    method PrepareCells(size: nat, spec: FormatSpec, sign: string) returns (last: nat)
      requires Valid() && |sign| <= 1 && |sign| < size
      modifies buffer, buffer.ptr
      ensures Valid() && (buffer.ptr == old(buffer.ptr) || fresh(buffer.ptr))
      ensures buffer.capacity == Resized(old(buffer.capacity), buffer.size)
      ensures buffer.size == old(buffer.size) + size + Padding(spec.width, size)
      ensures forall k :: 0 <= k < old(buffer.size) ==> buffer.ptr[k] == old(buffer.ptr[k])
      ensures forall k :: old(buffer.size) <= k < buffer.size ==>
                FrameCell(buffer.ptr[k], k - old(buffer.size), spec, sign, size)
      ensures last + 1 == old(buffer.size) + BodyStart(spec, |sign|, size) + size - |sign|
    {
      var signCell := if sign == "" then '\0' else sign[0];
      var width := spec.width;
      if width <= size {
        var p := GrowBuffer(size);
        buffer.ptr[p] := signCell;
        return p + size - 1;
      }
      var p := GrowBuffer(width);
      if spec.align == Left || spec.align == Center {
        last := PrepareLeftOrCenter(p, size, spec, sign, signCell);
      } else {
        last := PrepareRight(p, size, spec, sign, signCell);
      }
    }

    method PrepareLeftOrCenter(start: nat, size: nat, spec: FormatSpec, sign: string, signCell: char) returns (last: nat)
      requires Valid() && |sign| <= 1 && |sign| < size < spec.width
      requires sign != "" ==> signCell == sign[0]
      requires start + spec.width == buffer.size && (spec.align == Left || spec.align == Center)
      modifies buffer.ptr
      ensures forall k :: 0 <= k < start ==> buffer.ptr[k] == old(buffer.ptr[k])
      ensures forall k :: start <= k < buffer.size ==> FrameCell(buffer.ptr[k], k - start, spec, sign, size)
      ensures last + 1 == start + BodyStart(spec, |sign|, size) + size - |sign|
    {
      var p := start;
      if spec.align == Left {
        buffer.ptr[p] := signCell;
        p := p + size;
        Fill(p, start + spec.width, spec.fill);
      } else {
        p := FillPadding(p, spec.width, size, spec.fill);
        buffer.ptr[p] := signCell;
        p := p + size;
      }
      return p - 1;
    }

    method PrepareRight(start: nat, size: nat, spec: FormatSpec, sign: string, signCell: char) returns (last: nat)
      requires Valid() && |sign| <= 1 && |sign| < size < spec.width
      requires sign != "" ==> signCell == sign[0]
      requires start + spec.width == buffer.size && spec.align != Left && spec.align != Center
      modifies buffer.ptr
      ensures forall k :: 0 <= k < start ==> buffer.ptr[k] == old(buffer.ptr[k])
      ensures forall k :: start <= k < buffer.size ==> FrameCell(buffer.ptr[k], k - start, spec, sign, size)
      ensures last + 1 == start + BodyStart(spec, |sign|, size) + size - |sign|
    {
      var p, end, bodySize := start, start + spec.width, size;
      if spec.align == Numeric {
        if sign != "" {
          buffer.ptr[p] := signCell;
          p := p + 1;
          bodySize := bodySize - 1;
        }
      } else {
        buffer.ptr[end - bodySize] := signCell;
      }
      Fill(p, end - bodySize, spec.fill);
      return end - 1;
    }

    /** `do ++size; while ((n >>= shift) != 0)` */
    static method CountBaseDigits(n: nat, base: nat, upper: bool) returns (count: nat)
      requires 2 <= base <= 16
      ensures count == |Numeral(n, base, upper)|
    {
      count := 1;
      NumeralStep(n, base, upper);
      var rest: nat := n / base;
      while rest != 0
        invariant |Numeral(n, base, upper)| == count + if rest == 0 then 0 else |Numeral(rest, base, upper)|
        decreases rest
      {
        NumeralStep(rest, base, upper);
        count := count + 1;
        rest := rest / base;
      }
    }

    /** `do *p-- = digits[n & mask]; while ((n >>= shift) != 0)`, from `last` towards the front. */
    method PutDigits(last: nat, n: nat, base: nat, upper: bool) returns (before: int)
      requires Valid() && 2 <= base <= 16
      requires |Numeral(n, base, upper)| <= last + 1 <= buffer.size
      modifies buffer.ptr
      ensures before == last - |Numeral(n, base, upper)|
      ensures forall k :: before < k <= last ==> buffer.ptr[k] == Numeral(n, base, upper)[k - before - 1]
      ensures forall k :: 0 <= k <= before || last < k < buffer.ptr.Length ==> buffer.ptr[k] == old(buffer.ptr[k])
    {
      ghost var text := Numeral(n, base, upper);
      ghost var first, rest := last + 1 - |text|, text;
      var m: nat := n;
      before := last;
      while true
        invariant rest == Numeral(m, base, upper) && before == first + |rest| - 1 && |rest| <= |text|
        invariant forall j :: 0 <= j < |rest| ==> rest[j] == text[j]
        invariant forall k :: before < k <= last ==> buffer.ptr[k] == text[k - first]
        invariant forall k :: 0 <= k <= before || last < k < buffer.ptr.Length ==> buffer.ptr[k] == old(buffer.ptr[k])
        decreases m
      {
        NumeralStep(m, base, upper);
        buffer.ptr[before] := DigitChar(m % base, upper);
        before := before - 1;
        m := m / base;
        rest := rest[..|rest| - 1];
        if m == 0 { break; }
      }
    }

    /**
      `FormatInt`: appends the layout of an integer, or reports an unknown type code and
      leaves the writer as it was.
     */
    method FormatInt(t: IntType, value: int, spec: FormatSpec) returns (error: Option<FormatError>)
      requires Valid() && t.InRange(value)
      modifies buffer, buffer.ptr
      ensures Valid() && (buffer.ptr == old(buffer.ptr) || fresh(buffer.ptr))
      ensures buffer.capacity == Resized(old(buffer.capacity), buffer.size)
      ensures error.None? <==> RenderInt(value, spec).Ok?
      ensures error.None? ==> Contents() == old(Contents()) + RenderInt(value, spec).value
      ensures error.Some? ==> RenderInt(value, spec) == Err(error.value) && Contents() == old(Contents())
    {
      var sign, absValue := SignAndMagnitude(t, value, spec);
      if spec.code == '\0' || spec.code == 'd' {
        FormatDecimalDigits(t, absValue, spec, sign);
      } else if spec.code == 'x' || spec.code == 'X' {
        FormatBaseDigits(absValue, spec, sign, 16, spec.code == 'X');
      } else if spec.code == 'b' || spec.code == 'B' {
        FormatBaseDigits(absValue, spec, sign, 2, false);
      } else if spec.code == 'o' {
        FormatBaseDigits(absValue, spec, sign, 8, false);
      } else {
        return Some(UnknownTypeCode(spec.code, "integer"));
      }
      return None;
    }

    /** The sign character and the wrapping negation at the head of `FormatInt`. */
    static method SignAndMagnitude(t: IntType, value: int, spec: FormatSpec) returns (sign: string, absValue: nat)
      requires t.InRange(value)
      ensures sign == SignText(value, spec) && absValue == Abs(value) < t.Modulus()
    {
      MagnitudeIsAbs(t, value);
      absValue := ToMain(value, t.Modulus());
      sign := "";
      if value < 0 {
        sign := "-";
        absValue := WrapNegate(absValue, t.Modulus());
      } else if spec.signFlag {
        sign := if spec.plusFlag then "+" else " ";
      }
    }

    /** The decimal case of `FormatInt`. */
    method FormatDecimalDigits(t: IntType, absValue: nat, spec: FormatSpec, sign: string)
      requires Valid() && |sign| <= 1 && absValue < t.Modulus() && BaseOf(spec.code) == Some(10)
      modifies buffer, buffer.ptr
      ensures Valid() && (buffer.ptr == old(buffer.ptr) || fresh(buffer.ptr))
      ensures buffer.capacity == Resized(old(buffer.capacity), buffer.size)
      ensures Contents() == old(Contents()) + NumberLayout(spec, sign, PrefixText(spec) + Numeral(absValue, 10, false))
    {
      NoPrefix(spec, Numeral(absValue, 10, false));
      var numDigits := if t.Modulus() == 0x1_0000_0000 then DigitCount.CountDigits32(absValue)
                       else DigitCount.CountDigits64(absValue);
      PutPadded(absValue, numDigits, spec, sign);
    }

    method PutPadded(absValue: nat, numDigits: nat, spec: FormatSpec, sign: string)
      requires Valid() && |sign| <= 1 && numDigits == |Numeral(absValue, 10, false)|
      modifies buffer, buffer.ptr
      ensures Valid() && (buffer.ptr == old(buffer.ptr) || fresh(buffer.ptr))
      ensures buffer.capacity == Resized(old(buffer.capacity), buffer.size)
      ensures Contents() == old(Contents()) + NumberLayout(spec, sign, Numeral(absValue, 10, false))
    {
      var last := PrepareFilledBuffer(|sign| + numDigits, spec, sign, Numeral(absValue, 10, false));
      PutDecimal(last, absValue, numDigits);
    }

    static lemma NoPrefix(spec: FormatSpec, body: string)
      requires BaseOf(spec.code) == Some(10)
      ensures PrefixText(spec) + body == body
    {
    }

    method PutDecimal(last: nat, absValue: nat, numDigits: nat)
      requires Valid() && last < buffer.size
      requires numDigits == |Numeral(absValue, 10, false)| <= last + 1
      modifies buffer.ptr
      ensures Contents() == Overwritten(old(Contents()), last + 1 - numDigits, Numeral(absValue, 10, false))
    {
      DecimalPrinters.FormatDecimal(buffer.ptr, last + 1 - numDigits, absValue, numDigits);
    }

    /** The hexadecimal, binary and octal cases of `FormatInt`. */
    method FormatBaseDigits(absValue: nat, spec: FormatSpec, sign: string, base: nat, upper: bool)
      requires Valid() && |sign| <= 1
      requires BaseOf(spec.code) == Some(base) && base != 10 && upper == (spec.code == 'X')
      modifies buffer, buffer.ptr
      ensures Valid() && (buffer.ptr == old(buffer.ptr) || fresh(buffer.ptr))
      ensures buffer.capacity == Resized(old(buffer.capacity), buffer.size)
      ensures Contents()
           == old(Contents()) + NumberLayout(spec, sign, PrefixText(spec) + Numeral(absValue, base, upper))
    {
      ghost var body := PrefixText(spec) + Numeral(absValue, base, upper);
      var size := BodySize(absValue, spec, base, upper);
      var last := PrepareFilledBuffer(|sign| + size, spec, sign, body);
      PutBody(last, absValue, spec, base, upper);
    }

    static method BodySize(absValue: nat, spec: FormatSpec, base: nat, upper: bool) returns (size: nat)
      requires BaseOf(spec.code) == Some(base) && base != 10
      ensures size == |PrefixText(spec) + Numeral(absValue, base, upper)|
    {
      PrefixSize(spec, base);
      size := 0;
      if spec.hashFlag { size := if base == 8 then 1 else 2; }
      var digits := CountBaseDigits(absValue, base, upper);
      size := size + digits;
    }

    static lemma PrefixSize(spec: FormatSpec, base: nat)
      requires BaseOf(spec.code) == Some(base) && base != 10
      ensures |PrefixText(spec)| == if !spec.hashFlag then 0 else if base == 8 then 1 else 2
    {
    }

    /** Writes digits and base prefix backwards from the body's last cell. */
    method PutBody(last: nat, absValue: nat, spec: FormatSpec, base: nat, upper: bool)
      requires Valid() && last < buffer.size
      requires BaseOf(spec.code) == Some(base) && base != 10 && upper == (spec.code == 'X')
      requires |PrefixText(spec) + Numeral(absValue, base, upper)| <= last + 1
      modifies buffer.ptr
      ensures var body := PrefixText(spec) + Numeral(absValue, base, upper);
              Contents() == Overwritten(old(Contents()), last + 1 - |body|, body)
    {
      ghost var body := PrefixText(spec) + Numeral(absValue, base, upper);
      var p := PutDigits(last, absValue, base, upper);
      if spec.hashFlag { PutPrefix(p, spec, base); }
      ghost var first := last + 1 - |body|;
      assert forall k :: first <= k <= last ==> buffer.ptr[k] == body[k - first];
      OverwrittenIs(old(Contents()), first, body, Contents());
    }

    /** `*p-- = spec.type(); *p = '0'`, or only the zero for octal numbers. */
    method PutPrefix(last: int, spec: FormatSpec, base: nat)
      requires Valid() && spec.hashFlag && BaseOf(spec.code) == Some(base) && base != 10
      requires |PrefixText(spec)| - 1 <= last < buffer.size
      modifies buffer.ptr
      ensures var prefix, first := PrefixText(spec), last + 1 - |PrefixText(spec)|;
              && (forall k :: first <= k <= last ==> buffer.ptr[k] == prefix[k - first])
              && (forall k :: 0 <= k < first || last < k < buffer.ptr.Length ==> buffer.ptr[k] == old(buffer.ptr[k]))
    {
      var p := last;
      if base != 8 {
        buffer.ptr[p] := spec.code;
        p := p - 1;
      }
      buffer.ptr[p] := '0';
    }

    /** `FormatString` */
    method FormatString(s: string, spec: FormatSpec)
      requires Valid()
      modifies buffer, buffer.ptr
      ensures Valid() && (buffer.ptr == old(buffer.ptr) || fresh(buffer.ptr))
      ensures buffer.capacity == Resized(old(buffer.capacity), buffer.size)
      ensures Contents() == old(Contents()) + TextLayout(spec, s)
    {
      ghost var was := Contents();
      var out := PrepareText(|s|, spec);
      ghost var cells, pads := Contents(), TextPads(spec, |s|);
      assert cells[..out] == was + Repeat(spec.fill, pads.before);
      assert cells[out + |s|..] == Repeat(spec.fill, pads.after);
      forall k | out <= k < out + |s| {
        buffer.ptr[k] := s[k - out];
      }
      OverwrittenIs(cells, out, s, Contents());
      OverwrittenFrame(cells, was, Repeat(spec.fill, pads.before), s, Repeat(spec.fill, pads.after));
    }

    /** Reserves the cells of a text and fills around it; returns where the text goes. */
    method PrepareText(size: nat, spec: FormatSpec) returns (out: nat)
      requires Valid()
      modifies buffer, buffer.ptr
      ensures Valid() && (buffer.ptr == old(buffer.ptr) || fresh(buffer.ptr))
      ensures buffer.capacity == Resized(old(buffer.capacity), buffer.size)
      ensures out == old(buffer.size) + TextPads(spec, size).before
      ensures buffer.size == out + size + TextPads(spec, size).after
      ensures forall k :: 0 <= k < old(buffer.size) ==> buffer.ptr[k] == old(buffer.ptr[k])
      ensures forall k :: old(buffer.size) <= k < out || out + size <= k < buffer.size ==> buffer.ptr[k] == spec.fill
    {
      if spec.width > size {
        out := GrowBuffer(spec.width);
        if spec.align == Right {
          Fill(out, out + (spec.width - size), spec.fill);
          out := out + (spec.width - size);
        } else if spec.align == Center {
          out := FillPadding(out, spec.width, size, spec.fill);
        } else {
          Fill(out + size, out + spec.width, spec.fill);
        }
      } else {
        out := GrowBuffer(size);
      }
    }

    /** Appends literal text; see `Array.Append` for when this is in bounds. */
    method AppendLiteral(text: string) returns (fits: bool)
      requires Valid()
      modifies buffer, buffer.ptr
      ensures Valid() && (buffer.ptr == old(buffer.ptr) || fresh(buffer.ptr))
      ensures fits <==> old(Space()).Takes(|text|)
      ensures fits ==> Space() == old(Space()).AfterAppend(|text|)
      ensures Contents() == old(Contents()) + if fits then text else ""
    {
      fits := buffer.Append(text);
    }
  }

  /** The writer's decimal path, `FormatDec` and the class `FormatInt` print the same text. */
  lemma DecimalPathsAgree(value: int)
    ensures RenderInt(value, PLAIN) == Ok(DecimalPrinters.SignedText(value))
  {
    var digits := DigitsText(Abs(value), '\0');
    assert PrefixText(PLAIN) + digits == digits;
    assert NumberLayout(PLAIN, SignText(value, PLAIN), digits) == SignText(value, PLAIN) + digits;
  }
}
