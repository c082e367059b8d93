/**
  The formatter's decimal printers: `internal::FormatDecimal`, the free function `FormatDec` and the
  class `FormatInt`. All three take two digits per division from a table of digit pairs.
 */
module DecimalPrinters {
  import opened Numerals
  import opened DigitCount
  import opened MachineInts

  /** What `FormatDec`, `FormatInt` and the writer's `d` format print for a value. */
  function SignedText(value: int): string {
    (if value < 0 then "-" else "") + Numeral(Abs(value), 10, false)
  }

  /** A table holding, at `2i` and `2i + 1`, the two decimal digits of every `i` below `n`. */
  predicate HoldsPairs(table: string, n: nat)
    requires n <= 100
  {
    && |table| == 2 * n
    && forall i {:trigger IsPair(table, i)} :: 0 <= i < n ==> IsPair(table, i)
  }

  predicate IsPair(table: string, i: nat)
    requires i < 100 && 2 * i + 1 < |table|
  {
    table[2 * i] == DigitChar(i / 10, false) && table[2 * i + 1] == DigitChar(i % 10, false)
  }

  /** `internal::DIGITS`, one decade of pairs after another. */
  method DigitPairs() returns (table: string)
    ensures HoldsPairs(table, 100)
  {
    table := "";
    for tens := 0 to 10
      invariant HoldsPairs(table, 10 * tens)
    {
      DecadeHolds(tens);
      table := JoinDecade(table, Decade(tens), tens);
    }
  }

  function Decade(tens: nat): string
    requires tens < 10
  {
    match tens
    case 0 => "00010203040506070809"
    case 1 => "10111213141516171819"
    case 2 => "20212223242526272829"
    case 3 => "30313233343536373839"
    case 4 => "40414243444546474849"
    case 5 => "50515253545556575859"
    case 6 => "60616263646566676869"
    case 7 => "70717273747576777879"
    case 8 => "80818283848586878889"
    case 9 => "90919293949596979899"
  }

  lemma DecadeHolds(tens: nat)
    requires tens < 10
    ensures IsDecade(Decade(tens), tens)
  {
  }

  /** The pairs `t0 t1 .. t9` for a tens digit `t`. */
  predicate IsDecade(pairs: string, tens: nat)
    requires tens < 10
  {
    var t := '0' + tens as char;
    pairs == [t, '0', t, '1', t, '2', t, '3', t, '4', t, '5', t, '6', t, '7', t, '8', t, '9']
  }

  lemma DecadePair(pairs: string, tens: nat, j: nat)
    requires tens < 10 && j < 10 && IsDecade(pairs, tens)
    ensures |pairs| == 20 && pairs[2 * j] == '0' + tens as char && pairs[2 * j + 1] == '0' + j as char
  {
    match j case 0 => case 1 => case 2 => case 3 => case 4 => case 5 => case 6 => case 7 => case 8 => case 9 =>
  }

  function JoinDecade(table: string, pairs: string, tens: nat): (joined: string)
    requires tens < 10 && HoldsPairs(table, 10 * tens) && IsDecade(pairs, tens)
    ensures HoldsPairs(joined, 10 * (tens + 1))
  {
    var joined := table + pairs;
    assert forall i :: 0 <= i < 10 * tens ==> IsPair(table, i) ==> IsPair(joined, i);
    assert forall i :: 10 * tens <= i < 10 * (tens + 1) ==> IsPair(joined, i) by {
      forall i | 10 * tens <= i < 10 * (tens + 1) ensures IsPair(joined, i) {
        var j := i - 10 * tens;
        assert i / 10 == tens && i % 10 == j;
        DecadePair(pairs, tens, j);
        assert joined[2 * i] == pairs[2 * j] && joined[2 * i + 1] == pairs[2 * j + 1];
      }
    }
    joined
  }

  /**
    One step of a printer: the numeral of `value` ends in the pair the table holds for
    `value % 100`, and what precedes the pair is the numeral of `value / 100`.
   */
  lemma PairStep(table: string, value: nat, text: string)
    requires HoldsPairs(table, 100)
    requires text == Numeral(value, 10, false) && value >= 100
    ensures |text| >= 3
    ensures text[..|text| - 2] == Numeral(value / 100, 10, false)
    ensures text[|text| - 2] == table[value % 100 * 2]
    ensures text[|text| - 1] == table[value % 100 * 2 + 1]
  {
    NumeralTwoSteps(value);
    assert IsPair(table, value % 100);
  }

  lemma LastPair(table: string, value: nat, text: string)
    requires HoldsPairs(table, 100)
    requires text == Numeral(value, 10, false) && 10 <= value < 100
    ensures text == [table[value * 2], table[value * 2 + 1]]
  {
    assert IsPair(table, value);
    assert Numeral(value / 10, 10, false) == [DigitChar(value / 10, false)];
  }

  lemma LastDigit(value: nat, text: string)
    requires text == Numeral(value, 10, false) && value < 10
    ensures text == ['0' + value as char]
  {
  }

  /**
    `internal::FormatDecimal`: given the digit count, fills the cells `at .. at + numDigits`
    from the back with the numeral of `value`, and touches no other cell.
   */
  method FormatDecimal(buffer: array<char>, at: nat, value: nat, numDigits: nat)
    requires numDigits == |Numeral(value, 10, false)|
    requires at + numDigits <= buffer.Length
    modifies buffer
    ensures forall k :: at <= k < at + numDigits ==> buffer[k] == Numeral(value, 10, false)[k - at]
    ensures forall k :: 0 <= k < at || at + numDigits <= k < buffer.Length ==> buffer[k] == old(buffer[k])
  {
    var digits := DigitPairs();
    var v, last := value, numDigits - 1;
    ghost var text, rest := Numeral(value, 10, false), Numeral(value, 10, false);
    while v >= 100
      invariant rest == Numeral(v, 10, false) && 0 <= last < numDigits && |rest| == last + 1
      invariant forall j :: 0 <= j < |rest| ==> rest[j] == text[j]
      invariant forall k :: at + last < k < at + numDigits ==> buffer[k] == text[k - at]
      invariant forall k :: 0 <= k < at || at + numDigits <= k < buffer.Length ==> buffer[k] == old(buffer[k])
      decreases v
    {
      PairStep(digits, v, rest);
      PutPair(buffer, at + last, digits, v);
      v := v / 100;
      last := last - 2;
      rest := rest[..last + 1];
    }
    FormatLastDigits(buffer, at, digits, v);
  }

  /** The last two digits, in front of and at a cell. */
  method PutPair(buffer: array<char>, at: nat, digits: string, v: nat)
    requires HoldsPairs(digits, 100) && 1 <= at < buffer.Length
    modifies buffer
    ensures forall k :: 0 <= k < buffer.Length ==>
              buffer[k] == if k == at then digits[v % 100 * 2 + 1]
                           else if k == at - 1 then digits[v % 100 * 2] else old(buffer[k])
  {
    var index := v % 100 * 2;
    buffer[at] := digits[index + 1];
    buffer[at - 1] := digits[index];
  }

  /** The end of the printers' loops: the one or two leading digits. */
  method FormatLastDigits(buffer: array<char>, at: nat, digits: string, v: nat)
    requires HoldsPairs(digits, 100) && v < 100
    requires at + |Numeral(v, 10, false)| <= buffer.Length
    modifies buffer
    ensures var text := Numeral(v, 10, false);
            && (forall k :: at <= k < at + |text| ==> buffer[k] == text[k - at])
            && (forall k :: 0 <= k < at || at + |text| <= k < buffer.Length ==> buffer[k] == old(buffer[k]))
  {
    ghost var text := Numeral(v, 10, false);
    if v < 10 {
      LastDigit(v, text);
      buffer[at] := '0' + v as char;
    } else {
      LastPair(digits, v, text);
      var index := v * 2;
      buffer[at + 1] := digits[index + 1];
      buffer[at] := digits[index];
    }
  }

  /**
    `FormatDec`: prints at a cursor and returns the advanced cursor. The negation is done in
    the unsigned type, so the minimum value of a signed type needs no exception.
   */
  method FormatDec(buffer: array<char>, at: nat, t: IntType, value: int) returns (end: nat)
    requires t.InRange(value)
    requires at + |SignedText(value)| <= buffer.Length
    modifies buffer
    ensures end == at + |SignedText(value)|
    ensures forall k :: at <= k < end ==> buffer[k] == SignedText(value)[k - at]
    ensures forall k :: 0 <= k < at || end <= k < buffer.Length ==> buffer[k] == old(buffer[k])
  {
    MagnitudeIsAbs(t, value);
    var absValue := ToMain(value, t.Modulus());
    end := at;
    if value < 0 {
      buffer[end] := '-';
      end := end + 1;
      absValue := WrapNegate(absValue, t.Modulus());
    }
    end := FormatDecMagnitude(buffer, end, t, absValue);
  }

  /** The part of `FormatDec` after the sign. */
  method FormatDecMagnitude(buffer: array<char>, at: nat, t: IntType, absValue: nat) returns (end: nat)
    requires absValue < t.Modulus()
    requires at + |Numeral(absValue, 10, false)| <= buffer.Length
    modifies buffer
    ensures end == at + |Numeral(absValue, 10, false)|
    ensures forall k :: at <= k < end ==> buffer[k] == Numeral(absValue, 10, false)[k - at]
    ensures forall k :: 0 <= k < at || end <= k < buffer.Length ==> buffer[k] == old(buffer[k])
  {
    ghost var text := Numeral(absValue, 10, false);
    end := at;
    if absValue < 100 {
      if absValue < 10 {
        LastDigit(absValue, text);
        buffer[end] := '0' + absValue as char;
        end := end + 1;
        return;
      }
      var digits := DigitPairs();
      LastPair(digits, absValue, text);
      var index := absValue * 2;
      buffer[end] := digits[index];
      end := end + 1;
      buffer[end] := digits[index + 1];
      end := end + 1;
      return;
    }
    var numDigits := if t.Modulus() == 0x1_0000_0000 then CountDigits32(absValue) else CountDigits64(absValue);
    FormatDecimal(buffer, end, absValue, numDigits);
    end := end + numDigits;
  }

  /** The class `FormatInt`: prints into its own cells, from the back. */
  class FormatInt {
    const buffer: array<char>
    var str: nat

    /** `digits10 + 3` for an unsigned 64-bit integer. */
    static const BUFFER_SIZE: nat := 22

    ghost predicate Valid()
      reads this
    {
      buffer.Length == BUFFER_SIZE && str <= BUFFER_SIZE - 1
    }

    /** `str()`: the `size()` characters from `data()` on. */
    function Text(): string
      requires Valid()
      reads this, buffer
    {
      buffer[str..str + Size()]
    }

    /** `size()` */
    function Size(): nat
      requires Valid()
      reads this
    {
      BUFFER_SIZE - 1 - str
    }

    constructor Unsigned(value: nat)
      requires value <= UINT64_MAX
      ensures Valid() && fresh(buffer) && Text() == SignedText(value)
    {
      buffer := new char[BUFFER_SIZE];
      str := 0;
      new;
      Print(value);
    }

    constructor Signed(t: IntType, value: int)
      requires t.Signed() && t.InRange(value)
      // 0 - value overflows for the least 64-bit value
      requires value != -0x8000_0000_0000_0000
      ensures Valid() && fresh(buffer) && Text() == SignedText(value)
    {
      buffer := new char[BUFFER_SIZE];
      str := 0;
      new;
      MagnitudeIsAbs(LongLong, value);
      var absValue: nat := ToMain(value, LongLong.Modulus());
      var negative := value < 0;
      if negative { absValue := 0 - value; }
      assert absValue == Abs(value) <= UINT64_MAX;
      Print(absValue);
      if negative {
        SignFits(value);
        PutSign();
      }
    }

    method Print(value: nat)
      requires buffer.Length == BUFFER_SIZE && value <= UINT64_MAX
      modifies this`str, buffer
      ensures Valid() && Text() == Numeral(value, 10, false)
    {
      var start := FormatDecimal(value);
      str := start;
      ghost var text := Numeral(value, 10, false);
      assert forall k :: 0 <= k < |text| ==> Text()[k] == buffer[start + k] == text[k];
    }

    method PutSign()
      requires Valid() && str > 0
      modifies this, buffer
      ensures Valid() && Text() == "-" + old(Text())
    {
      str := str - 1;
      buffer[str] := '-';
    }

    method FormatDecimal(value: nat) returns (start: nat)
      requires buffer.Length == BUFFER_SIZE && value <= UINT64_MAX
      modifies buffer
      ensures start == BUFFER_SIZE - 1 - |Numeral(value, 10, false)|
      ensures forall k :: start <= k < BUFFER_SIZE - 1 ==> buffer[k] == Numeral(value, 10, false)[k - start]
      ensures forall k :: 0 <= k < start || k == BUFFER_SIZE - 1 ==> buffer[k] == old(buffer[k])
    {
      var digits := DigitPairs();
      AtMostTwentyDigits(value);
      ghost var text, rest := Numeral(value, 10, false), Numeral(value, 10, false);
      start := BUFFER_SIZE - 1;
      ghost var first := start - |text|;
      var v := value;
      while v >= 100
        invariant rest == Numeral(v, 10, false) <= text
        invariant start == first + |rest|
        invariant forall k :: start <= k < BUFFER_SIZE - 1 ==> buffer[k] == text[k - first]
        invariant forall k :: 0 <= k < start || k == BUFFER_SIZE - 1 ==> buffer[k] == old(buffer[k])
        decreases v
      {
        PairStep(digits, v, rest);
        var index := v % 100 * 2;
        v := v / 100;
        start := start - 1;
        buffer[start] := digits[index + 1];
        start := start - 1;
        buffer[start] := digits[index];
        rest := rest[..|rest| - 2];
      }
      if v < 10 {
        LastDigit(v, rest);
        start := start - 1;
        buffer[start] := '0' + v as char;
        return;
      }
      LastPair(digits, v, rest);
      var index := v * 2;
      start := start - 1;
      buffer[start] := digits[index + 1];
      start := start - 1;
      buffer[start] := digits[index];
    }

    static lemma AtMostTwentyDigits(value: nat)
      requires value <= UINT64_MAX
      ensures |Numeral(value, 10, false)| <= 20
    {
      CountDigitsBracket(value);
    }

    static lemma SignFits(value: int)
      requires -0x8000_0000_0000_0000 < value < 0x8000_0000_0000_0000
      ensures |Numeral(Abs(value), 10, false)| <= 19
    {
      NumeralLength(Abs(value), 10, false);
      PowersOfTen();
      var d := |Numeral(Abs(value), 10, false)|;
      if d > 19 { PowMono(10, 19, d - 1); }
    }

    /** `c_str()`: the terminator goes into the reserved last cell. */
    method CStr() returns (start: nat)
      requires Valid()
      modifies buffer
      ensures Valid() && start == str && Text() == old(Text())
      ensures buffer[start + |Text()|] == '\0'
    {
      buffer[BUFFER_SIZE - 1] := '\0';
      assert buffer[str..str + Size()] == old(buffer[str..str + Size()]);
      start := str;
    }
  }

  /** Reading a printed value back, sign included. */
  function ReadSigned(s: string): int {
    if s != [] && s[0] == '-' then -(Value(s[1..], 10) as int) else Value(s, 10) as int
  }

  /** Decimal printing inverts reading, and two values never share a text. */
  lemma SignedTextReads(value: int)
    ensures ReadSigned(SignedText(value)) == value
  {
    NumeralReads(Abs(value), 10, false);
    var s := Numeral(Abs(value), 10, false);
    DigitCharReads(DigitValue(s[0]), false);
    assert value < 0 ==> SignedText(value)[1..] == s;
    assert value >= 0 ==> SignedText(value) == s;
  }

  /** The 22 cells suffice for every value the class can be given. */
  lemma BufferSizeSuffices(value: int)
    requires -0x8000_0000_0000_0000 < value <= UINT64_MAX as int
    ensures |SignedText(value)| < FormatInt.BUFFER_SIZE
  {
    if value < 0 { FormatInt.SignFits(value); } else { CountDigitsBracket(value); }
  }
}
