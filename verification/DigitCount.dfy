/**
  The three versions of the formatter's `CountDigits`: the two branch-free ones, which multiply the
  bit length by 1233/4096 and correct the guess with a table of powers of ten, and the
  portable loop, which divides by 10000.
 */
module DigitCount {
  import opened Numerals

  /** `POWERS_OF_10_32`; entry 0 is 0, so a guess of 0 is never lowered. */
  function PowersOf10For32(): seq<nat> {
    [0, 10, 100, 1000, 10000, 100000, 1000000, 10000000, 100000000, 1000000000]
  }

  /** `POWERS_OF_10_64` */
  function PowersOf10For64(): seq<nat> {
    [0, 10, 100, 1000, 10000, 100000, 1000000, 10000000, 100000000, 1000000000,
     1000000000 * 10, 1000000000 * 100, 1000000000 * 1000, 1000000000 * 10000,
     1000000000 * 100000, 1000000000 * 1000000, 1000000000 * 10000000,
     1000000000 * 100000000, 1000000000 * 1000000000,
     1000000000 * 1000000000 * 10]
  }

  const UINT32_MAX: nat := 0xFFFF_FFFF
  const UINT64_MAX: nat := 0xFFFF_FFFF_FFFF_FFFF

  /** Width of the binary numeral; a w-bit count of leading zeros is `w - BitLength(n)`. */
  function BitLength(n: nat): nat {
    if n == 0 then 0 else 1 + BitLength(n / 2)
  }

  /** `n | 1` */
  function OrOne(n: nat): nat {
    if n % 2 == 0 then n + 1 else n
  }

  lemma {:induction false} BitLengthBounds(n: nat)
    ensures n < Pow(2, BitLength(n))
    ensures n > 0 ==> BitLength(n) >= 1 && Pow(2, BitLength(n) - 1) <= n
  {
    if n > 0 {
      BitLengthBounds(n / 2);
      if n / 2 > 0 {
        assert Pow(2, BitLength(n) - 1) == 2 * Pow(2, BitLength(n / 2) - 1);
      }
    }
  }

  lemma {:induction false} BitLengthAtMost(n: nat, w: nat)
    requires n < Pow(2, w)
    ensures BitLength(n) <= w
  {
    if n > 0 {
      BitLengthBounds(n);
      if w < BitLength(n) { PowMono(2, w, BitLength(n) - 1); }
    }
  }

  /** The first guess: one less than the digit count, or exactly the digit count. */
  function Guess(bits: nat): nat {
    bits * 1233 / 4096
  }

  /**
    The row of the guess table for `bits`: every number of that bit length has at least
    `Guess(bits)` and at most `Guess(bits) + 1` digits.
   */
  predicate GuessInRange(bits: nat)
    requires bits >= 1
  {
    && (Guess(bits) >= 1 ==> Pow(10, Guess(bits) - 1) <= Pow(2, bits - 1))
    && Pow(2, bits) <= Pow(10, Guess(bits) + 1)
  }

  lemma PowersOfTwo()
    ensures Pow(2, 3) == 8 &&
            Pow(2, 6) == 64 &&
            Pow(2, 9) == 512 &&
            Pow(2, 13) == 8192 &&
            Pow(2, 16) == 65536 &&
            Pow(2, 19) == 524288 &&
            Pow(2, 23) == 8388608 &&
            Pow(2, 26) == 67108864 &&
            Pow(2, 29) == 536870912 &&
            Pow(2, 32) == 4294967296 &&
            Pow(2, 33) == 8589934592 &&
            Pow(2, 36) == 68719476736 &&
            Pow(2, 39) == 549755813888 &&
            Pow(2, 43) == 8796093022208 &&
            Pow(2, 46) == 70368744177664 &&
            Pow(2, 49) == 562949953421312 &&
            Pow(2, 53) == 9007199254740992 &&
            Pow(2, 56) == 72057594037927936 &&
            Pow(2, 59) == 576460752303423488 &&
            Pow(2, 63) == 9223372036854775808 &&
            Pow(2, 64) == 18446744073709551616
  {
  }

  lemma PowersOfTen()
    ensures Pow(10, 0) == 1 &&
            Pow(10, 1) == 10 &&
            Pow(10, 2) == 100 &&
            Pow(10, 3) == 1000 &&
            Pow(10, 4) == 10000 &&
            Pow(10, 5) == 100000 &&
            Pow(10, 6) == 1000000 &&
            Pow(10, 7) == 10000000 &&
            Pow(10, 8) == 100000000 &&
            Pow(10, 9) == 1000000000 &&
            Pow(10, 10) == 10000000000 &&
            Pow(10, 11) == 100000000000 &&
            Pow(10, 12) == 1000000000000 &&
            Pow(10, 13) == 10000000000000 &&
            Pow(10, 14) == 100000000000000 &&
            Pow(10, 15) == 1000000000000000 &&
            Pow(10, 16) == 10000000000000000 &&
            Pow(10, 17) == 100000000000000000 &&
            Pow(10, 18) == 1000000000000000000 &&
            Pow(10, 19) == 10000000000000000000 &&
            Pow(10, 20) == 100000000000000000000
  {
  }

  lemma GuessTable(bits: nat)
    requires 1 <= bits <= 64
    ensures Guess(bits) <= 19 && (bits <= 32 ==> Guess(bits) <= 9)
    ensures GuessInRange(bits)
  {
    if bits <= 29 {
      GuessTableFront(bits);
    } else {
      GuessTableBack(bits);
    }
  }

  lemma GuessTableFront(bits: nat)
    requires 1 <= bits <= 29
    ensures Guess(bits) <= 8 && GuessInRange(bits)
  {
    PowersOfTwo();
    PowersOfTen();
    if bits <= 3 { GuessRow(bits, 1, 3, 0); }
    else if bits <= 6 { GuessRow(bits, 4, 6, 1); }
    else if bits <= 9 { GuessRow(bits, 7, 9, 2); }
    else if bits <= 13 { GuessRow(bits, 10, 13, 3); }
    else if bits <= 16 { GuessRow(bits, 14, 16, 4); }
    else if bits <= 19 { GuessRow(bits, 17, 19, 5); }
    else if bits <= 23 { GuessRow(bits, 20, 23, 6); }
    else if bits <= 26 { GuessRow(bits, 24, 26, 7); }
    else { GuessRow(bits, 27, 29, 8); }
  }

  lemma GuessTableBack(bits: nat)
    requires 30 <= bits <= 64
    ensures Guess(bits) <= 19 && (bits <= 32 ==> Guess(bits) <= 9) && GuessInRange(bits)
  {
    PowersOfTwo();
    PowersOfTen();
    if bits <= 33 { GuessRow(bits, 30, 33, 9); }
    else if bits <= 36 { GuessRow(bits, 34, 36, 10); }
    else if bits <= 39 { GuessRow(bits, 37, 39, 11); }
    else if bits <= 43 { GuessRow(bits, 40, 43, 12); }
    else if bits <= 46 { GuessRow(bits, 44, 46, 13); }
    else if bits <= 49 { GuessRow(bits, 47, 49, 14); }
    else if bits <= 53 { GuessRow(bits, 50, 53, 15); }
    else if bits <= 56 { GuessRow(bits, 54, 56, 16); }
    else if bits <= 59 { GuessRow(bits, 57, 59, 17); }
    else if bits <= 63 { GuessRow(bits, 60, 63, 18); }
    else { GuessRow(bits, 64, 64, 19); }
  }

  /** One row of the table: a run of bit lengths sharing a guess needs checking at its ends only. */
  lemma GuessRow(bits: nat, lo: nat, hi: nat, guess: nat)
    requires 1 <= lo <= bits <= hi
    requires guess * 4096 <= lo * 1233 && hi * 1233 < (guess + 1) * 4096
    requires guess >= 1 ==> Pow(10, guess - 1) <= Pow(2, lo - 1)
    requires Pow(2, hi) <= Pow(10, guess + 1)
    ensures Guess(bits) == guess && GuessInRange(bits)
  {
    PowMono(2, lo - 1, bits - 1);
    PowMono(2, bits, hi);
  }

  lemma TableIsPowers(t: nat)
    requires 1 <= t <= 19
    ensures |PowersOf10For64()| == 20 && |PowersOf10For32()| == 10
    ensures PowersOf10For64()[t] == Pow(10, t)
    ensures t <= 9 ==> PowersOf10For32()[t] == Pow(10, t)
  {
    match t
    case 1 => case 2 => case 3 => case 4 => case 5 => case 6 => case 7 => case 8 => case 9 =>
    case 10 => case 11 => case 12 => case 13 => case 14 => case 15 => case 16 => case 17 => case 18 => case 19 =>
  }

  /** `CountDigits(uint64_t)`: the guess, corrected by one comparison with the power table. */
  function CountDigits64(n: nat): (d: nat)
    requires n <= UINT64_MAX
    ensures d == |Numeral(n, 10, false)|
  {
    GuessCorrected(n, 64);
    var t := Guess(64 - (64 - BitLength(OrOne(n))));
    t - (if n < PowersOf10For64()[t] then 1 else 0) + 1
  }

  /** `CountDigits(uint32_t)` */
  function CountDigits32(n: nat): (d: nat)
    requires n <= UINT32_MAX
    ensures d == |Numeral(n, 10, false)|
  {
    GuessCorrected(n, 32);
    var t := Guess(32 - (32 - BitLength(OrOne(n))));
    t - (if n < PowersOf10For32()[t] then 1 else 0) + 1
  }

  lemma GuessCorrected(n: nat, w: nat)
    requires w == 32 || w == 64
    requires n <= (if w == 32 then UINT32_MAX else UINT64_MAX)
    ensures BitLength(OrOne(n)) <= w
    ensures var t := Guess(BitLength(OrOne(n)));
            && t <= (if w == 32 then 9 else 19)
            && |PowersOf10For64()| == 20 && |PowersOf10For32()| == 10
            && |Numeral(n, 10, false)| == t - (if n < PowersOf10For64()[t] then 1 else 0) + 1
            && (w == 32 ==> PowersOf10For32()[t] == PowersOf10For64()[t])
  {
    BitLengthWithin(OrOne(n), w);
    BitLengthBounds(OrOne(n));
    var bits := BitLength(OrOne(n));
    GuessTable(bits);
    GuessOffByOne(n, Guess(bits));
    if Guess(bits) > 0 { TableIsPowers(Guess(bits)); }
  }

  lemma BitLengthWithin(n: nat, w: nat)
    requires w == 32 || w == 64
    requires n <= (if w == 32 then UINT32_MAX else UINT64_MAX)
    ensures BitLength(n) <= w
  {
    PowersOfTwo();
    BitLengthAtMost(n, w);
  }

  lemma GuessOffByOne(n: nat, t: nat)
    requires t >= 1 ==> Pow(10, t - 1) <= OrOne(n)
    requires n < Pow(10, t + 1)
    ensures |Numeral(n, 10, false)| == if t >= 1 && n < Pow(10, t) then t else t + 1
  {
    if t >= 1 && n < Pow(10, t) {
      OrOneKeepsPower(n, t);
      DigitCountUnique(n, 10, false, t);
    } else {
      DigitCountUnique(n, 10, false, t + 1);
    }
  }

  /** Setting the low bit cannot lift a number to a power of ten, which is even (or 1). */
  lemma OrOneKeepsPower(n: nat, t: nat)
    requires t >= 1 && Pow(10, t - 1) <= OrOne(n)
    ensures Pow(10, t - 1) <= n || t == 1
  {
    if t >= 2 {
      var p := Pow(10, t - 2);
      assert Pow(10, t - 1) == 10 * p;
      EvenBelow(5 * p, n);
    }
  }

  lemma EvenBelow(half: nat, n: nat)
    requires 2 * half <= OrOne(n)
    ensures 2 * half <= n
  {
  }

  /** The portable version: four digits per division. */
  method CountDigitsLoop(value: nat) returns (count: nat)
    ensures count == |Numeral(value, 10, false)|
  {
    var n := value;
    count := 1;
    while true
      invariant count >= 1
      invariant |Numeral(value, 10, false)| == |Numeral(n, 10, false)| + count - 1
      decreases n
    {
      SmallCounts(n);
      if n < 10 { return count; }
      if n < 100 { return count + 1; }
      if n < 1000 { return count + 2; }
      if n < 10000 { return count + 3; }
      n := n / 10000;
      count := count + 4;
    }
  }

  lemma SmallCounts(n: nat)
    ensures n < 10 ==> |Numeral(n, 10, false)| == 1
    ensures 10 <= n < 100 ==> |Numeral(n, 10, false)| == 2
    ensures 100 <= n < 1000 ==> |Numeral(n, 10, false)| == 3
    ensures 1000 <= n < 10000 ==> |Numeral(n, 10, false)| == 4
    ensures 10000 <= n ==> |Numeral(n, 10, false)| == |Numeral(n / 10000, 10, false)| + 4
  {
    if n >= 10000 {
      NumeralTwoSteps(n);
      NumeralTwoSteps(n / 100);
      assert n / 100 / 100 == n / 10000;
    } else if n >= 100 {
      NumeralTwoSteps(n);
    }
  }

  /** The three versions agree wherever two of them are defined. */
  lemma CountsAgree(n: nat)
    requires n <= UINT32_MAX
    ensures CountDigits32(n) == CountDigits64(n)
  {
  }

  /** What the count is: the exponent bracket, with 1 for zero. */
  lemma CountDigitsBracket(n: nat)
    requires n <= UINT64_MAX
    ensures var d := CountDigits64(n);
            1 <= d <= 20 && n < Pow(10, d) && (if n == 0 then d == 1 else Pow(10, d - 1) <= n)
  {
    NumeralLength(n, 10, false);
    PowersOfTen();
    var d := CountDigits64(n);
    if d > 20 { PowMono(10, 20, d - 1); }
  }
}
