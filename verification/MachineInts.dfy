/**
  The C integer types the formatter accepts, with the conversions it relies on.
  `long` is 64 bits wide here, as on the LP64 systems the client is built for.
 */
module MachineInts {

  datatype IntType = Int | UInt | Long | ULong | LongLong | ULongLong
  {
    predicate Signed() {
      Int? || Long? || LongLong?
    }

    /** `IntTraits<T>::MainType`: 32 bits when the type has at most 32 value bits. */
    function Modulus(): (m: nat)
      ensures m == 0x1_0000_0000 || m == 0x1_0000_0000_0000_0000
    {
      if Int? || UInt? then 0x1_0000_0000 else 0x1_0000_0000_0000_0000
    }

    predicate InRange(value: int) {
      if Signed() then -(Modulus() / 2) <= value < Modulus() / 2 else 0 <= value < Modulus()
    }
  }

  function Abs(value: int): nat {
    if value < 0 then -value else value
  }

  /** Conversion to the unsigned main type. */
  function ToMain(value: int, modulus: nat): nat
    requires modulus > 0
  {
    value % modulus
  }

  /** `0 - u` in the unsigned main type. */
  function WrapNegate(u: nat, modulus: nat): nat
    requires modulus > 0
  {
    (0 - u) % modulus
  }

  /**
    `abs_value = value; if (IsNegative(value)) abs_value = 0 - abs_value;` yields the absolute
    value for every value of the type, the minimum included.
   */
  lemma MagnitudeIsAbs(t: IntType, value: int)
    requires t.InRange(value)
    ensures value >= 0 ==> ToMain(value, t.Modulus()) == Abs(value)
    ensures value < 0 ==> WrapNegate(ToMain(value, t.Modulus()), t.Modulus()) == Abs(value)
    ensures Abs(value) < t.Modulus()
  {
    var m := t.Modulus();
    if value < 0 {
      ModOf(value, -1, value + m, m);
      ModOf(0 - (value + m), -1, -value, m);
    } else {
      ModOf(value, 0, value, m);
    }
  }

  lemma ModOf(n: int, q: int, r: nat, m: nat)
    requires r < m && n == q * m + r
    ensures n % m == r
  {
    var q', r' := n / m, n % m;
    assert n == q' * m + r';
    assert (q' - q) * m == q' * m - q * m;
    if q' > q { AtLeastOneTimes(q' - q, m); }
    if q' < q { AtLeastOneTimes(q - q', m); }
  }

  lemma AtLeastOneTimes(k: int, m: nat)
    requires k >= 1
    ensures k * m >= m
  {
  }
}
