/**
  The formatter's `internal::Array`: a growable array whose first cells live in the object.
  The inline cells and the heap cells are one Dafny array here, replaced when it grows.
 */
module OutputArray {
  import Strings

  /** The capacity after `Grow(size)`. */
  function Grown(capacity: nat, size: nat): nat {
    Strings.Max(size, capacity + capacity / 2)
  }

  /**
    Whether `append` of `n` elements stays inside the array: there is room already, or the
    grown array, which is asked to hold only the `n` new elements, happens to hold them all.
   */
  predicate AppendFits(size: nat, capacity: nat, n: nat) {
    size + n <= capacity || size + n <= Grown(capacity, n)
  }

  /** A capacity that suffices stays; otherwise it grows by half, rounded down, or to what is needed if that is more. */
  predicate Stepped(before: nat, needed: nat, after: nat) {
    if needed <= before then after == before
    else after >= needed && 3 * before - 1 <= 2 * after && (after == needed || 2 * after <= 3 * before)
  }

  /** Into an empty array anything can be appended; otherwise what fits the array, or one half more of it. */
  lemma AppendFitsExactly(size: nat, capacity: nat, n: nat)
    ensures AppendFits(size, capacity, n)
       <==> size == 0 || size + n <= capacity || 2 * (size + n) <= 3 * capacity
  {
  }

  /** The capacity once the array holds `size` elements, if nothing but `resize` changes it. */
  function Resized(capacity: nat, size: nat): nat {
    if size > capacity then Grown(capacity, size) else capacity
  }

  /** The room in an array, which decides what may be appended. */
  datatype Room = Room(size: nat, capacity: nat)
  {
    predicate Takes(n: nat) {
      AppendFits(size, capacity, n)
    }

    function AfterAppend(n: nat): Room {
      Room(size + n, if size + n > capacity then Grown(capacity, n) else capacity)
    }

    function AfterResize(n: nat): Room {
      Room(size + n, Resized(capacity, size + n))
    }
  }

  class Array<T(0)> {
    var size: nat
    var capacity: nat
    var ptr: array<T>
    /** The number of elements `Grow` has copied so far. */
    ghost var moves: nat

    ghost predicate Valid()
      reads this
    {
      size <= capacity == ptr.Length
    }

    function Contents(): seq<T>
      requires Valid()
      reads this, ptr
    {
      ptr[..size]
    }

    constructor (inlineSize: nat)
      ensures Valid() && fresh(ptr)
      ensures size == 0 && capacity == inlineSize && moves == 0
    {
      size, capacity, moves := 0, inlineSize, 0;
      ptr := new T[inlineSize];
    }

    method Grow(newSize: nat)
      requires Valid()
      modifies this
      ensures Valid() && fresh(ptr)
      ensures size == old(size) && Contents() == old(Contents())
      ensures capacity == Grown(old(capacity), newSize) >= newSize
      ensures 3 * old(capacity) - 1 <= 2 * capacity
      ensures capacity == newSize || 2 * capacity <= 3 * old(capacity)
      ensures moves == old(moves) + size
    {
      capacity := Strings.Max(newSize, capacity + capacity / 2);
      var p := new T[capacity];
      forall k | 0 <= k < size {
        p[k] := ptr[k];
      }
      ptr := p;
      moves := moves + size;
    }

    /** New cells hold whatever the memory held. */
    method Resize(newSize: nat)
      requires Valid()
      modifies this
      ensures Valid() && (ptr == old(ptr) || fresh(ptr))
      ensures size == newSize
      ensures newSize >= old(size) ==> Contents()[..old(size)] == old(Contents())
      ensures newSize <= old(size) ==> Contents() == old(Contents())[..newSize]
      ensures capacity == Resized(old(capacity), newSize)
      ensures Stepped(old(capacity), newSize, capacity)
      ensures unchanged(old(ptr))
    {
      if newSize > capacity {
        Grow(newSize);
      }
      size := newSize;
    }

    method Reserve(newCapacity: nat)
      requires Valid()
      modifies this
      ensures Valid() && (ptr == old(ptr) || fresh(ptr))
      ensures size == old(size) && Contents() == old(Contents())
      ensures Stepped(old(capacity), newCapacity, capacity)
    {
      if newCapacity > capacity {
        Grow(newCapacity);
      }
    }

    method PushBack(value: T)
      requires Valid()
      modifies this, ptr
      ensures Valid() && (ptr == old(ptr) || fresh(ptr))
      ensures Contents() == old(Contents()) + [value]
      ensures Growth(size, capacity, moves) == old(Growth(size, capacity, moves)).Push()
      ensures Stepped(old(capacity), old(size) + 1, capacity)
    {
      if size == capacity {
        Grow(size + 1);
      }
      ptr[size] := value;
      size := size + 1;
    }

    /**
      `append`: `fits` is false exactly when the copy would run past the array, because
      `Grow` is called with the number of new elements and not with the new size.
      The model stops before that copy.
     */
    method Append(values: seq<T>) returns (fits: bool)
      requires Valid()
      modifies this, ptr
      ensures Valid() && (ptr == old(ptr) || fresh(ptr))
      ensures fits <==> AppendFits(old(size), old(capacity), |values|)
      ensures fits <==> old(size) == 0 || old(size) + |values| <= old(capacity)
                        || 2 * (old(size) + |values|) <= 3 * old(capacity)
      ensures Contents() == old(Contents()) + if fits then values else []
      ensures fits ==> Room(size, capacity) == Room(old(size), old(capacity)).AfterAppend(|values|)
    {
      var n := |values|;
      AppendFitsExactly(size, capacity, n);
      if size + n > capacity {
        Grow(n);
      }
      if size + n > capacity {
        return false;
      }
      forall k | size <= k < size + n {
        ptr[k] := values[k - size];
      }
      size := size + n;
      return true;
    }
  }

  /** The part of an array's state that decides when it grows, with the moves so far. */
  datatype Growth = Growth(size: nat, capacity: nat, moves: nat)
  {
    /** The effect of one `push_back`. */
    function Push(): Growth {
      if size == capacity then Growth(size + 1, Grown(capacity, size + 1), moves + size)
      else Growth(size + 1, capacity, moves)
    }

    function Pushes(n: nat): Growth {
      if n == 0 then this else Pushes(n - 1).Push()
    }
  }

  /** `push_back` is amortised linear: `n` pushes from empty move at most `4n` elements. */
  lemma {:induction false} PushesAreLinear(inlineSize: nat, n: nat)
    requires inlineSize > 0
    ensures var g := Growth(0, inlineSize, 0).Pushes(n);
            g.size == n <= g.capacity && g.moves <= 4 * n && g.moves <= 3 * g.capacity
  {
    if n > 0 {
      PushesAreLinear(inlineSize, n - 1);
      var g := Growth(0, inlineSize, 0).Pushes(n - 1);
      assert g.capacity > 0;
    }
  }

  /** `push_back` from empty, over and over: the pushed sequence, for at most four element moves a push. */
  method PushAll<T(0)>(inlineSize: nat, values: seq<T>) returns (a: Array<T>)
    requires inlineSize > 0
    ensures fresh(a) && a.Valid() && a.Contents() == values
    ensures a.moves <= 4 * |values|
  {
    a := new Array<T>(inlineSize);
    ghost var start := Growth(0, inlineSize, 0);
    for i := 0 to |values|
      invariant fresh(a) && fresh(a.ptr) && a.Valid() && a.Contents() == values[..i]
      invariant Growth(a.size, a.capacity, a.moves) == start.Pushes(i)
    {
      assert values[..i + 1] == values[..i] + [values[i]];
      a.PushBack(values[i]);
    }
    assert values[..|values|] == values;
    PushesAreLinear(inlineSize, |values|);
  }
}
