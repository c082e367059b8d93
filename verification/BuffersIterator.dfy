/**
  `buffers_iterator`: a random-access iterator over the bytes of a list of buffers, any of which
  may be empty.
 */
module BuffersIterators {
  import opened Buffers

  /**
    Where an iterator must stand for a position: inside a non-empty buffer, at the offset that makes up the
    position with the sizes before it; or, at the end, behind the last buffer.
   */
  predicate Located(buffers: seq<Buffer>, current: nat, offset: nat, position: nat) {
    if current < |buffers| then
      offset < buffers[current].size && position == TotalSize(buffers[..current]) + offset
    else
      current == |buffers| && offset == 0 && position == TotalSize(buffers)
  }

  lemma {:induction false} TotalSizeMono(buffers: seq<Buffer>, i: nat, j: nat)
    requires i <= j <= |buffers|
    ensures TotalSize(buffers[..i]) <= TotalSize(buffers[..j]) <= TotalSize(buffers)
    decreases j - i
  {
    TotalSizeSplit(buffers, j);
    if i < j {
      TotalSizeSplit(buffers, i);
      TotalSizeMono(buffers, i + 1, j);
    }
  }

  /** A position has one place only: any two iterators that agree in position agree in state. */
  lemma LocatedOnce(buffers: seq<Buffer>, c1: nat, o1: nat, c2: nat, o2: nat, position: nat)
    requires Located(buffers, c1, o1, position) && Located(buffers, c2, o2, position)
    ensures c1 == c2 && o1 == o2
  {
    assert buffers[..|buffers|] == buffers;
    if c1 < c2 {
      TotalSizeSplit(buffers, c1);
      TotalSizeMono(buffers, c1 + 1, c2);
    } else if c2 < c1 {
      TotalSizeSplit(buffers, c2);
      TotalSizeMono(buffers, c2 + 1, c1);
    }
  }

  /** Positions are ordered as their places. */
  lemma LocatedInOrder(buffers: seq<Buffer>, c1: nat, o1: nat, p1: nat, c2: nat, o2: nat, p2: nat)
    requires Located(buffers, c1, o1, p1) && Located(buffers, c2, o2, p2)
    ensures p1 < p2 <==> c1 < c2 || (c1 == c2 && o1 < o2)
  {
    assert buffers[..|buffers|] == buffers;
    if c1 < c2 {
      TotalSizeSplit(buffers, c1);
      TotalSizeMono(buffers, c1 + 1, c2);
    } else if c2 < c1 {
      TotalSizeSplit(buffers, c2);
      TotalSizeMono(buffers, c2 + 1, c1);
    }
  }

  /** The place of a position, found by walking over the buffers from the front. */
  function Place(buffers: seq<Buffer>, position: nat): (nat, nat)
    requires position <= TotalSize(buffers)
  {
    if buffers == [] then (0, 0)
    else if position < buffers[0].size then (0, position)
    else
      var (current, offset) := Place(buffers[1..], position - buffers[0].size);
      (current + 1, offset)
  }

  /** Every position within the bytes or at their end has a place. */
  lemma {:induction false} PlaceIsLocated(buffers: seq<Buffer>, position: nat)
    requires position <= TotalSize(buffers)
    ensures Located(buffers, Place(buffers, position).0, Place(buffers, position).1, position)
  {
    if buffers != [] && position >= buffers[0].size {
      var (current, offset) := Place(buffers[1..], position - buffers[0].size);
      PlaceIsLocated(buffers[1..], position - buffers[0].size);
      if current < |buffers[1..]| {
        assert buffers[..current + 1][1..] == buffers[1..][..current];
      }
    } else if buffers != [] {
      assert buffers[..0] == [];
    }
  }

  /** Only the end of the bytes is behind the last buffer. */
  lemma LocatedEnd(buffers: seq<Buffer>, current: nat, offset: nat, position: nat)
    requires Located(buffers, current, offset, position)
    ensures position <= TotalSize(buffers)
    ensures current < |buffers| <==> position < TotalSize(buffers)
  {
    if current < |buffers| { TotalSizeSplit(buffers, current); }
  }

  /** What an iterator refers to is the byte of the flattened list at its position. */
  lemma LocatedByte(memory: string, buffers: seq<Buffer>, current: nat, offset: nat, position: nat)
    requires AllIn(buffers, memory)
    requires Located(buffers, current, offset, position) && current < |buffers|
    ensures position < TotalSize(buffers)
    ensures Flatten(memory, buffers)[position] == memory[buffers[current].data + offset]
  {
    var at := buffers[current].data + offset;
    FlattenSlice(memory, buffers, current, at, 1, position);
    assert Flatten(memory, buffers)[position..position + 1][0] == memory[at..at + 1][0];
  }

  class BuffersIterator {
    const buffers: seq<Buffer>
    var currentBuffer: Buffer
    var currentBufferPosition: nat
    var current: nat
    var position: nat

    ghost predicate Valid()
      reads this
    {
      && Located(buffers, current, currentBufferPosition, position)
      && (current < |buffers| ==> currentBuffer == buffers[current])
    }

    /** `begin`: the first non-empty buffer. */
    constructor Begin(buffers: seq<Buffer>)
      ensures Valid() && this.buffers == buffers && position == 0
    {
      this.buffers := buffers;
      var at := 0;
      var buffer := Buffer(0, 0);
      assert buffers[..0] == [];
      while at != |buffers|
        invariant at <= |buffers| && TotalSize(buffers[..at]) == 0
        invariant at == |buffers| ==> TotalSize(buffers) == 0
      {
        TotalSizeSplit(buffers, at);
        buffer := buffers[at];
        if buffer.size > 0 { break; }
        at := at + 1;
        assert buffers[..|buffers|] == buffers;
      }
      current, currentBuffer, currentBufferPosition, position := at, buffer, 0, 0;
    }

    /** `end`: behind the last buffer, with the sizes added up. */
    constructor End(buffers: seq<Buffer>)
      ensures Valid() && this.buffers == buffers && position == TotalSize(buffers)
    {
      this.buffers := buffers;
      var at, total := 0, 0;
      assert buffers[..0] == [];
      while at != |buffers|
        invariant at <= |buffers| && total == TotalSize(buffers[..at])
      {
        TotalSizeSplit(buffers, at);
        total := total + buffers[at].size;
        at := at + 1;
      }
      assert buffers[..|buffers|] == buffers;
      current, currentBuffer, currentBufferPosition, position := at, Buffer(0, 0), 0, total;
    }

    /** Iterators are values in the original; this is one's copy. */
    constructor Copy(other: BuffersIterator)
      requires other.Valid()
      ensures Valid() && buffers == other.buffers && position == other.position
    {
      buffers := other.buffers;
      currentBuffer, currentBufferPosition := other.currentBuffer, other.currentBufferPosition;
      current, position := other.current, other.position;
    }

    /** The whole state of an iterator follows from its position, however it got there. */
    lemma StateIsPlace()
      requires Valid()
      ensures position <= TotalSize(buffers)
      ensures (current, currentBufferPosition) == Place(buffers, position)
    {
      LocatedEnd(buffers, current, currentBufferPosition, position);
      PlaceIsLocated(buffers, position);
      var (c, o) := Place(buffers, position);
      LocatedOnce(buffers, current, currentBufferPosition, c, o, position);
    }

    function Dereference(memory: string): (c: char)
      requires Valid() && AllIn(buffers, memory) && position < TotalSize(buffers)
      reads this
      ensures c == Flatten(memory, buffers)[position]
    {
      LocatedEnd(buffers, current, currentBufferPosition, position);
      LocatedByte(memory, buffers, current, currentBufferPosition, position);
      memory[currentBuffer.data + currentBufferPosition]
    }

    /** Subtraction, which all comparisons but equality go back to: it orders iterators as their places. */
    function DistanceTo(other: BuffersIterator): (d: int)
      requires Valid() && other.Valid() && buffers == other.buffers
      reads this, other
      ensures d > 0 <==> current < other.current
                         || (current == other.current && currentBufferPosition < other.currentBufferPosition)
      ensures d == 0 <==> current == other.current && currentBufferPosition == other.currentBufferPosition
      ensures position + d == other.position
    {
      LocatedInOrder(buffers, current, currentBufferPosition, position,
                     other.current, other.currentBufferPosition, other.position);
      LocatedInOrder(buffers, other.current, other.currentBufferPosition, other.position,
                     current, currentBufferPosition, position);
      other.position - position
    }

    /** Equality compares positions; between iterators over the same buffers that is equality of state. */
    predicate Equal(other: BuffersIterator)
      requires Valid() && other.Valid() && buffers == other.buffers
      reads this, other
      ensures Equal(other) <==> current == other.current && currentBufferPosition == other.currentBufferPosition
    {
      if position == other.position then
        LocatedOnce(buffers, current, currentBufferPosition, other.current, other.currentBufferPosition, position);
        true
      else false
    }

    method Increment()
      requires Valid() && position < TotalSize(buffers)
      modifies this
      ensures Valid() && position == old(position) + 1
    {
      LocatedEnd(buffers, current, currentBufferPosition, position);
      TotalSizeSplit(buffers, current);
      position := position + 1;
      currentBufferPosition := currentBufferPosition + 1;
      if currentBufferPosition != currentBuffer.size { return; }
      current := current + 1;
      currentBufferPosition := 0;
      while current != |buffers|
        invariant current <= |buffers| && currentBufferPosition == 0
        invariant position == old(position) + 1 && position == TotalSize(buffers[..current])
        decreases |buffers| - current
      {
        currentBuffer := buffers[current];
        if currentBuffer.size > 0 { return; }
        TotalSizeSplit(buffers, current);
        current := current + 1;
      }
      assert buffers[..|buffers|] == buffers;
    }

    method Decrement()
      requires Valid() && position > 0
      modifies this
      ensures Valid() && position == old(position) - 1
    {
      assert buffers[..|buffers|] == buffers && buffers[..0] == [];
      position := position - 1;
      if currentBufferPosition != 0 {
        currentBufferPosition := currentBufferPosition - 1;
        return;
      }
      var iter: nat := current;
      while iter != 0
        invariant iter <= |buffers| && TotalSize(buffers[..iter]) == old(position)
        invariant position == old(position) - 1
        invariant unchanged(`current) && unchanged(`currentBuffer) && unchanged(`currentBufferPosition)
      {
        iter := iter - 1;
        TotalSizeSplit(buffers, iter);
        var buffer := buffers[iter];
        if buffer.size > 0 {
          current := iter;
          currentBuffer := buffer;
          currentBufferPosition := buffer.size - 1;
          return;
        }
      }
    }

    /**
      `advance`: for every distance that lands within the bytes, the iterator ends up where that many
      single steps would take it, since a position has one place only.
     */
    method Advance(n: int)
      requires Valid() && 0 <= position + n <= TotalSize(buffers)
      modifies this
      ensures Valid() && position == old(position) + n
    {
      if n > 0 {
        AdvanceForward(n);
      } else if n < 0 {
        AdvanceBack(-n);
      }
    }

    /** `operator+` */
    method Plus(n: int) returns (sum: BuffersIterator)
      requires Valid() && 0 <= position + n <= TotalSize(buffers)
      ensures fresh(sum) && sum.Valid() && sum.buffers == buffers && sum.position == position + n
    {
      sum := new BuffersIterator.Copy(this);
      sum.Advance(n);
    }

    method AdvanceForward(distance: nat)
      requires Valid() && distance > 0 && position + distance <= TotalSize(buffers)
      modifies this
      ensures Valid() && position == old(position) + distance
    {
      LocatedEnd(buffers, current, currentBufferPosition, position);
      assert buffers[..|buffers|] == buffers;
      var n: nat := distance;
      while true
        invariant current < |buffers| && currentBuffer == buffers[current]
        invariant currentBufferPosition <= currentBuffer.size
        invariant position == TotalSize(buffers[..current]) + currentBufferPosition
        invariant position + n == old(position) + distance
        decreases |buffers| - current
      {
        var balance := currentBuffer.size - currentBufferPosition;
        if balance > n {
          position := position + n;
          currentBufferPosition := currentBufferPosition + n;
          return;
        }
        n := n - balance;
        position := position + balance;
        TotalSizeSplit(buffers, current);
        current := current + 1;
        if current == |buffers| {
          currentBuffer := Buffer(0, 0);
          currentBufferPosition := 0;
          return;
        }
        currentBuffer := buffers[current];
        currentBufferPosition := 0;
      }
    }

    method AdvanceBack(distance: nat)
      requires Valid() && 0 < distance <= position
      modifies this
      ensures Valid() && position == old(position) - distance
    {
      assert buffers[..|buffers|] == buffers && buffers[..0] == [];
      var n: nat := distance;
      while true
        invariant current <= |buffers| && (current < |buffers| ==> currentBuffer == buffers[current])
        invariant if current == |buffers| then currentBufferPosition == 0 else currentBufferPosition <= currentBuffer.size
        invariant position == TotalSize(buffers[..current]) + currentBufferPosition
        invariant 0 < n <= position && position - n == old(position) - distance
        decreases current
      {
        if currentBufferPosition >= n {
          position := position - n;
          currentBufferPosition := currentBufferPosition - n;
          return;
        }
        n := n - currentBufferPosition;
        position := position - currentBufferPosition;
        if current == 0 {
          // the beginning is not reached with bytes still to go
          assert false;
        }
        var iter: nat := current;
        ghost var here := current;
        while iter != 0
          invariant iter <= here == current && TotalSize(buffers[..iter]) == position
          invariant 0 < n <= position && position - n == old(position) - distance
        {
          iter := iter - 1;
          TotalSizeSplit(buffers, iter);
          var buffer := buffers[iter];
          if buffer.size > 0 {
            current := iter;
            currentBuffer := buffer;
            currentBufferPosition := buffer.size;
            break;
          }
        }
      }
    }
  }
}
