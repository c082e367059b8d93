/**
  Scatter-gather buffers: descriptors of memory ranges, and the loops that copy bytes between lists of
  them. Memory is one array; a buffer is an address and a size, as `mutable_buffer` and
  `const_buffer` are.
 */
module Buffers {
  import opened Strings

  datatype Buffer = Buffer(data: nat, size: nat)
  {
    predicate In(memory: string) {
      data + size <= |memory|
    }

    function Bytes(memory: string): string
      requires In(memory)
    {
      memory[data..data + size]
    }

    /** `operator+`: the buffer behind its first `start` bytes, or an empty one at the null address. */
    function Plus(start: nat): Buffer {
      if start > size then Buffer(0, 0) else Buffer(data + start, size - start)
    }

    /** `buffer(b, max_size_in_bytes)` */
    function Truncated(maxSize: nat): Buffer {
      Buffer(data, if size < maxSize then size else maxSize)
    }

    predicate Holds(address: nat) {
      data <= address < data + size
    }

    predicate DisjointFrom(other: Buffer) {
      size == 0 || other.size == 0 || data + size <= other.data || other.data + other.size <= data
    }
  }

  /** What is behind the first `n` bytes of a buffer, and what is within them; both stay inside memory. */
  lemma Windows(memory: string, b: Buffer, n: nat)
    requires b.In(memory)
    ensures b.Plus(n).In(memory) && b.Truncated(n).In(memory)
    ensures b.Truncated(n).Bytes(memory) + b.Plus(n).Bytes(memory) == b.Bytes(memory)
    ensures b.Truncated(n).size == Min(n, b.size)
  {
  }

  predicate AllIn(buffers: seq<Buffer>, memory: string) {
    forall i :: 0 <= i < |buffers| ==> buffers[i].In(memory)
  }

  predicate Separate(buffers: seq<Buffer>) {
    forall i, j :: 0 <= i < j < |buffers| ==> buffers[i].DisjointFrom(buffers[j])
  }

  predicate Apart(a: seq<Buffer>, b: seq<Buffer>) {
    forall i, j :: 0 <= i < |a| && 0 <= j < |b| ==> a[i].DisjointFrom(b[j])
  }

  predicate AnyHolds(buffers: seq<Buffer>, address: nat) {
    exists i :: 0 <= i < |buffers| && buffers[i].Holds(address)
  }

  function TotalSize(buffers: seq<Buffer>): nat {
    if buffers == [] then 0 else buffers[0].size + TotalSize(buffers[1..])
  }

  /** The bytes of all buffers, one after the other. */
  function Flatten(memory: string, buffers: seq<Buffer>): (bytes: string)
    requires AllIn(buffers, memory)
    ensures |bytes| == TotalSize(buffers)
  {
    if buffers == [] then "" else buffers[0].Bytes(memory) + Flatten(memory, buffers[1..])
  }

  /** `buffer_size` of a sequence. */
  method BufferSize(buffers: seq<Buffer>) returns (total: nat)
    ensures total == TotalSize(buffers)
  {
    total := 0;
    assert buffers[0..] == buffers;
    for i := 0 to |buffers|
      invariant total + TotalSize(buffers[i..]) == TotalSize(buffers)
    {
      total := total + buffers[i].size;
      assert buffers[i..][1..] == buffers[i + 1..];
    }
  }

  lemma {:induction false} TotalSizeSplit(buffers: seq<Buffer>, i: nat)
    requires i <= |buffers|
    ensures TotalSize(buffers[..i]) + TotalSize(buffers[i..]) == TotalSize(buffers)
    ensures i < |buffers| ==> TotalSize(buffers[..i + 1]) == TotalSize(buffers[..i]) + buffers[i].size
    ensures i < |buffers| ==> TotalSize(buffers[..i]) + buffers[i].size <= TotalSize(buffers)
  {
    if i == 0 {
      assert buffers[..0] == [] && buffers[0..] == buffers;
      if buffers != [] {
        assert buffers[..1] == [buffers[0]];
        assert [buffers[0]][1..] == [];
      }
    } else {
      assert buffers[..i][1..] == buffers[1..][..i - 1] && buffers[i..] == buffers[1..][i - 1..];
      if i < |buffers| { assert buffers[..i + 1][1..] == buffers[1..][..i]; }
      TotalSizeSplit(buffers[1..], i - 1);
    }
  }

  lemma {:induction false} FlattenConcat(memory: string, a: seq<Buffer>, b: seq<Buffer>)
    requires AllIn(a, memory) && AllIn(b, memory)
    ensures AllIn(a + b, memory) && Flatten(memory, a + b) == Flatten(memory, a) + Flatten(memory, b)
  {
    if a == [] {
      assert a + b == b;
    } else {
      assert (a + b)[1..] == a[1..] + b;
      FlattenConcat(memory, a[1..], b);
    }
  }

  /** One buffer's bytes within the flattened list. */
  lemma FlattenAt(memory: string, buffers: seq<Buffer>, i: nat)
    requires AllIn(buffers, memory) && i < |buffers|
    ensures Flatten(memory, buffers)
         == Flatten(memory, buffers[..i]) + (buffers[i].Bytes(memory) + Flatten(memory, buffers[i + 1..]))
  {
    assert buffers == buffers[..i] + buffers[i..];
    FlattenConcat(memory, buffers[..i], buffers[i..]);
    assert buffers[i..][1..] == buffers[i + 1..];
  }

  /** The bytes from address `at`, inside buffer `i`, stand at `position` in the flattened list. */
  predicate StandsAt(buffers: seq<Buffer>, i: nat, at: nat, n: nat, position: nat) {
    && i < |buffers|
    && buffers[i].data <= at && at + n <= buffers[i].data + buffers[i].size
    && position == TotalSize(buffers[..i]) + (at - buffers[i].data)
  }

  lemma FlattenSlice(memory: string, buffers: seq<Buffer>, i: nat, at: nat, n: nat, position: nat)
    requires AllIn(buffers, memory) && StandsAt(buffers, i, at, n, position)
    ensures position + n <= TotalSize(buffers)
    ensures Flatten(memory, buffers)[position..position + n] == memory[at..at + n]
  {
    var from := at - buffers[i].data;
    TotalSizeSplit(buffers, i);
    FlattenAt(memory, buffers, i);
    SliceInside(Flatten(memory, buffers[..i]), buffers[i].Bytes(memory), Flatten(memory, buffers[i + 1..]),
                from, n, position);
    SliceOfSlice(memory, buffers[i].data, buffers[i].data + buffers[i].size, from, n, at);
  }

  lemma SliceOfSlice(s: string, lo: nat, hi: nat, from: nat, n: nat, at: nat)
    requires lo <= hi <= |s| && from + n <= hi - lo && at == lo + from
    ensures s[lo..hi][from..from + n] == s[at..at + n]
  {
    var left, right := s[lo..hi][from..from + n], s[at..at + n];
    assert forall k :: 0 <= k < n ==> left[k] == right[k];
  }

  lemma SliceInside(a: string, b: string, c: string, from: nat, n: nat, position: nat)
    requires from + n <= |b| && position == |a| + from
    ensures (a + (b + c))[position..position + n] == b[from..from + n]
  {
    var all := a + (b + c);
    var left, right := all[position..position + n], b[from..from + n];
    forall k | 0 <= k < n ensures left[k] == right[k] {
      assert all[position + k] == (b + c)[from + k];
    }
  }

  lemma {:induction false} FlattenSame(before: string, after: string, buffers: seq<Buffer>)
    requires |before| == |after| && AllIn(buffers, before)
    requires forall i, k: nat :: 0 <= i < |buffers| && buffers[i].Holds(k) ==> before[k] == after[k]
    ensures AllIn(buffers, after) && Flatten(before, buffers) == Flatten(after, buffers)
  {
    if buffers != [] {
      assert forall k: nat :: buffers[0].Holds(k) ==> before[k] == after[k];
      assert buffers[0].Bytes(before) == buffers[0].Bytes(after);
      assert forall i :: 0 <= i < |buffers[1..]| ==> buffers[1..][i] == buffers[i + 1];
      FlattenSame(before, after, buffers[1..]);
    }
  }

  /** The address of a position of the flattened list. */
  function Address(buffers: seq<Buffer>, position: nat): nat
    requires position < TotalSize(buffers)
  {
    if position < buffers[0].size then buffers[0].data + position
    else Address(buffers[1..], position - buffers[0].size)
  }

  lemma {:induction false} AddressIn(buffers: seq<Buffer>, memory: string, position: nat)
    requires AllIn(buffers, memory) && position < TotalSize(buffers)
    ensures Address(buffers, position) < |memory|
  {
    if position >= buffers[0].size { AddressIn(buffers[1..], memory, position - buffers[0].size); }
  }

  lemma {:induction false} AddressAt(buffers: seq<Buffer>, i: nat, at: nat, n: nat, position: nat, j: nat)
    requires StandsAt(buffers, i, at, n, position) && j < n
    ensures position + j < TotalSize(buffers) && Address(buffers, position + j) == at + j
  {
    var first, rest := buffers[0], buffers[1..];
    if i == 0 {
      assert buffers[..0] == [];
    } else {
      assert buffers[..i][1..] == rest[..i - 1];
      AddressAt(rest, i - 1, at, n, position - first.size, j);
    }
  }

  /** Memory changed in one range only. */
  predicate Wrote(before: string, after: string, at: nat, bytes: string) {
    && |before| == |after| && at + |bytes| <= |before|
    && forall k :: 0 <= k < |before| ==> after[k] == if at <= k < at + |bytes| then bytes[k - at] else before[k]
  }

  /** Writing inside one of several separate buffers overwrites that part of the flattened list. */
  lemma FlattenWrote(before: string, after: string, buffers: seq<Buffer>, i: nat, at: nat, bytes: string, position: nat)
    requires AllIn(buffers, before) && Separate(buffers)
    requires StandsAt(buffers, i, at, |bytes|, position) && Wrote(before, after, at, bytes)
    ensures AllIn(buffers, after)
    ensures position + |bytes| <= TotalSize(buffers)
    ensures Flatten(after, buffers) == Overwritten(Flatten(before, buffers), position, bytes)
  {
    var from := at - buffers[i].data;
    TotalSizeSplit(buffers, i);
    FlattenAt(before, buffers, i);
    FlattenAt(after, buffers, i);
    OthersUntouched(before, after, buffers, i, at, bytes);
    FlattenSame(before, after, buffers[..i]);
    FlattenSame(before, after, buffers[i + 1..]);
    WroteInside(before, after, buffers[i], at, bytes, from);
    OverwrittenInside(Flatten(before, buffers[..i]), buffers[i].Bytes(before), Flatten(before, buffers[i + 1..]),
                      from, bytes, position);
  }

  lemma WroteInside(before: string, after: string, b: Buffer, at: nat, bytes: string, from: nat)
    requires b.In(before) && b.data <= at && at + |bytes| <= b.data + b.size && from == at - b.data
    requires Wrote(before, after, at, bytes)
    ensures b.Bytes(after) == Overwritten(b.Bytes(before), from, bytes)
  {
    OverwrittenIs(b.Bytes(before), from, bytes, b.Bytes(after));
  }

  lemma OthersUntouched(before: string, after: string, buffers: seq<Buffer>, i: nat, at: nat, bytes: string)
    requires AllIn(buffers, before) && Separate(buffers) && i < |buffers|
    requires buffers[i].data <= at && at + |bytes| <= buffers[i].data + buffers[i].size
    requires Wrote(before, after, at, bytes)
    ensures forall j, k: nat :: 0 <= j < i && buffers[..i][j].Holds(k) ==> before[k] == after[k]
    ensures var rest := buffers[i + 1..];
            forall j, k: nat :: 0 <= j < |rest| && rest[j].Holds(k) ==> before[k] == after[k]
  {
    forall j, k: nat | 0 <= j < i && buffers[..i][j].Holds(k) ensures before[k] == after[k] {
      assert buffers[j].DisjointFrom(buffers[i]);
    }
    var rest := buffers[i + 1..];
    forall j, k: nat | 0 <= j < |rest| && rest[j].Holds(k) ensures before[k] == after[k] {
      assert buffers[i].DisjointFrom(buffers[i + 1 + j]);
    }
  }

  lemma OverwrittenInside(a: string, b: string, c: string, at: nat, body: string, position: nat)
    requires at + |body| <= |b| && position == |a| + at
    ensures a + (Overwritten(b, at, body) + c) == Overwritten(a + (b + c), position, body)
  {
  }
}
