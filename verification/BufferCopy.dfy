/** `buffer_copy` in its forms, with the memory it writes. */
module BufferCopy {
  import opened Outcomes
  import opened Strings
  import opened Buffers

  /** The target's bytes after `n` bytes were copied to its front. */
  function Copied(target: string, source: string, n: nat): (s: string)
    requires n <= |target| && n <= |source|
    ensures |s| == |target|
  {
    source[..n] + target[n..]
  }

  /** Memory after the bytes were written to the targets one by one; where targets overlap, the last one stays. */
  function Scattered(memory: string, targets: seq<Buffer>, bytes: string): (s: string)
    requires AllIn(targets, memory) && |bytes| <= TotalSize(targets)
    ensures |s| == |memory|
    decreases |bytes|
  {
    if bytes == "" then memory
    else
      var last := |bytes| - 1;
      AddressIn(targets, memory, last);
      Scattered(memory, targets, bytes[..last])[Address(targets, last) := bytes[last]]
  }

  /** What may be written: only bytes of the targets. */
  ghost predicate OnlyIn(targets: seq<Buffer>, before: string, after: string) {
    |before| == |after| && forall k: nat :: k < |before| && !AnyHolds(targets, k) ==> after[k] == before[k]
  }

  /**
    Lists that may be copied between: inside memory, and no target overlaps a source, which memcpy forbids. Targets
    may overlap each other.
   */
  predicate Copyable(targets: seq<Buffer>, sources: seq<Buffer>, memory: string) {
    AllIn(targets, memory) && AllIn(sources, memory) && Apart(targets, sources)
  }

  /** One buffer to one buffer: a single memcpy. */
  method CopyOne(memory: array<char>, target: Buffer, source: Buffer) returns (n: nat)
    requires target.In(memory[..]) && source.In(memory[..]) && target.DisjointFrom(source)
    modifies memory
    ensures n == Min(target.size, source.size)
    ensures Wrote(old(memory[..]), memory[..], target.data, old(memory[..])[source.data..source.data + n])
  {
    n := if target.size < source.size then target.size else source.size;
    forall k | target.data <= k < target.data + n {
      memory[k] := memory[source.data + (k - target.data)];
    }
  }

  /** One buffer to one buffer, limited: the target is cut first. */
  method CopyOneLimited(memory: array<char>, target: Buffer, source: Buffer, limit: nat) returns (n: nat)
    requires target.In(memory[..]) && source.In(memory[..]) && target.DisjointFrom(source)
    modifies memory
    ensures n == Min(Min(target.size, source.size), limit)
    ensures Wrote(old(memory[..]), memory[..], target.data, old(memory[..])[source.data..source.data + n])
  {
    n := CopyOne(memory, target.Truncated(limit), source);
  }

  /** Where a cursor at buffer `i`, offset `offset`, stands in the flattened list. */
  predicate CursorAt(buffers: seq<Buffer>, i: nat, offset: nat, position: nat) {
    && i <= |buffers|
    && TotalSize(buffers[..i]) + offset == position <= TotalSize(buffers)
    && (if i < |buffers| then offset <= buffers[i].size else offset == 0)
  }

  /** Moving a cursor over `n` bytes of its buffer, and to the next buffer when that exhausts it. */
  predicate Moves(buffers: seq<Buffer>, i: nat, offset: nat, position: nat, n: nat) {
    && i < |buffers| && offset + n <= buffers[i].size
    && (if n == buffers[i].size - offset then CursorAt(buffers, i + 1, 0, position + n)
        else CursorAt(buffers, i, offset + n, position + n))
  }

  lemma CursorMoves(buffers: seq<Buffer>, i: nat, offset: nat, position: nat, n: nat)
    requires CursorAt(buffers, i, offset, position) && i < |buffers| && n <= buffers[i].Plus(offset).size
    ensures Moves(buffers, i, offset, position, n)
    ensures StandsAt(buffers, i, buffers[i].Plus(offset).data, n, position)
  {
    TotalSizeSplit(buffers, i);
  }

  lemma CursorAtEnd(buffers: seq<Buffer>, position: nat)
    requires CursorAt(buffers, |buffers|, 0, position)
    ensures position == TotalSize(buffers)
  {
    assert buffers[..|buffers|] == buffers;
  }

  /**
    The state of a copy with `n` bytes done: they were written to the targets in order. If the targets do not
    overlap, the flattened target is therefore the source's beginning and its own rest.
   */
  ghost predicate Progress(before: string, now: string, targets: seq<Buffer>, sources: seq<Buffer>, n: nat)
    requires AllIn(targets, before) && AllIn(sources, before)
  {
    && |now| == |before|
    && n <= TotalSize(targets) && n <= TotalSize(sources)
    && now == Scattered(before, targets, Flatten(before, sources)[..n])
    && (Separate(targets) ==> Flatten(now, targets) == Copied(Flatten(before, targets), Flatten(before, sources), n))
    && Flatten(now, sources) == Flatten(before, sources)
    && OnlyIn(targets, before, now)
  }

  /** One more memcpy, between bytes that stand where the copy has got to, takes the copy further. */
  lemma ProgressStep(before: string, now: string, after: string, targets: seq<Buffer>, sources: seq<Buffer>,
                     ti: nat, si: nat, target: nat, source: nat, done: nat, n: nat, total: nat)
    requires Copyable(targets, sources, before) && Progress(before, now, targets, sources, done)
    requires StandsAt(targets, ti, target, n, done) && StandsAt(sources, si, source, n, done)
    requires source + n <= |now| && Wrote(now, after, target, now[source..source + n])
    requires total == done + n
    ensures Progress(before, after, targets, sources, total)
  {
    var bytes := now[source..source + n];
    var T, S := Flatten(before, targets), Flatten(before, sources);
    FlattenSlice(now, sources, si, source, n, done);
    StandsWithin(targets, ti, target, n, done);
    ScatteredStep(before, now, after, targets, ti, target, bytes, S, done, total);
    FlattenedStep(now, after, targets, ti, target, bytes, T, S, done, total);
    SourcesStay(now, after, targets, sources, ti, target, bytes);
    OnlyInStep(before, now, after, targets, ti, target, bytes);
  }

  lemma SourcesStay(now: string, after: string, targets: seq<Buffer>, sources: seq<Buffer>,
                    i: nat, at: nat, bytes: string)
    requires AllIn(targets, now) && AllIn(sources, now) && Apart(targets, sources)
    requires i < |targets| && targets[i].data <= at && at + |bytes| <= targets[i].data + targets[i].size
    requires Wrote(now, after, at, bytes)
    ensures AllIn(sources, after) && Flatten(after, sources) == Flatten(now, sources)
  {
    SourcesUntouched(now, after, targets, sources, i, at, bytes);
    FlattenSame(now, after, sources);
  }

  lemma ScatteredStep(before: string, now: string, after: string, targets: seq<Buffer>, i: nat, at: nat, bytes: string,
                      S: string, done: nat, total: nat)
    requires AllIn(targets, before) && StandsAt(targets, i, at, |bytes|, done)
    requires total == done + |bytes| <= TotalSize(targets) && total <= |S| && bytes == S[done..total]
    requires now == Scattered(before, targets, S[..done]) && Wrote(now, after, at, bytes)
    ensures after == Scattered(before, targets, S[..total])
  {
    ScatteredRun(before, targets, S, i, at, done, |bytes|);
    WroteSame(now, after, Scattered(before, targets, S[..total]), at, bytes);
  }

  lemma WroteSame(before: string, a: string, b: string, at: nat, bytes: string)
    requires Wrote(before, a, at, bytes) && Wrote(before, b, at, bytes)
    ensures a == b
  {
  }

  lemma FlattenedStep(now: string, after: string, targets: seq<Buffer>, i: nat, at: nat, bytes: string,
                      T: string, S: string, done: nat, total: nat)
    requires AllIn(targets, now) && StandsAt(targets, i, at, |bytes|, done) && Wrote(now, after, at, bytes)
    requires total == done + |bytes| && total <= |T| && total <= |S| && bytes == S[done..total]
    requires Separate(targets) ==> Flatten(now, targets) == Copied(T, S, done)
    ensures AllIn(targets, after) && (Separate(targets) ==> Flatten(after, targets) == Copied(T, S, total))
  {
    if Separate(targets) {
      FlattenWrote(now, after, targets, i, at, bytes, done);
      CopiedFurther(T, S, done, |bytes|, total);
    }
  }

  lemma StandsWithin(buffers: seq<Buffer>, i: nat, at: nat, n: nat, position: nat)
    requires StandsAt(buffers, i, at, n, position)
    ensures position + n <= TotalSize(buffers)
  {
    TotalSizeSplit(buffers, i);
  }

  /** Bytes whose positions lie in one buffer are written to one range of memory. */
  lemma {:induction false} ScatteredRun(memory: string, targets: seq<Buffer>, source: string,
                                        i: nat, at: nat, done: nat, n: nat)
    requires AllIn(targets, memory) && StandsAt(targets, i, at, n, done) && done + n <= TotalSize(targets)
    requires done + n <= |source|
    ensures Wrote(Scattered(memory, targets, source[..done]), Scattered(memory, targets, source[..done + n]),
                  at, source[done..done + n])
    decreases n
  {
    if n > 0 {
      var last := n - 1;
      ScatteredRun(memory, targets, source, i, at, done, last);
      AddressAt(targets, i, at, n, done, last);
      assert source[..done + n][..done + last] == source[..done + last];
    }
  }

  lemma OnlyInStep(before: string, now: string, after: string, targets: seq<Buffer>, i: nat, at: nat, bytes: string)
    requires OnlyIn(targets, before, now)
    requires i < |targets| && targets[i].data <= at && at + |bytes| <= targets[i].data + targets[i].size
    requires Wrote(now, after, at, bytes)
    ensures OnlyIn(targets, before, after)
  {
    forall k: nat | k < |before| && !AnyHolds(targets, k) ensures after[k] == before[k] {
      assert !targets[i].Holds(k);
    }
  }

  lemma CopiedFurther(target: string, source: string, done: nat, n: nat, total: nat)
    requires total == done + n && total <= |target| && total <= |source|
    ensures Overwritten(Copied(target, source, done), done, source[done..done + n]) == Copied(target, source, total)
  {
  }

  lemma SourcesUntouched(before: string, after: string, targets: seq<Buffer>, sources: seq<Buffer>,
                         i: nat, at: nat, bytes: string)
    requires AllIn(targets, before) && AllIn(sources, before) && Apart(targets, sources)
    requires i < |targets| && targets[i].data <= at && at + |bytes| <= targets[i].data + targets[i].size
    requires Wrote(before, after, at, bytes)
    ensures forall j, k: nat :: 0 <= j < |sources| && sources[j].Holds(k) ==> before[k] == after[k]
  {
    forall j, k: nat | 0 <= j < |sources| && sources[j].Holds(k) ensures before[k] == after[k] {
      assert targets[i].DisjointFrom(sources[j]);
    }
  }

  lemma NoProgressYet(memory: string, targets: seq<Buffer>, sources: seq<Buffer>)
    requires AllIn(targets, memory) && AllIn(sources, memory)
    ensures Progress(memory, memory, targets, sources, 0)
    ensures CursorAt(targets, 0, 0, 0) && CursorAt(sources, 0, 0, 0)
  {
    assert targets[..0] == [] && sources[..0] == [];
  }

  /** The memcpy inside the loops below: from the source cursor's buffer to the target cursor's. */
  method CopyStep(memory: array<char>, targets: seq<Buffer>, sources: seq<Buffer>,
                  ti: nat, tOffset: nat, si: nat, sOffset: nat, limit: Option<nat>,
                  ghost before: string, done: nat)
    returns (n: nat, total: nat)
    requires Copyable(targets, sources, before) && Progress(before, memory[..], targets, sources, done)
    requires CursorAt(targets, ti, tOffset, done) && ti < |targets|
    requires CursorAt(sources, si, sOffset, done) && si < |sources|
    modifies memory
    ensures n == Limited(Min(targets[ti].Plus(tOffset).size, sources[si].Plus(sOffset).size), limit)
    ensures total == done + n && Progress(before, memory[..], targets, sources, total)
    ensures Moves(targets, ti, tOffset, done, n) && Moves(sources, si, sOffset, done, n)
  {
    ghost var now := memory[..];
    var target, source := targets[ti].Plus(tOffset), sources[si].Plus(sOffset);
    StepAllowed(before, targets, sources, ti, tOffset, si, sOffset, done);
    n := CopyOneOrLimited(memory, target, source, limit);
    total := done + n;
    StepDone(before, now, memory[..], targets, sources, ti, tOffset, si, sOffset, done, n, total);
  }

  lemma StepAllowed(memory: string, targets: seq<Buffer>, sources: seq<Buffer>,
                    ti: nat, tOffset: nat, si: nat, sOffset: nat, done: nat)
    requires Copyable(targets, sources, memory)
    requires CursorAt(targets, ti, tOffset, done) && ti < |targets|
    requires CursorAt(sources, si, sOffset, done) && si < |sources|
    ensures var target, source := targets[ti].Plus(tOffset), sources[si].Plus(sOffset);
            target.In(memory) && source.In(memory) && target.DisjointFrom(source)
  {
    assert targets[ti].DisjointFrom(sources[si]);
  }

  lemma StepDone(before: string, now: string, after: string, targets: seq<Buffer>, sources: seq<Buffer>,
                 ti: nat, tOffset: nat, si: nat, sOffset: nat, done: nat, n: nat, total: nat)
    requires Copyable(targets, sources, before) && Progress(before, now, targets, sources, done)
    requires CursorAt(targets, ti, tOffset, done) && ti < |targets| && n <= targets[ti].Plus(tOffset).size
    requires CursorAt(sources, si, sOffset, done) && si < |sources| && n <= sources[si].Plus(sOffset).size
    requires var target, source := targets[ti].Plus(tOffset), sources[si].Plus(sOffset);
             source.data + n <= |now| && Wrote(now, after, target.data, now[source.data..source.data + n])
    requires total == done + n
    ensures Progress(before, after, targets, sources, total)
    ensures Moves(targets, ti, tOffset, done, n) && Moves(sources, si, sOffset, done, n)
  {
    var target, source := targets[ti].Plus(tOffset), sources[si].Plus(sOffset);
    CursorMoves(targets, ti, tOffset, done, n);
    CursorMoves(sources, si, sOffset, done, n);
    ProgressStep(before, now, after, targets, sources, ti, si, target.data, source.data, done, n, total);
  }

  function Limited(n: nat, limit: Option<nat>): nat {
    if limit.Some? then Min(n, limit.value) else n
  }

  /** The one-to-one form the step calls: with the limit, if there is one. */
  method CopyOneOrLimited(memory: array<char>, target: Buffer, source: Buffer, limit: Option<nat>) returns (n: nat)
    requires target.In(memory[..]) && source.In(memory[..]) && target.DisjointFrom(source)
    modifies memory
    ensures n == Limited(Min(target.size, source.size), limit)
    ensures Wrote(old(memory[..]), memory[..], target.data, old(memory[..])[source.data..source.data + n])
  {
    if limit.Some? {
      n := CopyOneLimited(memory, target, source, limit.value);
    } else {
      n := CopyOne(memory, target, source);
    }
  }

  /**
    `buffer_copy` between two lists. Empty buffers anywhere are stepped over, one side at a time or
    both at once.
   */
  method CopyLists(memory: array<char>, targets: seq<Buffer>, sources: seq<Buffer>) returns (total: nat)
    requires Copyable(targets, sources, memory[..])
    modifies memory
    ensures total == Min(TotalSize(targets), TotalSize(sources))
    ensures Progress(old(memory[..]), memory[..], targets, sources, total)
  {
    ghost var before := memory[..];
    NoProgressYet(before, targets, sources);
    total := 0;
    var ti, tOffset, si, sOffset := 0, 0, 0, 0;
    while ti != |targets| && si != |sources|
      invariant CursorAt(targets, ti, tOffset, total) && CursorAt(sources, si, sOffset, total)
      invariant Progress(before, memory[..], targets, sources, total)
      decreases |targets| - ti + |sources| - si
    {
      var n;
      n, total := CopyStep(memory, targets, sources, ti, tOffset, si, sOffset, None, before, total);
      var targetDone, sourceDone := n == targets[ti].size - tOffset, n == sources[si].size - sOffset;
      ti, tOffset := if targetDone then ti + 1 else ti, if targetDone then 0 else tOffset + n;
      si, sOffset := if sourceDone then si + 1 else si, if sourceDone then 0 else sOffset + n;
    }
    if ti == |targets| { CursorAtEnd(targets, total); } else { CursorAtEnd(sources, total); }
  }

  /**
    `buffer_copy` between two lists with a limit. The step that reaches the limit may leave both cursors
    where they are.
   */
  method CopyListsLimited(memory: array<char>, targets: seq<Buffer>, sources: seq<Buffer>, limit: nat)
    returns (total: nat)
    requires Copyable(targets, sources, memory[..])
    modifies memory
    ensures total == Min(Min(TotalSize(targets), TotalSize(sources)), limit)
    ensures Progress(old(memory[..]), memory[..], targets, sources, total)
  {
    ghost var before := memory[..];
    NoProgressYet(before, targets, sources);
    total := 0;
    var ti, tOffset, si, sOffset := 0, 0, 0, 0;
    while total != limit && ti != |targets| && si != |sources|
      invariant total <= limit
      invariant CursorAt(targets, ti, tOffset, total) && CursorAt(sources, si, sOffset, total)
      invariant Progress(before, memory[..], targets, sources, total)
      decreases |targets| - ti + |sources| - si, limit - total
    {
      var n;
      n, total := CopyStep(memory, targets, sources, ti, tOffset, si, sOffset, Some(limit - total), before, total);
      var targetDone, sourceDone := n == targets[ti].size - tOffset, n == sources[si].size - sOffset;
      ti, tOffset := if targetDone then ti + 1 else ti, if targetDone then 0 else tOffset + n;
      si, sOffset := if sourceDone then si + 1 else si, if sourceDone then 0 else sOffset + n;
    }
    if ti == |targets| {
      CursorAtEnd(targets, total);
    } else if si == |sources| {
      CursorAtEnd(sources, total);
    }
  }

  lemma SingletonSize(b: Buffer)
    ensures TotalSize([b]) == b.size && TotalSize([b][..0]) == 0
  {
    assert [b][1..] == [] && [b][..0] == [];
  }

  /** `buffer_copy` from a list into one buffer, which shrinks from the front as it fills. */
  method CopyIntoOne(memory: array<char>, target: Buffer, sources: seq<Buffer>) returns (total: nat)
    requires Copyable([target], sources, memory[..])
    modifies memory
    ensures total == Min(target.size, TotalSize(sources))
    ensures Progress(old(memory[..]), memory[..], [target], sources, total)
  {
    ghost var before := memory[..];
    NoProgressYet(before, [target], sources);
    SingletonSize(target);
    total := 0;
    var si := 0;
    while total != target.size && si != |sources|
      invariant total <= target.size && si <= |sources|
      invariant total != target.size ==> CursorAt(sources, si, 0, total)
      invariant Progress(before, memory[..], [target], sources, total)
      decreases |sources| - si
    {
      var n;
      n, total := CopyStep(memory, [target], sources, 0, total, si, 0, None, before, total);
      si := si + 1;
    }
    if total != target.size { CursorAtEnd(sources, total); }
  }

  /** `buffer_copy` from one buffer into a list. */
  method CopyFromOne(memory: array<char>, targets: seq<Buffer>, source: Buffer) returns (total: nat)
    requires Copyable(targets, [source], memory[..])
    modifies memory
    ensures total == Min(TotalSize(targets), source.size)
    ensures Progress(old(memory[..]), memory[..], targets, [source], total)
  {
    ghost var before := memory[..];
    NoProgressYet(before, targets, [source]);
    SingletonSize(source);
    total := 0;
    var ti := 0;
    while total != source.size && ti != |targets|
      invariant total <= source.size && ti <= |targets|
      invariant total != source.size ==> CursorAt(targets, ti, 0, total)
      invariant Progress(before, memory[..], targets, [source], total)
      decreases |targets| - ti
    {
      var n;
      n, total := CopyStep(memory, targets, [source], ti, 0, 0, total, None, before, total);
      ti := ti + 1;
    }
    if total != source.size { CursorAtEnd(targets, total); }
  }
}
