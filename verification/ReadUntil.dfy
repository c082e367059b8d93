/**
  Reading until a delimiter: the partial search, and the composed operation that searches
  only what earlier searches have not ruled out.
 */
module ReadUntil {
  import opened Outcomes
  import opened Buffers
  import opened BuffersIterators
  import StreamBuffers

  predicate MatchAt(hay: string, p: nat, delim: string) {
    p < |hay| && p + |delim| <= |hay| && hay[p..p + |delim|] == delim
  }

  /** The text ends in a beginning of the delimiter. */
  predicate PartialAt(hay: string, p: nat, delim: string) {
    p < |hay| && |hay| - p < |delim| && hay[p..] == delim[..|hay| - p]
  }

  /** No delimiter can start at `p`, whatever is appended. */
  predicate RuledOut(hay: string, p: nat, delim: string) {
    p < |hay| && !MatchAt(hay, p, delim) && !PartialAt(hay, p, delim)
  }

  lemma Mismatch(hay: string, p: nat, k: nat, delim: string)
    requires p + k < |hay| && k < |delim| && hay[p + k] != delim[k]
    ensures RuledOut(hay, p, delim)
  {
    assert hay[p..][k] == hay[p + k];
    assert p + |delim| <= |hay| ==> hay[p..p + |delim|][k] == hay[p + k];
    assert |hay| - p < |delim| ==> delim[..|hay| - p][k] == delim[k];
  }

  /** A position is ruled out by one character. */
  lemma RuledOutBy(hay: string, p: nat, delim: string) returns (k: nat)
    requires RuledOut(hay, p, delim)
    ensures p + k < |hay| && k < |delim| && hay[p + k] != delim[k]
  {
    k := 0;
    while p + k < |hay| && k < |delim| && hay[p + k] == delim[k]
      invariant p + k <= |hay| && k <= |delim| && hay[p..p + k] == delim[..k]
    {
      assert hay[p..p + (k + 1)] == hay[p..p + k] + [hay[p + k]];
      k := k + 1;
    }
  }

  lemma RuledOutForever(hay: string, more: string, p: nat, delim: string)
    requires RuledOut(hay, p, delim)
    ensures RuledOut(hay + more, p, delim)
  {
    var k := RuledOutBy(hay, p, delim);
    Mismatch(hay + more, p, k, delim);
  }

  /** What `partial_search` finds from a position on: a match, or a partial match at the end, or nothing. */
  function Search(hay: string, first: nat, delim: string): (r: (nat, bool))
    requires first <= |hay|
    ensures first <= r.0 <= |hay|
    ensures r.1 ==> MatchAt(hay, r.0, delim)
    ensures !r.1 && r.0 < |hay| ==> PartialAt(hay, r.0, delim)
    ensures forall p: nat :: first <= p < r.0 ==> RuledOut(hay, p, delim)
    decreases |hay| - first
  {
    if first == |hay| then (first, false)
    else if MatchAt(hay, first, delim) then (first, true)
    else if PartialAt(hay, first, delim) then (first, false)
    else Search(hay, first + 1, delim)
  }

  /** An iterator over the text that lies in some buffers. */
  ghost predicate Over(iter: BuffersIterator, memory: string, buffers: seq<Buffer>)
    reads iter
  {
    iter.Valid() && iter.buffers == buffers && AllIn(buffers, memory)
  }

  lemma SearchStep(hay: string, p: nat, delim: string)
    requires p < |hay|
    ensures Search(hay, p, delim)
         == if MatchAt(hay, p, delim) then (p, true)
            else if PartialAt(hay, p, delim) then (p, false)
            else Search(hay, p + 1, delim)
  {
  }

  /** What the comparison of the first `k` characters at a position says if it need not go on. */
  lemma Compared(hay: string, p: nat, k: nat, delim: string)
    requires p < |hay| && p + k <= |hay| && k <= |delim| && hay[p..p + k] == delim[..k]
    ensures k == |delim| ==> MatchAt(hay, p, delim) && !PartialAt(hay, p, delim)
    ensures k < |delim| && p + k == |hay| ==> PartialAt(hay, p, delim) && !MatchAt(hay, p, delim)
    ensures k < |delim| && p + k < |hay| && hay[p + k] != delim[k] ==> RuledOut(hay, p, delim)
    ensures k < |delim| && p + k < |hay| && hay[p + k] == delim[k] ==> hay[p..p + k + 1] == delim[..k + 1]
  {
    if k == |delim| {
      assert delim[..k] == delim;
    } else if p + k == |hay| {
      assert hay[p..] == hay[p..p + k];
    } else if hay[p + k] == delim[k] {
      assert hay[p..p + k + 1] == hay[p..p + k] + [hay[p + k]];
      assert delim[..k + 1] == delim[..k] + [delim[k]];
    } else {
      Mismatch(hay, p, k, delim);
    }
  }

  /** `partial_search` */
  method PartialSearch(memory: string, first: BuffersIterator, last: BuffersIterator, delim: string, ghost hay: string)
    returns (iter: BuffersIterator, full: bool)
    requires Over(first, memory, last.buffers) && Over(last, memory, last.buffers)
    requires hay == Flatten(memory, last.buffers) && first.position <= last.position == |hay|
    ensures fresh(iter) && Over(iter, memory, last.buffers) && iter.position <= |hay|
    ensures (iter.position, full) == Search(hay, first.position, delim)
  {
    ghost var found := Search(hay, first.position, delim);
    iter := new BuffersIterator.Copy(first);
    while !iter.Equal(last)
      invariant fresh(iter) && Over(iter, memory, last.buffers) && iter.position <= |hay|
      invariant found == Search(hay, iter.position, delim)
      decreases |hay| - iter.position
    {
      var partial;
      full, partial := TryAt(memory, iter, last, delim, hay);
      if full || partial { return; }
    }
    full := false;
  }

  /** One turn of the outer loop: a match, or a partial one at the end, or the next position. */
  method TryAt(memory: string, iter: BuffersIterator, last: BuffersIterator, delim: string, ghost hay: string)
    returns (full: bool, partial: bool)
    requires iter != last && Over(iter, memory, last.buffers) && Over(last, memory, last.buffers)
    requires hay == Flatten(memory, last.buffers) && iter.position < last.position == |hay|
    modifies iter
    ensures Over(iter, memory, last.buffers)
    ensures iter.position == old(iter.position) + if full || partial then 0 else 1
    ensures Search(hay, old(iter.position), delim)
         == if full || partial then (iter.position, full) else Search(hay, iter.position, delim)
  {
    SearchStep(hay, iter.position, delim);
    full, partial := TestAt(memory, iter, last, delim, hay);
    if !full && !partial { iter.Increment(); }
  }

  /** The inner loop of `partial_search`. */
  method TestAt(memory: string, iter: BuffersIterator, last: BuffersIterator, delim: string, ghost hay: string)
    returns (full: bool, partial: bool)
    requires Over(iter, memory, last.buffers) && Over(last, memory, last.buffers)
    requires hay == Flatten(memory, last.buffers) && iter.position < last.position == |hay|
    ensures full <==> MatchAt(hay, iter.position, delim)
    ensures partial <==> PartialAt(hay, iter.position, delim)
  {
    ghost var p := iter.position;
    var test := new BuffersIterator.Copy(iter);
    var matched := 0;
    while true
      invariant fresh(test) && Over(test, memory, last.buffers)
      invariant test.position == p + matched <= |hay| && matched <= |delim|
      invariant hay[p..p + matched] == delim[..matched]
      decreases |delim| - matched
    {
      Compared(hay, p, matched, delim);
      if matched == |delim| { return true, false; }
      if test.Equal(last) { return false, true; }
      if test.Dereference(memory) != delim[matched] { return false, false; }
      assert hay[p + matched] == delim[matched];
      test.Increment();
      matched := matched + 1;
    }
  }

  /** The search of the text in some buffers from a position on; what is found is given as a distance. */
  method SearchFrom(memory: string, buffers: seq<Buffer>, search: nat, delim: string)
    returns (position: nat, full: bool)
    requires AllIn(buffers, memory) && search <= TotalSize(buffers)
    ensures (position, full) == Search(Flatten(memory, buffers), search, delim)
  {
    var begin := new BuffersIterator.Begin(buffers);
    var start := begin.Plus(search);
    var end := new BuffersIterator.End(buffers);
    var found;
    ghost var hay := Flatten(memory, buffers);
    found, full := PartialSearch(memory, start, end, delim, hay);
    assert (found.position, full) == Search(hay, search, delim);
    position := begin.DistanceTo(found);
    assert position == found.position;
  }

  lemma OneBuffer(memory: string, b: Buffer)
    requires b.In(memory)
    ensures AllIn([b], memory) && Flatten(memory, [b]) == b.Bytes(memory)
  {
    assert b.Bytes(memory) + "" == b.Bytes(memory);
  }

  /** The first delimiter of a text. */
  ghost predicate FirstAt(hay: string, p: nat, delim: string) {
    MatchAt(hay, p, delim) && forall q: nat :: q < p ==> !MatchAt(hay, q, delim)
  }

  ghost predicate NoMatch(hay: string, delim: string) {
    forall q: nat :: !MatchAt(hay, q, delim)
  }

  /** What the operation decides after looking at the content. */
  datatype Verdict = Found(n: nat) | Full | More(search: nat)

  /** The search step of the composed operation: `search` characters were ruled out before. */
  function Poll(content: string, search: nat, maxSize: nat, delim: string): (v: Verdict)
    requires search <= |content|
    ensures v.Found? ==> v.n <= |content|
    ensures v.More? ==> v.search <= |content|
  {
    var (position, full) := Search(content, search, delim);
    if full then Found(position + |delim|)
    else if |content| == maxSize then Full
    else More(position)
  }

  predicate AllRuledOut(content: string, search: nat, delim: string) {
    forall p: nat :: p < search ==> RuledOut(content, p, delim)
  }

  /**
    Resuming the search loses nothing: if everything before `search` is ruled out, the step finds the
    first delimiter of the whole content if there is one, and otherwise leaves again
    a position before which everything is ruled out, now and after any further read.
   */
  lemma PollIsComplete(content: string, search: nat, maxSize: nat, delim: string, more: string)
    requires search <= |content| && AllRuledOut(content, search, delim)
    ensures match Poll(content, search, maxSize, delim)
            case Found(n) => n >= |delim| && FirstAt(content, n - |delim|, delim)
            case Full => |content| == maxSize && NoMatch(content, delim)
            case More(next) => next <= |content| && NoMatch(content, delim) && AllRuledOut(content + more, next, delim)
  {
    var (position, full) := Search(content, search, delim);
    assert AllRuledOut(content, position, delim);
    if !full { NoMatchBehind(content, position, delim); }
    forall q: nat | q < position ensures !MatchAt(content, q, delim) {
      assert RuledOut(content, q, delim);
    }
    forall p: nat | p < position ensures RuledOut(content + more, p, delim) {
      RuledOutForever(content, more, p, delim);
    }
  }

  /** Behind a partial match at the end there is no full one. */
  lemma NoMatchBehind(content: string, position: nat, delim: string)
    requires position <= |content| && AllRuledOut(content, position, delim)
    requires position < |content| ==> PartialAt(content, position, delim)
    ensures NoMatch(content, delim)
  {
    forall q: nat ensures !MatchAt(content, q, delim) {
      if q < position { assert RuledOut(content, q, delim); }
    }
  }

  /** `read_until_delim_string_op`; none as search position stands for not_found. */
  class ReadUntilOp {
    const delim: string
    var search: Option<nat>
    /** The size of the read the operation has started. */
    var bytesToRead: nat

    constructor (delim: string)
      ensures this.delim == delim && search == Some(0)
    {
      this.delim := delim;
      search := Some(0);
      bytesToRead := 0;
    }

    /** The search of the buffer's content, as one buffer, from the position reached before. */
    method Look(sb: StreamBuffers.StreamBuffer) returns (position: nat, full: bool)
      requires sb.Valid() && search.Some? && search.value <= sb.Size()
      ensures (position, full) == Search(sb.Input(), search.value, delim)
    {
      var buffers := [Buffer(sb.gptr, sb.Size())];
      OneBuffer(sb.buffer[..], buffers[0]);
      position, full := SearchFrom(sb.buffer[..], buffers, search.value, delim);
    }

    /**
      The body of the operation's loop: decides how many bytes to read next, none if the operation is over,
      and prepares the buffer for them.
     */
    method Next(sb: StreamBuffers.StreamBuffer)
      requires sb.Faithful() && search.Some? && search.value <= sb.Size()
      modifies this, sb, sb.buffer
      ensures sb.Faithful() && (sb.buffer == old(sb.buffer) || fresh(sb.buffer))
      ensures sb.Input() == old(sb.Input()) && sb.put == old(sb.put) && sb.taken == old(sb.taken)
      ensures |sb.Output()| >= bytesToRead && (bytesToRead == 0 ==> sb.capacity == old(sb.capacity))
      ensures var v := Poll(sb.Input(), old(search).value, sb.maxSize, delim);
              && (v.Found? ==> search == Some(v.n) && bytesToRead == 0)
              && (v.Full? ==> search == None && bytesToRead == 0)
              && (v.More? ==> search == Some(v.search) && bytesToRead > 0)
              && (v.More? ==> bytesToRead == StreamBuffers.ReadSize(sb.Size(), old(sb.capacity), 65536, sb.maxSize))
    {
      var position, full := Look(sb);
      if full {
        search := Some(position + |delim|);
        bytesToRead := 0;
      } else if sb.Size() == sb.maxSize {
        search := None;
        bytesToRead := 0;
      } else {
        search := Some(position);
        bytesToRead := sb.ReadSizeHelper(65536);
      }
      var ok := sb.Prepare(bytesToRead);
      assert ok;
    }
  }
}
