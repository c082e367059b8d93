/**
  `basic_streambuf`: a growable buffer with a get area and a put area in one array. Positions are offsets
  into the array where the original has pointers.
 */
module StreamBuffers {
  import opened Outcomes
  import opened Strings

  const BUFFER_DELTA: nat := 128

  /**
    What the content looks like after `reserve` has moved it to the front by `g` but thrown before updating the
    positions.
   */
  function Smeared(content: string, g: nat): (s: string)
    ensures |s| == |content|
  {
    if g >= |content| then content else content[g..] + content[|content| - g..]
  }

  /** That is the content itself exactly if it repeats itself at distance `g`. */
  lemma SmearedIntact(content: string, g: nat)
    ensures Smeared(content, g) == content
       <==> forall j :: 0 <= j < |content| - g ==> content[j] == content[j + g]
  {
    var s := Smeared(content, g);
    if g < |content| {
      forall j | 0 <= j < |content| ensures s[j] == if j < |content| - g then content[j + g] else content[j] {
      }
    }
  }

  lemma NothingSmeared(content: string)
    ensures Smeared(content, 0) == content
  {
  }

  lemma SmearedIs(content: string, g: nat, s: string)
    requires |s| == |content|
    requires forall j :: 0 <= j < |content| ==>
               (j + g < |content| ==> s[j] == content[j + g]) && (j + g >= |content| ==> s[j] == content[j])
    ensures s == Smeared(content, g)
  {
    var expected := Smeared(content, g);
    forall j | 0 <= j < |content| ensures s[j] == expected[j] {
      if j + g < |content| {
        assert s[j] == content[j + g] == content[g..][j];
      } else {
        assert s[j] == content[j];
        if g < |content| { assert expected[j] == content[|content| - g..][j - (|content| - g)]; }
      }
    }
  }

  /** Moving the characters from `g` up to `p` to the front. */
  lemma ShiftSmears(before: string, after: string, g: nat, p: nat)
    requires g <= p <= |before| == |after|
    requires forall k :: 0 <= k < p - g ==> after[k] == before[k + g]
    requires forall k :: p - g <= k < |before| ==> after[k] == before[k]
    ensures after[..p - g] == before[g..p]
    ensures after[g..p] == Smeared(before[g..p], g)
  {
    var content, s := before[g..p], after[g..p];
    forall j | 0 <= j < |content|
      ensures j + g < |content| ==> s[j] == content[j + g]
      ensures j + g >= |content| ==> s[j] == content[j]
    {
      assert s[j] == after[j + g] && content[j] == before[j + g];
      assert j + g < |content| ==> content[j + g] == before[j + g + g];
    }
    SmearedIs(content, g, s);
  }

  lemma SmearedExample()
    ensures Smeared("bcd", 1) == "cdd"
  {
  }

  /** What `read_size_helper` asks for, given the size of the content and the capacity of the vector. */
  function ReadSize(size: nat, capacity: nat, limit: nat, maxSize: nat): (n: nat)
    ensures n <= limit && (size <= maxSize ==> size + n <= maxSize)
    ensures n == 0 <==> limit == 0 || size >= maxSize
    ensures n < limit && size + n < maxSize ==> n >= 512 && size + n >= capacity
    ensures n <= 512 || size + n <= capacity
  {
    Min(if size + 512 <= capacity then capacity - size else 512,
        Min(limit, if size < maxSize then maxSize - size else 0))
  }

  class StreamBuffer {
    const maxSize: nat
    var buffer: array<char>
    /** The vector's capacity, which only `ReadSizeHelper` looks at. */
    var capacity: nat
    var eback: nat
    var gptr: nat
    var egptr: nat
    var pptr: nat
    var epptr: nat

    /** All characters ever moved into the input sequence, and all ever removed from it. */
    ghost var put: string
    ghost var taken: string

    ghost predicate Valid()
      reads this
    {
      && eback == 0 <= gptr <= egptr <= pptr <= epptr <= maxSize
      && buffer.Length == Max(epptr, 1) <= capacity
    }

    /** The buffer is a queue: what was put in is what was taken out and what is left. */
    ghost predicate Faithful()
      reads this, buffer
    {
      Valid() && put == taken + Input()
    }

    /** The input sequence, `data()`. */
    function Input(): (s: string)
      requires Valid()
      reads this, buffer
    {
      buffer[gptr..pptr]
    }

    /** The output sequence. */
    function Output(): (s: string)
      requires Valid()
      reads this, buffer
    {
      buffer[pptr..epptr]
    }

    function OutputSize(): (n: nat)
      requires Valid()
      reads this, buffer
      ensures n == |Output()|
    {
      epptr - pptr
    }

    /** `size()` */
    function Size(): (n: nat)
      requires Valid()
      reads this, buffer
      ensures n == |Input()| <= maxSize
    {
      pptr - gptr
    }

    constructor (maximumSize: nat)
      ensures Faithful() && fresh(buffer) && maxSize == maximumSize
      ensures Input() == put == taken == "" && OutputSize() == Min(maximumSize, 128)
    {
      maxSize := maximumSize;
      var pend := Min(maximumSize, BUFFER_DELTA);
      buffer := new char[Max(pend, 1)];
      capacity := Max(pend, 1);
      eback, gptr, egptr := 0, 0, 0;
      pptr, epptr := 0, pend;
      put, taken := "", "";
    }

    /** Makes room for `n` characters; `ok` is false if `length_error` is thrown. */
    method Reserve(n: nat) returns (ok: bool)
      requires Valid()
      modifies this, buffer
      ensures Valid() && (buffer == old(buffer) || fresh(buffer))
      ensures put == old(put) && taken == old(taken)
      ensures ok <==> old(Size()) + n <= maxSize
      ensures ok ==> Input() == old(Input()) && |Output()| >= n
      ensures n <= old(epptr - pptr) ==> capacity == old(capacity)
      ensures ok ==> epptr == if n <= old(epptr - pptr) then old(epptr) else Max(old(epptr), old(Size()) + n)
      ensures !ok ==> gptr == old(gptr) && Input() == Smeared(old(Input()), gptr)
    {
      if n <= epptr - pptr { return true; }
      var pnext := MoveToFront();
      ok := GrowTo(n, pnext);
    }

    /** The end of `reserve`, with the content already in front. */
    method GrowTo(n: nat, pnext: nat) returns (ok: bool)
      requires Valid() && pnext == Size()
      modifies this
      ensures Valid() && (buffer == old(buffer) || fresh(buffer))
      ensures put == old(put) && taken == old(taken)
      ensures ok <==> pnext + n <= maxSize
      ensures ok ==> Input() == old(buffer[..pnext]) && |Output()| >= n
      ensures ok ==> epptr == Max(old(epptr), pnext + n)
      ensures !ok ==> gptr == old(gptr) && Input() == old(Input())
    {
      ghost var content := buffer[..pnext];
      var pend := epptr;
      if n > pend - pnext {
        if n <= maxSize && pnext <= maxSize - n {
          pend := pnext + n;
          Resize(Max(pend, 1));
          assert buffer[..pnext] == content;
        } else {
          return false;
        }
      }
      eback, gptr, egptr := 0, 0, pnext;
      pptr, epptr := pnext, pend;
      return true;
    }

    /** The memmove of `reserve`, done before it is known whether the request can be met. */
    method MoveToFront() returns (pnext: nat)
      requires Valid()
      modifies buffer
      ensures pnext == Size() && buffer[..pnext] == old(Input())
      ensures Input() == Smeared(old(Input()), gptr)
    {
      ghost var before := buffer[..];
      var gnext := gptr;
      pnext := pptr;
      if gnext > 0 {
        pnext := pnext - gnext;
        MoveDown(gnext, pnext);
      }
      ShiftSmears(before, buffer[..], gnext, pptr);
    }

    /** `memmove` of `n` characters to the front. */
    method MoveDown(from: nat, n: nat)
      requires from + n <= buffer.Length
      modifies buffer
      ensures forall k :: 0 <= k < n ==> buffer[k] == old(buffer[k + from])
      ensures forall k :: n <= k < buffer.Length ==> buffer[k] == old(buffer[k])
    {
      forall k | 0 <= k < n {
        buffer[k] := buffer[k + from];
      }
    }

    /** `vector::resize` to a larger size; how far the capacity grows is the vector's choice. */
    method Resize(size: nat)
      requires buffer.Length <= size
      modifies this`buffer, this`capacity
      ensures fresh(buffer) && buffer.Length == size <= capacity
      ensures forall k :: 0 <= k < old(buffer.Length) ==> buffer[k] == old(buffer[k])
    {
      var bigger := new char[size];
      forall k | 0 <= k < size {
        bigger[k] := if k < buffer.Length then buffer[k] else '\0';
      }
      buffer := bigger;
      var grown: nat :| size <= grown;
      capacity := grown;
    }

    /** `prepare` */
    method Prepare(n: nat) returns (ok: bool)
      requires Valid()
      modifies this, buffer
      ensures Valid() && (buffer == old(buffer) || fresh(buffer))
      ensures put == old(put) && taken == old(taken)
      ensures ok <==> old(Size()) + n <= maxSize
      ensures ok ==> Input() == old(Input()) && |Output()| >= n
      ensures ok && old(Faithful()) ==> Faithful()
      ensures n <= old(epptr - pptr) ==> capacity == old(capacity)
      ensures ok ==> epptr == if n <= old(epptr - pptr) then old(epptr) else Max(old(epptr), old(Size()) + n)
      ensures !ok ==> gptr == old(gptr) && Input() == Smeared(old(Input()), gptr)
    {
      ok := Reserve(n);
    }

    /** A stream writing into the prepared area. */
    method WriteOutput(data: string)
      requires Valid() && |data| <= |Output()|
      modifies buffer
      ensures Valid() && Input() == old(Input()) && Output() == data + old(Output())[|data|..]
      ensures old(Faithful()) ==> Faithful()
    {
      ghost var before := buffer[..];
      forall k | pptr <= k < pptr + |data| {
        buffer[k] := data[k - pptr];
      }
      SlicesWritten(before, buffer[..], gptr, pptr, epptr, data);
    }

    static lemma SlicesWritten(before: string, after: string, g: nat, p: nat, e: nat, data: string)
      requires g <= p <= p + |data| <= e <= |before| == |after|
      requires forall k :: 0 <= k < |before| ==> after[k] == if p <= k < p + |data| then data[k - p] else before[k]
      ensures after[g..p] == before[g..p] && after[p..e] == data + before[p..e][|data|..]
    {
      assert after[p..p + |data|] == data && after[p + |data|..e] == before[p..e][|data|..];
      assert after[p..e] == after[p..p + |data|] + after[p + |data|..e];
    }

    /** `commit`: at most the whole output sequence moves to the input sequence. */
    method Commit(n: nat)
      requires Valid()
      modifies this`pptr, this`egptr, this`put
      ensures Valid() && pptr == old(pptr) + Min(n, old(OutputSize()))
      ensures Input() == old(Input()) + old(Output())[..Min(n, old(OutputSize()))]
      ensures put == old(put) + old(Output())[..Min(n, old(OutputSize()))]
      ensures old(Faithful()) ==> Faithful()
    {
      var m := n;
      if pptr + n > epptr { m := epptr - pptr; }
      MoveOver(m);
    }

    /** `pbump` followed by `setg`. */
    method MoveOver(m: nat)
      requires Valid() && pptr + m <= epptr
      modifies this`pptr, this`egptr, this`put
      ensures Valid() && pptr == old(pptr) + m
      ensures Input() == old(Input()) + old(Output())[..m] && put == old(put) + old(Output())[..m]
      ensures old(Faithful()) ==> Faithful()
    {
      ghost var content, moved := Input(), Output()[..m];
      Associate(taken, content, moved);
      SlicesJoin(buffer[..], gptr, pptr, m, epptr);
      put := put + moved;
      pptr := pptr + m;
      egptr := pptr;
    }

    static lemma SlicesJoin(cells: string, g: nat, p: nat, m: nat, e: nat)
      requires g <= p <= p + m <= e <= |cells|
      ensures cells[g..p + m] == cells[g..p] + cells[p..e][..m]
    {
    }

    /** `consume`: at most the whole input sequence is removed. */
    method Consume(n: nat)
      requires Valid()
      modifies this`eback, this`egptr, this`gptr, this`taken
      ensures Valid() && gptr == old(gptr) + Min(n, old(Size()))
      ensures Input() == old(Input())[Min(n, old(Size()))..]
      ensures taken == old(taken) + old(Input())[..Min(n, old(Size()))]
      ensures old(Faithful()) ==> Faithful()
    {
      var m := n;
      if egptr < pptr { eback, egptr := 0, pptr; }
      if gptr + n > pptr { m := pptr - gptr; }
      Remove(m);
    }

    method Remove(m: nat)
      requires Valid() && gptr + m <= egptr == pptr
      modifies this`gptr, this`taken
      ensures Valid() && gptr == old(gptr) + m && Input() == old(Input())[m..]
      ensures taken == old(taken) + old(Input())[..m]
      ensures old(Faithful()) ==> Faithful()
    {
      ghost var all := Input();
      Cut(taken, all, m);
      taken := taken + all[..m];
      Drop(m);
    }

    static lemma Cut(front: string, all: string, m: nat)
      requires m <= |all|
      ensures front + all == front + all[..m] + all[m..]
    {
      assert all == all[..m] + all[m..];
      Associate(front, all[..m], all[m..]);
    }

    /** `gbump` */
    method Drop(m: nat)
      requires Valid() && gptr + m <= egptr
      modifies this`gptr
      ensures Valid() && gptr == old(gptr) + m && Input() == old(Input())[m..]
    {
      gptr := gptr + m;
    }

    /** `underflow`: the next character, if there is one; nothing is removed. */
    method Underflow() returns (c: Option<char>)
      requires Valid()
      modifies this
      ensures Valid() && buffer == old(buffer) && Input() == old(Input())
      ensures pptr == old(pptr) && epptr == old(epptr)
      ensures put == old(put) && taken == old(taken)
      ensures c == if Input() == "" then None else Some(Input()[0])
      ensures c.Some? ==> egptr == pptr
      ensures old(Faithful()) ==> Faithful()
    {
      if gptr < pptr {
        eback, egptr := 0, pptr;
        return Some(buffer[gptr]);
      }
      return None;
    }

    /**
      `overflow`: appends one character, growing the buffer by its default step, or by what room is left.
      It fails exactly when the buffer is full, and then, unlike `prepare`, changes nothing.
     */
    method Overflow(c: Option<char>) returns (ok: bool)
      requires Valid()
      modifies this, buffer
      ensures Valid() && (buffer == old(buffer) || fresh(buffer))
      ensures ok <==> c.None? || old(Size()) < maxSize
      ensures Input() == old(Input()) + if c.Some? && ok then [c.value] else []
      ensures c.Some? && ok && old(pptr == epptr) ==>
                epptr == Max(old(epptr), old(Size()) + Min(128, maxSize - old(Size())))
      ensures c.Some? && old(pptr < epptr) ==> Behind(old(buffer[..]), old(pptr) + 1, old(epptr))
      ensures put == old(put) + (if c.Some? && ok then [c.value] else []) && taken == old(taken)
      ensures old(Faithful()) ==> Faithful()
    {
      if c.None? { return true; }
      ok := OverflowChar(c.value);
    }

    method OverflowChar(c: char) returns (ok: bool)
      requires Valid()
      modifies this, buffer
      ensures Valid() && (buffer == old(buffer) || fresh(buffer))
      ensures ok <==> old(Size()) < maxSize
      ensures ok ==> Input() == old(Input()) + [c] && put == old(put) + [c]
      ensures !ok ==> Input() == old(Input()) && put == old(put)
      ensures taken == old(taken)
      ensures ok && old(pptr == epptr) ==>
                epptr == Max(old(epptr), old(Size()) + Min(128, maxSize - old(Size())))
      ensures old(pptr < epptr) ==> Behind(old(buffer[..]), old(pptr) + 1, old(epptr))
      ensures old(Faithful()) ==> Faithful()
    {
      if pptr == epptr {
        ok := MakeRoom();
        if !ok { return; }
      }
      AppendOne(c);
      return true;
    }

    /** The output sequence is the part of the former cells between two positions. */
    predicate Behind(before: string, from: nat, to: nat)
      requires Valid()
      reads this, buffer
    {
      pptr == from && epptr == to && to <= |before| && Output() == before[from..to]
    }

    /** The choice of growth in `overflow`. */
    method MakeRoom() returns (ok: bool)
      requires Valid() && pptr == epptr
      modifies this, buffer
      ensures Valid() && (buffer == old(buffer) || fresh(buffer))
      ensures put == old(put) && taken == old(taken) && Input() == old(Input())
      ensures ok <==> old(Size()) < maxSize
      ensures ok ==> pptr < epptr
      ensures ok ==> epptr == Max(old(epptr), old(Size()) + Min(128, maxSize - old(Size())))
    {
      var size := pptr - gptr;
      if size < maxSize && maxSize - size < BUFFER_DELTA {
        ok := ReserveIntact(maxSize - size);
      } else {
        ok := ReserveIntact(BUFFER_DELTA);
      }
    }

    /** A request that is met, or refused with nothing to move, leaves the content as it is. */
    method ReserveIntact(n: nat) returns (ok: bool)
      requires Valid() && pptr == epptr && n > 0 && (Size() + n <= maxSize || gptr == 0)
      modifies this, buffer
      ensures Valid() && (buffer == old(buffer) || fresh(buffer))
      ensures put == old(put) && taken == old(taken) && Input() == old(Input())
      ensures ok <==> old(Size()) + n <= maxSize
      ensures ok ==> pptr < epptr == Max(old(epptr), old(Size()) + n)
    {
      NothingSmeared(Input());
      ok := Reserve(n);
      assert ok ==> OutputSize() >= n;
    }

    method AppendOne(c: char)
      requires Valid() && pptr < epptr
      modifies this`pptr, this`put, buffer
      ensures Valid() && Input() == old(Input()) + [c] && put == old(put) + [c]
      ensures Behind(old(buffer[..]), old(pptr) + 1, epptr)
      ensures old(Faithful()) ==> Faithful()
    {
      ghost var content := Input();
      Append(c);
      Associate(taken, content, [c]);
      put := put + [c];
    }

    method Append(c: char)
      requires Valid() && pptr < epptr
      modifies this`pptr, buffer
      ensures Valid() && Input() == old(Input()) + [c] && Behind(old(buffer[..]), old(pptr) + 1, epptr)
    {
      buffer[pptr] := c;
      pptr := pptr + 1;
    }

    /**
      `read_size_helper`: a read of this size can always be prepared, and is empty only if it must be. Unless a
      limit cuts it, it fills the memory there is and asks for at least 512 characters.
     */
    function ReadSizeHelper(limit: nat): (n: nat)
      requires Valid()
      reads this, buffer
      ensures Size() + n <= maxSize && n <= limit
      ensures n == 0 <==> limit == 0 || Size() == maxSize
      ensures n < limit && Size() + n < maxSize ==> n >= 512 && Size() + n >= capacity
      ensures n <= 512 || Size() + n <= capacity
      ensures n == ReadSize(Size(), capacity, limit, maxSize)
    {
      ReadSize(Size(), capacity, limit, maxSize)
    }
  }

  // ---------------------------------------------------------------- runs

  /** What a client and its streams do with a buffer. */
  datatype Op = Prepare(n: nat) | Write(data: string) | Commit(n: nat) | Take(n: nat) | Put(c: char) | Look

  /**
    A bounded queue, with the room that was prepared behind it and what has been written there from its start.
   */
  datatype Queue = Queue(content: string, room: nat, written: string)
  {
    /** Streams write inside what was prepared, and only what they wrote is committed. */
    predicate Allows(op: Op) {
      (op.Write? ==> |op.data| <= room) && (op.Commit? ==> op.n <= |written|)
    }

    /** None if the operation throws. */
    function Do(op: Op, maxSize: nat): Option<Queue>
      requires Allows(op)
    {
      match op
      case Prepare(n) => if |content| + n <= maxSize then Some(Queue(content, n, "")) else None
      case Write(data) =>
        Some(Queue(content, room, data + if |data| < |written| then written[|data|..] else ""))
      case Commit(n) =>
        Some(Queue(content + written[..n], if n < room then room - n else 0, written[n..]))
      case Take(n) => Some(Queue(content[Min(n, |content|)..], room, written))
      case Put(c) =>
        if |content| == maxSize then None
        else Some(Queue(content + [c], if room > 0 then room - 1 else 0, if written == "" then "" else written[1..]))
      case Look => Some(this)
    }

    /** The operations are allowed one after another, up to one that throws. */
    predicate AllowsAll(ops: seq<Op>, maxSize: nat)
      decreases |ops|
    {
      ops != [] ==>
        Allows(ops[0]) && (Do(ops[0], maxSize).Some? ==> Do(ops[0], maxSize).value.AllowsAll(ops[1..], maxSize))
    }

    function DoAll(ops: seq<Op>, maxSize: nat): Option<Queue>
      requires AllowsAll(ops, maxSize)
      decreases |ops|
    {
      if ops == [] then Some(this)
      else
        var next := Do(ops[0], maxSize);
        if next.None? then None else next.value.DoAll(ops[1..], maxSize)
    }
  }

  /** The output sequence begins with what was written and has the room that was prepared. */
  predicate Written(output: string, q: Queue) {
    |q.written| <= q.room <= |output| && output[..|q.written|] == q.written
  }

  /** The buffer holds the queue. */
  ghost predicate Holds(sb: StreamBuffer, q: Queue)
    reads sb, sb.buffer
  {
    sb.Faithful() && sb.Input() == q.content && Written(sb.Output(), q)
  }

  lemma WrittenMore(output: string, q: Queue, data: string, maxSize: nat)
    requires Written(output, q) && |data| <= q.room
    ensures Written(data + output[|data|..], q.Do(Write(data), maxSize).value)
  {
    var after := data + output[|data|..];
    if |data| < |q.written| {
      assert after[..|q.written|] == data + output[..|q.written|][|data|..];
    }
  }

  lemma WrittenLess(output: string, q: Queue, n: nat)
    requires Written(output, q) && n <= |q.written|
    ensures output[..n] == q.written[..n] && output[n..][..|q.written| - n] == q.written[n..]
  {
    assert output[..n] == output[..|q.written|][..n];
    assert output[n..][..|q.written| - n] == output[..|q.written|][n..];
  }

  /** Over every run, the buffer does what the bounded queue does, and throws when the queue is full. */
  method Run(sb: StreamBuffer, ghost q: Queue, ops: seq<Op>) returns (ok: bool)
    requires Holds(sb, q) && q.AllowsAll(ops, sb.maxSize)
    modifies sb, sb.buffer
    ensures ok <==> q.DoAll(ops, sb.maxSize).Some?
    ensures ok ==> Holds(sb, q.DoAll(ops, sb.maxSize).value)
  {
    ok := true;
    assert ops[0..] == ops;
    ghost var now := q;
    for i := 0 to |ops|
      invariant Holds(sb, now) && (sb.buffer == old(sb.buffer) || fresh(sb.buffer))
      invariant now.AllowsAll(ops[i..], sb.maxSize)
      invariant q.DoAll(ops, sb.maxSize) == now.DoAll(ops[i..], sb.maxSize)
    {
      assert ops[i..][0] == ops[i] && ops[i..][1..] == ops[i + 1..];
      ok := RunOne(sb, now, ops[i]);
      if !ok { return false; }
      now := now.Do(ops[i], sb.maxSize).value;
    }
    return true;
  }

  method RunOne(sb: StreamBuffer, ghost q: Queue, op: Op) returns (ok: bool)
    requires Holds(sb, q) && q.Allows(op)
    modifies sb, sb.buffer
    ensures sb.buffer == old(sb.buffer) || fresh(sb.buffer)
    ensures ok <==> q.Do(op, sb.maxSize).Some?
    ensures ok ==> Holds(sb, q.Do(op, sb.maxSize).value)
  {
    ok := true;
    match op
    case Prepare(n) =>
      ok := sb.Prepare(n);
    case Write(data) =>
      RunWrite(sb, q, data);
    case Commit(n) =>
      RunCommit(sb, q, n);
    case Take(n) =>
      RunTake(sb, q, n);
    case Put(c) =>
      ok := RunPut(sb, q, c);
    case Look =>
      var _ := sb.Underflow();
  }

  method RunWrite(sb: StreamBuffer, ghost q: Queue, data: string)
    requires Holds(sb, q) && |data| <= q.room
    modifies sb.buffer
    ensures Holds(sb, q.Do(Write(data), sb.maxSize).value)
  {
    WrittenMore(sb.Output(), q, data, sb.maxSize);
    sb.WriteOutput(data);
  }

  method RunTake(sb: StreamBuffer, ghost q: Queue, n: nat)
    requires Holds(sb, q)
    modifies sb
    ensures sb.buffer == old(sb.buffer) && Holds(sb, q.Do(Take(n), sb.maxSize).value)
  {
    sb.Consume(n);
  }

  method RunCommit(sb: StreamBuffer, ghost q: Queue, n: nat)
    requires Holds(sb, q) && n <= |q.written|
    modifies sb
    ensures sb.buffer == old(sb.buffer) && Holds(sb, q.Do(Commit(n), sb.maxSize).value)
  {
    ghost var output, at := sb.Output(), sb.pptr;
    WrittenLess(output, q, n);
    SliceBehind(sb.buffer[..], at, n, sb.epptr);
    assert n == Min(n, sb.OutputSize());
    sb.Commit(n);
    assert sb.Output() == output[n..];
  }

  lemma SliceBehind(cells: string, p: nat, m: nat, e: nat)
    requires p <= p + m <= e <= |cells|
    ensures cells[p + m..e] == cells[p..e][m..]
  {
  }

  method RunPut(sb: StreamBuffer, ghost q: Queue, c: char) returns (ok: bool)
    requires Holds(sb, q)
    modifies sb, sb.buffer
    ensures sb.buffer == old(sb.buffer) || fresh(sb.buffer)
    ensures ok <==> q.Do(Put(c), sb.maxSize).Some?
    ensures ok ==> Holds(sb, q.Do(Put(c), sb.maxSize).value)
  {
    ghost var output := sb.Output();
    if q.written != "" { WrittenLess(output, q, 1); }
    ghost var before, from, to := sb.buffer[..], sb.pptr, sb.epptr;
    assert from < to ==> before[from + 1..to] == output[1..];
    ok := sb.Overflow(Some(c));
  }

  /** A new buffer is an empty queue with nothing prepared. */
  lemma NewIsEmpty(sb: StreamBuffer)
    requires sb.Faithful() && sb.Input() == ""
    ensures Holds(sb, Queue("", 0, ""))
  {
  }

  /** A failed `prepare` can lose data: of "abcd" one character is consumed, and then "bcd" becomes "cdd". */
  method LoseData() returns (sb: StreamBuffer, ok: bool, ghost before: string)
    ensures fresh(sb) && sb.Valid() && before == "bcd"
    ensures !ok && sb.Input() == "cdd"
  {
    sb := BufferOf("abcd");
    sb.Consume(1);
    before := sb.Input();
    SmearedExample();
    ok := sb.Prepare(2);
  }

  /** A buffer that is full of a text. */
  method BufferOf(text: string) returns (sb: StreamBuffer)
    ensures fresh(sb) && fresh(sb.buffer) && sb.Faithful()
    ensures sb.maxSize == |text| && sb.Input() == text
  {
    sb := new StreamBuffer(|text|);
    ghost var q := Queue("", 0, "");
    var ok := RunOne(sb, q, Prepare(|text|));
    q := Queue("", |text|, "");
    ok := RunOne(sb, q, Write(text));
    assert text + "" == text;
    q := Queue("", |text|, text);
    ok := RunOne(sb, q, Commit(|text|));
    assert "" + text[..|text|] == text;
  }
}
