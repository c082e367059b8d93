/** `cq_irc_session` and its handlers, which do to it what the transition system says. */
module Sessions {
  import opened Outcomes
  import Strings
  import StreamBuffers
  import ReadUntil
  import Framing
  import opened SessionRuns
  import SessionFraming

  class Session {
    const input: StreamBuffers.StreamBuffer
    var resolves: nat
    var connects: nat
    var pending: seq<ReadUntil.ReadUntilOp>
    ghost var log: seq<Event>

    /** The session's place in the transition system. */
    ghost function Abs(): State
      requires input.Valid()
      reads this, input, input.buffer, pending
    {
      State(resolves, connects, Readings(), input.Input(), log)
    }

    function Readings(): seq<Reading>
      reads this, pending
    {
      if |pending| == 1 then [Reading(pending[0].search, pending[0].bytesToRead)] else []
    }

    /** The buffer is a queue, and a pending read has the room it asked for. */
    ghost predicate Ready()
      reads this, input, input.buffer, pending
    {
      && input.Faithful() && |pending| <= 1
      && (pending != [] ==> pending[0].delim == Framing.CrLf() && pending[0].bytesToRead <= |input.Output()|)
    }

    /** The session is in a sound state and has accounted for everything it has received. */
    ghost predicate Valid()
      reads this, input, input.buffer, pending
    {
      Ready() && Sound(Abs(), input.maxSize) && SessionFraming.Accounted(Abs(), input.put)
    }

    /** `cq_irc_session_connect` */
    constructor (maxSize: nat)
      ensures Valid() && Abs() == Initial() && input.maxSize == maxSize
      ensures fresh(input) && fresh(input.buffer)
    {
      input := new StreamBuffers.StreamBuffer(maxSize);
      resolves, connects, pending := 1, 0, [];
      log := [];
    }

    /** `on_resolve` */
    method OnResolve(ok: bool)
      requires Ready() && resolves > 0
      modifies this`resolves, this`connects
      ensures Ready() && Some(Abs()) == Step(old(Abs()), ResolveDone(ok), input.maxSize)
    {
      resolves := resolves - 1;
      if ok { connects := connects + 1; }
    }

    /** `on_connect` */
    method OnConnect(ok: bool)
      requires Ready() && connects > 0 && pending == []
      modifies this, input, input.buffer
      ensures Ready() && input.put == old(input.put)
      ensures Some(Abs()) == Step(old(Abs()), ConnectDone(ok, old(input.capacity)), input.maxSize)
    {
      connects := connects - 1;
      if ok {
        log := log + [Connected];
        AsyncReadUntil();
      }
    }

    /** `async_read_until` on the session's socket and buffer. */
    method AsyncReadUntil()
      requires Ready() && pending == []
      modifies this`pending, input, input.buffer
      ensures Ready() && (input.buffer == old(input.buffer) || fresh(input.buffer))
      ensures input.taken == old(input.taken) && input.put == old(input.put)
      ensures Abs() == Arm(old(Abs()), old(input.capacity), input.maxSize)
    {
      var op := new ReadUntil.ReadUntilOp(Framing.CrLf());
      op.Next(input);
      pending := [op];
      assert [] + Readings() == Readings();
    }

    /** The copy `on_read` takes of the first `size` bytes, in a fresh array two cells longer. */
    method Extract(size: nat) returns (text: string)
      requires input.Valid()
      ensures text == Extraction(input.Input(), size)
    {
      var buf := new char[size + 2](_ => '\0');
      var n := Strings.Min(size, input.Size());
      forall k | 0 <= k < n {
        buf[k] := input.buffer[input.gptr + k];
      }
      text := buf[..];
      ExtractionCopied(input.Input(), size, text);
    }

    /** `on_read` */
    method OnRead(error: Error, size: nat, isOpen: bool)
      requires Ready() && pending == []
      modifies this, input, input.buffer
      ensures Ready() && (input.buffer == old(input.buffer) || fresh(input.buffer))
      ensures Abs() == SessionRuns.OnRead(old(Abs()), error, size, World(isOpen, old(input.capacity)), input.maxSize)
      ensures input.put == old(input.put)
    {
      if error == Eof {
        log := log + [Disconnected];
        return;
      } else if error == Aborted {
        if !isOpen {
          log := log + [Disconnected];
          return;
        }
      } else if error != NoError {
        return;
      }
      HandOn(size);
      AsyncReadUntil();
    }

    /** The copy is taken and its bytes are removed from the buffer. */
    method HandOn(size: nat)
      requires Ready() && pending == []
      modifies this`log, input
      ensures Ready() && input.buffer == old(input.buffer)
      ensures input.capacity == old(input.capacity) && input.put == old(input.put)
      ensures var n := Strings.Min(size, old(input.Size()));
              Abs() == old(Abs()).(input := old(input.Input())[n..],
                                   log := old(log) + [Extracted(Extraction(old(input.Input()), size))])
    {
      var text := Extract(size);
      input.Consume(size);
      log := log + [Extracted(text)];
    }

    /** The read operation as a function object, called with what the socket reports. */
    method Complete(error: Error, data: string, isOpen: bool)
      requires Ready() && |pending| == 1
      requires Possible(Abs(), ReadDone(0, error, data, World(isOpen, input.capacity)))
      requires Step(Abs(), ReadDone(0, error, data, World(isOpen, input.capacity)), input.maxSize).Some?
      modifies this, input, input.buffer, pending
      ensures Ready() && input.put == old(input.put) + data
      ensures Some(Abs())
           == Step(old(Abs()), ReadDone(0, error, data, World(isOpen, old(input.capacity))), input.maxSize)
    {
      ghost var before := Abs();
      var op := pending[0];
      Receive(data);
      StepOfRead(before, error, data, World(isOpen, input.capacity), input.maxSize);
      assert Abs() == before.(pending := [], input := before.input + data);
      if error != NoError || data == "" {
        CallHandler(op.search, error, isOpen);
      } else {
        LookAgain(op, isOpen);
      }
    }

    /** The read operation is over: not_found takes precedence over what the socket reported. */
    method CallHandler(search: Option<nat>, error: Error, isOpen: bool)
      requires Ready() && pending == []
      modifies this, input, input.buffer
      ensures Ready() && input.put == old(input.put)
      ensures Abs() == OnReadEnded(old(Abs()), search, error, World(isOpen, old(input.capacity)), input.maxSize)
    {
      if search.None? {
        OnRead(NotFound, 0, isOpen);
      } else {
        OnRead(error, if error != NoError then 0 else search.value, isOpen);
      }
    }

    /** The bytes read join the content. */
    method Receive(data: string)
      requires Ready() && |pending| == 1 && |data| <= pending[0].bytesToRead
      modifies this`pending, input, input.buffer
      ensures Ready() && pending == [] && input.buffer == old(input.buffer)
      ensures input.Input() == old(input.Input()) + data && input.put == old(input.put) + data
      ensures input.capacity == old(input.capacity)
    {
      pending := [];
      input.WriteOutput(data);
      input.Commit(|data|);
    }

    /** The loop of the read operation goes on with the new content. */
    method LookAgain(op: ReadUntil.ReadUntilOp, isOpen: bool)
      requires Ready() && pending == [] && op.delim == Framing.CrLf() && op.search.Some? && op.search.value <= input.Size()
      modifies this, input, input.buffer, op
      ensures Ready()
      ensures Abs() == OnBytes(old(Abs()), old(op.search).value, World(isOpen, old(input.capacity)), input.maxSize)
      ensures input.put == old(input.put)
    {
      op.Next(input);
      if op.search.None? {
        OnRead(NotFound, 0, isOpen);
      } else if op.bytesToRead == 0 {
        OnRead(NoError, op.search.value, isOpen);
      } else {
        pending := [op];
        assert [] + Readings() == Readings();
      }
    }

    /**
      The event loop runs the handler of a completed operation: the session does the step of the transition system
      and stays in a sound state, with all it has received accounted for.
     */
    method Dispatch(c: Completion)
      requires Valid() && Possible(Abs(), c) && Finds(c, input.capacity)
      modifies this, input, input.buffer, pending
      ensures Valid() && Some(Abs()) == Step(old(Abs()), c, input.maxSize)
      ensures input.put == old(input.put) + SessionFraming.Data(c)
    {
      ghost var before, received := Abs(), input.put;
      StepSound(before, c, input.maxSize);
      Handle(c);
      SessionFraming.StepAccounted(before, c, input.maxSize, received);
    }

    method Handle(c: Completion)
      requires Ready() && Possible(Abs(), c) && Finds(c, input.capacity) && Step(Abs(), c, input.maxSize).Some?
      requires Ordered(Abs())
      modifies this, input, input.buffer, pending
      ensures Ready() && Some(Abs()) == Step(old(Abs()), c, input.maxSize)
      ensures input.put == old(input.put) + SessionFraming.Data(c)
    {
      match c
      case ResolveDone(ok) => OnResolve(ok);
      case ConnectDone(ok, _) => OnConnect(ok);
      case ReadDone(_, error, data, world) => Complete(error, data, world.isOpen);
    }
  }
}
