/** Streams are delivered to the end, and what can go wrong on the way: empty buffers and lines that are too long. */
module SessionProgress {
  import opened Outcomes
  import Strings
  import StreamBuffers
  import opened ReadUntil
  import opened Framing
  import opened SessionRuns
  import opened SessionFraming

  // ---------------------------------------------------------------- empty buffers

  /** A read aborted although the socket is open: `on_read` falls through to the extraction. */
  predicate FallsThrough(s: State, c: Completion) {
    c.ReadDone? && c.which < |s.pending| && c.error.Aborted? && c.world.isOpen && s.pending[c.which].search.Some?
  }

  predicate ExtractsNothing(s: State, next: State) {
    |next.log| > |s.log| && next.log[|s.log|] == Extracted(Nuls())
  }

  /** Exactly such a read hands an empty buffer to the lexer; reading goes on behind it. */
  lemma EmptyBuffers(s: State, c: Completion, maxSize: nat)
    requires Sound(s, maxSize) && Possible(s, c)
    ensures Step(s, c, maxSize).Some?
    ensures ExtractsNothing(s, Step(s, c, maxSize).value) <==> FallsThrough(s, c)
    ensures FallsThrough(s, c) ==> |Step(s, c, maxSize).value.pending| == 1
  {
    StepSound(s, c, maxSize);
    if c.ReadDone? {
      var r := s.pending[c.which];
      assert ReadingSound(r, s.input, maxSize);
      var input := s.input + c.data;
      ExtractionIs(input, 0);
      var s' := s.(pending := s.pending[..c.which] + s.pending[c.which + 1..], input := input);
      if r.search.Some? && c.error == NoError {
        if c.data == "" {
          assert input == s.input;
          ExtractionIs(input, r.search.value);
        } else {
          BytesExtract(s', s.input, c.data, r.search.value, c.world, maxSize);
        }
      }
    }
  }

  lemma BytesExtract(s: State, before: string, data: string, search: nat, world: World, maxSize: nat)
    requires s.input == before + data && search <= |before| && AllRuledOut(before, search, CrLf())
    ensures !ExtractsNothing(s, OnBytes(s, search, world, maxSize))
  {
    var v := Poll(s.input, search, maxSize, CrLf());
    if v.Found? {
      assert v.n >= |CrLf()| == 2;
      ExtractionIs(s.input, v.n);
    }
  }

  /** No step of the run falls through. */
  predicate Clean(cs: seq<Completion>) {
    forall k :: 0 <= k < |cs| ==> cs[k].ReadDone? ==> !(cs[k].error.Aborted? && cs[k].world.isOpen)
  }

  lemma LogGrowsByOne(s: State, c: Completion, maxSize: nat)
    requires Possible(s, c) && Step(s, c, maxSize).Some?
    ensures var log := Step(s, c, maxSize).value.log;
            log == s.log || (exists e :: log == s.log + [e])
  {
  }

  predicate AllNonEmpty(s: State) {
    NonEmpty(Texts(s.log)) == Texts(s.log)
  }

  lemma {:induction false} CleanRun(s: State, cs: seq<Completion>, maxSize: nat)
    requires Sound(s, maxSize) && Feasible(s, cs, maxSize) && Clean(cs) && AllNonEmpty(s)
    ensures Run(s, cs, maxSize).Some? && AllNonEmpty(Run(s, cs, maxSize).value)
    decreases |cs|
  {
    if cs != [] {
      EmptyBuffers(s, cs[0], maxSize);
      StepSound(s, cs[0], maxSize);
      var next := Step(s, cs[0], maxSize).value;
      LogGrowsByOne(s, cs[0], maxSize);
      if next.log != s.log {
        var e :| next.log == s.log + [e];
        assert !ExtractsNothing(s, next);
        if e.Extracted? { TextAdded(s.log, e.text); } else { SignalAdded(s.log, e); }
      }
      CleanRun(next, cs[1..], maxSize);
    }
  }

  /** A run without such reads hands on complete lines and nothing else. */
  lemma CleanRunsFrameLines(cs: seq<Completion>, maxSize: nat)
    requires Feasible(Initial(), cs, maxSize) && Clean(cs)
    ensures Run(Initial(), cs, maxSize).Some?
    ensures var s := Run(Initial(), cs, maxSize).value;
            Padded(Lines(Received(cs))) == Texts(s.log) + Padded(Lines(s.input))
  {
    RunFramesLines(cs, maxSize);
    CleanRun(Initial(), cs, maxSize);
  }

  // ---------------------------------------------------------------- long lines

  /**
    A line that does not fit the buffer ends the session without a signal: nothing is pending any more,
    and no disconnect is ever reported.
   */
  lemma LongLineStalls(s: State, data: string, world: World, maxSize: nat)
    requires Sound(s, maxSize) && Waiting(s) && Possible(s, ReadDone(0, NoError, data, world))
    ensures var next := Step(s, ReadDone(0, NoError, data, world), maxSize);
            && next.Some?
            && (next.value.pending == [] <==> |Tail(s.input + data)| == maxSize)
            && (next.value.pending == [] ==> next.value.log == s.log)
            && (next.value.pending != [] ==> |next.value.pending| == 1 && next.value.pending[0].search.Some?)
  {
    StepSound(s, ReadDone(0, NoError, data, world), maxSize);
    assert ReadingSound(s.pending[0], s.input, maxSize);
    var s' := s.(pending := [], input := s.input + data);
    assert s.pending[..0] + s.pending[1..] == [];
    BytesStall(s', s.input, data, s.pending[0].search.value, world, maxSize);
  }

  lemma BytesStall(s: State, before: string, data: string, search: nat, world: World, maxSize: nat)
    requires s.pending == [] && |s.input| <= maxSize
    requires s.input == before + data && search <= |before| && AllRuledOut(before, search, CrLf())
    ensures var next := OnBytes(s, search, world, maxSize);
            && (next.pending == [] <==> |Tail(s.input)| == maxSize)
            && (next.pending == [] ==> next.log == s.log)
            && (next.pending != [] ==> |next.pending| == 1 && next.pending[0].search.Some?)
  {
    forall p: nat | p < search ensures RuledOut(s.input, p, CrLf()) {
      RuledOutForever(before, data, p, CrLf());
    }
    PollIsComplete(s.input, search, maxSize, CrLf(), "");
    var v := Poll(s.input, search, maxSize, CrLf());
    if v.Found? {
      FirstLineIs(s.input, v.n - 2);
      assert Tail(s.input) == Tail(s.input[v.n..]);
    } else {
      NoFirstLine(s.input);
    }
  }

  // ---------------------------------------------------------------- signals and ends

  predicate Logs(s: State, next: State, e: Event) {
    |next.log| > |s.log| && next.log[|s.log|] == e
  }

  /** The completions after which a session does nothing any more. */
  predicate Ends(s: State, c: Completion, maxSize: nat)
    requires Possible(s, c)
  {
    match c
    case ResolveDone(ok) => !ok
    case ConnectDone(ok, _) => !ok
    case ReadDone(which, error, data, world) =>
      || s.pending[which].search.None?
      || error.Eof? || error.NotFound? || error.Other?
      || (error.Aborted? && !world.isOpen)
      || (error.NoError? && data != "" && |Tail(s.input + data)| == maxSize)
  }

  /** When a session signals, and only then. */
  lemma Signals(s: State, c: Completion, maxSize: nat)
    requires Sound(s, maxSize) && Possible(s, c)
    ensures Step(s, c, maxSize).Some?
    ensures Logs(s, Step(s, c, maxSize).value, Connected) <==> c.ConnectDone? && c.ok
    ensures Logs(s, Step(s, c, maxSize).value, Disconnected)
       <==> c.ReadDone? && s.pending[c.which].search.Some? && (c.error.Eof? || (c.error.Aborted? && !c.world.isOpen))
  {
    StepSound(s, c, maxSize);
    if c.ReadDone? { StepOfRead(s, c.error, c.data, c.world, maxSize); }
  }

  /** A session goes on, with exactly one operation pending, after every completion but these. */
  lemma GoesOn(s: State, c: Completion, maxSize: nat)
    requires Sound(s, maxSize) && Possible(s, c)
    ensures Step(s, c, maxSize).Some?
    ensures var next := Step(s, c, maxSize).value;
            next.resolves + next.connects + |next.pending| == if Ends(s, c, maxSize) then 0 else 1
  {
    StepSound(s, c, maxSize);
    if c.ReadDone? { ReadGoesOn(s, c.error, c.data, c.world, maxSize); }
  }

  lemma ReadGoesOn(s: State, error: Error, data: string, world: World, maxSize: nat)
    requires Sound(s, maxSize) && |s.pending| == 1
    requires Possible(s, ReadDone(0, error, data, world))
    ensures Step(s, ReadDone(0, error, data, world), maxSize).Some?
    ensures var next := Step(s, ReadDone(0, error, data, world), maxSize).value;
            |next.pending| == if Ends(s, ReadDone(0, error, data, world), maxSize) then 0 else 1
  {
    StepSound(s, ReadDone(0, error, data, world), maxSize);
    StepOfRead(s, error, data, world, maxSize);
    if error == NoError && data != "" {
      var r := s.pending[0];
      assert ReadingSound(r, s.input, maxSize);
      BytesStall(s.(pending := [], input := s.input + data), s.input, data, r.search.value, world, maxSize);
    }
  }

  /** The capacity a completion's handler finds. */
  function CapacityOf(c: Completion): nat
    requires !c.ResolveDone?
  {
    if c.ConnectDone? then c.capacity else c.world.capacity
  }

  /**
    A session that waits for bytes has asked for as many as the vector has cells left, but at least 512, at most
    65536, and no more than the buffer may still take.
   */
  lemma WaitsForThatMany(s: State, c: Completion, maxSize: nat)
    requires Sound(s, maxSize) && Possible(s, c) && !c.ResolveDone?
    ensures Step(s, c, maxSize).Some?
    ensures var next := Step(s, c, maxSize).value;
            Waiting(next) ==>
              var wanted, size := next.pending[0].wanted, |next.input|;
              && wanted <= 65536 && size + wanted <= maxSize
              && (wanted <= 512 || size + wanted <= CapacityOf(c))
              && (wanted < 65536 && size + wanted < maxSize ==> wanted >= 512 && size + wanted >= CapacityOf(c))
  {
    StepSound(s, c, maxSize);
    if c.ReadDone? { StepOfRead(s, c.error, c.data, c.world, maxSize); }
  }

  // ---------------------------------------------------------------- progress

  lemma OneStep(s: State, c: Completion, rest: seq<Completion>, maxSize: nat)
    requires Possible(s, c) && Step(s, c, maxSize).Some?
    ensures var next := Step(s, c, maxSize).value;
            && Feasible(s, [c] + rest, maxSize) == Feasible(next, rest, maxSize)
            && (Feasible(next, rest, maxSize) ==> Run(s, [c] + rest, maxSize) == Run(next, rest, maxSize))
    ensures Received([c] + rest) == Data(c) + Received(rest)
  {
    assert ([c] + rest)[1..] == rest;
  }

  lemma {:induction false} RunConcat(s: State, a: seq<Completion>, b: seq<Completion>, maxSize: nat)
    requires Feasible(s, a, maxSize) && Run(s, a, maxSize).Some?
    requires Feasible(Run(s, a, maxSize).value, b, maxSize)
    ensures Feasible(s, a + b, maxSize)
    ensures Run(s, a + b, maxSize) == Run(Run(s, a, maxSize).value, b, maxSize)
    ensures Received(a + b) == Received(a) + Received(b)
    decreases |a|
  {
    if a == [] {
      assert a + b == b;
    } else {
      var first, rest := a[0], a[1..];
      assert a == [first] + rest && a + b == [first] + (rest + b);
      OneStep(s, first, rest, maxSize);
      RunConcat(Step(s, first, maxSize).value, rest, b, maxSize);
      OneStep(s, first, rest + b, maxSize);
      Strings.Associate(Data(first), Received(rest), Received(b));
    }
  }

  /** The completion of a read that asked for nothing. */
  function Nothing(capacity: nat): Completion {
    ReadDone(0, NoError, "", World(true, capacity))
  }

  /** Reads that asked for nothing, all finding the same capacity. */
  predicate Idle(cs: seq<Completion>, capacity: nat) {
    forall k :: 0 <= k < |cs| ==> cs[k] == Nothing(capacity)
  }

  /** The session waits for as many bytes as `read_size_helper` says for its content. */
  predicate WaitsWith(s: State, capacity: nat, maxSize: nat) {
    Waiting(s) && s.pending[0].wanted == StreamBuffers.ReadSize(|s.input|, capacity, 65536, maxSize)
  }

  /** The operation that is pending was started with this capacity. */
  predicate ArmedWith(s: State, capacity: nat, maxSize: nat) {
    |s.pending| == 1 && s.pending[0].search.Some? && (Waiting(s) ==> WaitsWith(s, capacity, maxSize))
  }

  /** The lines in the buffer are handed on, one read after another, until the session waits for bytes. */
  lemma {:induction false} Drain(s: State, capacity: nat, maxSize: nat) returns (cs: seq<Completion>)
    requires Sound(s, maxSize) && ArmedWith(s, capacity, maxSize) && |s.input| <= capacity
    ensures Feasible(s, cs, maxSize) && Run(s, cs, maxSize).Some?
    ensures WaitsWith(Run(s, cs, maxSize).value, capacity, maxSize)
    ensures Idle(cs, capacity) && |cs| == |Lines(s.input)|
    decreases |s.input|
  {
    cs := [];
    assert ReadingSound(s.pending[0], s.input, maxSize);
    if Waiting(s) {
      NoFirstLine(s.input);
    } else {
      var c := Nothing(capacity);
      HandOn(s, capacity, maxSize);
      var rest := Drain(Step(s, c, maxSize).value, capacity, maxSize);
      cs := [c] + rest;
      OneStep(s, c, rest, maxSize);
    }
  }

  /** One buffered line is handed on. */
  lemma HandOn(s: State, capacity: nat, maxSize: nat)
    requires Sound(s, maxSize) && |s.pending| == 1 && s.pending[0].search.Some? && !Waiting(s) && |s.input| <= capacity
    ensures Possible(s, Nothing(capacity)) && Step(s, Nothing(capacity), maxSize).Some?
    ensures var next := Step(s, Nothing(capacity), maxSize).value;
            && Sound(next, maxSize) && ArmedWith(next, capacity, maxSize)
            && |next.input| < |s.input| && |Lines(s.input)| == 1 + |Lines(next.input)|
  {
    assert ReadingSound(s.pending[0], s.input, maxSize);
    var n := s.pending[0].search.value;
    FirstLineIs(s.input, n - 2);
    StepSound(s, Nothing(capacity), maxSize);
    StepOfRead(s, NoError, "", World(true, capacity), maxSize);
    assert s.input + "" == s.input;
    assert Step(s, Nothing(capacity), maxSize).value.input == s.input[n..];
  }

  /**
    Chunks of a stream can be read one after the other, the first behind `tail`: none is longer than what the read asks
    for, which depends on the capacity the vector has when the read is started, and no unfinished line ever fills
    the buffer. `capacities` are those before the first chunk, before the second, and so on, and behind the last.
   */
  predicate Fits(tail: string, chunks: seq<string>, capacities: seq<nat>, maxSize: nat)
    decreases |chunks|
  {
    && |capacities| == |chunks| + 1 && |tail| <= capacities[0]
    && (chunks != [] ==>
      && 0 < |chunks[0]| <= StreamBuffers.ReadSize(|tail|, capacities[0], 65536, maxSize)
      && |tail + chunks[0]| <= capacities[1]
      && |Tail(tail + chunks[0])| < maxSize
      && Fits(Tail(tail + chunks[0]), chunks[1..], capacities[1..], maxSize))
  }

  /** The reads that deliver bytes deliver exactly these chunks, one each, in order, while the capacities are these. */
  predicate Serves(cs: seq<Completion>, chunks: seq<string>, capacities: seq<nat>)
    requires |capacities| == |chunks| + 1
    decreases |cs|
  {
    if cs == [] then chunks == []
    else if Data(cs[0]) != "" then
      && chunks != [] && Data(cs[0]) == chunks[0] && Finds(cs[0], capacities[1])
      && Serves(cs[1..], chunks[1..], capacities[1..])
    else Finds(cs[0], capacities[0]) && Serves(cs[1..], chunks, capacities)
  }

  lemma {:induction false} ServedIsReceived(cs: seq<Completion>, chunks: seq<string>, capacities: seq<nat>)
    requires |capacities| == |chunks| + 1 && Serves(cs, chunks, capacities)
    ensures Received(cs) == Concat(chunks)
    decreases |cs|
  {
    if cs != [] {
      if Data(cs[0]) != "" {
        ServedIsReceived(cs[1..], chunks[1..], capacities[1..]);
      } else {
        ServedIsReceived(cs[1..], chunks, capacities);
        assert "" + Received(cs[1..]) == Received(cs[1..]);
      }
    }
  }

  /** Reads that ask for nothing serve nothing. */
  lemma {:induction false} IdleServes(idle: seq<Completion>, cs: seq<Completion>,
                                      chunks: seq<string>, capacities: seq<nat>)
    requires |capacities| == |chunks| + 1 && Idle(idle, capacities[0]) && Serves(cs, chunks, capacities)
    ensures Serves(idle + cs, chunks, capacities)
    decreases |idle|
  {
    if idle == [] {
      assert idle + cs == cs;
    } else {
      IdleServes(idle[1..], cs, chunks, capacities);
      ServesNothing(idle[0], idle[1..] + cs, chunks, capacities);
      assert idle + cs == [idle[0]] + (idle[1..] + cs);
    }
  }

  lemma ServesNothing(c: Completion, more: seq<Completion>, chunks: seq<string>, capacities: seq<nat>)
    requires |capacities| == |chunks| + 1 && c == Nothing(capacities[0]) && Serves(more, chunks, capacities)
    ensures Serves([c] + more, chunks, capacities)
  {
    assert ([c] + more)[1..] == more;
  }

  lemma {:induction false} IdleReceives(idle: seq<Completion>, capacity: nat)
    requires Idle(idle, capacity)
    ensures Received(idle) == "" && Clean(idle)
    decreases |idle|
  {
    if idle != [] {
      IdleReceives(idle[1..], capacity);
      assert idle[0] == Nothing(capacity);
    }
  }

  lemma WaitingTail(s: State, maxSize: nat, stream: string)
    requires Sound(s, maxSize) && Waiting(s) && Accounted(s, stream)
    ensures s.input == Tail(stream) == Tail(s.input)
  {
    assert ReadingSound(s.pending[0], s.input, maxSize);
    NoFirstLine(s.input);
  }

  /** The completion of a read that delivers a chunk. */
  function Delivered(chunk: string, capacity: nat): Completion {
    ReadDone(0, NoError, chunk, World(true, capacity))
  }

  lemma ChunkRead(s: State, chunk: string, capacity: nat, maxSize: nat)
    requires Sound(s, maxSize) && Waiting(s) && 0 < |chunk| <= s.pending[0].wanted
    requires |s.input + chunk| <= capacity && |Tail(s.input + chunk)| < maxSize
    ensures Possible(s, Delivered(chunk, capacity)) && Step(s, Delivered(chunk, capacity), maxSize).Some?
    ensures var next := Step(s, Delivered(chunk, capacity), maxSize).value;
            Sound(next, maxSize) && ArmedWith(next, capacity, maxSize) && |next.input| <= capacity
  {
    var world := World(true, capacity);
    StepSound(s, Delivered(chunk, capacity), maxSize);
    StepOfRead(s, NoError, chunk, world, maxSize);
    LongLineStalls(s, chunk, world, maxSize);
    BytesArm(s.(pending := [], input := s.input + chunk), s.pending[0].search.value, world, maxSize);
  }

  lemma BytesArm(s: State, search: nat, world: World, maxSize: nat)
    requires s.pending == [] && search <= |s.input|
    ensures var next := OnBytes(s, search, world, maxSize);
            && |next.input| <= |s.input|
            && (|next.pending| == 1 && Waiting(next) ==> WaitsWith(next, world.capacity, maxSize))
  {
  }

  /** One chunk is read and its lines are handed on. */
  lemma DeliverOne(s: State, chunk: string, capacity: nat, maxSize: nat, stream: string) returns (cs: seq<Completion>)
    requires Sound(s, maxSize) && Waiting(s) && Accounted(s, stream)
    requires 0 < |chunk| <= s.pending[0].wanted
    requires |s.input + chunk| <= capacity && |Tail(s.input + chunk)| < maxSize
    ensures Feasible(s, [Delivered(chunk, capacity)] + cs, maxSize)
    ensures Run(s, [Delivered(chunk, capacity)] + cs, maxSize).Some?
    ensures var t := Run(s, [Delivered(chunk, capacity)] + cs, maxSize).value;
            && Sound(t, maxSize) && WaitsWith(t, capacity, maxSize)
            && Accounted(t, stream + chunk) && t.input == Tail(s.input + chunk)
    ensures Idle(cs, capacity)
  {
    var c := Delivered(chunk, capacity);
    ChunkRead(s, chunk, capacity, maxSize);
    cs := Drain(Step(s, c, maxSize).value, capacity, maxSize);
    OneStep(s, c, cs, maxSize);
    IdleReceives(cs, capacity);
    assert chunk + "" == chunk;
    WaitingAgain(s, [c] + cs, maxSize, stream);
  }

  /** Between two waits the content goes from one unfinished tail to the next. */
  lemma WaitingAgain(s: State, cs: seq<Completion>, maxSize: nat, stream: string)
    requires Sound(s, maxSize) && Waiting(s) && Accounted(s, stream)
    requires Feasible(s, cs, maxSize) && Run(s, cs, maxSize).Some? && Waiting(Run(s, cs, maxSize).value)
    ensures var t := Run(s, cs, maxSize).value;
            && Sound(t, maxSize) && Accounted(t, stream + Received(cs))
            && t.input == Tail(s.input + Received(cs))
  {
    RunKeepsSound(s, cs, maxSize);
    RunAccounted(s, cs, maxSize, stream);
    WaitingTail(s, maxSize, stream);
    WaitingTail(Run(s, cs, maxSize).value, maxSize, stream + Received(cs));
    LinesOfPieces(stream, Received(cs));
  }

  lemma CleanConcat(a: seq<Completion>, b: seq<Completion>)
    ensures Clean(a) && Clean(b) ==> Clean(a + b)
  {
  }

  /** A chunk in front of others, with the reads that ask for nothing behind it. */
  lemma ChunkServes(idle: seq<Completion>, rest: seq<Completion>, chunks: seq<string>, capacities: seq<nat>)
    requires chunks != [] && chunks[0] != "" && |capacities| == |chunks| + 1
    requires Idle(idle, capacities[1]) && Serves(rest, chunks[1..], capacities[1..]) && Clean(rest)
    ensures var cs := [Delivered(chunks[0], capacities[1])] + idle + rest;
            Serves(cs, chunks, capacities) && Clean(cs)
  {
    var c := Delivered(chunks[0], capacities[1]);
    IdleServes(idle, rest, chunks[1..], capacities[1..]);
    IdleReceives(idle, capacities[1]);
    ServesNext(c, idle + rest, chunks, capacities);
    Strings.Associate([c], idle, rest);
    CleanConcat([c], idle);
    CleanConcat([c] + idle, rest);
  }

  lemma ServesNext(c: Completion, more: seq<Completion>, chunks: seq<string>, capacities: seq<nat>)
    requires chunks != [] && chunks[0] != "" && |capacities| == |chunks| + 1
    requires Data(c) == chunks[0] && Finds(c, capacities[1]) && Serves(more, chunks[1..], capacities[1..])
    ensures Serves([c] + more, chunks, capacities)
  {
    assert ([c] + more)[1..] == more;
  }

  lemma {:induction false} DeliverAll(s: State, chunks: seq<string>, capacities: seq<nat>, maxSize: nat, stream: string)
    returns (cs: seq<Completion>)
    requires Fits(s.input, chunks, capacities, maxSize)
    requires Sound(s, maxSize) && WaitsWith(s, capacities[0], maxSize) && Accounted(s, stream)
    ensures Feasible(s, cs, maxSize) && Run(s, cs, maxSize).Some? && Waiting(Run(s, cs, maxSize).value)
    ensures Serves(cs, chunks, capacities) && Clean(cs)
    decreases |chunks|
  {
    cs := [];
    if chunks != [] {
      var chunk, capacity := chunks[0], capacities[1];
      var c := Delivered(chunk, capacity);
      var idle := DeliverOne(s, chunk, capacity, maxSize, stream);
      var first := [c] + idle;
      var rest := DeliverAll(Run(s, first, maxSize).value, chunks[1..], capacities[1..], maxSize, stream + chunk);
      cs := first + rest;
      RunConcat(s, first, rest, maxSize);
      ChunkServes(idle, rest, chunks, capacities);
    }
  }

  /** The session behind the connect signal. */
  function Listening(capacity: nat, maxSize: nat): State {
    State(0, 0, [Reading(Some(0), StreamBuffers.ReadSize(0, capacity, 65536, maxSize))], "", [Connected])
  }

  lemma ListeningSound(capacity: nat, maxSize: nat)
    requires maxSize > 0
    ensures Sound(Listening(capacity, maxSize), maxSize) && Accounted(Listening(capacity, maxSize), "")
  {
    SignalAdded([], Connected);
    assert [] + [Connected] == Listening(capacity, maxSize).log;
  }

  /** The completions up to the first read. */
  function Opening(capacity: nat): seq<Completion> {
    [ResolveDone(true), ConnectDone(true, capacity)]
  }

  lemma OpeningListens(capacity: nat, maxSize: nat)
    requires maxSize > 0
    ensures Feasible(Initial(), Opening(capacity), maxSize)
    ensures Run(Initial(), Opening(capacity), maxSize) == Some(Listening(capacity, maxSize))
  {
    var s := State(0, 1, [], "", []);
    var connect := ConnectDone(true, capacity);
    assert Step(Initial(), ResolveDone(true), maxSize) == Some(s);
    assert Poll("", 0, maxSize, CrLf()) == More(0);
    assert s.log + [Connected] == [Connected];
    assert s.pending + Listening(capacity, maxSize).pending == Listening(capacity, maxSize).pending;
    assert Step(s, connect, maxSize) == Some(Listening(capacity, maxSize));
    assert [connect] + [] == [connect] && [ResolveDone(true)] + [connect] == Opening(capacity);
    OneStep(s, connect, [], maxSize);
    OneStep(Initial(), ResolveDone(true), [connect], maxSize);
  }

  lemma OpeningServes(rest: seq<Completion>, chunks: seq<string>, capacities: seq<nat>)
    requires |capacities| == |chunks| + 1 && Serves(rest, chunks, capacities)
    ensures Serves(Opening(capacities[0]) + rest, chunks, capacities)
  {
    var connect := [ConnectDone(true, capacities[0])];
    var cs := Opening(capacities[0]) + rest;
    assert cs[1..] == connect + rest && (connect + rest)[1..] == rest;
  }

  /**
    However a stream is cut into chunks that fit what the reads ask for, with whatever capacities the vector takes,
    the session can take in exactly these chunks, one read each, and has then handed on the complete lines of the
    stream, each with the terminator, in order, and nothing else.
   */
  lemma StreamsAreDelivered(chunks: seq<string>, capacities: seq<nat>, maxSize: nat) returns (cs: seq<Completion>)
    requires maxSize > 0 && Fits("", chunks, capacities, maxSize)
    ensures Feasible(Initial(), cs, maxSize) && Serves(cs, chunks, capacities) && Clean(cs)
    ensures Run(Initial(), cs, maxSize).Some?
    ensures var s := Run(Initial(), cs, maxSize).value;
            Waiting(s) && Texts(s.log) == Padded(Lines(Concat(chunks))) && s.input == Tail(Concat(chunks))
  {
    var capacity := capacities[0];
    ListeningSound(capacity, maxSize);
    var rest := DeliverAll(Listening(capacity, maxSize), chunks, capacities, maxSize, "");
    cs := Opening(capacity) + rest;
    Opened(rest, capacity, maxSize);
    OpeningServes(rest, chunks, capacities);
    CleanConcat(Opening(capacity), rest);
    ServedIsDelivered(cs, chunks, capacities, maxSize);
  }

  lemma Opened(rest: seq<Completion>, capacity: nat, maxSize: nat)
    requires maxSize > 0 && Feasible(Listening(capacity, maxSize), rest, maxSize)
    ensures Feasible(Initial(), Opening(capacity) + rest, maxSize)
    ensures Run(Initial(), Opening(capacity) + rest, maxSize) == Run(Listening(capacity, maxSize), rest, maxSize)
  {
    OpeningListens(capacity, maxSize);
    RunConcat(Initial(), Opening(capacity), rest, maxSize);
  }

  lemma ServedIsDelivered(cs: seq<Completion>, chunks: seq<string>, capacities: seq<nat>, maxSize: nat)
    requires |capacities| == |chunks| + 1 && Serves(cs, chunks, capacities)
    requires Feasible(Initial(), cs, maxSize) && Clean(cs)
    ensures Run(Initial(), cs, maxSize).Some?
    ensures var s := Run(Initial(), cs, maxSize).value;
            Waiting(s) ==> Texts(s.log) == Padded(Lines(Concat(chunks))) && s.input == Tail(Concat(chunks))
  {
    ServedIsReceived(cs, chunks, capacities);
    CleanRunDelivers(cs, maxSize);
  }

  /** A clean run that ends up waiting has handed on all lines and nothing else. */
  lemma CleanRunDelivers(cs: seq<Completion>, maxSize: nat)
    requires Feasible(Initial(), cs, maxSize) && Clean(cs)
    ensures Run(Initial(), cs, maxSize).Some?
    ensures var s := Run(Initial(), cs, maxSize).value;
            Waiting(s) ==> Texts(s.log) == Padded(Lines(Received(cs))) && s.input == Tail(Received(cs))
  {
    RunFramesLines(cs, maxSize);
    CleanRun(Initial(), cs, maxSize);
  }

  // ---------------------------------------------------------------- from one session to another

  predicate AreLines(messages: seq<string>) {
    forall k :: 0 <= k < |messages| ==> FirstLine(messages[k]) == 0
  }

  /**
    In every run in which a session receives the messages another one wrote, in whatever reads, and then waits for more,
    its lexer has got them as they were, one buffer each, if and only if none of them contains the line end. Empty
    buffers are left aside; without reads aborted on an open socket there are none.
   */
  lemma MessagesArrive(messages: seq<string>, cs: seq<Completion>, maxSize: nat)
    requires Feasible(Initial(), cs, maxSize) && Received(cs) == Wire(messages)
    ensures Run(Initial(), cs, maxSize).Some?
    ensures var s := Run(Initial(), cs, maxSize).value;
            && (Waiting(s) ==> (NonEmpty(Texts(s.log)) == Padded(Frames(messages)) <==> AreLines(messages)))
            && (Waiting(s) && Clean(cs) ==> (Texts(s.log) == Padded(Frames(messages)) <==> AreLines(messages)))
  {
    RunFramesLines(cs, maxSize);
    if Clean(cs) { CleanRun(Initial(), cs, maxSize); }
    WireReads(messages);
    forall k | 0 <= k < |messages| ensures NoMatch(messages[k], CrLf()) <==> FirstLine(messages[k]) == 0 {
      NoMatchMeans(messages[k]);
    }
    PaddedInjective(Lines(Wire(messages)), Frames(messages));
  }

  lemma PaddedInjective(a: seq<string>, b: seq<string>)
    ensures Padded(a) == Padded(b) <==> a == b
  {
    if Padded(a) == Padded(b) {
      forall k | 0 <= k < |a| ensures a[k] == b[k] {
        var text := Padded(a)[k];
        assert text == Padded(b)[k];
        assert text[..|text| - 2] == a[k] && text[..|text| - 2] == b[k];
      }
    }
  }
}
