/**
  The session as a transition system: what every completed operation does to it, and what that means for all
  runs. An operation is started by adding it to what is pending and completes with one `Completion`.
 */
module SessionRuns {
  import opened Outcomes
  import Strings
  import StreamBuffers
  import opened ReadUntil
  import opened Framing

  datatype Event = Connected | Disconnected | Extracted(text: string)

  datatype Error = NoError | Eof | Aborted | NotFound | Other

  /** A pending `async_read_until`: where its search stands, none for not_found, and how many bytes it asks for. */
  datatype Reading = Reading(search: Option<nat>, wanted: nat)

  datatype State = State(resolves: nat, connects: nat, pending: seq<Reading>, input: string, log: seq<Event>)

  datatype Completion =
    | ResolveDone(ok: bool)
    | ConnectDone(ok: bool, capacity: nat)
    | ReadDone(which: nat, error: Error, data: string, world: World)

  /** What a handler finds when it runs: what `is_open` says, and the capacity of the stream buffer's vector. */
  datatype World = World(isOpen: bool, capacity: nat)

  /** `cq_irc_session_connect` */
  function Initial(): State {
    State(1, 0, [], "", [])
  }

  /**
    What sockets may do: complete something pending, deliver no more than was asked for, and without an error
    something if something was. The vector holds the content.
   */
  predicate Possible(s: State, c: Completion) {
    match c
    case ResolveDone(_) => s.resolves > 0
    case ConnectDone(_, capacity) => s.connects > 0 && |s.input| <= capacity
    case ReadDone(which, error, data, world) =>
      && which < |s.pending| && |data| <= s.pending[which].wanted
      && (s.pending[which].wanted > 0 && error.NoError? ==> data != "")
      && |s.input| + |data| <= world.capacity
  }

  /** The capacity a completion's handler finds is this one, if it looks. */
  predicate Finds(c: Completion, capacity: nat) {
    (c.ConnectDone? ==> c.capacity == capacity) && (c.ReadDone? ==> c.world.capacity == capacity)
  }

  function ReadingOf(v: Verdict, size: nat, capacity: nat, maxSize: nat): Reading {
    match v
    case Found(n) => Reading(Some(n), 0)
    case Full => Reading(None, 0)
    case More(search) => Reading(Some(search), StreamBuffers.ReadSize(size, capacity, 65536, maxSize))
  }

  /** `async_read_until` */
  function Arm(s: State, capacity: nat, maxSize: nat): State {
    s.(pending := s.pending + [ReadingOf(Poll(s.input, 0, maxSize, CrLf()), |s.input|, capacity, maxSize)])
  }

  /** The terminator the lexer wants behind each buffer. */
  function Nuls(): string {
    ['\0', '\0']
  }

  /** The buffer `on_read` fills from the first `size` bytes of the content. */
  function Extraction(input: string, size: nat): (text: string)
    ensures |text| == size + 2
  {
    var n := Strings.Min(size, |input|);
    input[..n] + Strings.Repeat('\0', size + 2 - n)
  }

  lemma ExtractionCopied(input: string, size: nat, text: string)
    requires |text| == size + 2
    requires forall k :: 0 <= k < |text| ==> text[k] == if k < size && k < |input| then input[k] else '\0'
    ensures text == Extraction(input, size)
  {
  }

  /** `on_read` */
  function OnRead(s: State, error: Error, size: nat, world: World, maxSize: nat): State {
    if error.Eof? || (error.Aborted? && !world.isOpen) then s.(log := s.log + [Disconnected])
    else if error.NotFound? || error.Other? then s
    else
      Arm(s.(input := s.input[Strings.Min(size, |s.input|)..], log := s.log + [Extracted(Extraction(s.input, size))]),
          world.capacity, maxSize)
  }

  /**
    What a completion does. None stands for a search that starts outside the content, which would be undefined.
   */
  function Step(s: State, c: Completion, maxSize: nat): Option<State>
    requires Possible(s, c)
  {
    match c
    case ResolveDone(ok) =>
      Some(s.(resolves := s.resolves - 1, connects := s.connects + if ok then 1 else 0))
    case ConnectDone(ok, capacity) =>
      var s' := s.(connects := s.connects - 1);
      Some(if ok then Arm(s'.(log := s.log + [Connected]), capacity, maxSize) else s')
    case ReadDone(which, error, data, world) =>
      var search := s.pending[which].search;
      var s' := s.(pending := s.pending[..which] + s.pending[which + 1..], input := s.input + data);
      if error != NoError || data == "" then Some(OnReadEnded(s', search, error, world, maxSize))
      else if search.None? || search.value > |s'.input| then None
      else Some(OnBytes(s', search.value, world, maxSize))
  }

  /** The composed read is over without having looked at more bytes. */
  function OnReadEnded(s: State, search: Option<nat>, error: Error, world: World, maxSize: nat): State {
    if search.None? then OnRead(s, NotFound, 0, world, maxSize)
    else OnRead(s, error, if error != NoError then 0 else search.value, world, maxSize)
  }

  /** The composed read looks at what has arrived. */
  function OnBytes(s: State, search: nat, world: World, maxSize: nat): State
    requires search <= |s.input|
  {
    var v := Poll(s.input, search, maxSize, CrLf());
    if v.Found? then OnRead(s, NoError, v.n, world, maxSize)
    else if v.Full? then OnRead(s, NotFound, 0, world, maxSize)
    else s.(pending := s.pending + [ReadingOf(v, |s.input|, world.capacity, maxSize)])
  }

  /** The only pending read completes. */
  lemma StepOfRead(s: State, error: Error, data: string, world: World, maxSize: nat)
    requires |s.pending| == 1 && Possible(s, ReadDone(0, error, data, world))
    requires Step(s, ReadDone(0, error, data, world), maxSize).Some?
    ensures var next := Step(s, ReadDone(0, error, data, world), maxSize).value;
            var after, search := s.(pending := [], input := s.input + data), s.pending[0].search;
            && (error != NoError || data == "" ==> next == OnReadEnded(after, search, error, world, maxSize))
            && (error == NoError && data != "" ==>
                  search.Some? && search.value <= |after.input| && next == OnBytes(after, search.value, world, maxSize))
  {
    assert s.pending[..0] + s.pending[1..] == [];
  }

  // ---------------------------------------------------------------- runs

  /** The completions happen one after another; none if one leads to undefined behaviour. */
  predicate Feasible(s: State, cs: seq<Completion>, maxSize: nat)
    decreases |cs|
  {
    cs != [] ==>
      && Possible(s, cs[0])
      && var next := Step(s, cs[0], maxSize);
         next.Some? ==> Feasible(next.value, cs[1..], maxSize)
  }

  function Run(s: State, cs: seq<Completion>, maxSize: nat): Option<State>
    requires Feasible(s, cs, maxSize)
    decreases |cs|
  {
    if cs == [] then Some(s)
    else
      var next := Step(s, cs[0], maxSize);
      if next.None? then None else Run(next.value, cs[1..], maxSize)
  }

  function Received(cs: seq<Completion>): string {
    if cs == [] then ""
    else (if cs[0].ReadDone? then cs[0].data else "") + Received(cs[1..])
  }

  // ---------------------------------------------------------------- order

  predicate LogOrdered(log: seq<Event>) {
    forall k :: 0 <= k < |log| ==> (log[k].Connected? <==> k == 0) && (log[k].Disconnected? ==> k == |log| - 1)
  }

  /**
    At most one operation is pending; the connect signal comes first and once, the disconnect signal last and
    once; and there is no read pending before the one or after the other.
   */
  predicate Ordered(s: State) {
    && s.resolves + s.connects + |s.pending| <= 1
    && LogOrdered(s.log)
    && (s.resolves + s.connects > 0 ==> s.log == [])
    && (s.pending != [] ==> s.log != [] && !s.log[|s.log| - 1].Disconnected?)
  }

  /** What a pending read knows about the content. */
  ghost predicate ReadingSound(r: Reading, input: string, maxSize: nat) {
    if r.wanted > 0 then
      && r.search.Some? && r.search.value <= |input| && |input| + r.wanted <= maxSize
      && AllRuledOut(input, r.search.value, CrLf()) && NoMatch(input, CrLf())
    else if r.search.Some? then
      r.search.value >= 2 && FirstAt(input, r.search.value - 2, CrLf())
    else
      NoMatch(input, CrLf()) && |input| == maxSize
  }

  ghost predicate Sound(s: State, maxSize: nat) {
    && Ordered(s) && |s.input| <= maxSize
    && forall k :: 0 <= k < |s.pending| ==> ReadingSound(s.pending[k], s.input, maxSize)
  }

  lemma ReadingOfPoll(input: string, search: nat, capacity: nat, maxSize: nat)
    requires search <= |input| <= maxSize && AllRuledOut(input, search, CrLf())
    ensures ReadingSound(ReadingOf(Poll(input, search, maxSize, CrLf()), |input|, capacity, maxSize), input, maxSize)
  {
    PollIsComplete(input, search, maxSize, CrLf(), "");
    assert input + "" == input;
  }

  lemma OnReadSound(s: State, error: Error, size: nat, world: World, maxSize: nat)
    requires s.resolves == s.connects == 0 && s.pending == [] && |s.input| <= maxSize
    requires LogOrdered(s.log) && s.log != [] && !s.log[|s.log| - 1].Disconnected?
    ensures Sound(OnRead(s, error, size, world, maxSize), maxSize)
  {
    var rest := s.input[Strings.Min(size, |s.input|)..];
    ReadingOfPoll(rest, 0, world.capacity, maxSize);
  }

  /** Every step is defined and keeps the order and what pending reads know. */
  lemma StepSound(s: State, c: Completion, maxSize: nat)
    requires Sound(s, maxSize) && Possible(s, c)
    ensures Step(s, c, maxSize).Some? && Sound(Step(s, c, maxSize).value, maxSize)
  {
    if c.ConnectDone? {
      ReadingOfPoll(s.input, 0, c.capacity, maxSize);
    } else if c.ReadDone? {
      ReadSound(s, c.error, c.data, c.world, maxSize);
    }
  }

  lemma ReadSound(s: State, error: Error, data: string, world: World, maxSize: nat)
    requires Sound(s, maxSize) && |s.pending| == 1 && Possible(s, ReadDone(0, error, data, world))
    ensures Step(s, ReadDone(0, error, data, world), maxSize).Some?
    ensures Sound(Step(s, ReadDone(0, error, data, world), maxSize).value, maxSize)
  {
    var r := s.pending[0];
    assert ReadingSound(r, s.input, maxSize);
    assert s.pending[..0] + s.pending[1..] == [];
    var s' := s.(pending := [], input := s.input + data);
    if error != NoError || data == "" {
      EndedSound(s', r.search, error, world, maxSize);
    } else {
      BytesSound(s', s.input, data, r.search.value, world, maxSize);
    }
  }

  lemma EndedSound(s: State, search: Option<nat>, error: Error, world: World, maxSize: nat)
    requires s.resolves == s.connects == 0 && s.pending == [] && |s.input| <= maxSize
    requires LogOrdered(s.log) && s.log != [] && !s.log[|s.log| - 1].Disconnected?
    ensures Sound(OnReadEnded(s, search, error, world, maxSize), maxSize)
  {
    OnReadSound(s, NotFound, 0, world, maxSize);
    if search.Some? {
      OnReadSound(s, error, if error != NoError then 0 else search.value, world, maxSize);
    }
  }

  lemma BytesSound(s: State, before: string, data: string, search: nat, world: World, maxSize: nat)
    requires s.resolves == s.connects == 0 && s.pending == [] && s.input == before + data && |s.input| <= maxSize
    requires LogOrdered(s.log) && s.log != [] && !s.log[|s.log| - 1].Disconnected?
    requires search <= |before| && AllRuledOut(before, search, CrLf())
    ensures AllRuledOut(s.input, search, CrLf())
    ensures Sound(OnBytes(s, search, world, maxSize), maxSize)
  {
    forall p: nat | p < search ensures RuledOut(s.input, p, CrLf()) {
      RuledOutForever(before, data, p, CrLf());
    }
    ReadingOfPoll(s.input, search, world.capacity, maxSize);
    var v := Poll(s.input, search, maxSize, CrLf());
    if v.Found? {
      OnReadSound(s, NoError, v.n, world, maxSize);
    } else {
      OnReadSound(s, NotFound, 0, world, maxSize);
    }
  }

  /** In every reachable state, whatever the sockets do, the session is well ordered. */
  lemma RunsAreOrdered(cs: seq<Completion>, maxSize: nat)
    requires Feasible(Initial(), cs, maxSize)
    ensures Run(Initial(), cs, maxSize).Some?
    ensures Sound(Run(Initial(), cs, maxSize).value, maxSize)
  {
    RunKeepsSound(Initial(), cs, maxSize);
  }

  lemma {:induction false} RunKeepsSound(s: State, cs: seq<Completion>, maxSize: nat)
    requires Sound(s, maxSize) && Feasible(s, cs, maxSize)
    ensures Run(s, cs, maxSize).Some? && Sound(Run(s, cs, maxSize).value, maxSize)
    decreases |cs|
  {
    if cs != [] {
      StepSound(s, cs[0], maxSize);
      RunKeepsSound(Step(s, cs[0], maxSize).value, cs[1..], maxSize);
    }
  }

  /** Signals are never taken back, and after the disconnect signal nothing can happen any more. */
  lemma DisconnectIsFinal(s: State, c: Completion, maxSize: nat)
    requires Ordered(s)
    ensures Disconnected in s.log ==> !Possible(s, c)
    ensures Possible(s, c) && Step(s, c, maxSize).Some? ==> s.log <= Step(s, c, maxSize).value.log
  {
    if Disconnected in s.log {
      var k :| 0 <= k < |s.log| && s.log[k] == Disconnected;
      assert k == |s.log| - 1;
    }
  }
}
