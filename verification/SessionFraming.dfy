/** What a session extracts from the stream it receives, over all its runs. */
module SessionFraming {
  import opened Outcomes
  import Strings
  import opened ReadUntil
  import opened Framing
  import opened SessionRuns

  /** Lines as the lexer gets them. */
  function Padded(lines: seq<string>): (texts: seq<string>)
    ensures |texts| == |lines| && forall k :: 0 <= k < |lines| ==> texts[k] == lines[k] + Nuls()
    ensures forall k :: 0 <= k < |lines| ==> texts[k] == lines[k] + ['\0', '\0']
  {
    seq(|lines|, k requires 0 <= k < |lines| => lines[k] + Nuls())
  }

  lemma PaddedConcat(a: seq<string>, b: seq<string>)
    ensures Padded(a + b) == Padded(a) + Padded(b)
  {
  }

  /** The buffers handed on, in order. */
  function Texts(log: seq<Event>): (texts: seq<string>)
    ensures forall k :: 0 <= k < |texts| ==> Extracted(texts[k]) in log
  {
    if log == [] then []
    else
      var last := log[|log| - 1];
      Texts(log[..|log| - 1]) + if last.Extracted? then [last.text] else []
  }

  /** Those of them that are more than the terminator. */
  function NonEmpty(texts: seq<string>): seq<string> {
    if texts == [] then []
    else
      var last := texts[|texts| - 1];
      NonEmpty(texts[..|texts| - 1]) + if last != Nuls() then [last] else []
  }

  lemma SignalAdded(log: seq<Event>, e: Event)
    requires !e.Extracted?
    ensures Texts(log + [e]) == Texts(log)
  {
    assert (log + [e])[..|log|] == log;
  }

  lemma TextAdded(log: seq<Event>, text: string)
    ensures Texts(log + [Extracted(text)]) == Texts(log) + [text]
    ensures text == Nuls() ==> NonEmpty(Texts(log + [Extracted(text)])) == NonEmpty(Texts(log))
    ensures text != Nuls() ==> NonEmpty(Texts(log + [Extracted(text)])) == NonEmpty(Texts(log)) + [text]
  {
    assert (log + [Extracted(text)])[..|log|] == log;
    var texts := Texts(log);
    var more := texts + [text];
    assert more[..|more| - 1] == texts && more[|more| - 1] == text;
  }

  /** The session has handed on the complete lines before `s.input`, which ends as the stream does. */
  predicate Accounted(s: State, stream: string) {
    && Padded(Lines(stream)) == NonEmpty(Texts(s.log)) + Padded(Lines(s.input))
    && Tail(stream) == Tail(s.input)
  }

  lemma ArrivalAccounted(s: State, s': State, stream: string, data: string)
    requires Accounted(s, stream) && s'.input == s.input + data && s'.log == s.log
    ensures Accounted(s', stream + data)
  {
    LinesOfPieces(stream, data);
    LinesOfPieces(s.input, data);
    var more := Lines(Tail(stream) + data);
    PaddedConcat(Lines(stream), more);
    PaddedConcat(Lines(s.input), more);
    Strings.Associate(NonEmpty(Texts(s.log)), Padded(Lines(s.input)), Padded(more));
  }

  lemma ExtractionIs(input: string, n: nat)
    requires n <= |input|
    ensures Extraction(input, n) == input[..n] + Nuls()
    ensures Extraction(input, n) == Nuls() <==> n == 0
  {
  }

  /** Handing on the first line, or the terminator alone. */
  lemma ExtractionAccounted(s: State, s': State, stream: string, n: nat)
    requires Accounted(s, stream) && (n == 0 || n == FirstLine(s.input))
    requires s'.input == s.input[Strings.Min(n, |s.input|)..]
    requires s'.log == s.log + [Extracted(Extraction(s.input, n))]
    ensures Accounted(s', stream)
  {
    var text := Extraction(s.input, n);
    TextAdded(s.log, text);
    ExtractionIs(s.input, n);
    if n > 0 {
      var line, rest := s.input[..n], Lines(s'.input);
      PaddedConcat([line], rest);
      assert Padded([line]) == [text];
      Strings.Associate(NonEmpty(Texts(s.log)), [text], Padded(rest));
    }
  }

  lemma OnReadAccounted(s: State, error: Error, size: nat, world: World, maxSize: nat, stream: string)
    requires Accounted(s, stream)
    requires error == NoError ==> size == FirstLine(s.input)
    requires error != NoError ==> size == 0
    ensures Accounted(OnRead(s, error, size, world, maxSize), stream)
  {
    if error.Eof? || (error.Aborted? && !world.isOpen) {
      SignalAdded(s.log, Disconnected);
    } else if error == NoError || error.Aborted? {
      ExtractionAccounted(s, OnRead(s, error, size, world, maxSize), stream, size);
    }
  }

  function Data(c: Completion): string {
    if c.ReadDone? then c.data else ""
  }

  lemma StepAccounted(s: State, c: Completion, maxSize: nat, stream: string)
    requires Sound(s, maxSize) && Possible(s, c) && Accounted(s, stream)
    ensures Step(s, c, maxSize).Some? && Accounted(Step(s, c, maxSize).value, stream + Data(c))
  {
    StepSound(s, c, maxSize);
    if c.ReadDone? {
      ReadAccounted(s, c, maxSize, stream);
    } else {
      assert stream + "" == stream;
      SignalAdded(s.log, Connected);
    }
  }

  lemma ReadAccounted(s: State, c: Completion, maxSize: nat, stream: string)
    requires Sound(s, maxSize) && Possible(s, c) && c.ReadDone? && Accounted(s, stream)
    requires Step(s, c, maxSize).Some?
    ensures Accounted(Step(s, c, maxSize).value, stream + c.data)
  {
    var r := s.pending[c.which];
    assert ReadingSound(r, s.input, maxSize);
    var s' := s.(pending := s.pending[..c.which] + s.pending[c.which + 1..], input := s.input + c.data);
    ArrivalAccounted(s, s', stream, c.data);
    if c.error != NoError || c.data == "" {
      assert c.data == "" ==> s'.input == s.input;
      EndedAccounted(s', r.search, c.error, c.world, maxSize, stream + c.data);
    } else {
      BytesAccounted(s', s.input, c.data, r.search.value, c.world, maxSize, stream + c.data);
    }
  }

  lemma EndedAccounted(s: State, search: Option<nat>, error: Error, world: World, maxSize: nat, stream: string)
    requires Accounted(s, stream)
    requires error == NoError && search.Some? ==>
               search.value >= 2 && FirstAt(s.input, search.value - 2, CrLf())
    ensures Accounted(OnReadEnded(s, search, error, world, maxSize), stream)
  {
    OnReadAccounted(s, NotFound, 0, world, maxSize, stream);
    if error != NoError {
      OnReadAccounted(s, error, 0, world, maxSize, stream);
    } else if search.Some? {
      FirstLineIs(s.input, search.value - 2);
      OnReadAccounted(s, NoError, search.value, world, maxSize, stream);
    }
  }

  lemma BytesAccounted(s: State, before: string, data: string, search: nat, world: World, maxSize: nat, stream: string)
    requires Accounted(s, stream) && s.input == before + data
    requires search <= |before| && AllRuledOut(before, search, CrLf())
    ensures Accounted(OnBytes(s, search, world, maxSize), stream)
  {
    forall p: nat | p < search ensures RuledOut(s.input, p, CrLf()) {
      RuledOutForever(before, data, p, CrLf());
    }
    PollIsComplete(s.input, search, maxSize, CrLf(), "");
    var v := Poll(s.input, search, maxSize, CrLf());
    OnReadAccounted(s, NotFound, 0, world, maxSize, stream);
    if v.Found? {
      FirstLineIs(s.input, v.n - 2);
      OnReadAccounted(s, NoError, v.n, world, maxSize, stream);
    }
  }

  lemma {:induction false} RunAccounted(s: State, cs: seq<Completion>, maxSize: nat, stream: string)
    requires Sound(s, maxSize) && Feasible(s, cs, maxSize) && Accounted(s, stream)
    ensures Run(s, cs, maxSize).Some?
    ensures Accounted(Run(s, cs, maxSize).value, stream + Received(cs))
    decreases |cs|
  {
    if cs != [] {
      StepSound(s, cs[0], maxSize);
      StepAccounted(s, cs[0], maxSize, stream);
      RunAccounted(Step(s, cs[0], maxSize).value, cs[1..], maxSize, stream + Data(cs[0]));
      Strings.Associate(stream, Data(cs[0]), Received(cs[1..]));
    } else {
      assert stream + "" == stream;
    }
  }

  // ---------------------------------------------------------------- the main results

  /** The session waits for bytes. */
  predicate Waiting(s: State) {
    |s.pending| == 1 && s.pending[0].wanted > 0
  }

  /**
    In every run, with or without errors, what was handed on are the complete lines of what was received, each with
    its terminator, except for those still in the buffer. A session that waits for bytes has handed on all of them
    and keeps the unfinished tail.
   */
  lemma RunFramesLines(cs: seq<Completion>, maxSize: nat)
    requires Feasible(Initial(), cs, maxSize)
    ensures Run(Initial(), cs, maxSize).Some?
    ensures var s := Run(Initial(), cs, maxSize).value;
            && Padded(Lines(Received(cs))) == NonEmpty(Texts(s.log)) + Padded(Lines(s.input))
            && (Waiting(s) ==> NonEmpty(Texts(s.log)) == Padded(Lines(Received(cs))) && s.input == Tail(Received(cs)))
  {
    RunsAreOrdered(cs, maxSize);
    RunAccounted(Initial(), cs, maxSize, "");
    assert "" + Received(cs) == Received(cs);
    var s := Run(Initial(), cs, maxSize).value;
    if Waiting(s) {
      assert ReadingSound(s.pending[0], s.input, maxSize);
      NoFirstLine(s.input);
      assert NonEmpty(Texts(s.log)) + [] == NonEmpty(Texts(s.log));
    }
  }

  /** Framing does not depend on how the bytes were split into reads, nor on errors survived on the way. */
  lemma FramingIgnoresChunks(cs: seq<Completion>, ds: seq<Completion>, maxSize: nat)
    requires Feasible(Initial(), cs, maxSize) && Feasible(Initial(), ds, maxSize)
    requires Received(cs) == Received(ds)
    ensures Run(Initial(), cs, maxSize).Some? && Run(Initial(), ds, maxSize).Some?
    ensures var (s, t) := (Run(Initial(), cs, maxSize).value, Run(Initial(), ds, maxSize).value);
            Waiting(s) && Waiting(t) ==> NonEmpty(Texts(s.log)) == NonEmpty(Texts(t.log)) && s.input == t.input
  {
    RunFramesLines(cs, maxSize);
    RunFramesLines(ds, maxSize);
  }
}
