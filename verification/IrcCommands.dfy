/** The outgoing side of a session: messages built with the formatter, framed and written. */
module IrcCommands {
  import opened Outcomes
  import Strings
  import ReadUntil
  import opened Framing
  import opened SessionRuns
  import opened SessionFraming
  import SessionProgress
  import OutputArray
  import Layout
  import opened Numerals
  import opened Templates
  import opened TemplateGrammar
  import TemplateLaws
  import Writers
  import FormatParsers

  /** The calls of the client interface; none stands for a null pointer. */
  datatype Command =
    | Pong(ping: Option<string>)
    | PrivMsg(channel: Option<string>, message: Option<string>)
    | Quit(message: Option<string>)

  /** The message a command stands for; none if one of its arguments is missing. */
  function MessageOf(command: Command): Option<string> {
    match command
    case Pong(ping) => if ping.None? then None else Some("PONG " + ping.value)
    case PrivMsg(channel, message) =>
      if channel.None? || message.None? then None
      else Some("PRIVMSG " + (channel.value + (" :" + message.value)))
    case Quit(message) => Some(if message.None? then "QUIT" else "QUIT :" + message.value)
  }

  // ---------------------------------------------------------------- the templates

  function Template(command: Command): string {
    match command
    case Pong(_) => "PONG {0}"
    case PrivMsg(_, _) => "PRIVMSG {0} :{1}"
    case Quit(message) => if message.Some? then "QUIT :{0}" else "QUIT"
  }

  function Arguments(command: Command): seq<ArgInfo> {
    match command
    case Pong(ping) => [StringArg(ping)]
    case PrivMsg(channel, message) => [StringArg(channel), StringArg(message)]
    case Quit(message) => if message.Some? then [StringArg(message)] else []
  }

  function NoSpec(): SpecText {
    SpecText(None, Layout.Default, None, false, false, None, None, None)
  }

  lemma {:induction false} EscapeNothing(s: string)
    requires forall k :: 0 <= k < |s| ==> s[k] != '{' && s[k] != '}'
    ensures Escape(s) == s
  {
    if s != "" { EscapeNothing(s[1..]); }
  }

  /** What printed items parse and render to. */
  predicate Gives(items: seq<Item>, next: int, args: seq<ArgInfo>, r: Rendered) {
    && Legal(items, next, args)
    && InBounds(Meaning(items, next, args), args)
    && RenderAll(Meaning(items, next, args), args) == r
  }

  /** Literal text in front of other items. */
  lemma TextFirst(s: string, rest: seq<Item>, next: int, args: seq<ArgInfo>, r: Rendered)
    requires forall k :: 0 <= k < |s| ==> s[k] != '{' && s[k] != '}'
    requires Gives(rest, next, args, r)
    ensures Print([Text(s)] + rest) == s + Print(rest)
    ensures Gives([Text(s)] + rest, next, args, Behind(s, r))
  {
    var items := [Text(s)] + rest;
    assert items[1..] == rest;
    EscapeNothing(s);
    TextBefore(s, Meaning(rest, next, args), args);
  }

  lemma {:induction false} TextBefore(s: string, rest: seq<Segment>, args: seq<ArgInfo>)
    requires InBounds(rest, args)
    ensures InBounds(TextMeaning(s) + rest, args)
    ensures RenderAll(TextMeaning(s) + rest, args) == Behind(s, RenderAll(rest, args))
  {
    var segments := TextMeaning(s) + rest;
    if s == "" {
      assert segments == rest;
    } else {
      TextBefore(s[1..], rest, args);
      assert segments[1..] == TextMeaning(s[1..]) + rest;
      assert s == [s[0]] + s[1..];
      Strings.Associate([s[0]], s[1..], RenderAll(rest, args).text);
    }
  }

  /** A string field without specification in front of other items. */
  lemma FieldFirst(k: nat, text: Option<string>, rest: seq<Item>, next: int, args: seq<ArgInfo>, r: Rendered)
    requires next <= 0 && k < 10 && k < |args| && args[k] == StringArg(text)
    requires Gives(rest, -1, args, r)
    ensures Print([FieldText(Some(k), NoSpec())] + rest) == "{" + ([DigitChar(k, false)] + ("}" + Print(rest)))
    ensures Gives([FieldText(Some(k), NoSpec())] + rest, next, args,
                  if text.None? then Rendered("", Some(NullString)) else Behind(text.value, r))
  {
    var items := [FieldText(Some(k), NoSpec())] + rest;
    assert items[1..] == rest;
    FieldPrints(k, Print(rest));
    FieldMeans(k, text, next, args);
    var (field, next', _) := FieldMeaning(Some(k), NoSpec(), next, args, "");
    var segments := Meaning(items, next, args);
    assert segments == [Hole(field)] + Meaning(rest, -1, args);
    assert segments[1..] == Meaning(rest, -1, args);
  }

  lemma FieldPrints(k: nat, rest: string)
    requires k < 10
    ensures PrintField(Some(k), NoSpec(), rest) == "{" + ([DigitChar(k, false)] + ("}" + rest))
  {
    assert PrintSpec(NoSpec(), "") == "";
    assert Numeral(k, 10, false) == [DigitChar(k, false)];
  }

  lemma FieldMeans(k: nat, text: Option<string>, next: int, args: seq<ArgInfo>)
    requires next <= 0 && k < 10 && k < |args| && args[k] == StringArg(text)
    ensures LegalField(Some(k), NoSpec(), next, args)
    ensures FieldMeaning(Some(k), NoSpec(), next, args, "") == (Field(Manual(k), Layout.PLAIN, -1, None), -1, "")
    ensures RenderField(Field(Manual(k), Layout.PLAIN, -1, None), args[k])
         == if text.None? then Err(NullString) else Ok(text.value)
  {
    if text.Some? { assert Layout.TextLayout(Layout.PLAIN, text.value) == text.value; }
  }

  lemma NothingLeft(next: int, args: seq<ArgInfo>)
    ensures Gives([], next, args, Rendered("", None))
  {
  }

  /** The client's templates build the messages of the protocol, and fail exactly on a null pointer. */
  lemma TemplateBuilds(command: Command)
    ensures var built := Outcome(Template(command), Arguments(command));
            && (MessageOf(command).Some? ==> built == Rendered(MessageOf(command).value, None))
            && (MessageOf(command).None? ==> built.error == Some(NullString))
  {
    match command
    case Pong(ping) =>
      OneHole("PONG ", ping);
      assert "PONG " + "{0}" == Template(command);
    case PrivMsg(channel, message) =>
      TwoHoles("PRIVMSG ", channel, " :", message);
      assert "PRIVMSG " + ("{0}" + (" :" + "{1}")) == Template(command);
    case Quit(message) =>
      if message.Some? {
        OneHole("QUIT :", message);
        assert "QUIT :" + "{0}" == Template(command);
      } else {
        EscapeNothing("QUIT");
        TemplateLaws.EscapedPrintsItself("QUIT", []);
      }
  }

  lemma OneHole(s: string, text: Option<string>)
    requires forall k :: 0 <= k < |s| ==> s[k] != '{' && s[k] != '}'
    ensures Outcome(s + "{0}", [StringArg(text)])
         == if text.None? then Rendered(s, Some(NullString)) else Rendered(s + text.value, None)
  {
    var args := [StringArg(text)];
    var field := [FieldText(Some(0), NoSpec())];
    LastHole(0, text, 0, args);
    HoleText(0, "");
    TextFirst(s, field, 0, args, if text.None? then Rendered("", Some(NullString)) else Rendered(text.value, None));
    TemplateLaws.PrintedOutcome([Text(s)] + field, args);
  }

  lemma TwoHoles(s: string, first: Option<string>, t: string, second: Option<string>)
    requires forall k :: 0 <= k < |s| ==> s[k] != '{' && s[k] != '}'
    requires forall k :: 0 <= k < |t| ==> t[k] != '{' && t[k] != '}'
    ensures var built := Outcome(s + ("{0}" + (t + "{1}")), [StringArg(first), StringArg(second)]);
            if first.Some? && second.Some? then built == Rendered(s + (first.value + (t + second.value)), None)
            else built.error == Some(NullString)
  {
    var args := [StringArg(first), StringArg(second)];
    var field := [FieldText(Some(1), NoSpec())];
    var r := if second.None? then Rendered("", Some(NullString)) else Rendered(second.value, None);
    LastHole(1, second, -1, args);
    HoleText(1, "");
    TextFirst(t, field, -1, args, r);
    var behind := [Text(t)] + field;
    FieldFirst(0, first, behind, 0, args, Behind(t, r));
    var hole := [FieldText(Some(0), NoSpec())] + behind;
    HoleText(0, t + "{1}");
    TextFirst(s, hole, 0, args,
              if first.None? then Rendered("", Some(NullString)) else Behind(first.value, Behind(t, r)));
    TemplateLaws.PrintedOutcome([Text(s)] + hole, args);
  }

  /** A field at the end of a template. */
  lemma LastHole(k: nat, text: Option<string>, next: int, args: seq<ArgInfo>)
    requires next <= 0 && k < 10 && k < |args| && args[k] == StringArg(text)
    ensures var items := [FieldText(Some(k), NoSpec())];
            && Print(items) == "{" + ([DigitChar(k, false)] + "}")
            && Gives(items, next, args,
                     if text.None? then Rendered("", Some(NullString)) else Rendered(text.value, None))
  {
    NothingLeft(-1, args);
    FieldFirst(k, text, [], next, args, Rendered("", None));
    var field := [FieldText(Some(k), NoSpec())];
    assert field + [] == field && "}" + "" == "}";
    assert text.Some? ==> Behind(text.value, Rendered("", None)) == Rendered(text.value, None);
  }

  lemma HoleText(k: nat, rest: string)
    requires k < 2
    ensures "{" + ([DigitChar(k, false)] + ("}" + rest)) == (if k == 0 then "{0}" else "{1}") + rest
    ensures "{" + ([DigitChar(k, false)] + "}") == if k == 0 then "{0}" else "{1}"
  {
  }

  lemma TemplateIsShort(command: Command)
    ensures |Template(command)| <= 16
    ensures forall k :: 0 <= k < |Template(command)| ==> Template(command)[k] != '\0'
  {
  }

  lemma HasNoNul(s: string)
    requires forall k :: 0 <= k < |s| ==> s[k] != '\0'
    ensures CString(s) == s
  {
  }

  // ---------------------------------------------------------------- what a peer sees

  predicate CleanText(text: Option<string>) {
    text.Some? ==> FirstLine(text.value) == 0
  }

  /** No argument contains a line end. */
  predicate CleanArguments(command: Command) {
    match command
    case Pong(ping) => CleanText(ping)
    case PrivMsg(channel, message) => CleanText(channel) && CleanText(message)
    case Quit(message) => CleanText(message)
  }

  /** A line end does not lie across a seam between texts that do not touch as its two halves. */
  lemma NoLineEndAcross(a: string, b: string)
    requires a != "" && b != "" && b[0] != '\n'
    ensures FirstLine(a + b) == 0 <==> FirstLine(a) == 0 && FirstLine(b) == 0
    decreases |a|
  {
    if |a| == 1 {
      assert (a + b)[1..] == b;
    } else {
      assert (a + b)[1..] == a[1..] + b;
      NoLineEndAcross(a[1..], b);
    }
  }

  /** In front of text that may be empty or begin with anything, if no carriage return is at the seam. */
  lemma NoLineEndBehind(a: string, b: string)
    requires a != "" && a[|a| - 1] != '\r'
    ensures FirstLine(a + b) == 0 <==> FirstLine(a) == 0 && FirstLine(b) == 0
    decreases |a|
  {
    if |a| == 1 {
      assert (a + b)[1..] == b;
    } else {
      assert (a + b)[1..] == a[1..] + b;
      NoLineEndBehind(a[1..], b);
    }
  }

  lemma NoLineEnd(s: string)
    requires forall k :: 0 <= k < |s| ==> s[k] != '\r'
    ensures FirstLine(s) == 0
  {
  }

  lemma Prefixed(literal: string, text: string)
    requires literal != "" && forall k :: 0 <= k < |literal| ==> literal[k] != '\r'
    ensures FirstLine(literal + text) == 0 <==> FirstLine(text) == 0
    ensures ReadUntil.NoMatch(literal + text, CrLf()) <==> FirstLine(text) == 0
  {
    NoMatchMeans(literal + text);
    NoLineEnd(literal);
    NoLineEndBehind(literal, text);
  }

  lemma ChannelAndText(channel: string, text: string)
    ensures FirstLine(channel + (" :" + text)) == 0 <==> FirstLine(channel) == 0 && FirstLine(text) == 0
  {
    Prefixed(" :", text);
    var rest := " :" + text;
    if channel == "" {
      assert channel + rest == rest;
    } else {
      NoLineEndAcross(channel, rest);
    }
  }

  /** A command is a single line exactly if none of its arguments contains a line end. */
  lemma CommandIsLine(command: Command)
    requires MessageOf(command).Some?
    ensures ReadUntil.NoMatch(MessageOf(command).value, CrLf()) <==> CleanArguments(command)
  {
    match command
    case Pong(ping) =>
      Prefixed("PONG ", ping.value);
    case PrivMsg(channel, text) =>
      ChannelAndText(channel.value, text.value);
      Prefixed("PRIVMSG ", channel.value + (" :" + text.value));
    case Quit(text) =>
      Prefixed("QUIT", "");
      assert "QUIT" + "" == "QUIT";
      if text.Some? { Prefixed("QUIT :", text.value); }
  }

  function MessagesOf(commands: seq<Command>): (messages: seq<string>)
    requires forall k :: 0 <= k < |commands| ==> MessageOf(commands[k]).Some?
    ensures |messages| == |commands| && forall k :: 0 <= k < |commands| ==> messages[k] == MessageOf(commands[k]).value
  {
    seq(|commands|, k requires 0 <= k < |commands| => MessageOf(commands[k]).value)
  }

  /**
    In every run in which a peer receives commands sent one after the other, in whatever reads, and then waits for
    more, its lexer has got one buffer for each, if and only if none of their arguments contains a line end. Empty
    buffers are left aside; without reads aborted on an open socket there are none.
   */
  lemma CommandsArrive(commands: seq<Command>, cs: seq<Completion>, maxSize: nat)
    requires forall k :: 0 <= k < |commands| ==> MessageOf(commands[k]).Some?
    requires Feasible(Initial(), cs, maxSize) && Received(cs) == Wire(MessagesOf(commands))
    ensures Run(Initial(), cs, maxSize).Some?
    ensures var s, frames := Run(Initial(), cs, maxSize).value, Padded(Frames(MessagesOf(commands)));
            && (Waiting(s) ==> (NonEmpty(Texts(s.log)) == frames <==> AllClean(commands)))
            && (Waiting(s) && SessionProgress.Clean(cs) ==> (Texts(s.log) == frames <==> AllClean(commands)))
  {
    var messages := MessagesOf(commands);
    SessionProgress.MessagesArrive(messages, cs, maxSize);
    forall k | 0 <= k < |commands| ensures FirstLine(messages[k]) == 0 <==> CleanArguments(commands[k]) {
      CommandIsLine(commands[k]);
      NoMatchMeans(messages[k]);
    }
    CleanMeansLines(commands);
  }

  predicate AllClean(commands: seq<Command>) {
    forall k :: 0 <= k < |commands| ==> CleanArguments(commands[k])
  }

  lemma CleanMeansLines(commands: seq<Command>)
    requires forall k :: 0 <= k < |commands| ==> MessageOf(commands[k]).Some?
    requires forall k :: 0 <= k < |commands| ==>
               (FirstLine(MessagesOf(commands)[k]) == 0 <==> CleanArguments(commands[k]))
    ensures SessionProgress.AreLines(MessagesOf(commands)) <==> AllClean(commands)
  {
    var messages := MessagesOf(commands);
    if SessionProgress.AreLines(messages) {
      forall k | 0 <= k < |commands| ensures CleanArguments(commands[k]) {
        assert FirstLine(messages[k]) == 0;
      }
    }
  }

  // ---------------------------------------------------------------- sending

  lemma {:induction false} WireGrows(messages: seq<string>, message: string)
    ensures Wire(messages + [message]) == Wire(messages) + Frame(message)
    decreases |messages|
  {
    var frames := Frames(messages);
    assert Frames(messages + [message]) == frames + [Frame(message)];
    ConcatGrows(frames, Frame(message));
  }

  lemma {:induction false} ConcatGrows(texts: seq<string>, text: string)
    ensures Concat(texts + [text]) == Concat(texts) + text
    decreases |texts|
  {
    if texts == [] {
      assert [] + [text] == [text];
      assert Concat([text]) == text + "" == text;
    } else {
      assert (texts + [text])[1..] == texts[1..] + [text];
      ConcatGrows(texts[1..], text);
      Strings.Associate(texts[0], Concat(texts[1..]), text);
    }
  }

  /** The outgoing side of a session, with writes that complete one after the other. */
  class Outgoing {
    /** What the socket has been given. */
    var written: string
    ghost var messages: seq<string>

    ghost predicate Valid()
      reads this
    {
      written == Wire(messages) && "" !in messages
    }

    constructor ()
      ensures Valid() && written == "" && messages == []
    {
      written, messages := "", [];
    }

    /** `cq_irc_session_write` and `cq_irc_session_write_sync`: a null or empty message sends nothing. */
    method Write(msg: Option<string>)
      requires Valid()
      modifies this
      ensures Valid()
      ensures messages == old(messages) + if msg.Some? && msg.value != "" then [msg.value] else []
      ensures written == old(written) + if msg.Some? && msg.value != "" then Frame(msg.value) else ""
    {
      if msg.None? || |msg.value| == 0 { return; }
      var size := |msg.value|;
      var buffer := new char[size + 2];
      forall k | 0 <= k < size {
        buffer[k] := msg.value[k];
      }
      buffer[size], buffer[size + 1] := '\r', '\n';
      assert buffer[..] == Frame(msg.value);
      WireGrows(messages, msg.value);
      written := written + buffer[..];
      messages := messages + [msg.value];
    }

    /** Formats a message and writes it; a formatting error is thrown before anything is sent. */
    method Send(command: Command) returns (error: Option<FormatError>)
      requires Valid()
      modifies this
      ensures Valid() && error == if MessageOf(command).None? then Some(NullString) else None
      ensures messages == old(messages) + if error.None? then [MessageOf(command).value] else []
    {
      var out := new Writers.Writer();
      var parser := new FormatParsers.FormatParser(Arguments(command));
      var inBounds;
      error, inBounds := parser.Format(out, Template(command));
      TemplateIsShort(command);
      HasNoNul(Template(command));
      FormatParsers.SmallTemplatesFit(Template(command), 0, 0, Arguments(command),
                                      OutputArray.Room(0, Writers.INLINE_BUFFER_SIZE));
      TemplateBuilds(command);
      assert "" + Outcome(Template(command), Arguments(command)).text
          == Outcome(Template(command), Arguments(command)).text;
      if error.None? {
        Write(Some(out.Contents()));
      }
    }

    method Pong(ping: Option<string>) returns (error: Option<FormatError>)
      requires Valid()
      modifies this
      ensures Valid() && (error == None <==> ping.Some?)
      ensures messages == old(messages) + if ping.Some? then ["PONG " + ping.value] else []
    {
      error := Send(Command.Pong(ping));
    }

    method PrivMsg(channel: Option<string>, message: Option<string>) returns (error: Option<FormatError>)
      requires Valid()
      modifies this
      ensures Valid() && (error == None <==> channel.Some? && message.Some?)
      ensures messages == old(messages)
           + if channel.Some? && message.Some? then ["PRIVMSG " + (channel.value + (" :" + message.value))] else []
    {
      error := Send(Command.PrivMsg(channel, message));
    }

    method Quit(message: Option<string>) returns (error: Option<FormatError>)
      requires Valid()
      modifies this
      ensures Valid() && error == None
      ensures messages == old(messages) + [if message.Some? then "QUIT :" + message.value else "QUIT"]
    {
      error := Send(Command.Quit(message));
    }
  }
}
