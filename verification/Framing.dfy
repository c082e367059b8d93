/** Lines that end in a carriage return and a line feed, in a text that arrives in pieces. */
module Framing {
  import Strings
  import opened ReadUntil

  function CrLf(): string {
    "\r\n"
  }

  /** How long the first line of a text is, its end included; zero if no line is complete. */
  function FirstLine(s: string): (n: nat)
    ensures n == 0 || 2 <= n <= |s|
  {
    if |s| < 2 then 0
    else if s[0] == '\r' && s[1] == '\n' then 2
    else
      var n := FirstLine(s[1..]);
      if n == 0 then 0 else n + 1
  }

  /** The complete lines of a text, each with its end. */
  function Lines(s: string): seq<string> {
    var n := FirstLine(s);
    if n == 0 then [] else [s[..n]] + Lines(s[n..])
  }

  /** What follows the last complete line. */
  function Tail(s: string): (t: string)
    ensures |t| <= |s| && FirstLine(t) == 0
  {
    var n := FirstLine(s);
    if n == 0 then s else Tail(s[n..])
  }

  function Concat(texts: seq<string>): string {
    if texts == [] then "" else texts[0] + Concat(texts[1..])
  }

  // ---------------------------------------------------------------- lines and searches

  lemma MatchIs(s: string, p: nat)
    ensures MatchAt(s, p, CrLf()) <==> p + 2 <= |s| && s[p] == '\r' && s[p + 1] == '\n'
  {
    if p + 2 <= |s| {
      assert s[p..p + 2] == [s[p], s[p + 1]];
    }
  }

  /** The first line ends with the first delimiter. */
  lemma FirstLineEnds(s: string)
    ensures FirstLine(s) == 0 ==> NoMatch(s, CrLf())
    ensures FirstLine(s) > 0 ==> FirstAt(s, FirstLine(s) - 2, CrLf())
  {
    forall q: nat ensures MatchAt(s, q, CrLf()) ==> FirstLine(s) != 0 && FirstLine(s) <= q + 2 {
      MatchIs(s, q);
      if MatchAt(s, q, CrLf()) { MatchBounds(s, q); }
    }
    if FirstLine(s) > 0 {
      FirstLineMatches(s, FirstLine(s));
      MatchIs(s, FirstLine(s) - 2);
    }
  }

  lemma {:induction false} MatchBounds(s: string, q: nat)
    requires q + 2 <= |s| && s[q] == '\r' && s[q + 1] == '\n'
    ensures 0 < FirstLine(s) <= q + 2
    decreases |s|
  {
    if q > 0 { MatchBounds(s[1..], q - 1); }
  }

  lemma {:induction false} FirstLineMatches(s: string, n: nat)
    requires n == FirstLine(s) && n > 0
    ensures s[n - 2] == '\r' && s[n - 1] == '\n'
    decreases |s|
  {
    if n > 2 { FirstLineMatches(s[1..], n - 1); }
  }

  lemma NoMatchMeans(s: string)
    ensures NoMatch(s, CrLf()) <==> FirstLine(s) == 0
  {
    FirstLineEnds(s);
  }

  /** And only there. */
  lemma FirstLineIs(s: string, p: nat)
    requires FirstAt(s, p, CrLf())
    ensures FirstLine(s) == p + 2
  {
    FirstLineEnds(s);
  }

  lemma NoFirstLine(s: string)
    requires NoMatch(s, CrLf())
    ensures FirstLine(s) == 0 && Lines(s) == [] && Tail(s) == s
  {
    FirstLineEnds(s);
  }

  // ---------------------------------------------------------------- text in pieces

  lemma {:induction false} FirstLineStays(a: string, b: string)
    ensures FirstLine(a) > 0 ==> FirstLine(a + b) == FirstLine(a)
    decreases |a|
  {
    if |a| >= 2 {
      FirstLineStays(a[1..], b);
      assert (a + b)[1..] == a[1..] + b;
    }
  }

  /** Text that arrives later completes the tail, and does nothing to the lines before it. */
  lemma {:induction false} LinesOfPieces(a: string, b: string)
    ensures Lines(a + b) == Lines(a) + Lines(Tail(a) + b)
    ensures Tail(a + b) == Tail(Tail(a) + b)
    decreases |a|
  {
    var n := FirstLine(a);
    if n > 0 {
      FirstLineStays(a, b);
      assert (a + b)[..n] == a[..n];
      assert (a + b)[n..] == a[n..] + b;
      LinesOfPieces(a[n..], b);
      assert Lines(a + b) == [a[..n]] + (Lines(a[n..]) + Lines(Tail(a) + b));
    }
  }

  /** Nothing is lost between the lines and the tail. */
  lemma {:induction false} LinesAndTail(s: string)
    ensures Concat(Lines(s)) + Tail(s) == s
    decreases |s|
  {
    var n := FirstLine(s);
    if n > 0 {
      LinesAndTail(s[n..]);
      assert Lines(s)[1..] == Lines(s[n..]);
      assert s == s[..n] + s[n..];
    }
  }

  // ---------------------------------------------------------------- messages on the wire

  /** What is sent for one message. */
  function Frame(message: string): string {
    message + CrLf()
  }

  function Frames(messages: seq<string>): (frames: seq<string>)
    ensures |frames| == |messages| && forall k :: 0 <= k < |messages| ==> frames[k] == Frame(messages[k])
  {
    seq(|messages|, k requires 0 <= k < |messages| => Frame(messages[k]))
  }

  function Wire(messages: seq<string>): string {
    Concat(Frames(messages))
  }

  lemma FrameCut(message: string, rest: string)
    ensures NoMatch(message, CrLf()) ==> FirstLine(Frame(message) + rest) == |message| + 2
    ensures !NoMatch(message, CrLf()) ==> 0 < FirstLine(Frame(message) + rest) <= |message|
  {
    NoMatchMeans(message);
    if FirstLine(message) > 0 {
      Strings.Associate(message, CrLf(), rest);
      FirstLineStays(message, CrLf() + rest);
    } else {
      FrameWhole(message, rest);
    }
  }

  lemma {:induction false} FrameWhole(message: string, rest: string)
    requires FirstLine(message) == 0
    ensures FirstLine(Frame(message) + rest) == |message| + 2
    decreases |message|
  {
    var s := Frame(message) + rest;
    if message == "" {
      assert s[0] == '\r' && s[1] == '\n';
    } else {
      FrameWhole(message[1..], rest);
      assert s[1..] == Frame(message[1..]) + rest;
      assert s[1] == if |message| > 1 then message[1] else '\r';
    }
  }

  /**
    The receiver sees the messages that were sent exactly if no message contains the line end itself;
    nothing is then left behind the last line.
   */
  lemma {:induction false} WireReads(messages: seq<string>)
    ensures Lines(Wire(messages)) == Frames(messages)
       <==> forall k :: 0 <= k < |messages| ==> NoMatch(messages[k], CrLf())
    ensures (forall k :: 0 <= k < |messages| ==> NoMatch(messages[k], CrLf())) ==> Tail(Wire(messages)) == ""
    decreases |messages|
  {
    if messages != [] {
      var first, rest := messages[0], messages[1..];
      assert Frames(messages)[1..] == Frames(rest);
      var s := Frame(first) + Wire(rest);
      assert Wire(messages) == s;
      FrameCut(first, Wire(rest));
      if NoMatch(first, CrLf()) {
        var n := |first| + 2;
        assert s[..n] == Frame(first) && s[n..] == Wire(rest);
        WireReads(rest);
        assert Lines(s) == [Frame(first)] + Lines(Wire(rest));
        assert Frames(messages) == [Frame(first)] + Frames(rest);
        assert Lines(s) == Frames(messages) ==> Lines(s)[1..] == Frames(messages)[1..];
        assert messages == [first] + rest;
      } else {
        assert |Lines(s)[0]| <= |first| < |Frames(messages)[0]|;
      }
    }
  }
}
