/** Operations on character sequences shared by the other modules. */
module Strings {

  function Repeat(c: char, n: nat): (s: string)
    ensures |s| == n && forall k :: 0 <= k < n ==> s[k] == c
  {
    seq(n, _ => c)
  }

  /** The cells with `body` written over those from `at` on. */
  function Overwritten(cells: string, at: nat, body: string): (s: string)
    requires at + |body| <= |cells|
    ensures |s| == |cells|
  {
    cells[..at] + body + cells[at + |body|..]
  }

  lemma OverwrittenIs(cells: string, at: nat, body: string, filled: string)
    requires at + |body| <= |cells| == |filled|
    requires forall k :: 0 <= k < |cells| ==>
               filled[k] == if at <= k < at + |body| then body[k - at] else cells[k]
    ensures filled == Overwritten(cells, at, body)
  {
  }

  function Min(a: nat, b: nat): nat {
    if a < b then a else b
  }

  function Max(a: nat, b: nat): nat {
    if a < b then b else a
  }

  /** Called where a solver would search for this among many concatenations. */
  lemma Associate<T>(a: seq<T>, b: seq<T>, c: seq<T>)
    ensures a + b + c == a + (b + c)
  {
  }
}
