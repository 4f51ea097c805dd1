/** Bracket bookkeeping shared by the loop-label tracker and the indenting
    emitter: nesting depth, balance, and the reference bracket matcher. */
module Brackets {

  /** Change of nesting depth caused by one character. */
  function Delta(c: char): (r: int)
  {
    if c == '[' then 1 else if c == ']' then -1 else 0
  }

  /** Number of `[` minus number of `]` in `s`. */
  function Depth(s: string): (r: int)
    decreases |s|
  {
    if |s| == 0 then 0 else Depth(s[..|s|-1]) + Delta(s[|s|-1])
  }

  /** No prefix of `s` closes more loops than it opens. */
  ghost predicate PrefixBalanced(s: string)
  {
    forall k :: 0 <= k <= |s| ==> Depth(s[..k]) >= 0
  }

  /** Every loop of `s` is opened and closed. */
  ghost predicate Balanced(s: string)
  {
    PrefixBalanced(s) && Depth(s) == 0
  }

  lemma PrefixBalancedPrefix(s: string, n: nat)
    requires PrefixBalanced(s)
    requires n <= |s|
    ensures PrefixBalanced(s[..n])
  {
    forall k | 0 <= k <= n
      ensures Depth(s[..n][..k]) >= 0
    {
      assert s[..n][..k] == s[..k];
    }
  }

  /** Positions of the `[` of `s` that are still open at its end, outermost
      first: the stack a conventional bracket matcher keeps. The `[` that
      matches a `]` at position `j` is the last element of
      `OpenPositions(s[..j])`. */
  function OpenPositions(s: string): (r: seq<nat>)
    ensures forall k :: 0 <= k < |r| ==> r[k] < |s| && s[r[k]] == '['
    decreases |s|
  {
    if |s| == 0 then []
    else
      var p := OpenPositions(s[..|s|-1]);
      if s[|s|-1] == '[' then p + [|s|-1]
      else if s[|s|-1] == ']' && |p| > 0 then p[..|p|-1]
      else p
  }
}
