/** The two string rewrites the label emitters use: Python's
    `rep.join(s.rsplit(c, 1))` (replace the last occurrence of one character)
    and `s.replace(pat, rep)` (replace every occurrence, scanning left to
    right without overlaps). */
module Rewrite {
  import opened Options

  /** Index of the last `c` in `s`, if any. */
  function LastIndexOf(s: string, c: char): (r: Option<nat>)
    ensures r.None? <==> c !in s
    ensures r.Some? ==> r.value < |s| && s[r.value] == c && c !in s[r.value+1..]
    decreases |s|
  {
    if |s| == 0 then None
    else if s[|s|-1] == c then Some(|s|-1)
    else
      assert s == s[..|s|-1] + [s[|s|-1]];
      var r := LastIndexOf(s[..|s|-1], c);
      assert r.Some? ==> s[r.value+1..] == s[..|s|-1][r.value+1..] + [s[|s|-1]];
      r
  }

  /** `s` with the character at `i` replaced by the string `rep`. */
  function Splice(s: string, i: nat, rep: string): (r: string)
    requires i < |s|
  {
    s[..i] + rep + s[i+1..]
  }

  /** `rep.join(s.rsplit(c, 1))`: the last `c` of `s` becomes `rep`; every
      earlier `c` is left alone; with no `c` the text is unchanged. */
  function ReplaceLast(s: string, c: char, rep: string): (r: string)
    ensures c !in s ==> r == s
    ensures c in s ==>
      exists i :: 0 <= i < |s| && s[i] == c && c !in s[i+1..] && r == Splice(s, i, rep)
  {
    match LastIndexOf(s, c)
    case None => s
    case Some(i) => Splice(s, i, rep)
  }

  /** `pat` occurs in `s` at index `i`. */
  predicate MatchAt(s: string, pat: string, i: int)
  {
    0 <= i && i + |pat| <= |s| && s[i..i+|pat|] == pat
  }

  ghost predicate Occurs(s: string, pat: string)
  {
    exists i :: MatchAt(s, pat, i)
  }

  /** `s.replace(pat, rep)` for a non-empty `pat`. */
  function ReplaceAll(s: string, pat: string, rep: string): (r: string)
    requires |pat| > 0
    decreases |s|
  {
    if |s| < |pat| then s
    else if s[..|pat|] == pat then rep + ReplaceAll(s[|pat|..], pat, rep)
    else [s[0]] + ReplaceAll(s[1..], pat, rep)
  }

  lemma OccursInSuffix(s: string, pat: string, d: nat)
    requires d <= |s|
    requires Occurs(s[d..], pat)
    ensures Occurs(s, pat)
  {
    var i :| MatchAt(s[d..], pat, i);
    assert s[d..][i..i+|pat|] == s[i+d..i+d+|pat|];
    assert MatchAt(s, pat, i + d);
  }

  /** Text without `pat` passes through `replace` unchanged. */
  lemma {:induction false} ReplaceAllWithoutMatch(s: string, pat: string, rep: string)
    requires |pat| > 0
    requires !Occurs(s, pat)
    ensures ReplaceAll(s, pat, rep) == s
    decreases |s|
  {
    if |s| < |pat| {
    } else {
      assert !MatchAt(s, pat, 0);
      if Occurs(s[1..], pat) {
        OccursInSuffix(s, pat, 1);
      }
      ReplaceAllWithoutMatch(s[1..], pat, rep);
      assert s == [s[0]] + s[1..];
    }
  }

  /** A position whose character differs from the pattern's starts no match. */
  lemma NoMatchAtDiffer(s: string, pat: string, i: nat, j: nat)
    requires j < |pat| && i + j < |s| && s[i+j] != pat[j]
    ensures !MatchAt(s, pat, i)
  {
    if i + |pat| <= |s| {
      assert s[i..i+|pat|][j] == s[i+j];
    }
  }

  /** Without a match at the start, the scan copies the first character. */
  lemma ReplaceAllCopiesHead(s: string, pat: string, rep: string)
    requires |pat| > 0 && |s| > 0 && !MatchAt(s, pat, 0)
    ensures ReplaceAll(s, pat, rep) == [s[0]] + ReplaceAll(s[1..], pat, rep)
  {
    if |s| >= |pat| {
      assert s[..|pat|] != pat;
    } else {
      assert s == [s[0]] + s[1..];
    }
  }

  /** No match starting inside `x` means none starting inside `x[1..]`. */
  lemma NoMatchInTail(x: string, y: string, pat: string)
    requires |x| > 0
    requires forall i :: 0 <= i < |x| ==> !MatchAt(x + y, pat, i)
    ensures forall i :: 0 <= i < |x| - 1 ==> !MatchAt(x[1..] + y, pat, i)
  {
    var s := x + y;
    forall i | 0 <= i < |x| - 1
      ensures !MatchAt(x[1..] + y, pat, i)
    {
      assert !MatchAt(s, pat, i + 1);
      if i + |pat| <= |s| - 1 {
        assert (x[1..] + y)[i..i+|pat|] == s[i+1..i+1+|pat|];
      }
    }
  }

  /** Where no match starts inside `x`, the scan copies `x` verbatim and goes
      on with `y`. */
  lemma {:induction false} ReplaceAllSkip(x: string, y: string, pat: string, rep: string)
    requires |pat| > 0
    requires forall i :: 0 <= i < |x| ==> !MatchAt(x + y, pat, i)
    ensures ReplaceAll(x + y, pat, rep) == x + ReplaceAll(y, pat, rep)
    decreases |x|
  {
    if |x| == 0 {
      assert x + y == y;
    } else {
      var s := x + y;
      assert !MatchAt(s, pat, 0);
      ReplaceAllCopiesHead(s, pat, rep);
      assert s[1..] == x[1..] + y;
      NoMatchInTail(x, y, pat);
      ReplaceAllSkip(x[1..], y, pat, rep);
      assert x == [s[0]] + x[1..];
    }
  }

  /** The leftmost match is replaced by `rep` and the scan resumes after it:
      together with `ReplaceAllWithoutMatch` this pins `replace` down. */
  lemma ReplaceAllAt(a: string, b: string, pat: string, rep: string)
    requires |pat| > 0
    requires forall i :: 0 <= i < |a| ==> !MatchAt(a + pat + b, pat, i)
    ensures ReplaceAll(a + pat + b, pat, rep) == a + rep + ReplaceAll(b, pat, rep)
  {
    assert a + pat + b == a + (pat + b);
    ReplaceAllSkip(a, pat + b, pat, rep);
    assert (pat + b)[..|pat|] == pat && (pat + b)[|pat|..] == b;
  }

  /** A prefix of the result made only of characters of `q` was copied from
      the input, when `rep` starts with a character outside `q`. */
  lemma {:induction false} ReplaceAllPrefix(s: string, pat: string, rep: string, q: string, n: nat)
    requires |pat| > 0 && |rep| > 0 && rep[0] !in q
    requires n <= |ReplaceAll(s, pat, rep)|
    requires forall k :: 0 <= k < n ==> ReplaceAll(s, pat, rep)[k] in q
    ensures n <= |s| && ReplaceAll(s, pat, rep)[..n] == s[..n]
    decreases |s|
  {
    var r := ReplaceAll(s, pat, rep);
    if |s| < |pat| {
    } else if s[..|pat|] == pat {
      assert r == rep + ReplaceAll(s[|pat|..], pat, rep);
      assert forall k :: 0 <= k < |rep| ==> r[k] == rep[k];
    } else if n > 0 {
      var r1 := ReplaceAll(s[1..], pat, rep);
      assert r == [s[0]] + r1;
      assert forall k :: 0 <= k < n - 1 ==> r1[k] == r[k+1];
      ReplaceAllPrefix(s[1..], pat, rep, q, n - 1);
      assert r[..n] == [s[0]] + r1[..n-1];
      assert s[..n] == [s[0]] + s[1..][..n-1];
    }
  }

  /** Putting `rep` in front adds no occurrence of `q` when `rep` shares no
      character with `q`. */
  lemma NoOccurrenceBehindRep(rep: string, r1: string, q: string)
    requires |q| > 0
    requires forall k :: 0 <= k < |rep| ==> rep[k] !in q
    requires !Occurs(r1, q)
    ensures !Occurs(rep + r1, q)
  {
    var r := rep + r1;
    forall i | 0 <= i && i + |q| <= |r|
      ensures !MatchAt(r, q, i)
    {
      if i < |rep| {
        assert r[i] == rep[i] && rep[i] !in q;
        assert r[i..i+|q|][0] == r[i];
      } else {
        assert r[i..i+|q|] == r1[i-|rep|..i-|rep|+|q|];
        assert !MatchAt(r1, q, i - |rep|);
      }
    }
  }

  /** A match at the start of `[c] + r1` is `c` followed by a prefix of `r1`
      made of characters of the pattern. */
  lemma MatchAfterHead(c: char, r1: string, q: string)
    requires |q| > 0 && MatchAt([c] + r1, q, 0)
    ensures |q| - 1 <= |r1| && c == q[0] && r1[..|q|-1] == q[1..]
    ensures forall k :: 0 <= k < |q| - 1 ==> r1[k] in q
  {
    var r := [c] + r1;
    assert r[0..|q|] == q;
    assert r1[..|q|-1] == r[1..|q|];
    forall k | 0 <= k < |q| - 1
      ensures r1[k] in q
    {
      assert r1[k] == q[k+1];
    }
  }

  /** A match at the very start of the result of a copying step comes from a
      match at the start of the input. */
  lemma MatchThroughCopy(s: string, pat: string, rep: string, q: string)
    requires |pat| > 0 && |q| > 0 && |rep| > 0 && |s| > 0
    requires rep[0] !in q
    requires MatchAt([s[0]] + ReplaceAll(s[1..], pat, rep), q, 0)
    ensures MatchAt(s, q, 0)
  {
    var s1 := s[1..];
    var r1 := ReplaceAll(s1, pat, rep);
    MatchAfterHead(s[0], r1, q);
    ReplaceAllPrefix(s1, pat, rep, q, |q| - 1);
    assert s[..|q|] == [s[0]] + s1[..|q|-1];
  }

  /** The step of the scan that copies one character `s[0]` keeps `q` out of
      the result, unless the input itself starts with `q`. */
  lemma NoOccurrenceBehindCopy(s: string, pat: string, rep: string, q: string)
    requires |pat| > 0 && |q| > 0 && |rep| > 0 && |s| > 0
    requires forall k :: 0 <= k < |rep| ==> rep[k] !in q
    requires !MatchAt(s, q, 0)
    requires !Occurs(ReplaceAll(s[1..], pat, rep), q)
    ensures !Occurs([s[0]] + ReplaceAll(s[1..], pat, rep), q)
  {
    var r1 := ReplaceAll(s[1..], pat, rep);
    var r := [s[0]] + r1;
    forall i | 0 < i && i + |q| <= |r|
      ensures !MatchAt(r, q, i)
    {
      assert r[i..i+|q|] == r1[i-1..i-1+|q|];
      assert !MatchAt(r1, q, i - 1);
    }
    if MatchAt(r, q, 0) {
      MatchThroughCopy(s, pat, rep, q);
    }
  }

  /** `replace(pat, rep)` leaves no occurrence of `q` behind when `q` is
      `pat` itself or was absent before, provided `rep` is non-empty and
      shares no character with `q`. */
  lemma {:induction false} ReplaceAllNoOccurrence(s: string, pat: string, rep: string, q: string)
    requires |pat| > 0 && |q| > 0 && |rep| > 0
    requires forall k :: 0 <= k < |rep| ==> rep[k] !in q
    requires q == pat || !Occurs(s, q)
    ensures !Occurs(ReplaceAll(s, pat, rep), q)
    decreases |s|
  {
    if |s| < |pat| {
      if q == pat {
        assert forall i :: !MatchAt(s, q, i);
      }
    } else if s[..|pat|] == pat {
      var s1 := s[|pat|..];
      if q != pat && Occurs(s1, q) {
        OccursInSuffix(s, q, |pat|);
      }
      ReplaceAllNoOccurrence(s1, pat, rep, q);
      NoOccurrenceBehindRep(rep, ReplaceAll(s1, pat, rep), q);
    } else {
      var s1 := s[1..];
      if q != pat && Occurs(s1, q) {
        OccursInSuffix(s, q, 1);
      }
      ReplaceAllNoOccurrence(s1, pat, rep, q);
      NoOccurrenceBehindCopy(s, pat, rep, q);
    }
  }
}
