/** The loop-label tracker of the assembly and template modes (lgbt.py:46,
    lgbt.py:120-126, lgbt.py:133-138): the last bracket seen and a stack of
    sibling counters, one per open nesting level. */
module LoopLabels {
  import opened Options
  import opened Brackets

  /** `lf` is the last bracket processed, `stack` the nesting path. */
  datatype Tracker = Tracker(lf: char, stack: seq<nat>)

  /** The state before the first character: `lf` is `[` and the stack is empty. */
  const Init: Tracker := Tracker('[', [])

  /** The path with its last counter incremented. */
  function Bump(path: seq<nat>): (r: seq<nat>)
    requires |path| > 0
    ensures |r| == |path| && r[..|path|-1] == path[..|path|-1]
    ensures r[|path|-1] == path[|path|-1] + 1
  {
    path[..|path|-1] + [path[|path|-1] + 1]
  }

  /** `[`: after a `]` it is the next sibling at the current depth (the last
      counter goes up by one, raising IndexError on an empty stack); otherwise
      it opens a deeper level whose counter starts at 1. */
  function Open(t: Tracker): (r: Option<Tracker>)
    ensures r.None? <==> t.lf == ']' && |t.stack| == 0
    ensures r.Some? ==> r.value.lf == '['
    ensures r.Some? && t.lf == ']' ==> r.value.stack == Bump(t.stack)
    ensures r.Some? && t.lf != ']' ==> r.value.stack == t.stack + [1]
  {
    if t.lf == ']' then
      if |t.stack| == 0 then None else Some(Tracker('[', Bump(t.stack)))
    else Some(Tracker('[', t.stack + [1]))
  }

  /** `]`: right after a `[` the path still names that loop and is kept; after
      another `]` the innermost counter is popped (IndexError on an empty
      stack). The label is read after this step. */
  function Close(t: Tracker): (r: Option<Tracker>)
    ensures r.None? <==> t.lf == ']' && |t.stack| == 0
    ensures r.Some? ==> r.value.lf == ']'
    ensures r.Some? && t.lf == ']' ==> r.value.stack == t.stack[..|t.stack|-1]
    ensures r.Some? && t.lf != ']' ==> r.value.stack == t.stack
  {
    if t.lf == ']' then
      if |t.stack| == 0 then None else Some(Tracker(']', t.stack[..|t.stack|-1]))
    else Some(Tracker(']', t.stack))
  }

  /** One character: brackets move the tracker, anything else leaves it alone. */
  function Advance(t: Tracker, c: char): (r: Option<Tracker>)
    ensures r.None? <==> (c == '[' || c == ']') && t.lf == ']' && |t.stack| == 0
    ensures c != '[' && c != ']' ==> r == Some(t)
    ensures r.Some? && (c == '[' || c == ']') ==> r.value.lf == c
  {
    if c == '[' then Open(t) else if c == ']' then Close(t) else Some(t)
  }

  ghost predicate Positive(path: seq<nat>)
  {
    forall k :: 0 <= k < |path| ==> path[k] > 0
  }

  /** The tracker after the characters `s`, starting from `Init`; `None` once
      a bracket has raised. Every counter is positive and `lf` is a bracket. */
  function Track(s: string): (r: Option<Tracker>)
    ensures r.Some? ==> (r.value.lf == '[' || r.value.lf == ']') && Positive(r.value.stack)
    decreases |s|
  {
    if |s| == 0 then Some(Init)
    else
      match Track(s[..|s|-1])
      case None => None
      case Some(t) => Advance(t, s[|s|-1])
  }

  /** The nesting path the bracket at position `i` of `s` is labelled with. */
  function PathAt(s: string, i: nat): (r: seq<nat>)
    requires i < |s|
  {
    match Track(s[..i+1])
    case Some(t) => t.stack
    case None => []
  }

  /** One more character moves the tracker by one step. */
  lemma TrackStep(p: string, c: char, t: Tracker, t': Tracker)
    requires Track(p) == Some(t) && Advance(t, c) == Some(t')
    ensures Track(p + [c]) == Some(t')
  {
    assert (p + [c])[..|p|] == p;
  }

  lemma PathAtPrefix(s: string, n: nat, i: nat)
    requires i < n <= |s|
    ensures PathAt(s[..n], i) == PathAt(s, i)
  {
    assert s[..n][..i+1] == s[..i+1];
  }

  lemma PathAtLast(s: string)
    requires |s| > 0
    ensures Track(s).Some? ==> PathAt(s, |s|-1) == Track(s).value.stack
  {
    assert s[..|s|] == s;
  }

  /** The path every future `[` will be at or beyond. */
  function Frontier(t: Tracker): (r: seq<nat>)
  {
    if t.lf == ']' && |t.stack| > 0 then Bump(t.stack) else t.stack
  }

  /** `a` and `b` agree below index `k` and `a` is smaller at `k`. */
  predicate DivergeAt(a: seq<nat>, b: seq<nat>, k: int)
  {
    0 <= k < |a| && k < |b| && a[..k] == b[..k] && a[k] < b[k]
  }

  /** Path `p` was issued before the frontier `g`: lexicographically below
      it, or a prefix of it (a proper prefix once the last loop at `g`'s depth
      has closed). */
  ghost predicate Behind(p: seq<nat>, g: seq<nat>, closed: bool)
  {
    (exists k :: DivergeAt(p, g, k)) || (p <= g && (closed ==> |p| < |g|))
  }

  /** The stack has one entry per open loop, plus one right after a `]`. */
  ghost predicate ShapeInv(s: string, t: Tracker)
  {
    && (t.lf == '[' || t.lf == ']')
    && |OpenPositions(s)| == Depth(s)
    && |t.stack| == |OpenPositions(s)| + (if t.lf == ']' then 1 else 0)
  }

  /** The path of each open `[` is the matching prefix of the stack. */
  ghost predicate PathsInv(s: string, t: Tracker)
  {
    var ops := OpenPositions(s);
    forall k :: 0 <= k < |ops| && k < |t.stack| ==> PathAt(s, ops[k]) == t.stack[..k+1]
  }

  /** Every `[` seen so far is behind the frontier. */
  ghost predicate FreshInv(s: string, t: Tracker)
  {
    forall i :: 0 <= i < |s| && s[i] == '[' ==> Behind(PathAt(s, i), Frontier(t), t.lf == ']')
  }

  /** What the tracker knows after a prefix-balanced input. */
  ghost predicate Invariant(s: string, t: Tracker)
  {
    ShapeInv(s, t) && PathsInv(s, t) && FreshInv(s, t)
  }

  lemma BehindPush(p: seq<nat>, f: seq<nat>)
    requires Behind(p, f, false)
    ensures Behind(p, f + [1], false)
  {
    if k :| DivergeAt(p, f, k) {
      assert (f + [1])[..k] == f[..k];
      assert DivergeAt(p, f + [1], k);
    }
  }

  lemma BehindFirstClose(p: seq<nat>, f: seq<nat>)
    requires |f| > 0
    requires Behind(p, f, false)
    ensures Behind(p, Bump(f), true)
  {
    var n := |f|;
    var g := Bump(f);
    if k :| DivergeAt(p, f, k) {
      assert g[..k] == f[..k];
      assert DivergeAt(p, g, k);
    } else if |p| == n {
      assert p == f;
      assert p[..n-1] == g[..n-1];
      assert DivergeAt(p, g, n - 1);
    } else {
      assert p <= f[..n-1];
      assert p <= g;
    }
  }

  lemma BehindPop(p: seq<nat>, f: seq<nat>)
    requires |f| > 1
    requires Behind(p, Bump(f), true)
    ensures Behind(p, Bump(f[..|f|-1]), true)
  {
    var n := |f|;
    var g := Bump(f);
    var f' := f[..n-1];
    var g' := Bump(f');
    assert g'[..n-2] == f[..n-2];
    assert g'[n-2] == f[n-2] + 1;
    if k :| DivergeAt(p, g, k) {
      if k < n - 2 {
        assert g[..k] == f[..k] == g'[..k];
        assert DivergeAt(p, g', k);
      } else if k == n - 2 {
        assert g[..k] == g'[..k];
        assert DivergeAt(p, g', k);
      } else {
        assert p[..n-2] == g[..n-2];
        assert p[n-2] == g[n-2];
        assert DivergeAt(p, g', n - 2);
      }
    } else {
      assert p <= g && |p| < n;
      if |p| == n - 1 {
        assert p[..n-2] == g'[..n-2];
        assert p[n-2] == f[n-2];
        assert DivergeAt(p, g', n - 2);
      } else {
        assert p <= f[..n-2];
        assert p <= g';
      }
    }
  }

  /** A path behind the frontier differs from the path the next `[` gets. */
  lemma BehindIsFresh(p: seq<nat>, t: Tracker)
    requires Behind(p, Frontier(t), t.lf == ']')
    requires Open(t).Some?
    ensures p != Open(t).value.stack
  {
    var n := Open(t).value.stack;
    if k :| DivergeAt(p, Frontier(t), k) {
      assert n[k] == Frontier(t)[k];
    }
  }

  lemma InvariantInit()
    ensures Track([]) == Some(Init) && Invariant([], Init)
  {
  }

  /** Invariant for a character that is not a bracket. */
  lemma InvariantOther(s: string, t: Tracker)
    requires |s| > 0 && s[|s|-1] != '[' && s[|s|-1] != ']'
    requires Track(s[..|s|-1]) == Some(t) && Invariant(s[..|s|-1], t)
    ensures Track(s) == Some(t) && Invariant(s, t)
  {
    var p := s[..|s|-1];
    assert Advance(t, s[|s|-1]) == Some(t);
    assert OpenPositions(s) == OpenPositions(p);
    assert Depth(s) == Depth(p);
    OtherKeepsPaths(s, t);
    OtherKeepsFresh(s, t);
  }

  lemma OtherKeepsPaths(s: string, t: Tracker)
    requires |s| > 0 && OpenPositions(s) == OpenPositions(s[..|s|-1])
    requires PathsInv(s[..|s|-1], t)
    ensures PathsInv(s, t)
  {
    var p := s[..|s|-1];
    var ops := OpenPositions(p);
    forall k | 0 <= k < |ops| && k < |t.stack|
      ensures PathAt(s, ops[k]) == t.stack[..k+1]
    {
      PathAtPrefix(s, |s|-1, ops[k]);
    }
  }

  lemma OtherKeepsFresh(s: string, t: Tracker)
    requires |s| > 0 && s[|s|-1] != '['
    requires FreshInv(s[..|s|-1], t)
    ensures FreshInv(s, t)
  {
    var p := s[..|s|-1];
    forall i | 0 <= i < |s| && s[i] == '['
      ensures Behind(PathAt(s, i), Frontier(t), t.lf == ']')
    {
      assert i != |s| - 1;
      assert p[i] == '[';
      PathAtPrefix(s, |s|-1, i);
      assert Behind(PathAt(p, i), Frontier(t), t.lf == ']');
    }
  }

  lemma PathsCarryOver(s: string)
    requires |s| > 0
    ensures forall i :: 0 <= i < |s| - 1 ==> PathAt(s, i) == PathAt(s[..|s|-1], i)
  {
    forall i | 0 <= i < |s| - 1
      ensures PathAt(s, i) == PathAt(s[..|s|-1], i)
    {
      PathAtPrefix(s, |s|-1, i);
    }
  }

  /** Invariant for a `[`. */
  lemma InvariantOpen(s: string, t: Tracker)
    requires |s| > 0 && s[|s|-1] == '['
    requires Track(s[..|s|-1]) == Some(t) && Invariant(s[..|s|-1], t)
    ensures Track(s).Some? && Invariant(s, Track(s).value)
  {
    var p := s[..|s|-1];
    assert Open(t).Some?;
    var t' := Open(t).value;
    assert Track(s) == Some(t');
    assert OpenPositions(s) == OpenPositions(p) + [|s|-1];
    PathsCarryOver(s);
    PathAtLast(s);
    assert Depth(s) == Depth(p) + 1;
    assert ShapeInv(s, t');
    OpenKeepsPaths(s, t, t');
    OpenKeepsFresh(s, t, t');
  }

  lemma OpenKeepsPaths(s: string, t: Tracker, t': Tracker)
    requires |s| > 0 && s[|s|-1] == '['
    requires PathsInv(s[..|s|-1], t)
    requires Open(t) == Some(t')
    requires |t'.stack| == |OpenPositions(s[..|s|-1])| + 1
    requires OpenPositions(s) == OpenPositions(s[..|s|-1]) + [|s|-1]
    requires forall i :: 0 <= i < |s| - 1 ==> PathAt(s, i) == PathAt(s[..|s|-1], i)
    requires PathAt(s, |s|-1) == t'.stack
    ensures PathsInv(s, t')
  {
    var p := s[..|s|-1];
    var ops := OpenPositions(p);
    forall k | 0 <= k < |ops| + 1
      ensures PathAt(s, OpenPositions(s)[k]) == t'.stack[..k+1]
    {
      if k < |ops| {
        assert OpenPositions(s)[k] == ops[k];
        assert t'.stack[..k+1] == t.stack[..k+1];
      } else {
        assert t'.stack[..k+1] == t'.stack;
      }
    }
  }

  /** A path behind the frontier is behind the stack the next `[` pushes. */
  lemma BehindOpen(q: seq<nat>, t: Tracker, t': Tracker)
    requires Behind(q, Frontier(t), t.lf == ']')
    requires Open(t) == Some(t')
    ensures Behind(q, t'.stack, false)
  {
    if t.lf == ']' {
      assert Frontier(t) == t'.stack;
    } else {
      BehindPush(q, t.stack);
    }
  }

  lemma OpenKeepsFresh(s: string, t: Tracker, t': Tracker)
    requires |s| > 0 && s[|s|-1] == '['
    requires FreshInv(s[..|s|-1], t)
    requires Open(t) == Some(t')
    requires forall i :: 0 <= i < |s| - 1 ==> PathAt(s, i) == PathAt(s[..|s|-1], i)
    requires PathAt(s, |s|-1) == t'.stack
    ensures FreshInv(s, t')
  {
    var p := s[..|s|-1];
    assert Frontier(t') == t'.stack;
    forall i | 0 <= i < |s| && s[i] == '['
      ensures Behind(PathAt(s, i), Frontier(t'), false)
    {
      if i < |p| {
        assert p[i] == '[';
        assert PathAt(s, i) == PathAt(p, i);
        BehindOpen(PathAt(p, i), t, t');
      } else {
        assert PathAt(s, i) <= t'.stack;
      }
    }
  }

  /** Invariant for a `]` that does not close more loops than are open. */
  lemma InvariantClose(s: string, t: Tracker)
    requires |s| > 0 && s[|s|-1] == ']'
    requires Track(s[..|s|-1]) == Some(t) && Invariant(s[..|s|-1], t)
    requires Depth(s) >= 0
    ensures Track(s).Some? && Invariant(s, Track(s).value)
  {
    var p := s[..|s|-1];
    var ops := OpenPositions(p);
    assert Depth(s) == Depth(p) - 1;
    assert |ops| > 0;
    assert Close(t).Some?;
    var t' := Close(t).value;
    assert Track(s) == Some(t');
    assert OpenPositions(s) == ops[..|ops|-1];
    PathsCarryOver(s);
    CloseKeepsPaths(s, t, t');
    CloseKeepsFresh(s, t, t');
  }

  lemma CloseKeepsPaths(s: string, t: Tracker, t': Tracker)
    requires |s| > 0 && s[|s|-1] == ']'
    requires ShapeInv(s[..|s|-1], t) && PathsInv(s[..|s|-1], t)
    requires Depth(s) == Depth(s[..|s|-1]) - 1
    requires |OpenPositions(s[..|s|-1])| > 0
    requires Close(t) == Some(t')
    requires OpenPositions(s) == OpenPositions(s[..|s|-1])[..|OpenPositions(s[..|s|-1])|-1]
    requires forall i :: 0 <= i < |s| - 1 ==> PathAt(s, i) == PathAt(s[..|s|-1], i)
    ensures ShapeInv(s, t') && PathsInv(s, t')
  {
    var ops := OpenPositions(s[..|s|-1]);
    assert |t'.stack| == |ops|;
    forall k | 0 <= k < |ops| - 1
      ensures PathAt(s, OpenPositions(s)[k]) == t'.stack[..k+1]
    {
      assert OpenPositions(s)[k] == ops[k];
      assert t'.stack[..k+1] == t.stack[..k+1];
    }
  }

  lemma CloseKeepsFresh(s: string, t: Tracker, t': Tracker)
    requires |s| > 0 && s[|s|-1] == ']'
    requires ShapeInv(s[..|s|-1], t) && FreshInv(s[..|s|-1], t)
    requires |OpenPositions(s[..|s|-1])| > 0
    requires Close(t) == Some(t')
    requires forall i :: 0 <= i < |s| - 1 ==> PathAt(s, i) == PathAt(s[..|s|-1], i)
    ensures FreshInv(s, t')
  {
    var p := s[..|s|-1];
    forall i | 0 <= i < |s| && s[i] == '['
      ensures Behind(PathAt(s, i), Frontier(t'), true)
    {
      assert i < |p| && p[i] == s[i];
      if t.lf == ']' {
        BehindPop(PathAt(p, i), t.stack);
      } else {
        BehindFirstClose(PathAt(p, i), t.stack);
      }
    }
  }

  /** Starting from `lf == '['` with an empty stack, a prefix-balanced input
      never makes the tracker raise, and the invariant holds. */
  lemma {:induction false} TrackInvariant(s: string)
    requires PrefixBalanced(s)
    ensures Track(s).Some? && Invariant(s, Track(s).value)
    decreases |s|
  {
    if |s| == 0 {
      InvariantInit();
    } else {
      var p := s[..|s|-1];
      PrefixBalancedPrefix(s, |s|-1);
      TrackInvariant(p);
      var t := Track(p).value;
      if s[|s|-1] == '[' {
        InvariantOpen(s, t);
      } else if s[|s|-1] == ']' {
        assert s[..|s|] == s;
        InvariantClose(s, t);
      } else {
        InvariantOther(s, t);
      }
    }
  }

  /** The stack is as deep as the brackets right after a `[`, one deeper
      right after a `]`. */
  lemma StackTracksDepth(s: string)
    requires PrefixBalanced(s)
    ensures Track(s).Some?
    ensures |s| > 0 && s[|s|-1] == '[' ==> |Track(s).value.stack| == Depth(s)
    ensures |s| > 0 && s[|s|-1] == ']' ==> |Track(s).value.stack| == Depth(s) + 1
  {
    TrackInvariant(s);
  }

  /** Under the invariant, a `]` leaves the stack at the path of the
      innermost open `[`. */
  lemma CloseRestoresTopPath(q: string, t: Tracker)
    requires ShapeInv(q, t) && PathsInv(q, t)
    requires |OpenPositions(q)| > 0
    ensures Close(t).Some?
    ensures PathAt(q, OpenPositions(q)[|OpenPositions(q)|-1]) == Close(t).value.stack
  {
    var ops := OpenPositions(q);
    assert PathAt(q, ops[|ops|-1]) == t.stack[..|ops|];
    if t.lf == ']' {
      assert Close(t).value.stack == t.stack[..|ops|];
    } else {
      assert t.stack[..|ops|] == t.stack;
    }
  }

  /** A `]` carries the same path, hence the same label, as its matching `[`. */
  lemma MatchingBracketsSharePath(s: string, j: nat)
    requires PrefixBalanced(s)
    requires j < |s| && s[j] == ']'
    ensures |OpenPositions(s[..j])| > 0
    ensures PathAt(s, OpenPositions(s[..j])[|OpenPositions(s[..j])|-1]) == PathAt(s, j)
  {
    var q := s[..j];
    PrefixBalancedPrefix(s, j);
    PrefixBalancedPrefix(s, j + 1);
    TrackInvariant(q);
    var t := Track(q).value;
    var ops := OpenPositions(q);
    assert s[..j+1][..j] == q;
    assert Depth(s[..j+1]) == Depth(q) - 1;
    assert |ops| > 0;
    CloseRestoresTopPath(q, t);
    PathAtPrefix(s, j, ops[|ops|-1]);
    assert Track(s[..j+1]) == Close(t);
  }

  /** Characters other than brackets do not move the tracker. */
  lemma {:induction false} TrackSkipsOthers(s: string, a: nat, b: nat)
    requires a <= b <= |s|
    requires forall x :: a <= x < b ==> s[x] != '[' && s[x] != ']'
    ensures Track(s[..b]) == Track(s[..a])
    decreases b
  {
    if a < b {
      TrackSkipsOthers(s, a, b - 1);
      assert s[..b][..b-1] == s[..b-1];
      assert s[..b][b-1] == s[b-1];
    }
  }

  /** The first `[` after a `]`, with only other instructions in between,
      opens the next sibling: its path is the path of the loop that `]`
      closed with the last counter one higher. */
  lemma SiblingAfterClose(s: string, j: nat, k: nat)
    requires PrefixBalanced(s)
    requires j < k < |s| && s[j] == ']' && s[k] == '['
    requires forall x :: j < x < k ==> s[x] != '[' && s[x] != ']'
    ensures |OpenPositions(s[..j])| > 0
    ensures var i := OpenPositions(s[..j])[|OpenPositions(s[..j])|-1];
      |PathAt(s, i)| > 0 && PathAt(s, k) == Bump(PathAt(s, i))
  {
    MatchingBracketsSharePath(s, j);
    PrefixBalancedPrefix(s, k + 1);
    StackTracksDepth(s[..k+1]);
    TrackSkipsOthers(s, j + 1, k);
    var q := s[..j+1];
    assert q[..j] == s[..j];
    assert s[..k+1][..k] == s[..k];
    var t1 := Track(q).value;
    assert t1.lf == ']';
    assert PathAt(s, j) == t1.stack;
    assert Track(s[..k+1]) == Open(t1);
  }

  /** The path of a nested open loop extends the path of its parent. */
  lemma NestedPathExtendsParent(s: string, k: nat)
    requires PrefixBalanced(s)
    requires k + 1 < |OpenPositions(s)|
    ensures |PathAt(s, OpenPositions(s)[k+1])| == k + 2
    ensures PathAt(s, OpenPositions(s)[k+1])[..k+1] == PathAt(s, OpenPositions(s)[k])
  {
    TrackInvariant(s);
  }

  /** Distinct `[` of a prefix-balanced input get distinct paths. */
  lemma OpenPathsDistinct(s: string, i: nat, j: nat)
    requires PrefixBalanced(s)
    requires i < j < |s| && s[i] == '[' && s[j] == '['
    ensures PathAt(s, i) != PathAt(s, j)
  {
    var q := s[..j];
    PrefixBalancedPrefix(s, j);
    TrackInvariant(q);
    var t := Track(q).value;
    assert s[..j+1][..j] == q;
    assert Track(s[..j+1]) == Open(t);
    PathAtPrefix(s, j, i);
    BehindIsFresh(PathAt(q, i), t);
  }
}
