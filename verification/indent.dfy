/** The indenting emitter of the generic mode: `emit` (bfac.py:45-54, the
    same code as lgbt.py:187-196), the per-character step `print_bf_char`
    (bfac.py:71-91) and its fold over the input (bfac.py:107-108). */
module Indent {
  import opened Instructions
  import opened Brackets

  /** `indent_unit` (bfac.py:58). It is non-empty, so `use_indent` is always
      true and the unindented branches are never taken. */
  const IndentUnit: string := "    "

  /** `unit * n`. */
  function Repeat(unit: string, n: nat): (r: string)
    ensures forall k :: 0 <= k < |r| ==> r[k] in unit
    ensures n == 0 ==> r == ""
    decreases n
  {
    if n == 0 then "" else unit + Repeat(unit, n - 1)
  }

  /** What `emit` returns besides its output: whether the output now stands
      at the start of a line. */
  datatype Emitted = Emitted(out: string, atLineStart: bool)

  /** `emit(text, level, unit, atLineStart)`: writes `text`, putting
      `unit * level` in front of the first character of each line that is
      neither `\n` nor `\r`. */
  function Emit(text: string, level: nat, unit: string, atLineStart: bool): (r: Emitted)
    ensures |text| == 0 ==> r.atLineStart == atLineStart
    ensures |text| > 0 && text[|text|-1] == '\n' ==> r.atLineStart
    ensures |text| > 0 && text[|text|-1] != '\n' && text[|text|-1] != '\r' ==> !r.atLineStart
    decreases |text|
  {
    if |text| == 0 then Emitted("", atLineStart)
    else
      var ch := text[0];
      var indent := atLineStart && ch != '\n' && ch != '\r';
      var pad := if indent then Repeat(unit, level) else "";
      var flag := if ch == '\n' then true else if indent then false else atLineStart;
      var rest := Emit(text[1..], level, unit, flag);
      Emitted(pad + [ch] + rest.out, rest.atLineStart)
  }

  /** Reference for the line-start flag: before character `i` of `text` it is
      set iff the last character before `i` other than `\r` is `\n`, or there
      is none and the flag was set on entry. */
  function FlagBefore(text: string, i: nat, atLineStart: bool): (r: bool)
    requires i <= |text|
    decreases i
  {
    if i == 0 then atLineStart
    else if text[i-1] == '\r' then FlagBefore(text, i-1, atLineStart)
    else text[i-1] == '\n'
  }

  /** Character `i` receives indentation. */
  predicate Marked(text: string, i: nat, atLineStart: bool)
    requires i < |text|
  {
    FlagBefore(text, i, atLineStart) && text[i] != '\n' && text[i] != '\r'
  }

  /** The indentation placed before each character of `text`. */
  function Pads(text: string, level: nat, unit: string, atLineStart: bool): (r: seq<string>)
    ensures |r| == |text|
  {
    seq(|text|, i requires 0 <= i < |text| =>
      if Marked(text, i, atLineStart) then Repeat(unit, level) else "")
  }

  /** `text` with `pads[i]` written before `text[i]`. */
  function Weave(text: string, pads: seq<string>): (r: string)
    requires |pads| == |text|
    decreases |text|
  {
    if |text| == 0 then "" else pads[0] + [text[0]] + Weave(text[1..], pads[1..])
  }

  /** Deletes `pads[i]` (by length) before each kept character. */
  function Unweave(out: string, pads: seq<string>): (r: string)
    decreases |pads|
  {
    if |pads| == 0 || |out| <= |pads[0]| then ""
    else [out[|pads[0]|]] + Unweave(out[|pads[0]|+1..], pads[1..])
  }

  /** Deleting the inserted indentation gives back exactly the text. */
  lemma {:induction false} UnweaveWeave(text: string, pads: seq<string>)
    requires |pads| == |text|
    ensures Unweave(Weave(text, pads), pads) == text
    decreases |text|
  {
    if |text| > 0 {
      var w := Weave(text, pads);
      var rest := Weave(text[1..], pads[1..]);
      assert w == pads[0] + [text[0]] + rest;
      assert w[|pads[0]|] == text[0];
      assert w[|pads[0]|+1..] == rest;
      UnweaveWeave(text[1..], pads[1..]);
      assert text == [text[0]] + text[1..];
    }
  }

  lemma {:induction false} WeaveConcat(a: string, pa: seq<string>, b: string, pb: seq<string>)
    requires |pa| == |a| && |pb| == |b|
    ensures Weave(a + b, pa + pb) == Weave(a, pa) + Weave(b, pb)
    decreases |a|
  {
    if |a| > 0 {
      assert (a + b)[1..] == a[1..] + b;
      assert (pa + pb)[1..] == pa[1..] + pb;
      WeaveConcat(a[1..], pa[1..], b, pb);
    } else {
      assert a + b == b && pa + pb == pb;
    }
  }

  /** The flag after the first character, seen from the rest of the text. */
  lemma {:induction false} FlagShift(text: string, i: nat, atLineStart: bool, flag: bool)
    requires |text| > 0 && i < |text|
    requires flag == FlagBefore(text, 1, atLineStart)
    ensures FlagBefore(text, i + 1, atLineStart) == FlagBefore(text[1..], i, flag)
    decreases i
  {
    if i > 0 {
      FlagShift(text, i - 1, atLineStart, flag);
    }
  }

  /** `emit` writes the text with indentation exactly at the marked
      characters, and its returned flag is the reference flag at the end. */
  lemma {:induction false} EmitIsWeave(text: string, level: nat, unit: string, atLineStart: bool)
    ensures Emit(text, level, unit, atLineStart).out == Weave(text, Pads(text, level, unit, atLineStart))
    ensures Emit(text, level, unit, atLineStart).atLineStart == FlagBefore(text, |text|, atLineStart)
    decreases |text|
  {
    if |text| > 0 {
      var ch := text[0];
      var indent := atLineStart && ch != '\n' && ch != '\r';
      var flag := if ch == '\n' then true else if indent then false else atLineStart;
      assert flag == FlagBefore(text, 1, atLineStart);
      EmitIsWeave(text[1..], level, unit, flag);
      var ps := Pads(text, level, unit, atLineStart);
      var rs := Pads(text[1..], level, unit, flag);
      forall i | 0 <= i < |text| - 1
        ensures ps[1..][i] == rs[i]
      {
        FlagShift(text, i, atLineStart, flag);
      }
      assert ps[1..] == rs;
      FlagShift(text, |text| - 1, atLineStart, flag);
    }
  }

  /** Indentation goes in at most once per line: between two indented
      characters there is always a `\n`. */
  lemma {:induction false} IndentOncePerLine(text: string, atLineStart: bool, i: nat, j: nat)
    requires i < j < |text|
    requires Marked(text, i, atLineStart)
    requires '\n' !in text[i+1..j]
    ensures !FlagBefore(text, j, atLineStart)
    decreases j - i
  {
    if j > i + 1 {
      assert text[i+1..j-1] <= text[i+1..j];
      assert text[j-1] == text[i+1..j][j-i-2];
      IndentOncePerLine(text, atLineStart, i, j - 1);
    }
  }

  /** The cursor threaded through the fold: indentation level and
      line-start flag. */
  datatype Cursor = Cursor(level: nat, atLineStart: bool)

  datatype Printed = Printed(out: string, cursor: Cursor)

  /** `max(0, level - 1)` (bfac.py:79). */
  function Dedent(level: nat): (r: nat)
    ensures level > 0 ==> r + 1 == level
    ensures level == 0 ==> r == 0
  {
    if level == 0 then 0 else level - 1
  }

  /** The level a character's text is written at: `]` lowers it first. */
  function TextLevel(c: char, level: nat): (r: nat)
  {
    if c == ']' then Dedent(level) else level
  }

  /** `print_bf_char` (bfac.py:71-91): an unmapped character writes nothing
      and keeps the cursor; `]` lowers the level (never below 0) before its
      text is written; `[` raises it after. */
  function PrintBfChar(m: Mapping, c: char, cur: Cursor): (r: Printed)
    ensures c !in m ==> r == Printed("", cur)
    ensures c in m && c == '[' ==> r.cursor.level == cur.level + 1
    ensures c in m && c == ']' ==> r.cursor.level == Dedent(cur.level)
    ensures c in m && c != '[' && c != ']' ==> r.cursor.level == cur.level
  {
    if c !in m then Printed("", cur)
    else
      var level := TextLevel(c, cur.level);
      var e := Emit(m[c], level, IndentUnit, cur.atLineStart);
      Printed(e.out, Cursor(if c == '[' then level + 1 else level, e.atLineStart))
  }

  /** A mapped character's text is written at the level `TextLevel` gives,
      with indentation exactly at its marked characters. */
  lemma PrintBfCharWeaves(m: Mapping, c: char, cur: Cursor)
    requires c in m
    ensures PrintBfChar(m, c, cur).out ==
      Weave(m[c], Pads(m[c], TextLevel(c, cur.level), IndentUnit, cur.atLineStart))
    ensures PrintBfChar(m, c, cur).cursor.atLineStart == FlagBefore(m[c], |m[c]|, cur.atLineStart)
  {
    EmitIsWeave(m[c], TextLevel(c, cur.level), IndentUnit, cur.atLineStart);
  }

  /** The loop of `convert_brainfuck` (bfac.py:63-64, bfac.py:107-108): every
      character of the input in turn, the cursor threaded from level 0 at a
      line start. */
  function Convert(m: Mapping, s: string): (r: Printed)
    decreases |s|
  {
    if |s| == 0 then Printed("", Cursor(0, true))
    else
      var prev := Convert(m, s[..|s|-1]);
      var step := PrintBfChar(m, s[|s|-1], prev.cursor);
      Printed(prev.out + step.out, step.cursor)
  }

  /** The indentation `Convert` places before each character of the
      concatenated mapped text. */
  function ConvertPads(m: Mapping, s: string): (r: seq<string>)
    ensures |r| == |Mapped(m, s)|
    decreases |s|
  {
    if |s| == 0 then []
    else
      var cur := Convert(m, s[..|s|-1]).cursor;
      var c := s[|s|-1];
      ConvertPads(m, s[..|s|-1]) +
        (if c in m then Pads(m[c], TextLevel(c, cur.level), IndentUnit, cur.atLineStart) else [])
  }

  /** The output is the concatenated mapped text with the indentation of
      `ConvertPads` woven in. */
  lemma {:induction false} ConvertIsWeave(m: Mapping, s: string)
    ensures Convert(m, s).out == Weave(Mapped(m, s), ConvertPads(m, s))
    decreases |s|
  {
    if |s| > 0 {
      var p := s[..|s|-1];
      var c := s[|s|-1];
      ConvertIsWeave(m, p);
      if c in m {
        var cur := Convert(m, p).cursor;
        var pads := Pads(m[c], TextLevel(c, cur.level), IndentUnit, cur.atLineStart);
        assert Mapped(m, s) == Mapped(m, p) + m[c];
        assert ConvertPads(m, s) == ConvertPads(m, p) + pads;
        PrintBfCharWeaves(m, c, cur);
        assert Convert(m, s).out == Convert(m, p).out + Weave(m[c], pads);
        WeaveConcat(Mapped(m, p), ConvertPads(m, p), m[c], pads);
      } else {
        assert Mapped(m, s) == Mapped(m, p);
        assert ConvertPads(m, s) == ConvertPads(m, p);
        assert Convert(m, s).out == Convert(m, p).out;
      }
    }
  }

  /** Deleting the indentation from the output gives back exactly the
      concatenated mapped text. */
  lemma ConvertStripsToMapped(m: Mapping, s: string)
    ensures Unweave(Convert(m, s).out, ConvertPads(m, s)) == Mapped(m, s)
  {
    ConvertIsWeave(m, s);
    UnweaveWeave(Mapped(m, s), ConvertPads(m, s));
  }

  /** The flag before a position inside `a` does not look past `a`. */
  lemma {:induction false} FlagPrefix(a: string, b: string, k: nat, atLineStart: bool)
    requires k <= |a|
    ensures FlagBefore(a + b, k, atLineStart) == FlagBefore(a, k, atLineStart)
    decreases k
  {
    if k > 0 {
      assert (a + b)[k-1] == a[k-1];
      FlagPrefix(a, b, k - 1, atLineStart);
    }
  }

  /** The flag inside `b` of `a + b` is the flag of `b` entered with the
      flag at the end of `a`. */
  lemma {:induction false} FlagConcat(a: string, b: string, i: nat, atLineStart: bool)
    requires i <= |b|
    ensures FlagBefore(a + b, |a| + i, atLineStart) == FlagBefore(b, i, FlagBefore(a, |a|, atLineStart))
    decreases i
  {
    if i == 0 {
      FlagPrefix(a, b, |a|, atLineStart);
    } else {
      assert (a + b)[|a| + i - 1] == b[i-1];
      FlagConcat(a, b, i - 1, atLineStart);
    }
  }

  /** The line-start flag after the fold is the reference flag at the end of
      the whole concatenated mapped text, started at a line start. */
  lemma {:induction false} ConvertFlag(m: Mapping, s: string)
    ensures Convert(m, s).cursor.atLineStart == FlagBefore(Mapped(m, s), |Mapped(m, s)|, true)
    decreases |s|
  {
    if |s| > 0 {
      var p := s[..|s|-1];
      var c := s[|s|-1];
      ConvertFlag(m, p);
      if c in m {
        assert Mapped(m, s) == Mapped(m, p) + m[c];
        PrintBfCharWeaves(m, c, Convert(m, p).cursor);
        FlagConcat(Mapped(m, p), m[c], |m[c]|, true);
      } else {
        assert Mapped(m, s) == Mapped(m, p);
      }
    }
  }

  /** Over the whole output, indentation sits only at characters that begin
      a line of the concatenated mapped text: not a `\n` or `\r`, and after a
      `\n` (ignoring `\r`) or at the very start. */
  lemma {:induction false} ConvertPadsMarked(m: Mapping, s: string)
    ensures forall i :: 0 <= i < |ConvertPads(m, s)| && ConvertPads(m, s)[i] != "" ==>
      Marked(Mapped(m, s), i, true)
    decreases |s|
  {
    if |s| > 0 {
      var p := s[..|s|-1];
      var c := s[|s|-1];
      ConvertPadsMarked(m, p);
      var a := Mapped(m, p);
      if c in m {
        var cur := Convert(m, p).cursor;
        var pads := Pads(m[c], TextLevel(c, cur.level), IndentUnit, cur.atLineStart);
        assert Mapped(m, s) == a + m[c];
        assert ConvertPads(m, s) == ConvertPads(m, p) + pads;
        ConvertFlag(m, p);
        forall i | 0 <= i < |ConvertPads(m, s)| && ConvertPads(m, s)[i] != ""
          ensures Marked(a + m[c], i, true)
        {
          if i < |a| {
            assert ConvertPads(m, s)[i] == ConvertPads(m, p)[i];
            FlagPrefix(a, m[c], i, true);
            assert (a + m[c])[i] == a[i];
          } else {
            var k := i - |a|;
            assert ConvertPads(m, s)[i] == pads[k];
            FlagConcat(a, m[c], k, true);
            assert (a + m[c])[i] == m[c][k];
          }
        }
      } else {
        assert Mapped(m, s) == Mapped(m, p);
        assert ConvertPads(m, s) == ConvertPads(m, p);
      }
    }
  }

  /** The inserted indentation is made of spaces only. */
  lemma {:induction false} ConvertPadsAreSpaces(m: Mapping, s: string)
    ensures forall i, k :: 0 <= i < |ConvertPads(m, s)| && 0 <= k < |ConvertPads(m, s)[i]| ==>
      ConvertPads(m, s)[i][k] == ' '
    decreases |s|
  {
    if |s| > 0 {
      var p := s[..|s|-1];
      var c := s[|s|-1];
      ConvertPadsAreSpaces(m, p);
      if c in m {
        var cur := Convert(m, p).cursor;
        var pads := Pads(m[c], TextLevel(c, cur.level), IndentUnit, cur.atLineStart);
        assert ConvertPads(m, s) == ConvertPads(m, p) + pads;
        forall i, k | 0 <= i < |pads| && 0 <= k < |pads[i]|
          ensures pads[i][k] == ' '
        {
          assert pads[i][k] in IndentUnit;
        }
      } else {
        assert ConvertPads(m, s) == ConvertPads(m, p);
      }
    }
  }

  /** For input whose mapped brackets never close more loops than they open,
      the indentation level is the current nesting depth. */
  lemma {:induction false} LevelTracksDepth(m: Mapping, s: string)
    requires PrefixBalanced(Keep(s, m))
    ensures Convert(m, s).cursor.level == Depth(Keep(s, m))
    decreases |s|
  {
    if |s| > 0 {
      var p := s[..|s|-1];
      var c := s[|s|-1];
      var k := Keep(s, m);
      var kp := Keep(p, m);
      if c in m {
        assert k == kp + [c];
        assert k[..|k|-1] == kp;
        PrefixBalancedPrefix(k, |k|-1);
        assert k[..|k|] == k;
      } else {
        assert k == kp;
      }
      LevelTracksDepth(m, p);
    }
  }

  /** Balanced input brings the indentation back to level 0. */
  lemma BalancedReturnsToZero(m: Mapping, s: string)
    requires Balanced(Keep(s, m))
    ensures Convert(m, s).cursor.level == 0
  {
    LevelTracksDepth(m, s);
  }

  /** lgbt.py's generic mode as written (lgbt.py:208-224, lgbt.py:237-241):
      the same step, but the loop discards the returned level and flag, so
      every character starts again from level 0 at a line start. */
  function UnthreadedConvert(m: Mapping, s: string): (r: string)
    decreases |s|
  {
    if |s| == 0 then ""
    else UnthreadedConvert(m, s[..|s|-1]) + PrintBfChar(m, s[|s|-1], Cursor(0, true)).out
  }

  lemma {:induction false} WeaveNoPads(text: string, pads: seq<string>)
    requires |pads| == |text|
    requires forall i :: 0 <= i < |pads| ==> pads[i] == ""
    ensures Weave(text, pads) == text
    decreases |text|
  {
    if |text| > 0 {
      WeaveNoPads(text[1..], pads[1..]);
      assert text == [text[0]] + text[1..];
    }
  }

  /** lgbt.py's generic mode writes the mapped texts with no indentation at
      all, whatever the nesting. */
  lemma {:induction false} UnthreadedIsPlainConcat(m: Mapping, s: string)
    ensures UnthreadedConvert(m, s) == Mapped(m, s)
    decreases |s|
  {
    if |s| > 0 {
      var c := s[|s|-1];
      UnthreadedIsPlainConcat(m, s[..|s|-1]);
      if c in m {
        PrintBfCharWeaves(m, c, Cursor(0, true));
        WeaveNoPads(m[c], Pads(m[c], TextLevel(c, 0), IndentUnit, true));
      }
    }
  }

  /** `emit` of a line whose only newline is its last character. */
  lemma {:induction false} EmitOneLine(text: string, level: nat, unit: string, atLineStart: bool)
    requires |text| > 0 && text[|text|-1] == '\n'
    requires forall k :: 0 <= k < |text| - 1 ==> text[k] != '\n' && text[k] != '\r'
    ensures Emit(text, level, unit, atLineStart) ==
      Emitted((if atLineStart && |text| > 1 then Repeat(unit, level) else "") + text, true)
    decreases |text|
  {
    if |text| > 1 {
      EmitOneLine(text[1..], level, unit, false);
      assert text == [text[0]] + text[1..];
    }
  }

  /** A text that is one non-empty line ending in its only newline, such as
      every text of the default mapping. */
  ghost predicate OneLine(text: string)
  {
    && |text| > 1 && text[|text|-1] == '\n'
    && forall k :: 0 <= k < |text| - 1 ==> text[k] != '\n' && text[k] != '\r'
  }

  /** bfac.py indents the body of the loop in the program `[+`. */
  lemma ThreadedIndentsLoopBody(m: Mapping)
    requires '[' in m && '+' in m && OneLine(m['[']) && OneLine(m['+'])
    ensures Convert(m, "[+").out == m['['] + IndentUnit + m['+']
  {
    EmitOneLine(m['['], 0, IndentUnit, true);
    EmitOneLine(m['+'], 1, IndentUnit, true);
    assert Repeat(IndentUnit, 1) == IndentUnit;
    assert "["[..0] == "";
    assert Convert(m, "[") == Printed(m['['], Cursor(1, true));
    assert "[+"[..1] == "[";
  }

  /** The program `[+` (a loop opened, one instruction in its body): bfac.py
      indents the body line by one unit, lgbt.py's generic mode, which drops
      the cursor, does not. */
  lemma UnthreadedLosesIndentation(m: Mapping)
    requires '[' in m && '+' in m && OneLine(m['[']) && OneLine(m['+'])
    ensures UnthreadedConvert(m, "[+") == m['['] + m['+']
    ensures UnthreadedConvert(m, "[+") != Convert(m, "[+").out
  {
    UnthreadedIsPlainConcat(m, "[+");
    assert "["[..0] == "";
    assert "[+"[..1] == "[";
    assert Mapped(m, "[+") == m['['] + m['+'];
    ThreadedIndentsLoopBody(m);
    assert |Convert(m, "[+").out| == |m['['] + m['+']| + 4;
  }
}
