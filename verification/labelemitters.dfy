/** The assembly mode (`print_bf_char_asm`, lgbt.py:113-145) and the template
    mode (`print_bf_char_label`, lgbt.py:147-181). Both share the loop-label
    tracker; `print(x)` appends `x + "\n"`, `print(x, end='')` appends `x`. */
module LabelEmitters {
  import opened Options
  import opened Instructions
  import opened Brackets
  import opened Labels
  import opened Rewrite
  import opened LoopLabels

  datatype Mode = Assembly | Template

  /** Tracker and text after one character. */
  datatype Stepped = Stepped(tracker: Tracker, out: string)

  /** A whole run: it finishes, or a bracket raised IndexError after `out`
      had already been written. */
  datatype Outcome = Finished(tracker: Tracker, out: string) | Crashed(out: string)

  /** Assembly text for `[` (lgbt.py:128-131): a label line `LB<label>:`,
      then the mapped text with its last `]` turned into `LE<label>`. */
  function AsmOpenText(text: string, name: string): (r: string)
    ensures ']' !in text ==> r == "LB" + name + ":\n" + text + "\n"
    ensures ']' in text ==>
      exists i :: 0 <= i < |text| && text[i] == ']' && ']' !in text[i+1..] &&
        r == "LB" + name + ":\n" + Splice(text, i, "LE" + name) + "\n"
  {
    "LB" + name + ":\n" + ReplaceLast(text, ']', "LE" + name) + "\n"
  }

  /** Assembly text for `]` (lgbt.py:139-142): the mapped text with its last
      `[` turned into `LB<label>`, then a label line `LE<label>:`. */
  function AsmCloseText(text: string, name: string): (r: string)
    ensures '[' !in text ==> r == text + "\n" + "LE" + name + ":\n"
    ensures '[' in text ==>
      exists i :: 0 <= i < |text| && text[i] == '[' && '[' !in text[i+1..] &&
        r == Splice(text, i, "LB" + name) + "\n" + "LE" + name + ":\n"
  {
    ReplaceLast(text, '[', "LB" + name) + "\n" + "LE" + name + ":\n"
  }

  /** Template text for either bracket (lgbt.py:162-166, lgbt.py:174-178):
      every `openlabel` becomes `LB<label>`, then every `closelabel` becomes
      `LE<label>`; no label line of its own. */
  function TemplateText(text: string, name: string): (r: string)
    ensures |r| > 0 && r[|r|-1] == '\n'
  {
    ReplaceAll(ReplaceAll(text, "openlabel", "LB" + name), "closelabel", "LE" + name) + "\n"
  }

  function BracketText(mode: Mode, c: char, text: string, name: string): (r: string)
  {
    match mode
    case Assembly => if c == '[' then AsmOpenText(text, name) else AsmCloseText(text, name)
    case Template => TemplateText(text, name)
  }

  /** One input character in a labelling mode. An unmapped character is
      skipped without touching the tracker; a mapped non-bracket writes its
      text verbatim; a bracket moves the tracker and writes its text with the
      label of the tracker's new path. */
  function PrintBfChar(mode: Mode, m: Mapping, t: Tracker, c: char): (r: Option<Stepped>)
    ensures c !in m ==> r == Some(Stepped(t, ""))
    ensures c in m && c != '[' && c != ']' ==> r == Some(Stepped(t, m[c]))
    ensures c in m ==> (r.None? <==> Advance(t, c).None?)
    ensures c in m && r.Some? ==> r.value.tracker == Advance(t, c).value
  {
    if c !in m then Some(Stepped(t, ""))
    else
      match Advance(t, c)
      case None => None
      case Some(t') =>
        if c == '[' || c == ']' then Some(Stepped(t', BracketText(mode, c, m[c], Label(t'.stack))))
        else Some(Stepped(t', m[c]))
  }

  /** The whole input, character by character, from the initial tracker. */
  function Run(mode: Mode, m: Mapping, s: string): (r: Outcome)
    decreases |s|
  {
    if |s| == 0 then Finished(Init, "")
    else
      match Run(mode, m, s[..|s|-1])
      case Crashed(o) => Crashed(o)
      case Finished(t, o) =>
        match PrintBfChar(mode, m, t, s[|s|-1])
        case None => Crashed(o)
        case Some(st) => Finished(st.tracker, o + st.out)
  }

  /** One more character extends a finished run by that character's step. */
  lemma RunStep(mode: Mode, m: Mapping, p: string, c: char, t: Tracker, o: string, st: Stepped)
    requires Run(mode, m, p) == Finished(t, o) && PrintBfChar(mode, m, t, c) == Some(st)
    ensures Run(mode, m, p + [c]) == Finished(st.tracker, o + st.out)
  {
    assert (p + [c])[..|p|] == p;
  }

  /** Both modes drive the tracker exactly as the mapped characters alone
      would: a run crashes precisely when the tracker raises on them, and
      otherwise ends in the tracker's state. */
  lemma {:induction false} RunFollowsTracker(mode: Mode, m: Mapping, s: string)
    ensures Run(mode, m, s).Finished? <==> Track(Keep(s, m)).Some?
    ensures Run(mode, m, s).Finished? ==> Run(mode, m, s).tracker == Track(Keep(s, m)).value
    decreases |s|
  {
    if |s| > 0 {
      var p := s[..|s|-1];
      var c := s[|s|-1];
      RunFollowsTracker(mode, m, p);
      if c in m {
        RunStepMapped(mode, m, s);
      } else {
        assert Keep(s, m) == Keep(p, m);
      }
    }
  }

  lemma RunStepMapped(mode: Mode, m: Mapping, s: string)
    requires |s| > 0 && s[|s|-1] in m
    requires Run(mode, m, s[..|s|-1]).Finished? <==> Track(Keep(s[..|s|-1], m)).Some?
    requires Run(mode, m, s[..|s|-1]).Finished? ==> Run(mode, m, s[..|s|-1]).tracker == Track(Keep(s[..|s|-1], m)).value
    ensures Run(mode, m, s).Finished? <==> Track(Keep(s, m)).Some?
    ensures Run(mode, m, s).Finished? ==> Run(mode, m, s).tracker == Track(Keep(s, m)).value
  {
    var p := s[..|s|-1];
    var c := s[|s|-1];
    var k := Keep(s, m);
    var kp := Keep(p, m);
    assert k == kp + [c];
    assert k[..|k|-1] == kp;
    match Run(mode, m, p)
    case Crashed(o) =>
      assert Track(kp).None?;
    case Finished(t, o) =>
      assert Track(kp) == Some(t);
      assert Track(k) == Advance(t, c);
  }

  /** Input whose mapped brackets never close more loops than they open is
      converted without an IndexError, in both modes. */
  lemma BalancedRunFinishes(mode: Mode, m: Mapping, s: string)
    requires PrefixBalanced(Keep(s, m))
    ensures Run(mode, m, s).Finished?
  {
    RunFollowsTracker(mode, m, s);
    TrackInvariant(Keep(s, m));
  }

  /** A mapped bracket appends its text built with the label of the
      tracker's path after that bracket. */
  lemma RunLabelsBracket(mode: Mode, m: Mapping, s: string)
    requires |s| > 0 && (s[|s|-1] == '[' || s[|s|-1] == ']') && s[|s|-1] in m
    requires Run(mode, m, s).Finished?
    ensures Run(mode, m, s[..|s|-1]).Finished? && Track(Keep(s, m)).Some?
    ensures Run(mode, m, s).out ==
      Run(mode, m, s[..|s|-1]).out + BracketText(mode, s[|s|-1], m[s[|s|-1]], Label(Track(Keep(s, m)).value.stack))
  {
    RunFollowsTracker(mode, m, s);
  }

  /** Labels contain no letter of the template tokens. */
  lemma LabelAvoidsTokens(name: string, q: string)
    requires IsLabelText(name)
    requires q == "openlabel" || q == "closelabel"
    ensures forall k :: 0 <= k < |"LB" + name| ==> ("LB" + name)[k] !in q
    ensures forall k :: 0 <= k < |"LE" + name| ==> ("LE" + name)[k] !in q
  {
    forall k | 0 <= k < |name|
      ensures name[k] !in q
    {
      assert IsDigit(name[k]) || name[k] == '_';
    }
  }

  /** In template mode no `openlabel` or `closelabel` survives: every
      occurrence of either token is replaced by a label name. */
  lemma TemplateLeavesNoTokens(text: string, path: seq<nat>)
    ensures var r := TemplateText(text, Label(path));
      !Occurs(r[..|r|-1], "openlabel") && !Occurs(r[..|r|-1], "closelabel")
  {
    var name := Label(path);
    var r1 := ReplaceAll(text, "openlabel", "LB" + name);
    var r2 := ReplaceAll(r1, "closelabel", "LE" + name);
    var r := TemplateText(text, name);
    assert r[..|r|-1] == r2;
    LabelAvoidsTokens(name, "openlabel");
    LabelAvoidsTokens(name, "closelabel");
    ReplaceAllNoOccurrence(text, "openlabel", "LB" + name, "openlabel");
    ReplaceAllNoOccurrence(r1, "closelabel", "LE" + name, "openlabel");
    ReplaceAllNoOccurrence(r1, "closelabel", "LE" + name, "closelabel");
  }

  /** Reference for the template rewrite: one left-to-right scan that turns
      each `openlabel` into `LB<name>` and each `closelabel` into `LE<name>`
      and copies every other character. */
  function FillTokens(text: string, name: string): (r: string)
    decreases |text|
  {
    if MatchAt(text, "openlabel", 0) then "LB" + name + FillTokens(text[9..], name)
    else if MatchAt(text, "closelabel", 0) then "LE" + name + FillTokens(text[10..], name)
    else if |text| == 0 then ""
    else [text[0]] + FillTokens(text[1..], name)
  }

  /** A text starting with `closelabel` has no `openlabel` starting in its
      first ten characters. */
  lemma CloseTokenHidesOpen(rest: string)
    ensures forall i :: 0 <= i < 10 ==> !MatchAt("closelabel" + rest, "openlabel", i)
  {
    var s := "closelabel" + rest;
    forall i | 0 <= i < 10
      ensures !MatchAt(s, "openlabel", i)
    {
      if i == 2 {
        assert s[3] == 's';
        NoMatchAtDiffer(s, "openlabel", 2, 1);
      } else {
        assert s[i] == "closelabel"[i] != 'o';
        NoMatchAtDiffer(s, "openlabel", i, 0);
      }
    }
  }

  /** The two `replace` passes of the template mode do what the one-pass
      reference does, for a name without token characters. */
  lemma {:induction false} TwoPassesFill(text: string, name: string)
    requires IsLabelText(name)
    ensures ReplaceAll(ReplaceAll(text, "openlabel", "LB" + name), "closelabel", "LE" + name)
         == FillTokens(text, name)
    decreases |text|
  {
    var lb := "LB" + name;
    var le := "LE" + name;
    LabelAvoidsTokens(name, "closelabel");
    if MatchAt(text, "openlabel", 0) {
      var rest := text[9..];
      var y := ReplaceAll(rest, "openlabel", lb);
      assert ReplaceAll(text, "openlabel", lb) == lb + y;
      forall i | 0 <= i < |lb|
        ensures !MatchAt(lb + y, "closelabel", i)
      {
        assert (lb + y)[i] == lb[i] && lb[i] !in "closelabel";
        assert (lb + y)[i] != "closelabel"[0];
        NoMatchAtDiffer(lb + y, "closelabel", i, 0);
      }
      ReplaceAllSkip(lb, y, "closelabel", le);
      TwoPassesFill(rest, name);
    } else if MatchAt(text, "closelabel", 0) {
      var rest := text[10..];
      assert text == "closelabel" + rest;
      CloseTokenHidesOpen(rest);
      ReplaceAllSkip("closelabel", rest, "openlabel", lb);
      var y := ReplaceAll(rest, "openlabel", lb);
      assert ("closelabel" + y)[..10] == "closelabel";
      assert ("closelabel" + y)[10..] == y;
      TwoPassesFill(rest, name);
    } else if |text| > 0 {
      var rest := text[1..];
      var y := ReplaceAll(rest, "openlabel", lb);
      assert text == [text[0]] + rest;
      assert !MatchAt([text[0]] + rest, "openlabel", 0);
      ReplaceAllSkip([text[0]], rest, "openlabel", lb);
      if MatchAt([text[0]] + y, "closelabel", 0) {
        MatchThroughCopy(text, "openlabel", lb, "closelabel");
      }
      ReplaceAllSkip([text[0]], y, "closelabel", le);
      TwoPassesFill(rest, name);
    }
  }

  /** Template mode writes exactly the one-pass substitution of the label
      into the tokens, followed by the newline of `print`. */
  lemma TemplateIsFill(text: string, path: seq<nat>)
    ensures TemplateText(text, Label(path)) == FillTokens(text, Label(path)) + "\n"
  {
    TwoPassesFill(text, Label(path));
  }

  /** A template without tokens is written unchanged, followed by the newline
      of `print`, with no label line. */
  lemma TemplateWithoutTokens(text: string, name: string)
    requires !Occurs(text, "openlabel") && !Occurs(text, "closelabel")
    ensures TemplateText(text, name) == text + "\n"
  {
    ReplaceAllWithoutMatch(text, "openlabel", "LB" + name);
    ReplaceAllWithoutMatch(text, "closelabel", "LE" + name);
  }
}
