/** Small worked inputs for the loop-label tracker and the label emitters. */
module Samples {
  import opened Options
  import opened Instructions
  import opened Labels
  import opened LoopLabels
  import opened LabelEmitters

  lemma PathAtOf(s: string, i: nat, t: Tracker)
    requires i < |s| && Track(s[..i+1]) == Some(t)
    ensures PathAt(s, i) == t.stack
  {
  }

  /** The tracker one character further along `s`. */
  lemma StepAt(s: string, i: nat, t: Tracker, t': Tracker)
    requires i < |s| && Track(s[..i]) == Some(t) && Advance(t, s[i]) == Some(t')
    ensures Track(s[..i+1]) == Some(t')
  {
    assert s[..i+1] == s[..i] + [s[i]];
    TrackStep(s[..i], s[i], t, t');
  }

  /** The program `[[][]]`: two sibling loops inside a third. */
  predicate IsSiblingLoops(s: string)
  {
    && |s| == 6 && s[0] == '[' && s[1] == '[' && s[2] == ']'
    && s[3] == '[' && s[4] == ']' && s[5] == ']'
  }

  lemma SiblingLoopsFirst(s: string)
    requires IsSiblingLoops(s)
    ensures Track(s[..3]) == Some(Tracker(']', [1, 1]))
    ensures PathAt(s, 0) == [1] && PathAt(s, 1) == [1, 1] && PathAt(s, 2) == [1, 1]
  {
    assert s[..0] == [];
    assert Init.stack + [1] == [1] && [1] + [1] == [1, 1];
    StepAt(s, 0, Init, Tracker('[', [1]));
    StepAt(s, 1, Tracker('[', [1]), Tracker('[', [1, 1]));
    StepAt(s, 2, Tracker('[', [1, 1]), Tracker(']', [1, 1]));
    PathAtOf(s, 0, Tracker('[', [1]));
    PathAtOf(s, 1, Tracker('[', [1, 1]));
    PathAtOf(s, 2, Tracker(']', [1, 1]));
  }

  /** Two sibling loops inside a third: the outer pair is labelled `[1]`,
      the first inner pair `[1, 1]` and the second inner pair `[1, 2]`. */
  lemma TrackerExample(s: string)
    requires IsSiblingLoops(s)
    ensures Track(s) == Some(Tracker(']', [1]))
    ensures PathAt(s, 0) == [1] && PathAt(s, 5) == [1]
    ensures PathAt(s, 1) == [1, 1] && PathAt(s, 2) == [1, 1]
    ensures PathAt(s, 3) == [1, 2] && PathAt(s, 4) == [1, 2]
  {
    SiblingLoopsFirst(s);
    assert s[..6] == s;
    assert Bump([1, 1]) == [1, 2] && [1, 2][..1] == [1];
    StepAt(s, 3, Tracker(']', [1, 1]), Tracker('[', [1, 2]));
    StepAt(s, 4, Tracker('[', [1, 2]), Tracker(']', [1, 2]));
    StepAt(s, 5, Tracker(']', [1, 2]), Tracker(']', [1]));
    PathAtOf(s, 3, Tracker('[', [1, 2]));
    PathAtOf(s, 4, Tracker(']', [1, 2]));
    PathAtOf(s, 5, Tracker(']', [1]));
  }

  /** The run one character further along `s`. */
  lemma RunAt(mode: Mode, m: Mapping, s: string, i: nat, t: Tracker, o: string, st: Stepped)
    requires i < |s| && Run(mode, m, s[..i]) == Finished(t, o)
    requires PrintBfChar(mode, m, t, s[i]) == Some(st)
    ensures Run(mode, m, s[..i+1]) == Finished(st.tracker, o + st.out)
  {
    assert s[..i+1] == s[..i] + [s[i]];
    RunStep(mode, m, s[..i], s[i], t, o, st);
  }

  /** A mapped bracket writes its mode's text with the label after the step. */
  lemma BracketStep(mode: Mode, m: Mapping, t: Tracker, c: char, t': Tracker)
    requires c in m && (c == '[' || c == ']') && Advance(t, c) == Some(t')
    ensures PrintBfChar(mode, m, t, c) == Some(Stepped(t', BracketText(mode, c, m[c], Label(t'.stack))))
  {
  }

  /** A one-loop program `[-]`, as a predicate so that it is not unrolled. */
  predicate IsSingleLoop(s: string)
  {
    |s| == 3 && s[0] == '[' && s[1] == '-' && s[2] == ']'
  }

  lemma SingleLoopOpens(mode: Mode, m: Mapping, s: string)
    requires IsSingleLoop(s) && '[' in m
    ensures Run(mode, m, s[..1]) == Finished(Tracker('[', [1]), BracketText(mode, '[', m['['], "1"))
  {
    assert s[..0] == [] && Init.stack + [1] == [1];
    assert Label([1]) == "1";
    BracketStep(mode, m, Init, '[', Tracker('[', [1]));
    RunAt(mode, m, s, 0, Init, "", Stepped(Tracker('[', [1]), BracketText(mode, '[', m['['], "1")));
  }

  lemma SingleLoopBody(mode: Mode, m: Mapping, s: string)
    requires IsSingleLoop(s) && '[' in m && '-' in m
    ensures Run(mode, m, s[..2]) == Finished(Tracker('[', [1]), BracketText(mode, '[', m['['], "1") + m['-'])
  {
    SingleLoopOpens(mode, m, s);
    RunAt(mode, m, s, 1, Tracker('[', [1]), BracketText(mode, '[', m['['], "1"), Stepped(Tracker('[', [1]), m['-']));
  }

  /** A single loop `[-]`: both brackets are labelled `1` and the body text
      sits between them. */
  lemma SingleLoopExample(mode: Mode, m: Mapping, s: string)
    requires IsSingleLoop(s)
    requires '[' in m && '-' in m && ']' in m
    ensures Run(mode, m, s) == Finished(Tracker(']', [1]),
      BracketText(mode, '[', m['['], "1") + m['-'] + BracketText(mode, ']', m[']'], "1"))
  {
    assert s[..3] == s;
    assert Label([1]) == "1";
    var o := BracketText(mode, '[', m['['], "1") + m['-'];
    SingleLoopBody(mode, m, s);
    BracketStep(mode, m, Tracker('[', [1]), ']', Tracker(']', [1]));
    RunAt(mode, m, s, 2, Tracker('[', [1]), o, Stepped(Tracker(']', [1]), BracketText(mode, ']', m[']'], "1")));
  }
}
