/** The instruction mapping: each Brainfuck character that has an entry is
    replaced by its text, every other character is skipped. */
module Instructions {

  type Mapping = map<char, string>

  /** The characters of `s` that have an entry in `m`, in order: the only
      characters that reach an emitter. */
  function Keep(s: string, m: Mapping): (r: string)
    ensures |r| <= |s|
    ensures forall k :: 0 <= k < |r| ==> r[k] in m
    decreases |s|
  {
    if |s| == 0 then ""
    else Keep(s[..|s|-1], m) + (if s[|s|-1] in m then [s[|s|-1]] else "")
  }

  /** The replacement texts of the characters of `s`, concatenated with no
      indentation and no labels. */
  function Mapped(m: Mapping, s: string): (r: string)
    decreases |s|
  {
    if |s| == 0 then ""
    else Mapped(m, s[..|s|-1]) + (if s[|s|-1] in m then m[s[|s|-1]] else "")
  }
}
