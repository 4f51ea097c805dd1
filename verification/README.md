# Loop labels and indentation of a Brainfuck transpiler, in Dafny

This project models the core of a character-substitution transpiler for
Brainfuck (`lgbt.py` and its older sibling `bfac.py`). Each instruction
character of the input is replaced by the text an instruction mapping gives
for it. Characters without an entry are skipped. The loop brackets get extra
treatment, which depends on the mode:

* **Generic mode** (`emit` and `print_bf_char`, bfac.py). `emit` writes
  `unit * level` (four spaces per level) in front of each character that
  starts a line: a character other than `\n` and `\r` that comes right after a
  `\n` (any `\r` in between is skipped), or first in the text when the
  incoming line-start flag is set. A line that is only `\n` gets no
  indentation. A text that does not end in `\n` leaves the next text on the
  same line, with no new indentation. A `]` lowers the level before its text
  is written, clamped at 0, and a `[` raises it after its text. On input that
  closes more loops than it opens, the level is therefore not the number of
  open loops.
* **Assembly mode** (`print_bf_char_asm`, lgbt.py). Each loop gets a label
  made from the tracker's nesting path, for example `LB1_2` / `LE1_2`. A `[`
  writes a label line `LB<label>:` and replaces the last `]` of its text by
  `LE<label>`. A `]` replaces the last `[` of its text by `LB<label>` and then
  writes a label line `LE<label>:`.
* **Template mode** (`print_bf_char_label`, lgbt.py). Every `openlabel` in a
  bracket's text becomes `LB<label>` and every `closelabel` becomes
  `LE<label>`. No label lines are written.

The label tracker keeps two things: `lf`, the last bracket seen, and a stack
of sibling counters. On `[` it either bumps the top counter (right after a
`]`) or pushes 1. On `]` it pops only when the previous bracket was also a
`]`. The label is the stack in decimal, joined by `_`. Python's `print(x)`
becomes appending `x + "\n"` to the output string.

Modules, one per concern:

| file | module | contents |
|---|---|---|
| options.dfy | `Options` | `Option` datatype |
| instructions.dfy | `Instructions` | the mapping type, `Keep` (mapped characters only), `Mapped` (plain concatenation) |
| brackets.dfy | `Brackets` | nesting depth, prefix balance, the reference bracket matcher `OpenPositions` |
| labels.dfy | `Labels` | `str(n)`, label text `_lsout`, and a parser proving labels are injective |
| rewrite.dfy | `Rewrite` | `rsplit`/`join` last-occurrence replacement and `str.replace` |
| looplabels.dfy | `LoopLabels` | the tracker state, its steps, the fold `Track`, and its invariants |
| labelemitters.dfy | `LabelEmitters` | the assembly and template emitters and their run over an input |
| samples.dfy | `Samples` | worked inputs: the labels of `[[][]]` and the run over `[-]` in both modes |
| indent.dfy | `Indent` | `emit`, `print_bf_char`, the threaded fold of bfac.py, and lgbt.py's unthreaded fold |

Every fold recurses on the last character, so that a prefix of the input is
the input of an earlier step. The tracker's `IndexError` (the `ls[-1] += 1` or
`ls.pop()` on an empty stack) is `None`. A run keeps the output written
before the error in `Crashed(out)`, because the source has already printed it
when it exits.

Two behaviours of the tracker are easy to get wrong when reading the code:

- The label of a `]` is read *after* the possible pop (lgbt.py:136-138).
  Reading it after the pop is exactly what makes a `]` share its
  `[`'s label (`LoopLabels.MatchingBracketsSharePath`).
- The stack is not empty after a balanced input that contains at least one
  loop. An input without brackets leaves the empty stack of lgbt.py:46. A `]`
  that directly follows a `[` keeps its counter, so `[]` leaves `[1]` and
  `[][]` leaves `[2]`. The invariant is that the stack length is the depth after a `[` and the depth
  plus one after a `]` (`LoopLabels.StackTracksDepth`).

## Model

| member | source | states |
|---|---|---|
| Labels.Decimal | lgbt.py:111 | `str(n)` is a non-empty string of decimal digits, with no leading zero unless it is `"0"`, that reads back as `n` |
| Labels.Label | lgbt.py:109-111 | a label contains only digits and `_`, it is empty exactly when the path is empty, and a one-counter path gives that counter's decimal text |
| Labels.LabelSnoc | lgbt.py:111 | built from the back, one more counter appends `_` and its decimal text, so `[1, 2]` gives exactly `1_2` with no trailing separator or padding |
| Labels.LabelRoundTrip | lgbt.py:109-111 | splitting a label at `_` and reading each field gives back the path it was made from |
| Labels.LabelInjective | lgbt.py:109-111 | two paths have the same label if and only if they are equal |
| Rewrite.LastIndexOf | lgbt.py:130 | finds the last occurrence of a character: absent exactly when the character does not occur, otherwise it is that character and none follows it |
| Rewrite.ReplaceLast | lgbt.py:129-130 | `rep.join(s.rsplit(c, 1))` is `s` unchanged when `c` does not occur; otherwise only the last `c` is replaced by `rep` and everything before and after it is kept |
| Rewrite.ReplaceAll | lgbt.py:164-165 | `str.replace` with a non-empty pattern, as a left-to-right scan; `ReplaceAllWithoutMatch` and `ReplaceAllAt` together determine its result on every input |
| Rewrite.ReplaceAllAt | lgbt.py:164-165 | the leftmost match is replaced by `rep`, everything before it is copied, and replacement resumes right after the match |
| Rewrite.ReplaceAllWithoutMatch | lgbt.py:164-165 | `str.replace` leaves a text without the pattern unchanged |
| Rewrite.ReplaceAllNoOccurrence | lgbt.py:164-165 | after `str.replace(pat, rep)`, no `pat` remains, and no other token that was absent appears, when `rep` shares no character with that token |
| LoopLabels.Open | lgbt.py:120-126 | `[`: raises exactly when the last bracket was `]` and the stack is empty; after a `]` the top counter goes up by one, otherwise 1 is pushed; afterwards `lf` is `[` |
| LoopLabels.Close | lgbt.py:133-137 | `]`: raises exactly when the last bracket was `]` and the stack is empty; pops only after a `]`, keeps the stack after a `[`; afterwards `lf` is `]` |
| LoopLabels.Advance | lgbt.py:120-137 | one character: a bracket raises exactly when the last bracket was `]` and the stack is empty, otherwise it sets `lf` to itself; any other character leaves the tracker unchanged |
| LoopLabels.Track | lgbt.py:46 | starting from `lf = '['` and an empty stack, `lf` is always a bracket and every counter on the stack is positive |
| LoopLabels.TrackInvariant | lgbt.py:120-138 | on input that never closes more loops than it opens, the tracker never raises, each open `[` carries the matching prefix of the stack, and every `[` seen so far lies behind the frontier that later `[` are issued from |
| LoopLabels.StackTracksDepth | lgbt.py:120-138 | on such input, the stack length equals the bracket depth after a `[` and the depth plus one after a `]` |
| LoopLabels.MatchingBracketsSharePath | lgbt.py:133-138 | every `]` gets the same path, and so the same label, as the `[` that a stack-based bracket matcher pairs it with |
| LoopLabels.TrackSkipsOthers | lgbt.py:113-145 | a stretch of characters that are neither `[` nor `]` leaves the loop stack and `lf` exactly as they were |
| LoopLabels.SiblingAfterClose | lgbt.py:120-123 | the first `[` after a `]`, with only other instructions between them, gets the path of the loop that `]` closed with the last counter one higher, so sibling loops are numbered 1, 2, 3, … in source order |
| LoopLabels.NestedPathExtendsParent | lgbt.py:120-126 | the path of a nested open loop is its parent's path with one more counter |
| LoopLabels.OpenPathsDistinct | lgbt.py:120-126 | two different `[` of such input never get the same path |
| Samples.TrackerExample | lgbt.py:120-138 | on `[[][]]` the outer pair gets path `[1]`, the first inner pair `[1, 1]`, the second inner pair `[1, 2]`, and the tracker ends at `]` with stack `[1]` |
| LabelEmitters.AsmOpenText | lgbt.py:127-131 | assembly `[` writes `LB<label>:` and a newline, then its text with only the last `]` turned into `LE<label>` (unchanged without `]`), then a newline |
| LabelEmitters.AsmCloseText | lgbt.py:138-142 | assembly `]` writes its text with only the last `[` turned into `LB<label>` (unchanged without `[`), then a newline, then `LE<label>:` and a newline |
| LabelEmitters.PrintBfChar | lgbt.py:113-181 | in both modes: an unmapped character writes nothing and keeps the tracker; a mapped non-bracket writes its text verbatim and keeps the tracker; a mapped bracket raises exactly when the tracker step raises, and otherwise moves the tracker by that step |
| LabelEmitters.Run | lgbt.py:89-90 | the loop over the input's characters, stopping at the first IndexError; `RunFollowsTracker` and `RunLabelsBracket` state what it computes |
| LabelEmitters.RunFollowsTracker | lgbt.py:115-138 | a run over the input finishes exactly when the tracker fed only the mapped characters does not raise, and it ends in that tracker's state |
| LabelEmitters.BalancedRunFinishes | lgbt.py:120-138 | if the mapped brackets never close more loops than they open, neither mode raises |
| LabelEmitters.RunLabelsBracket | lgbt.py:127-142 | a mapped bracket appends its mode's text built from the label of the tracker's path after that bracket |
| LabelEmitters.TemplateText | lgbt.py:162-166 | template text ends with the newline of `print`; `TemplateIsFill` states what comes before it |
| LabelEmitters.TemplateIsFill | lgbt.py:162-178 | the two `replace` passes equal a one-pass scan `FillTokens` that turns each `openlabel` into `LB<label>` and each `closelabel` into `LE<label>` and copies everything else, followed by a newline |
| LabelEmitters.TemplateLeavesNoTokens | lgbt.py:161-178 | template mode leaves no `openlabel` and no `closelabel` in a bracket's text |
| LabelEmitters.TemplateWithoutTokens | lgbt.py:162-166 | a bracket text without tokens is written unchanged plus the newline of `print`, with no label line |
| Samples.SingleLoopExample | lgbt.py:113-178 | in either mode, `[-]` is written as the `[` text labelled `1`, the body text, then the `]` text labelled `1`, and the run finishes |
| Indent.Emit | bfac.py:45-54 | `emit` returns its input flag for empty text, returns true when the text ends in `\n`, and returns false when it ends in any other character except `\r` (lgbt.py:187-196 is the same code) |
| Indent.EmitIsWeave | bfac.py:47-54 | `emit` writes the text with `unit * level` in front of exactly the characters that are not `\n`/`\r` and come right after a line start; its flag is the reference flag at the end of the text |
| Indent.UnweaveWeave | bfac.py:47-53 | deleting the inserted indentation gives back exactly the text |
| Indent.IndentOncePerLine | bfac.py:48-50 | after an indented character, no further indentation is inserted before the next `\n` |
| Indent.EmitOneLine | bfac.py:47-54 | a single line ending in its only `\n` is written with one indentation in front (none at level 0 or off line start), and `emit` returns true |
| Indent.Dedent | bfac.py:79 | `max(0, level - 1)`: one less for a positive level, 0 at level 0 |
| Indent.PrintBfChar | bfac.py:71-91 | an unmapped character writes nothing and keeps level and flag; `[` raises the level by one after writing; `]` lowers it by one, clamped at 0, before writing; other characters keep it |
| Indent.PrintBfCharWeaves | bfac.py:77-89 | a mapped character's text is written at the lowered level for `]` and at the current level otherwise, indented exactly at its marked characters, and the flag is the reference flag at the end of that text |
| Indent.Convert | bfac.py:107-108 | the fold that threads level and flag from `(0, True)` through every character; `ConvertIsWeave`, `ConvertFlag` and `LevelTracksDepth` state what it computes |
| Indent.ConvertIsWeave | bfac.py:104-108 | the output of the threaded fold is the concatenated mapped text with indentation woven in |
| Indent.ConvertStripsToMapped | bfac.py:104-108 | deleting the indentation from the fold's output gives back exactly the concatenation of the mapped texts |
| Indent.ConvertFlag | bfac.py:47-54 | after the whole fold, the line-start flag is the reference flag at the end of the concatenated mapped text, started at a line start |
| Indent.ConvertPadsMarked | bfac.py:47-50 | across the whole output, indentation appears only in front of characters that start a line of the concatenated mapped text |
| Indent.ConvertPadsAreSpaces | bfac.py:58 | all inserted indentation consists of spaces |
| Indent.LevelTracksDepth | bfac.py:78-89 | if the mapped brackets never close more loops than they open, the level after the fold equals the number of mapped `[` minus the number of mapped `]` |
| Indent.BalancedReturnsToZero | bfac.py:108 | balanced input brings the level back to 0 |
| Indent.ThreadedIndentsLoopBody | bfac.py:108 | in the program `[+`, the body line is written one indentation unit deep |
| Indent.UnthreadedConvert | lgbt.py:240-241 | lgbt.py's loop, which passes `(0, True)` to every call and drops the result; `UnthreadedIsPlainConcat` states what it computes |
| Indent.UnthreadedIsPlainConcat | lgbt.py:237-241 | lgbt.py's generic mode writes the plain concatenation of the mapped texts, with no indentation at all |
| Indent.UnthreadedLosesIndentation | lgbt.py:241 | in the program `[+`, lgbt.py's generic mode writes the body line unindented, so its output differs from bfac.py's |

## Left out

- `load_instructions` (both files) is left out. It covers JSON parsing, the missing-key warning and `sys.exit`. The mapping is a parameter, `map<char, string>`, and `DEFAULT_INSTRUCTIONS` is not modelled.
- `print_file_raw`, `operationla`, and the file handling in `convert_generic`, `convert_asm`, `convert_label` and `convert_brainfuck` are left out. They are header/tail passthrough and open/read error reporting. The model starts from the already-read characters of the main file.
- `main` in both files is left out: argument counting, `--asm`/`--label`/`-m` parsing, and the usage text.
- The `else: print(text, end='')` branches of `print_bf_char` and `print_bf_char_generic` are not modelled. `indent_unit` is the constant `"    "`, so `use_indent` is always true and those branches never run.
- The module-level `state` of lgbt.py is modelled as a value threaded from `LoopLabels.Init`. One process converts one file, so this is the same behaviour.
- The tracker's `IndexError` on unbalanced input is modelled as the run's `Crashed` outcome. The diagnostic text that `operationla` prints for it is not modelled.

## Findings

| source | as written | input that shows it | evidently intended | confidence | as-written member | corrected member |
|---|---|---|---|---|---|---|
| lgbt.py:241 | the loop calls `print_bf_char_generic(char, indent_level, at_line_start)` and discards the returned level and flag, so every character is written at level 0 | the default mapping (each text one line) and the input `[+`: the body line `inc *p` comes out unindented | thread the returned pair as bfac.py:108 does, so that loop bodies are indented | not executed; high (the function computes and returns the new state only for it to be threaded) | Indent.UnthreadedConvert, shown by Indent.UnthreadedLosesIndentation | Indent.Convert, with Indent.ThreadedIndentsLoopBody and Indent.LevelTracksDepth |
