# Mermaid diagram repair, modelled in Dafny

The workflow assistant asks a language model for an answer that embeds a
Mermaid flowchart in a fenced block (three backticks followed by `mermaid`). Before
the answer is shown, `src/workflow_project/utils.py` cleans the diagram. This
project models that post-processing step and proves what it does.

- `fix_mermaid(code)` repairs a diagram source line by line. The **style rule**
  applies to a line that mentions `classDef`: it turns `fill=`, `stroke=` and
  `color=` into `fill:`, `stroke:` and `color:`. The **bracket rule** applies
  to a line that holds both `[` and `]`. It takes the text between the first
  `[` and the first `]` of the line. If that text holds parentheses, they
  become `-`. The lines are then joined with `\n`.
- `get_fixed_mermaid_data(text)` finds every block of the non-greedy pattern
  "```mermaid(.*?)```" (DOTALL), strips each capture and repairs it. It then
  replaces every occurrence of the block's original text with the repaired
  block "```mermaid\n" + source + "\n```". It returns the rewritten text
  together with the last repaired block. When there is no block, the second
  result is a fallback diagram.

The modules follow that structure:

- `PyStr` (`pystr.dfy`) holds the Python string operations the code relies on:
  - `find` and `in`;
  - `replace`: leftmost, non-overlapping, every occurrence;
  - `strip`, over the `str.isspace` characters;
  - `splitlines`, over Python's full set of line boundaries, with `\r\n` as a
    single boundary; a final line break does not start an empty last line,
    but a blank line before it is kept (`"a\n\n"` gives `"a"` and `""`);
  - `"\n".join`.
- `Repair` (`repair.dfy`) models `fix_mermaid`:
  - the method `FixMermaid` and its per-line body `RepairLine`;
  - the specification functions `StyleFix`, `BracketFix`, `FixLine` and
    `FixedSource`.
- `Extract` (`extract.dfy`) models `re.findall`:
  - as an indexed scan: find the next "```mermaid", then the next "```" after it,
    and resume after that;
  - it is proved equal to a declarative reading of the regular expression
    (`IsFindAll`), which admits exactly one match sequence.
- `Reassemble` (`reassemble.dfy`) models `get_fixed_mermaid_data` as the
  method `GetFixedMermaidData`. It loops over the captures and keeps the two
  accumulators. It is proved against the fold `FixedText` and the last-match
  selection `LastCode`.

Five behaviours of the code are easy to misread:

- **The bracket rule uses the first `]` of the line**, not the first `]`
  after the `[`. When that `]` comes first, the slice is empty and the line
  is unchanged.
- **Reassembly is a global `str.replace`** of the block's full original text,
  done once per match in match order. It is not a positional splice.
  - Every other occurrence of the same text is rewritten too.
  - That includes an occurrence the scan did not report as a block. For
    example, one can start inside the four-backtick run that closes an
    earlier block.
  - `SingleBlockSplice` states the case in which the two coincide.
- **The fallback diagram keeps the triple-quoted literal's leading newline
  and four-space indentation**:
  `"\n    flowchart TD\n    A[No Mermaid diagram found]:::common\n    "`.
- **The function returns a pair**, although it is annotated `-> str`. It is
  modelled as a method with two results.
- **`fix_mermaid` does not keep a trailing blank line, drops the final line
  break, and rewrites every other line break as `\n`**. `"a\n\n"` has the
  two lines `"a"` and `""`, but is repaired into `"a\n"`, which has one line
  and is repaired again into `"a"` (`TrailingBreak`). Keeping the line count and repairing twice equalling
  repairing once can thus fail on a source whose last line is blank, and
  they hold on every other source (`FixedSourceLines`,
  `FixedSourceIdempotent`): `"a\n"` ends in a line break, but its last line
  `"a"` is not blank, and both hold for it. The reassembler passes only
  stripped sources, whose last line is never blank (`BreakFreeEnd`), and on
  those both hold (`FixedStrippedIdempotent`).

## Model

| member | source | states |
|---|---|---|
| Repair.StyleFix | src/workflow_project/utils.py:8-13 | The style rule as a definition: on a line containing `classDef`, the three replaces `fill=`→`fill:`, `stroke=`→`stroke:`, `color=`→`color:` in that order; any other line as it is. |
| Repair.CleanLabel | src/workflow_project/utils.py:18 | A label with every `(` and then every `)` replaced by `-`. |
| Repair.BracketFix | src/workflow_project/utils.py:15-19 | The bracket rule as a definition: when the line contains both `[` and `]`, take i = the first `[` and j = the first `]` of the whole line (not the first `]` after i). The label is `line[i+1:j]`, empty when j <= i. If the label holds a parenthesis, the line becomes `line[:i+1]` + cleaned label + `line[j:]`; otherwise, and when a bracket is missing, it is returned as it is. |
| Repair.FixLine | src/workflow_project/utils.py:7-20 | One line of the loop: the style rule, then the bracket rule applied to its result. |
| Repair.FixedSource | src/workflow_project/utils.py:4-21 | What `fix_mermaid(code)` returns: the `splitlines` lines of the source, each repaired by `FixLine`, joined with `\n`. |
| Repair.TrailingBreak | src/workflow_project/utils.py:4-21 | On `"a\n\n"`: it splits into `"a"` and `""`, is repaired into `"a\n"`, which splits into `"a"` alone and is repaired into `"a"`. So repairing twice can differ from repairing once on a source whose last line is blank; here the line count drops from 2 to 1. On `"a\n"` the final break is dropped: it is repaired into `"a"`. |
| Repair.LoneBreak | src/workflow_project/utils.py:4-21 | A blank last line does not always break idempotence: `"\n"` splits into the one blank line `""`, is repaired into `""`, and repairing that again gives `""` once more. |
| Repair.FixMermaid | src/workflow_project/utils.py:4-21 | The loop over `splitlines()` that appends each repaired line and joins with `\n` returns `FixedSource(code)`. The loop invariant is that the collected lines are the repairs of the lines seen so far. |
| Repair.RepairLine | src/workflow_project/utils.py:7-20 | The loop body rebinds `line` through the three style replacements and the label splice. It yields exactly `FixLine(line)`: the style rule, then the bracket rule. |
| Repair.StyleRule | src/workflow_project/utils.py:8-13 | The style rule changes only `=` characters, each into `:`, and keeps the length. On a `classDef` line it leaves no `fill=`, `stroke=` or `color=`. Any other line passes unchanged. |
| Repair.BracketRule | src/workflow_project/utils.py:15-19 | Let i be the first `[` and j the first `]`. The rule only turns parentheses into `-` and keeps the length. If i < j, no parenthesis is left strictly between i and j, and every character at or outside i and j is kept. If a bracket is missing or j < i, the line is untouched. The first `[` and the first `]` do not move. |
| Repair.BracketFixAt | src/workflow_project/utils.py:15-19 | The bracket rule character by character: the output at k is `-` exactly when i < k < j and the input has a parenthesis at k; otherwise it is the input character. |
| Repair.FixLineShape | src/workflow_project/utils.py:6-20 | A repaired line has the length of its input. It differs only by `=`→`:` and parenthesis→`-` swaps and gains no line break. A line with neither `classDef` nor both brackets is returned unchanged. |
| Repair.FixedSourceLines | src/workflow_project/utils.py:4-21 | On a source whose last `splitlines` line is not blank (or that has no lines), `fix_mermaid` neither adds, removes nor reorders lines. Output line i is the repair of input line i, has the same length, and differs only by the rules' swaps. |
| Repair.FixedSourceSwapsOnly | src/workflow_project/utils.py:4-21 | Take a source whose only line breaks are `\n` and that does not end in one. The repaired source has the same length and differs only by `=`→`:` and parenthesis→`-` swaps. |
| Repair.FixLineIdempotent | src/workflow_project/utils.py:6-20 | Repairing a repaired line changes nothing. |
| Repair.BracketFixIdempotent | src/workflow_project/utils.py:15-19 | The bracket rule is idempotent: the cleaned label holds no parenthesis and the brackets have not moved. |
| Repair.StyleSettled | src/workflow_project/utils.py:8-19 | After a whole-line repair, the style rule has nothing left to do. The bracket rule neither creates `classDef` nor brings back a key with `=`. |
| Repair.BreakFreeEnd | src/workflow_project/utils.py:6 | A source that is empty or does not end in a line break has no blank last `splitlines` line, so it meets the requires of `FixedSourceLines` and `FixedSourceIdempotent`. |
| Repair.FixedSourceIdempotent | src/workflow_project/utils.py:4-21 | `fix_mermaid(fix_mermaid(s)) == fix_mermaid(s)` for every source whose last `splitlines` line is not blank (or that has no lines). |
| Repair.FixedStrippedIdempotent | src/workflow_project/utils.py:4-21 | `fix_mermaid` is idempotent on every stripped source, the form in which the reassembler passes sources to it. |
| Repair.FixedSourceStripped | src/workflow_project/utils.py:4-21 | A stripped source stays stripped after repair: its outer characters can only turn into `:` or `-`, never into whitespace. |
| Extract.Advance | src/workflow_project/utils.py:26-27 | One step of `findall`: the first "```mermaid" at or after the resume point, then the first "```" at or after the end of that fence; nothing when either is missing. A match found lies inside the text, after the resume point. |
| Extract.Scan | src/workflow_project/utils.py:26-27 | The matches of `findall`: step after step, each resuming just after the previous closing fence, until a step finds nothing. |
| Extract.Captures | src/workflow_project/utils.py:27 | What `re.findall` returns: the text between the two fences of each match, in scan order, one capture per match. |
| Extract.ScanIsFindAll | src/workflow_project/utils.py:26-27 | The scan is a sequence of matches of the non-greedy pattern under the regular-expression reading. Each match is the leftmost opening fence at or after the resume point, closed by the first "```" after it. Scanning resumes after that closing fence. When no match remains possible, the sequence ends. |
| Extract.FindAllUnique | src/workflow_project/utils.py:26-27 | Any sequence satisfying that reading is the scan, so the scan is the only possible `findall` result. |
| Extract.FindAllOrdered | src/workflow_project/utils.py:26-27 | Matches lie inside the text, each is a non-greedy match, and each starts at or after the end of the previous closing fence: left to right, with no overlaps. |
| Extract.CapturesAreSpans | src/workflow_project/utils.py:26-27 | For each capture, "```mermaid" + capture + "```" stands in the text at its match. No capture contains "```". |
| Extract.MatchSpan | src/workflow_project/utils.py:26 | For one match, the fenced span is the text at the match, and the capture holds no closing fence. |
| Extract.Unterminated | src/workflow_project/utils.py:26-27 | Take an opening fence with no "```" anywhere after it. Every match starts before it, and every match's closing fence starts before that opening fence ends. So the fence itself opens no match. |
| Extract.NoMatchIff | src/workflow_project/utils.py:26-27 | `findall` returns nothing exactly when no opening fence has a closing fence after it. |
| Reassemble.Fence | src/workflow_project/utils.py:40 | The block written back: "```mermaid\n" + source + "\n```" (also the second result, line 43). |
| Reassemble.Span | src/workflow_project/utils.py:40 | The text a capture stood in: "```mermaid" + capture + "```", never empty. |
| Reassemble.Repaired | src/workflow_project/utils.py:35-36 | The repaired source of one capture: `fix_mermaid(match.strip())`. |
| Reassemble.Rewrite | src/workflow_project/utils.py:39-41 | One step of the loop: a global `str.replace` of every occurrence of the capture's span by the fenced repaired source, not a splice at the match. |
| Reassemble.FixedText | src/workflow_project/utils.py:29-41 | `fixed_text` after the loop has seen the given captures: the text, rewritten by each capture in turn, in order. |
| Reassemble.LastCode | src/workflow_project/utils.py:30-36 | `fixed_code` after the loop has seen the given captures: the repair of the last one, or, with none, the fallback literal `Fallback`, kept with its leading newline and four-space indentation: `"\n    flowchart TD\n    A[No Mermaid diagram found]:::common\n    "`. |
| Reassemble.GetFixedMermaidData | src/workflow_project/utils.py:24-43 | The loop keeps `fixed_text` equal to the fold of global replaces over the captures seen so far. It keeps `fixed_code` equal to the repair of the last capture seen, or the fallback. The results are that fold over all captures and the fenced last repair. With no captures, the results are exactly `(text, fenced fallback)`. Otherwise the block is the stripped, repaired last capture between fences. The block always starts with "```mermaid\n" and ends with "\n```". |
| Reassemble.FoldStep | src/workflow_project/utils.py:34-41 | One more capture adds one more global replace of its span by its repaired block, and makes that capture's repair the current `fixed_code`. |
| Reassemble.FenceShape | src/workflow_project/utils.py:43 | A fenced source starts with "```mermaid\n" and ends with "\n```". |
| Reassemble.SingleBlockSplice | src/workflow_project/utils.py:29-41 | With exactly one block, whose text occurs nowhere else in the document, the rewritten text is a splice. The text before and after the block is kept, and the block is replaced by its repaired, fenced form. |
| Reassemble.RewriteSplice | src/workflow_project/utils.py:39-41 | One global replace at a match whose span occurs only there is a splice at that match. |
| Reassemble.SettledUnchanged | src/workflow_project/utils.py:34-41 | The fold over captures that are all settled (writing back reproduces the block) leaves the text unchanged. |
| Reassemble.AlreadyFixedUnchanged | src/workflow_project/utils.py:29-41 | A document whose every block is settled comes back unchanged. |
| Reassemble.FixedFormSettled | src/workflow_project/utils.py:35-40 | A block already of the form "```mermaid\n" + f + "\n```", with f stripped and `fix_mermaid(f) == f`, is settled. |
| Reassemble.RewrittenSettled | src/workflow_project/utils.py:35-40 | Every block the reassembler writes is settled: read back, stripped and repaired again, it is written back unchanged. |
| Reassemble.StripNewlines | src/workflow_project/utils.py:35-40 | Stripping undoes the two newlines the fences add around a stripped source. |
| PyStr.Slice | src/workflow_project/utils.py:16 | Python's `s[a:b]` for in-range indices, as a plain definition: the characters from a up to b, or empty when b < a. |
| PyStr.ReplaceAll | src/workflow_project/utils.py:10-12 | Python's `s.replace(pat, rep)` (also lines 18 and 39-41): scanning left to right, each occurrence of `pat` is replaced and scanning resumes after it, so replaced occurrences never overlap. |
| PyStr.JoinLines | src/workflow_project/utils.py:21 | Python's `"\n".join(lines)`: empty for no lines, the lines with `\n` between consecutive ones otherwise. |
| PyStr.FindFrom | src/workflow_project/utils.py:16 | Python's `s.find(p, from)`: the first index at or after `from` where `p` stands in `s`, or -1; a found index lies at or after `from` and leaves room for `p` in `s`. |
| PyStr.Find | src/workflow_project/utils.py:16 | Python's `s.find(p)`, as a plain definition: `FindFrom` from index 0. |
| PyStr.Contains | src/workflow_project/utils.py:8 | Python's `p in s`, as a plain definition: `find` does not return -1 (used at lines 8, 15 and 17). |
| PyStr.FindFromSpec | src/workflow_project/utils.py:16-19 | `find` returns the first occurrence at or after the start, or -1 when there is none. |
| PyStr.FindChar | src/workflow_project/utils.py:16 | `find` of one character returns the first index holding it, or -1 if it is absent. |
| PyStr.ContainsIff | src/workflow_project/utils.py:15 | `p in s` holds exactly when `p` occurs somewhere in `s`. |
| PyStr.ReplaceSwaps | src/workflow_project/utils.py:10-18 | Replacing a pattern by one of equal length that differs only by swaps from a set of characters into one character is itself such a swap of the whole string. |
| PyStr.ReplaceChar | src/workflow_project/utils.py:18 | Replacing one character by another changes exactly the positions holding the first character. |
| PyStr.KeyRepairRemoves | src/workflow_project/utils.py:10-12 | After `replace("fill=", "fill:")` (and the two siblings) no occurrence of the key with `=` is left. |
| PyStr.ReplaceAbsent | src/workflow_project/utils.py:10-12 | Replacing a pattern that does not occur changes nothing. |
| PyStr.ReplaceSelf | src/workflow_project/utils.py:39-41 | Replacing a pattern by itself changes nothing. |
| PyStr.ReplaceUnique | src/workflow_project/utils.py:39-41 | Replacing a pattern that occurs exactly once is a splice at that occurrence. |
| PyStr.IsSpace | src/workflow_project/utils.py:35 | Python's `str.isspace` for one character, as a plain definition: the code points U+0009-U+000D, U+001C-U+0020, U+0085, U+00A0, U+1680, U+2000-U+200A, U+2028, U+2029, U+202F, U+205F and U+3000, which `strip()` removes. |
| PyStr.Strip | src/workflow_project/utils.py:35 | `strip` removes exactly the leading and trailing whitespace: the result is a slice of the input that starts and ends in non-whitespace, with only whitespace around it. |
| PyStr.StripOfStripped | src/workflow_project/utils.py:35 | Stripping a stripped string changes nothing. |
| PyStr.IsLineBreak | src/workflow_project/utils.py:6 | The line boundaries of `str.splitlines`, as a plain definition: the code points U+000A-U+000D, U+001C-U+001E, U+0085, U+2028 and U+2029 (with `\r\n` taken as one break by `SplitLines`). |
| PyStr.SplitLines | src/workflow_project/utils.py:6 | No line from `splitlines` holds a line break. |
| PyStr.SplitJoin | src/workflow_project/utils.py:6-21 | Lines without breaks whose last line is not empty survive being joined with `\n` and split again. |
| PyStr.JoinSplit | src/workflow_project/utils.py:6-21 | A text whose only line breaks are `\n`, and that does not end in one, is what joining its lines gives back. |
| PyStr.SplitLastNonEmpty | src/workflow_project/utils.py:6 | A text that does not end in a line break splits into lines only if it is non-empty. Its last line is then non-empty and ends as the text does. |

## Left out

- `src/workflow_project/graph.py` is not part of this model: it holds the language-model calls, the LangGraph wiring, and the tracing and environment setup, all of which are foreign calls and network I/O.
- `src/workflow_project/app.py` is not part of this model: it is the Gradio user interface, with asynchronous streaming.
- `src/workflow_project/prompts.py` is not part of this model: it holds static prompt templates only.
- `wsgi.py` and `test_imports.py` are not part of this model: they are deployment setup and import checks.
- Python's regular-expression engine is not modelled in general. The one pattern used is modelled as an indexed scan and proved equal to its declarative reading.
- Strings are sequences of Dafny characters, which are Unicode scalar values. A Python string holding a lone surrogate code point has no counterpart.
- PyStr.ReplaceAll: requires a non-empty pattern, unlike `str.replace`, which inserts between every character when given an empty pattern. Every pattern the code passes is non-empty: the fenced span is at least 13 characters.
- Reassemble.GetFixedMermaidData: whole-document idempotence and block-count preservation are proved only in this restricted form.
  - Proved: every block written back is settled (`RewrittenSettled`), and a document whose every block is settled is unchanged (`AlreadyFixedUnchanged`).
  - Left open: that scanning the rewritten document finds exactly the rewritten blocks.
  - Why it is left open: the global replace can also rewrite text that the scan did not report as a block, so that step does not hold for every input.
- Examples of the rules on literal lines are not stated as lemmas; they are instances of `StyleRule` and `BracketRule`. For example, `classDef done fill=#cfc,color=#000` becomes `classDef done fill:#cfc,color:#000`, and `B[Review (draft)]` becomes `B[Review -draft-]`.
- Repair.FixedSourceLines: requires a source whose last line is not blank, because the line count can fail on one whose last line is blank: the code drops that line (`TrailingBreak`). Every source the reassembler passes is stripped, so it meets the requires (`BreakFreeEnd`).
- Repair.FixedSourceIdempotent: requires a source whose last line is not blank, because idempotence can fail on one whose last line is blank: on `"a\n\n"` repairing twice differs from repairing once (`TrailingBreak`). For every stripped source, the form the reassembler passes, idempotence holds without a requires (`FixedStrippedIdempotent`).
