/** The reassembler `get_fixed_mermaid_data`
    (src/workflow_project/utils.py:24-43): every fenced "```mermaid" block the
    scan finds is stripped, repaired, and written back between fresh fences
    with a `\n` on each side, by a global replace of the block's original text;
    the fenced form of the last repaired source is returned beside the text,
    or a fixed fallback diagram when there is no block. */
module Reassemble {
  import opened PyStr
  import opened Repair
  import opened Extract

  /** The diagram returned when the text holds no block, with the leading
      newline and the indentation of the triple-quoted literal. */
  const Fallback: string := "\n    flowchart TD\n    A[No Mermaid diagram found]:::common\n    "

  /** `f"```mermaid\n{code}\n```"`. */
  function Fence(code: string): string {
    "```mermaid\n" + code + "\n```"
  }

  /** `s` starts with "```mermaid" and a newline and ends with a newline and
      "```". */
  predicate IsFenced(s: string) {
    |s| >= 15 && s[..11] == "```mermaid\n" && s[|s| - 4..] == "\n```"
  }

  lemma FenceShape(code: string)
    ensures IsFenced(Fence(code))
  {
  }

  /** A fenced source is the block of the capture that has the source between
      two newlines. */
  lemma FenceIsSpan(code: string)
    ensures Fence(code) == Span("\n" + code + "\n")
  {
  }

  /** `f"```mermaid{match}```"`: a block as it stood in the text. */
  function Span(capture: string): (s: string)
    ensures |s| > 0
  {
    Open + capture + Close
  }

  /** The repaired source of one capture: `fix_mermaid(match.strip())`. */
  function Repaired(capture: string): string {
    FixedSource(Strip(capture))
  }

  /** One step of the loop: every occurrence of the capture's block replaced
      by its repaired block. */
  function Rewrite(acc: string, capture: string): string {
    ReplaceAll(acc, Span(capture), Fence(Repaired(capture)))
  }

  /** The text after the loop has rewritten the captures `cs`, in order. */
  function FixedText(text: string, cs: seq<string>): string
    decreases |cs|
  {
    if cs == [] then text else Rewrite(FixedText(text, cs[..|cs| - 1]), cs[|cs| - 1])
  }

  /** The value of `fixed_code` after the loop has seen the captures `cs`. */
  function LastCode(cs: seq<string>): string {
    if cs == [] then Fallback else Repaired(cs[|cs| - 1])
  }

  /** One more capture: one more rewrite, and its repaired source is the
      current one. */
  lemma FoldStep(text: string, cs: seq<string>, n: nat)
    requires n < |cs|
    ensures FixedText(text, cs[..n + 1]) == Rewrite(FixedText(text, cs[..n]), cs[n])
    ensures LastCode(cs[..n + 1]) == Repaired(cs[n])
  {
    assert cs[..n + 1][..n] == cs[..n];
  }

  /** `get_fixed_mermaid_data(text)`: the rewritten text, and the last repaired
      source between fences (the fallback diagram when there is no block). */
  method GetFixedMermaidData(text: string) returns (fixedText: string, block: string)
    ensures fixedText == FixedText(text, Captures(text))
    ensures block == Fence(LastCode(Captures(text)))
    ensures Captures(text) == [] ==> fixedText == text && block == Fence(Fallback)
    ensures Captures(text) != [] ==>
      block == Fence(FixedSource(Strip(Captures(text)[|Captures(text)| - 1])))
    ensures IsFenced(block)
  {
    var matches := Captures(text);
    fixedText := text;
    var fixedCode := Fallback;
    for n := 0 to |matches|
      invariant fixedText == FixedText(text, matches[..n])
      invariant fixedCode == LastCode(matches[..n])
    {
      var originalCode := Strip(matches[n]);
      fixedCode := FixMermaid(originalCode);
      fixedText := ReplaceAll(fixedText, Span(matches[n]), Fence(fixedCode));
      FoldStep(text, matches, n);
    }
    assert matches[..|matches|] == matches;
    block := Fence(fixedCode);
    FenceShape(fixedCode);
  }

  /** A capture is settled when writing it back reproduces its own block. */
  predicate Settled(capture: string) {
    Fence(Repaired(capture)) == Span(capture)
  }

  /** A text whose blocks are all settled comes back unchanged. */
  lemma {:induction false} SettledUnchanged(text: string, cs: seq<string>)
    requires forall i :: 0 <= i < |cs| ==> Settled(cs[i])
    ensures FixedText(text, cs) == text
    decreases |cs|
  {
    if cs != [] {
      var c := cs[|cs| - 1];
      SettledUnchanged(text, cs[..|cs| - 1]);
      ReplaceSelf(text, Span(c));
    }
  }

  /** A document whose every block is already settled is returned as it is. */
  lemma AlreadyFixedUnchanged(text: string)
    requires forall i :: 0 <= i < |Captures(text)| ==> Settled(Captures(text)[i])
    ensures FixedText(text, Captures(text)) == text
  {
    SettledUnchanged(text, Captures(text));
  }

  /** Python's `strip` undoes the newlines the fences add around a stripped
      source. */
  lemma StripNewlines(f: string)
    requires IsStripped(f)
    ensures Strip("\n" + f + "\n") == f
  {
    var l := f + "\n";
    assert "\n" + f + "\n" == ['\n'] + l;
    StripLeftSpace('\n', l);
    if f == [] {
      StripLeftSpace('\n', []);
    } else {
      assert StripLeft(l) == l;
      StripRightSpace(f, '\n');
    }
  }

  /** A block already in the written form, a stripped source that
      `fix_mermaid` leaves alone between two newlines, is settled. */
  lemma FixedFormSettled(f: string)
    requires IsStripped(f) && FixedSource(f) == f
    ensures Settled("\n" + f + "\n")
  {
    StripNewlines(f);
    FenceIsSpan(f);
  }

  /** A block the reassembler writes is settled: read back, stripped and
      repaired again, it is written back as it is. */
  lemma RewrittenSettled(capture: string)
    ensures Settled("\n" + Repaired(capture) + "\n")
  {
    FixedSourceStripped(Strip(capture));
    FixedStrippedIdempotent(capture);
    FixedFormSettled(Repaired(capture));
  }

  /** Rewriting a text at a match whose block occurs nowhere else splices the
      repaired block in place of the old one. */
  lemma RewriteSplice(text: string, m: Match)
    requires IsMatch(text, m) && m.end + |Close| <= |text|
    requires forall k :: OccursAt(text, Span(Capture(text, m)), k) ==> k == m.start
    ensures Rewrite(text, Capture(text, m)) ==
      text[..m.start] + Fence(Repaired(Capture(text, m))) + text[m.end + |Close|..]
  {
    var c := Capture(text, m);
    MatchSpan(text, m);
    assert |Span(c)| == m.end + |Close| - m.start;
    ReplaceUnique(text, Span(c), Fence(Repaired(c)), m.start);
  }

  /** With one block `m`, capturing `c`, whose text occurs nowhere else, the
      global replace is a splice: the text before and after the block is
      kept. */
  lemma SingleBlockSplice(text: string, m: Match, c: string)
    requires Scan(text, 0) == [m] && Captures(text) == [c]
    requires forall k :: OccursAt(text, Span(c), k) ==> k == m.start
    ensures m.start + |Open| <= m.end && m.end + |Close| <= |text| &&
      FixedText(text, [c]) == text[..m.start] + Fence(Repaired(c)) + text[m.end + |Close|..]
  {
    CaptureOfMatch(text, 0);
    FoldOfOne(text, [c]);
    RewriteSplice(text, m);
  }

  /** The i-th capture is the captured text of the i-th match of the scan. */
  lemma CaptureOfMatch(text: string, i: nat)
    requires i < |Captures(text)|
    ensures var m := Scan(text, 0)[i];
      IsMatch(text, m) && m.end + |Close| <= |text| && Captures(text)[i] == Capture(text, m)
  {
    ScanIsFindAll(text, 0);
    FindAllOrdered(text, 0, Scan(text, 0));
  }

  /** The fold over one capture is one rewrite. */
  lemma FoldOfOne(text: string, cs: seq<string>)
    requires |cs| == 1
    ensures FixedText(text, cs) == Rewrite(text, cs[0])
  {
    assert cs[..0] == [];
  }
}
