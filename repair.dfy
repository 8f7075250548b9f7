/** The line repairer `fix_mermaid` (src/workflow_project/utils.py:4-21): the
    diagram source is split into lines, each line gets the style rule and then
    the bracket rule, and the lines are joined again with `\n`. */
module Repair {
  import opened PyStr

  /** The style rule: on a line mentioning `classDef`, the keys `fill=`,
      `stroke=` and `color=` become `fill:`, `stroke:` and `color:`. */
  function StyleFix(line: string): string {
    if Contains(line, "classDef") then
      ReplaceAll(ReplaceAll(ReplaceAll(line, "fill=", "fill:"), "stroke=", "stroke:"), "color=", "color:")
    else line
  }

  /** Each `(` and `)` of a label turned into `-`. */
  function CleanLabel(inside: string): string {
    ReplaceAll(ReplaceAll(inside, "(", "-"), ")", "-")
  }

  /** The bracket rule: on a line holding both `[` and `]`, the text between the
      first `[` and the first `]` of the line (empty when that `]` comes first)
      has each `(` and `)` turned into `-`, if it holds any. */
  function BracketFix(line: string): string {
    if Contains(line, "[") && Contains(line, "]") then
      var i := Find(line, "[");
      var j := Find(line, "]");
      var inside := Slice(line, i + 1, j);
      if Contains(inside, "(") || Contains(inside, ")") then
        line[..i + 1] + CleanLabel(inside) + line[j..]
      else line
    else line
  }

  /** One line of `fix_mermaid`: the style rule, then the bracket rule. */
  function FixLine(line: string): string {
    BracketFix(StyleFix(line))
  }

  function FixLines(lines: seq<string>): seq<string> {
    seq(|lines|, k requires 0 <= k < |lines| => FixLine(lines[k]))
  }

  /** What `fix_mermaid(code)` returns. */
  function FixedSource(code: string): string {
    JoinLines(FixLines(SplitLines(code)))
  }

  /** `r` is `s` with some `=` turned into `:` and some parentheses into `-`,
      and nothing else changed. */
  ghost predicate OnlyRepairs(s: string, r: string) {
    |r| == |s| &&
    forall k :: 0 <= k < |s| ==>
      r[k] == s[k] || (s[k] == '=' && r[k] == ':') || ((s[k] == '(' || s[k] == ')') && r[k] == '-')
  }

  /** No style key with `=` is left in `s`. */
  ghost predicate NoEqualsKeys(s: string) {
    forall k :: !OccursAt(s, "fill=", k) && !OccursAt(s, "stroke=", k) && !OccursAt(s, "color=", k)
  }

  /** The style rule changes only `=` into `:`, and on a `classDef` line it
      leaves no `fill=`, `stroke=` or `color=`; other lines pass unchanged. */
  lemma StyleRule(line: string)
    ensures Swaps(line, StyleFix(line), {'='}, ':')
    ensures Contains(line, "classDef") ==> NoEqualsKeys(StyleFix(line))
    ensures !Contains(line, "classDef") ==> StyleFix(line) == line
  {
    if Contains(line, "classDef") {
      var s1 := ReplaceAll(line, "fill=", "fill:");
      var s2 := ReplaceAll(s1, "stroke=", "stroke:");
      var s3 := ReplaceAll(s2, "color=", "color:");
      assert KeyRepair("fill=", "fill:");
      assert KeyRepair("stroke=", "stroke:");
      assert KeyRepair("color=", "color:");
      KeyRepairSwaps("fill=", "fill:");
      KeyRepairSwaps("stroke=", "stroke:");
      KeyRepairSwaps("color=", "color:");
      ReplaceSwaps(line, "fill=", "fill:", {'='}, ':');
      ReplaceSwaps(s1, "stroke=", "stroke:", {'='}, ':');
      ReplaceSwaps(s2, "color=", "color:", {'='}, ':');
      SwapsTrans(line, s1, s2, {'='}, ':');
      SwapsTrans(line, s2, s3, {'='}, ':');
      KeyRepairRemoves(line, "fill=", "fill:");
      KeyRepairRemoves(s1, "stroke=", "stroke:");
      KeyRepairRemoves(s2, "color=", "color:");
      SwapsKeepAbsent(s1, s2, {'='}, ':', "fill=");
      SwapsKeepAbsent(s2, s3, {'='}, ':', "fill=");
      SwapsKeepAbsent(s2, s3, {'='}, ':', "stroke=");
    }
  }

  predicate IsParen(c: char) {
    c == '(' || c == ')'
  }

  lemma CleanLabelAt(s: string)
    ensures |CleanLabel(s)| == |s|
    ensures forall k :: 0 <= k < |s| ==> CleanLabel(s)[k] == if IsParen(s[k]) then '-' else s[k]
  {
    ReplaceChar(s, '(', '-');
    ReplaceChar(ReplaceAll(s, "(", "-"), ')', '-');
  }

  /** Splicing the cleaned label between positions `i` and `j` turns exactly
      the parentheses strictly between them into `-`. */
  lemma SpliceAt(line: string, i: nat, j: nat)
    requires i < j <= |line|
    ensures var r := line[..i + 1] + CleanLabel(line[i + 1..j]) + line[j..];
      |r| == |line| &&
      forall k :: 0 <= k < |line| ==> r[k] == if i < k < j && IsParen(line[k]) then '-' else line[k]
  {
    var inside := line[i + 1..j];
    var c := CleanLabel(inside);
    CleanLabelAt(inside);
    var r := line[..i + 1] + c + line[j..];
    forall k | 0 <= k < |line|
      ensures r[k] == if i < k < j && IsParen(line[k]) then '-' else line[k]
    {
      if k <= i {
        assert r[k] == line[..i + 1][k];
      } else if k < j {
        assert r[k] == c[k - i - 1];
        assert inside[k - i - 1] == line[k];
      } else {
        assert r[k] == line[j..][k - j];
      }
    }
  }

  /** The bracket rule at character level: with `i` the first `[` and `j` the
      first `]`, exactly the parentheses strictly between them become `-`
      (nothing changes when `j < i` or a bracket is missing). */
  lemma BracketFixAt(line: string, i: int, j: int)
    requires i == Find(line, "[") && j == Find(line, "]")
    ensures |BracketFix(line)| == |line|
    ensures forall k :: 0 <= k < |line| ==>
      BracketFix(line)[k] == if 0 <= i < k < j && IsParen(line[k]) then '-' else line[k]
  {
    var r := BracketFix(line);
    FindChar(line, '[');
    FindChar(line, ']');
    if 0 <= i < j {
      var inside := line[i + 1..j];
      if Contains(inside, "(") || Contains(inside, ")") {
        SpliceAt(line, i, j);
      } else {
        ContainsChar(inside, '(');
        ContainsChar(inside, ')');
        forall k | i < k < j ensures !IsParen(line[k]) {
          assert inside[k - i - 1] == line[k];
        }
      }
    }
  }

  /** The bracket rule, with `i` the first `[` and `j` the first `]` of the
      line: the length is kept, only parentheses turn into `-`, and
      - when `i < j`, the label strictly between them is left without
        parentheses and every character at or outside `i` and `j`, parentheses
        elsewhere and later labels included, is kept;
      - when either bracket is missing or `j < i`, the line is untouched;
      - the first `[` and the first `]` stay where they were. */
  lemma BracketRule(line: string, i: int, j: int)
    requires i == Find(line, "[") && j == Find(line, "]")
    ensures Swaps(line, BracketFix(line), {'(', ')'}, '-')
    ensures 0 <= i < j ==> forall k :: i < k < j ==> !IsParen(BracketFix(line)[k])
    ensures 0 <= i < j ==> forall k :: 0 <= k < |line| && (k <= i || j <= k) ==>
      BracketFix(line)[k] == line[k]
    ensures i < 0 || j < 0 || j < i ==> BracketFix(line) == line
    ensures Find(BracketFix(line), "[") == i && Find(BracketFix(line), "]") == j
  {
    BracketFixAt(line, i, j);
    LabelCleaned(line, BracketFix(line), i, j);
  }

  /** What a string with the bracket rule's character-level description
      satisfies. */
  lemma LabelCleaned(line: string, r: string, i: int, j: int)
    requires i == Find(line, "[") && j == Find(line, "]")
    requires |r| == |line|
    requires forall k :: 0 <= k < |line| ==>
      r[k] == if 0 <= i < k < j && IsParen(line[k]) then '-' else line[k]
    ensures Swaps(line, r, {'(', ')'}, '-')
    ensures 0 <= i < j ==> forall k :: i < k < j ==> !IsParen(r[k])
    ensures 0 <= i < j ==> forall k :: 0 <= k < |line| && (k <= i || j <= k) ==> r[k] == line[k]
    ensures i < 0 || j < 0 || j < i ==> r == line
    ensures Find(r, "[") == i && Find(r, "]") == j
  {
    FindChar(line, '[');
    FindChar(line, ']');
    FindCharSame(line, r, '[');
    FindCharSame(line, r, ']');
  }

  /** A whole line: its length is kept, only `=` to `:` and parenthesis to `-`
      substitutions happen, no line break appears, and a line with neither
      `classDef` nor both brackets is returned as it is. */
  lemma FixLineShape(line: string)
    ensures OnlyRepairs(line, FixLine(line))
    ensures NoBreaks(line) ==> NoBreaks(FixLine(line))
    ensures !Contains(line, "classDef") && !(Contains(line, "[") && Contains(line, "]")) ==>
      FixLine(line) == line
  {
    StyleRule(line);
    BracketRule(StyleFix(line), Find(StyleFix(line), "["), Find(StyleFix(line), "]"));
  }

  /** The bracket rule is idempotent: the label it cleaned holds no
      parenthesis, and the brackets have not moved. */
  lemma BracketFixIdempotent(s: string)
    ensures BracketFix(BracketFix(s)) == BracketFix(s)
  {
    var r := BracketFix(s);
    BracketRule(s, Find(s, "["), Find(s, "]"));
    BracketRule(r, Find(r, "["), Find(r, "]"));
    var i := Find(r, "[");
    var j := Find(r, "]");
    if i >= 0 && j >= 0 && i < j {
      var inside := r[i + 1..j];
      ContainsChar(inside, '(');
      ContainsChar(inside, ')');
      assert forall k :: 0 <= k < |inside| ==> inside[k] == r[i + 1 + k];
    }
  }

  /** Neither `:` nor `-` occurs in `classDef`, and `-` occurs in none of the
      style keys. */
  lemma KeywordsHoldNoRepair()
    ensures ':' !in "classDef" && '-' !in "classDef"
    ensures '-' !in "fill=" && '-' !in "stroke=" && '-' !in "color="
  {
  }

  /** After a whole line repair the style rule has nothing left to do: the
      bracket rule neither creates `classDef` nor brings back a key with `=`. */
  lemma StyleSettled(line: string)
    ensures StyleFix(FixLine(line)) == FixLine(line)
  {
    var s1 := StyleFix(line);
    var r := BracketFix(s1);
    StyleRule(line);
    BracketRule(s1, Find(s1, "["), Find(s1, "]"));
    KeywordsHoldNoRepair();
    if Contains(r, "classDef") {
      ContainsIff(r, "classDef");
      var k :| OccursAt(r, "classDef", k);
      OccursBack(s1, r, {'(', ')'}, '-', "classDef", k);
      OccursBack(line, s1, {'='}, ':', "classDef", k);
      ContainsIff(line, "classDef");
      SwapsKeepAbsent(s1, r, {'(', ')'}, '-', "fill=");
      SwapsKeepAbsent(s1, r, {'(', ')'}, '-', "stroke=");
      SwapsKeepAbsent(s1, r, {'(', ')'}, '-', "color=");
      StyleNoop(r);
    }
  }

  /** With no `fill=`, `stroke=` or `color=` left, the style rule changes
      nothing. */
  lemma StyleNoop(s: string)
    requires NoEqualsKeys(s)
    ensures StyleFix(s) == s
  {
    ReplaceAbsent(s, "fill=", "fill:");
    ReplaceAbsent(s, "stroke=", "stroke:");
    ReplaceAbsent(s, "color=", "color:");
  }

  /** Repairing a repaired line changes nothing. */
  lemma FixLineIdempotent(line: string)
    ensures FixLine(FixLine(line)) == FixLine(line)
  {
    StyleSettled(line);
    BracketFixIdempotent(StyleFix(line));
  }

  /** `"\n".join` of lines repaired one by one is a repair of the joined lines. */
  lemma {:induction false} JoinOnlyRepairs(ls: seq<string>, ms: seq<string>)
    requires |ls| == |ms|
    requires forall i :: 0 <= i < |ls| ==> OnlyRepairs(ls[i], ms[i])
    ensures OnlyRepairs(JoinLines(ls), JoinLines(ms))
    decreases |ls|
  {
    if |ls| > 1 {
      JoinOnlyRepairs(ls[1..], ms[1..]);
      var a := JoinLines(ls[1..]);
      var b := JoinLines(ms[1..]);
      var s := ls[0] + "\n" + a;
      var r := ms[0] + "\n" + b;
      assert JoinLines(ls) == s && JoinLines(ms) == r;
      forall k | 0 <= k < |s|
        ensures r[k] == s[k] || (s[k] == '=' && r[k] == ':') || ((s[k] == '(' || s[k] == ')') && r[k] == '-')
      {
        if k < |ls[0]| {
          assert r[k] == ms[0][k] && s[k] == ls[0][k];
        } else if k > |ls[0]| {
          assert r[k] == b[k - |ls[0]| - 1] && s[k] == a[k - |ls[0]| - 1];
        }
      }
    }
  }

  /** Repairing never adds, removes or reorders lines (as `splitlines` counts
      them, on a source whose last line is not blank): the i-th output line is
      the repair of the i-th input line, as long as it, and it differs from it
      only by the rules' one-for-one substitutions. */
  lemma FixedSourceLines(code: string)
    requires SplitLines(code) == [] || SplitLines(code)[|SplitLines(code)| - 1] != ""
    ensures var ls := SplitLines(code);
      var out := SplitLines(FixedSource(code));
      |out| == |ls| &&
      forall i :: 0 <= i < |ls| ==> out[i] == FixLine(ls[i]) && OnlyRepairs(ls[i], out[i])
  {
    var ls := SplitLines(code);
    var ms := FixLines(ls);
    LinesOfFixed(ls);
    forall i | 0 <= i < |ls| ensures OnlyRepairs(ls[i], ms[i]) {
      FixLineShape(ls[i]);
    }
  }

  /** Repaired lines of a text survive being joined and split again. */
  lemma LinesOfFixed(ls: seq<string>)
    requires forall i :: 0 <= i < |ls| ==> NoBreaks(ls[i])
    requires ls == [] || ls[|ls| - 1] != ""
    ensures SplitLines(JoinLines(FixLines(ls))) == FixLines(ls)
  {
    var ms := FixLines(ls);
    forall i | 0 <= i < |ls| ensures NoBreaks(ms[i]) {
      FixLineShape(ls[i]);
    }
    if ls != [] {
      FixLineShape(ls[|ls| - 1]);
      assert |ms[|ms| - 1]| == |ls[|ls| - 1]|;
    }
    SplitJoin(ms);
  }

  /** A source whose only line breaks are `\n` and that does not end in one
      keeps its length: `fix_mermaid` only swaps characters one for one. */
  lemma FixedSourceSwapsOnly(code: string)
    requires forall k :: 0 <= k < |code| && IsLineBreak(code[k]) ==> code[k] == '\n'
    requires code == [] || !IsLineBreak(code[|code| - 1])
    ensures OnlyRepairs(code, FixedSource(code))
  {
    var ls := SplitLines(code);
    JoinSplit(code);
    forall i | 0 <= i < |ls| ensures OnlyRepairs(ls[i], FixLines(ls)[i]) {
      FixLineShape(ls[i]);
    }
    JoinOnlyRepairs(ls, FixLines(ls));
  }

  /** `fix_mermaid` is idempotent on a source whose last line is not blank. */
  lemma FixedSourceIdempotent(code: string)
    requires SplitLines(code) == [] || SplitLines(code)[|SplitLines(code)| - 1] != ""
    ensures FixedSource(FixedSource(code)) == FixedSource(code)
  {
    var ls := SplitLines(code);
    LinesOfFixed(ls);
    FixLinesIdempotent(ls);
  }

  /** Repairing repaired lines changes none of them. */
  lemma FixLinesIdempotent(ls: seq<string>)
    ensures FixLines(FixLines(ls)) == FixLines(ls)
  {
    var ms := FixLines(ls);
    forall i | 0 <= i < |ms| ensures FixLine(ms[i]) == ms[i] {
      FixLineIdempotent(ls[i]);
    }
  }

  /** What the requires of `FixedSourceLines` and `FixedSourceIdempotent`
      exclude, shown on `"a\n\n"`, whose last line is blank: it splits into
      the two lines `"a"` and `""`, but `fix_mermaid` joins them into `"a\n"`,
      which splits into one line and is repaired again into `"a"`. There the
      line count is not kept and repairing twice is not repairing once; on
      `"a\n"`, whose last line is not blank, both hold. */
  lemma TrailingBreak()
    ensures SplitLines("a\n\n") == ["a", ""] && FixedSource("a\n\n") == "a\n"
    ensures SplitLines("a\n") == ["a"] && FixedSource("a\n") == "a"
    ensures FixedSource(FixedSource("a\n\n")) != FixedSource("a\n\n")
  {
    SplitBlankEnd();
    SplitBreakEnd();
    RepairTwo();
    RepairOne();
  }

  /** `"a\n\n"` has a blank last line. */
  lemma SplitBlankEnd()
    ensures SplitLines("a\n\n") == ["a", ""]
  {
    var s := "a\n\n";
    assert FirstBreak(s[1..]) == 0;
    SplitStep(s, 1, 1);
    assert s[..1] == "a" && s[2..] == "\n";
    SplitStep("\n", 0, 1);
    assert "\n"[1..] == [];
  }

  /** A blank last line is not enough for repairing twice to differ from
      repairing once: `"\n"` has the one blank line `""` and is repaired into
      `""`, which is repaired into `""` again. */
  lemma LoneBreak()
    ensures SplitLines("\n") == [""] && FixedSource("\n") == ""
    ensures FixedSource(FixedSource("\n")) == FixedSource("\n")
  {
    SplitStep("\n", 0, 1);
    assert "\n"[1..] == [];
    PlainLines();
    LineUnchanged("");
  }

  /** `"a\n"` has one line: the final break starts none. */
  lemma SplitBreakEnd()
    ensures SplitLines("a\n") == ["a"]
  {
    var s := "a\n";
    assert FirstBreak(s[1..]) == 0;
    SplitStep(s, 1, 1);
    assert s[..1] == "a" && s[2..] == [];
  }

  /** `"a"` and `""` hold neither `classDef` nor `[`. */
  lemma PlainLines()
    ensures !Contains("a", "classDef") && !Contains("a", "[")
    ensures !Contains("", "classDef") && !Contains("", "[")
  {
    assert "[" == ['['];
    ContainsChar("a", '[');
    ContainsChar("", '[');
  }

  /** The two lines `"a"` and `""` are repaired and joined into `"a\n"`. */
  lemma RepairTwo()
    ensures JoinLines(FixLines(["a", ""])) == "a\n"
  {
    PlainLines();
    LineUnchanged("a");
    LineUnchanged("");
    assert FixLines(["a", ""]) == ["a", ""];
    assert JoinLines(["a", ""]) == "a" + "\n" + JoinLines([""]);
  }

  /** The one line `"a"` is repaired into `"a"`. */
  lemma RepairOne()
    ensures JoinLines(FixLines(["a"])) == "a"
  {
    PlainLines();
    LineUnchanged("a");
    assert FixLines(["a"]) == ["a"];
  }

  /** A line without `classDef` and without `[` is left as it is. */
  lemma LineUnchanged(line: string)
    requires !Contains(line, "classDef") && !Contains(line, "[")
    ensures FixLine(line) == line
  {
    FixLineShape(line);
  }

  /** A repair keeps every non-whitespace character non-whitespace: `:` and
      `-` are not whitespace. */
  lemma RepairKeepsInk(s: string, r: string, k: int)
    requires OnlyRepairs(s, r) && 0 <= k < |s| && !IsSpace(s[k])
    ensures !IsSpace(r[k])
  {
  }

  /** Each line of a list is repaired one character for one. */
  lemma FixLinesShape(ls: seq<string>)
    ensures |FixLines(ls)| == |ls|
    ensures forall i :: 0 <= i < |ls| ==> OnlyRepairs(ls[i], FixLines(ls)[i])
  {
    forall i | 0 <= i < |ls| ensures OnlyRepairs(ls[i], FixLines(ls)[i]) {
      FixLineShape(ls[i]);
    }
  }

  /** Lines repaired one character for one from the lines of a stripped text
      join to a stripped text. */
  lemma StrippedJoin(code: string, ms: seq<string>)
    requires IsStripped(code)
    requires var ls := SplitLines(code);
      |ms| == |ls| && forall i :: 0 <= i < |ls| ==> OnlyRepairs(ls[i], ms[i])
    ensures IsStripped(JoinLines(ms))
  {
    if code != [] {
      var ls := SplitLines(code);
      BreakIsSpace(code[0]);
      BreakIsSpace(code[|code| - 1]);
      SplitFirst(code);
      SplitLastNonEmpty(code);
      var first, last := ls[0], ls[|ls| - 1];
      var a, b := ms[0], ms[|ms| - 1];
      RepairKeepsInk(first, a, 0);
      RepairKeepsInk(last, b, |last| - 1);
      JoinFirst(ms);
      JoinLast(ms);
    }
  }

  /** A stripped source comes back stripped: its first and last lines keep
      their first and last characters, up to `=` or a parenthesis turning
      into `:` or `-`, neither of which is whitespace. */
  lemma FixedSourceStripped(code: string)
    requires IsStripped(code)
    ensures IsStripped(FixedSource(code))
  {
    FixLinesShape(SplitLines(code));
    StrippedJoin(code, FixLines(SplitLines(code)));
  }

  /** `fix_mermaid` is idempotent on every stripped source, the form in which
      the reassembler hands sources to it. */
  lemma FixedStrippedIdempotent(text: string)
    ensures FixedSource(FixedSource(Strip(text))) == FixedSource(Strip(text))
  {
    var code := Strip(text);
    if code != [] {
      BreakIsSpace(code[|code| - 1]);
    }
    BreakFreeEnd(code);
    FixedSourceIdempotent(Strip(text));
  }

  /** A source that does not end in a line break has no blank last line. */
  lemma BreakFreeEnd(code: string)
    requires code == [] || !IsLineBreak(code[|code| - 1])
    ensures SplitLines(code) == [] || SplitLines(code)[|SplitLines(code)| - 1] != ""
  {
    SplitLastNonEmpty(code);
  }

  /** The body of the loop in `fix_mermaid`: `line` rebound through the three
      style replacements, then through the label splice. */
  method RepairLine(line: string) returns (fixed: string)
    ensures fixed == FixLine(line)
  {
    fixed := line;
    if Contains(fixed, "classDef") {
      fixed := ReplaceAll(fixed, "fill=", "fill:");
      fixed := ReplaceAll(fixed, "stroke=", "stroke:");
      fixed := ReplaceAll(fixed, "color=", "color:");
    }
    ghost var styled := fixed;
    assert styled == StyleFix(line);
    if Contains(fixed, "[") && Contains(fixed, "]") {
      var open, close := Find(fixed, "["), Find(fixed, "]");
      var inside := Slice(fixed, open + 1, close);
      if Contains(inside, "(") || Contains(inside, ")") {
        var cleaned := ReplaceAll(ReplaceAll(inside, "(", "-"), ")", "-");
        fixed := fixed[..open + 1] + cleaned + fixed[close..];
      }
    }
  }

  /** `fix_mermaid`: the loop over `code.splitlines()` appending each repaired
      line to `fixed`, then the join. */
  method FixMermaid(code: string) returns (result: string)
    ensures result == FixedSource(code)
  {
    var lines := SplitLines(code);
    var fixed: seq<string> := [];
    for n := 0 to |lines|
      invariant fixed == FixLines(lines[..n])
    {
      var line := RepairLine(lines[n]);
      FixLinesStep(lines, n);
      fixed := fixed + [line];
    }
    assert lines[..|lines|] == lines;
    result := JoinLines(fixed);
  }

  /** One more line repaired. */
  lemma FixLinesStep(lines: seq<string>, n: nat)
    requires n < |lines|
    ensures FixLines(lines[..n + 1]) == FixLines(lines[..n]) + [FixLine(lines[n])]
  {
  }
}
