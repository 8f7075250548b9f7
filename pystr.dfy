/** The handful of Python `str` operations the repair engine relies on, stated
    over Dafny strings (sequences of Unicode scalar values): substring search
    (`str.find`, `in`), `str.replace`, `str.strip`, `str.splitlines` and
    `"\n".join`. Each is a definition of the library's behaviour together with
    the facts about it that the rest of the model uses. */
module PyStr {

  /** `p` occurs in `s` starting at index `k`. */
  predicate OccursAt(s: string, p: string, k: int) {
    0 <= k && k + |p| <= |s| && s[k..k + |p|] == p
  }

  /** The first index at or after `from` where `p` occurs in `s`, or -1
      (Python's `s.find(p, from)`). */
  function FindFrom(s: string, p: string, from: nat): (r: int)
    ensures r == -1 || (from <= r && r + |p| <= |s|)
    decreases |s| - from
  {
    if from + |p| > |s| then -1
    else if s[from..from + |p|] == p then from
    else FindFrom(s, p, from + 1)
  }

  /** `FindFrom` finds an occurrence, and no earlier one at or after `from`
      exists; -1 means there is none at all from there on. */
  lemma {:induction false} FindFromSpec(s: string, p: string, from: nat)
    ensures var r := FindFrom(s, p, from);
      (r == -1 || OccursAt(s, p, r)) &&
      forall k :: from <= k && (r == -1 || k < r) ==> !OccursAt(s, p, k)
    decreases |s| - from
  {
    if from + |p| <= |s| && s[from..from + |p|] != p {
      FindFromSpec(s, p, from + 1);
    }
  }

  /** Python's `s.find(p)`. */
  function Find(s: string, p: string): int {
    FindFrom(s, p, 0)
  }

  /** Python's `p in s`. */
  predicate Contains(s: string, p: string) {
    Find(s, p) >= 0
  }

  lemma ContainsIff(s: string, p: string)
    ensures Contains(s, p) <==> exists k :: OccursAt(s, p, k)
  {
    FindFromSpec(s, p, 0);
    if !Contains(s, p) {
      forall k ensures !OccursAt(s, p, k) {
        if k < 0 {
        } else {
          assert FindFrom(s, p, 0) == -1;
        }
      }
    }
  }

  /** Python's slice `s[a:b]` for indices that are in range: empty when `b < a`. */
  function Slice(s: string, a: nat, b: nat): string
    requires a <= |s| && b <= |s|
  {
    if a <= b then s[a..b] else ""
  }

  /** Python's `s.replace(pat, rep)` for a non-empty `pat`: every occurrence,
      found left to right without overlaps, is replaced. */
  function ReplaceAll(s: string, pat: string, rep: string): string
    requires |pat| > 0
    decreases |s|
  {
    if |s| < |pat| then s
    else if s[..|pat|] == pat then rep + ReplaceAll(s[|pat|..], pat, rep)
    else [s[0]] + ReplaceAll(s[1..], pat, rep)
  }

  /** `r` is `s` with some characters drawn from `from` turned into `to`. */
  ghost predicate Swaps(s: string, r: string, from: set<char>, to: char) {
    |r| == |s| && forall k :: 0 <= k < |s| ==> r[k] == s[k] || (s[k] in from && r[k] == to)
  }

  lemma SwapsTrans(s: string, t: string, u: string, from: set<char>, to: char)
    requires Swaps(s, t, from, to) && Swaps(t, u, from, to)
    requires to !in from
    ensures Swaps(s, u, from, to)
  {
  }

  /** A replacement whose pattern and replacement differ only where the pattern
      holds a character of `from` and the replacement holds `to` changes nothing
      else in the string, and keeps its length. */
  lemma {:induction false} ReplaceSwaps(s: string, pat: string, rep: string, from: set<char>, to: char)
    requires |pat| > 0
    requires Swaps(pat, rep, from, to)
    ensures Swaps(s, ReplaceAll(s, pat, rep), from, to)
    decreases |s|
  {
    var r := ReplaceAll(s, pat, rep);
    if |s| < |pat| {
    } else if s[..|pat|] == pat {
      var t := ReplaceAll(s[|pat|..], pat, rep);
      ReplaceSwaps(s[|pat|..], pat, rep, from, to);
      assert r == rep + t;
      forall k | 0 <= k < |s| ensures r[k] == s[k] || (s[k] in from && r[k] == to) {
        if k < |pat| {
          assert r[k] == rep[k] && s[k] == pat[k];
        } else {
          assert r[k] == t[k - |pat|] && s[k] == s[|pat|..][k - |pat|];
        }
      }
    } else {
      var t := ReplaceAll(s[1..], pat, rep);
      ReplaceSwaps(s[1..], pat, rep, from, to);
      assert r == [s[0]] + t;
      forall k | 0 <= k < |s| ensures r[k] == s[k] || (s[k] in from && r[k] == to) {
        if k > 0 {
          assert r[k] == t[k - 1] && s[k] == s[1..][k - 1];
        }
      }
    }
  }

  /** Replacing one character by another rewrites exactly its occurrences. */
  lemma {:induction false} ReplaceChar(s: string, a: char, b: char)
    ensures |ReplaceAll(s, [a], [b])| == |s|
    ensures forall k :: 0 <= k < |s| ==> ReplaceAll(s, [a], [b])[k] == if s[k] == a then b else s[k]
    decreases |s|
  {
    if |s| > 0 {
      ReplaceChar(s[1..], a, b);
      var t := ReplaceAll(s[1..], [a], [b]);
      if s[..1] == [a] {
        assert ReplaceAll(s, [a], [b]) == [b] + t;
      } else {
        assert ReplaceAll(s, [a], [b]) == [s[0]] + t;
      }
      forall k | 0 < k < |s| ensures ReplaceAll(s, [a], [b])[k] == if s[k] == a then b else s[k] {
        assert s[k] == s[1..][k - 1];
      }
    }
  }

  /** A string in which the pattern does not occur is left as it is. */
  lemma {:induction false} ReplaceAbsent(s: string, pat: string, rep: string)
    requires |pat| > 0
    requires forall k :: !OccursAt(s, pat, k)
    ensures ReplaceAll(s, pat, rep) == s
    decreases |s|
  {
    if |s| >= |pat| {
      assert !OccursAt(s, pat, 0);
      assert s[..|pat|] != pat;
      forall k ensures !OccursAt(s[1..], pat, k) {
        if OccursAt(s[1..], pat, k) {
          assert s[1..][k..k + |pat|] == s[k + 1..k + 1 + |pat|];
          assert OccursAt(s, pat, k + 1);
        }
      }
      ReplaceAbsent(s[1..], pat, rep);
      assert s == [s[0]] + s[1..];
    }
  }

  /** Replacing a pattern by itself changes nothing. */
  lemma {:induction false} ReplaceSelf(s: string, pat: string)
    requires |pat| > 0
    ensures ReplaceAll(s, pat, pat) == s
    decreases |s|
  {
    if |s| >= |pat| {
      if s[..|pat|] == pat {
        ReplaceSelf(s[|pat|..], pat);
        assert s == s[..|pat|] + s[|pat|..];
      } else {
        ReplaceSelf(s[1..], pat);
        assert s == [s[0]] + s[1..];
      }
    }
  }

  /** Occurrences in a suffix are occurrences in the whole string, shifted. */
  lemma OccursInSuffix(s: string, p: string, d: nat, j: int)
    requires d <= |s| && j >= 0
    ensures OccursAt(s[d..], p, j) <==> OccursAt(s, p, j + d)
  {
    if 0 <= j && j + |p| <= |s| - d {
      assert s[d..][j..j + |p|] == s[j + d..j + d + |p|];
    }
  }

  /** Occurrences in a slice are the occurrences in the whole string that fit
      inside the slice. */
  lemma OccursInSlice(s: string, p: string, a: nat, b: nat, j: int)
    requires a <= b <= |s| && j >= 0
    ensures OccursAt(s[a..b], p, j) <==> a + j + |p| <= b && OccursAt(s, p, a + j)
  {
    if a + j + |p| <= b {
      var x := s[a..b][j..j + |p|];
      var y := s[a + j..a + j + |p|];
      forall t | 0 <= t < |p| ensures x[t] == y[t] {
        assert x[t] == s[a..b][j + t] == s[a + j + t];
      }
      assert x == y;
    }
  }

  /** When the pattern occurs exactly once, at `k`, the replacement is a splice
      at `k`: the text before and after that occurrence is kept byte for byte. */
  lemma {:induction false} ReplaceUnique(s: string, pat: string, rep: string, k: nat)
    requires |pat| > 0
    requires OccursAt(s, pat, k)
    requires forall j :: OccursAt(s, pat, j) ==> j == k
    ensures ReplaceAll(s, pat, rep) == s[..k] + rep + s[k + |pat|..]
    decreases |s|
  {
    var n := |pat|;
    if k == 0 {
      ReplaceAtHead(s, pat, rep);
    } else {
      var t := s[1..];
      ReplaceSkip(s, pat, rep);
      OccursInSuffix(s, pat, 1, k - 1);
      forall j | OccursAt(t, pat, j) ensures j == k - 1 {
        OccursInSuffix(s, pat, 1, j);
      }
      ReplaceUnique(t, pat, rep, k - 1);
      SpliceShift(s, rep, k, n);
    }
  }

  /** The pattern at the head and nowhere else: the replacement is `rep`
      followed by the rest. */
  lemma ReplaceAtHead(s: string, pat: string, rep: string)
    requires |pat| > 0 && OccursAt(s, pat, 0)
    requires forall j :: OccursAt(s, pat, j) ==> j == 0
    ensures ReplaceAll(s, pat, rep) == s[..0] + rep + s[|pat|..]
  {
    var n := |pat|;
    forall j | j >= 0 ensures !OccursAt(s[n..], pat, j) {
      OccursInSuffix(s, pat, n, j);
    }
    ReplaceAbsent(s[n..], pat, rep);
    assert s[..0] == [];
  }

  /** No pattern at the head: the first character is kept. */
  lemma ReplaceSkip(s: string, pat: string, rep: string)
    requires |pat| > 0 && |s| > 0 && !OccursAt(s, pat, 0)
    ensures ReplaceAll(s, pat, rep) == [s[0]] + ReplaceAll(s[1..], pat, rep)
  {
  }

  lemma SpliceShift(s: string, rep: string, k: nat, n: nat)
    requires 0 < k && k + n <= |s|
    ensures [s[0]] + (s[1..][..k - 1] + rep + s[1..][k - 1 + n..]) == s[..k] + rep + s[k + n..]
  {
    assert s[1..][..k - 1] == s[1..k];
    assert s[1..][k - 1 + n..] == s[k + n..];
    assert s[..k] == [s[0]] + s[1..k];
  }

  /** `rep` is `pat` with its final `=` turned into `:`, and `pat` cannot
      overlap itself: the shape of `fill=` to `fill:` and its two siblings. */
  predicate KeyRepair(pat: string, rep: string) {
    |pat| >= 2 && pat[|pat| - 1] == '=' && rep == pat[..|pat| - 1] + ":" &&
    ':' !in pat && pat[0] !in pat[1..]
  }

  lemma KeyRepairSwaps(pat: string, rep: string)
    requires KeyRepair(pat, rep)
    ensures Swaps(pat, rep, {'='}, ':')
  {
  }

  /** An occurrence in `r` of a string without `to` was already in `s`. */
  lemma OccursBack(s: string, r: string, from: set<char>, to: char, q: string, k: int)
    requires Swaps(s, r, from, to) && to !in q
    ensures OccursAt(r, q, k) ==> OccursAt(s, q, k)
  {
    if OccursAt(r, q, k) {
      forall j | 0 <= j < |q| ensures s[k + j] == q[j] {
        assert r[k..k + |q|][j] == r[k + j];
      }
      assert s[k..k + |q|] == q;
    }
  }

  /** A string without `to` that does not occur in `s` does not occur in `r`. */
  lemma SwapsKeepAbsent(s: string, r: string, from: set<char>, to: char, q: string)
    requires Swaps(s, r, from, to) && to !in q
    requires forall k :: !OccursAt(s, q, k)
    ensures forall k :: !OccursAt(r, q, k)
  {
    forall k ensures !OccursAt(r, q, k) {
      OccursBack(s, r, from, to, q, k);
    }
  }

  /** A one-character pattern occurs exactly where that character stands. */
  lemma OccursChar(s: string, c: char, k: int)
    ensures OccursAt(s, [c], k) <==> 0 <= k < |s| && s[k] == c
  {
    if 0 <= k < |s| {
      assert s[k..k + 1] == [s[k]];
    }
  }

  lemma ContainsChar(s: string, c: char)
    ensures Contains(s, [c]) <==> exists k :: 0 <= k < |s| && s[k] == c
  {
    ContainsIff(s, [c]);
    forall k ensures OccursAt(s, [c], k) <==> 0 <= k < |s| && s[k] == c {
      OccursChar(s, c, k);
    }
  }

  /** `s.find(c)` for one character: the first index holding `c`, or -1. */
  lemma FindChar(s: string, c: char)
    ensures var i := Find(s, [c]);
      -1 <= i < |s| && (i >= 0 ==> s[i] == c) &&
      forall k :: 0 <= k < |s| && (i == -1 || k < i) ==> s[k] != c
  {
    var i := Find(s, [c]);
    FindFromSpec(s, [c], 0);
    OccursChar(s, c, i);
    forall k | 0 <= k < |s| && (i == -1 || k < i) ensures s[k] != c {
      OccursChar(s, c, k);
    }
  }

  /** Two strings of one length holding `c` at the same places give the same
      `find(c)`. */
  lemma FindCharSame(s: string, r: string, c: char)
    requires |s| == |r|
    requires forall k :: 0 <= k < |s| ==> (s[k] == c <==> r[k] == c)
    ensures Find(s, [c]) == Find(r, [c])
  {
    FindChar(s, c);
    FindChar(r, c);
  }

  /** The repaired key does not start an occurrence of the pattern anywhere
      inside itself. */
  lemma KeyRepairHead(pat: string, rep: string, t: string, k: nat)
    requires KeyRepair(pat, rep) && k < |pat|
    ensures !OccursAt(rep + t, pat, k)
  {
    var n := |pat|;
    var r := rep + t;
    if k + n <= |r| {
      if k == 0 {
        assert r[k..k + n][n - 1] == rep[n - 1] == ':';
      } else if k < n - 1 {
        assert pat[k] == pat[1..][k - 1];
        assert r[k..k + n][0] == rep[k] == pat[k];
      } else {
        assert r[k..k + n][0] == rep[k] == ':';
      }
    }
  }

  /** After a key repair no occurrence of its pattern is left. */
  lemma {:induction false} KeyRepairRemoves(s: string, pat: string, rep: string)
    requires KeyRepair(pat, rep)
    ensures forall k :: !OccursAt(ReplaceAll(s, pat, rep), pat, k)
    decreases |s|
  {
    var n := |pat|;
    var r := ReplaceAll(s, pat, rep);
    if |s| < n {
      assert r == s;
    } else if s[..n] == pat {
      var t := ReplaceAll(s[n..], pat, rep);
      KeyRepairRemoves(s[n..], pat, rep);
      assert r == rep + t;
      forall k ensures !OccursAt(r, pat, k) {
        if 0 <= k < n {
          KeyRepairHead(pat, rep, t, k);
        } else if k >= n {
          assert r[n..] == t;
          OccursInSuffix(r, pat, n, k - n);
        }
      }
    } else {
      var t := ReplaceAll(s[1..], pat, rep);
      KeyRepairRemoves(s[1..], pat, rep);
      assert r == [s[0]] + t;
      forall k ensures !OccursAt(r, pat, k) {
        if k >= 1 {
          assert r[1..] == t;
          OccursInSuffix(r, pat, 1, k - 1);
        } else if k == 0 && n <= |r| {
          KeyRepairSwaps(pat, rep);
          ReplaceSwaps(s, pat, rep, {'='}, ':');
          var j :| 0 <= j < n && s[j] != pat[j];
          assert r[j] != pat[j];
          assert r[k..k + n][j] != pat[j];
        }
      }
    }
  }

  /** Python's `str.isspace` for one character: the characters `str.strip`
      removes when called without arguments. */
  predicate IsSpace(c: char) {
    var n := c as int;
    (9 <= n <= 13) || (0x1C <= n <= 0x20) || n == 0x85 || n == 0xA0 || n == 0x1680 ||
    (0x2000 <= n <= 0x200A) || n == 0x2028 || n == 0x2029 || n == 0x202F || n == 0x205F ||
    n == 0x3000
  }

  /** Neither end of `s` is whitespace. */
  predicate IsStripped(s: string) {
    s == [] || (!IsSpace(s[0]) && !IsSpace(s[|s| - 1]))
  }

  function StripLeft(s: string): (r: string)
    ensures |r| <= |s| && r == s[|s| - |r|..]
    ensures forall k :: 0 <= k < |s| - |r| ==> IsSpace(s[k])
    ensures r == [] || !IsSpace(r[0])
    decreases |s|
  {
    if |s| > 0 && IsSpace(s[0]) then StripLeft(s[1..]) else s
  }

  function StripRight(s: string): (r: string)
    ensures |r| <= |s| && r == s[..|r|]
    ensures forall k :: |r| <= k < |s| ==> IsSpace(s[k])
    ensures r == [] || !IsSpace(r[|r| - 1])
    decreases |s|
  {
    if |s| > 0 && IsSpace(s[|s| - 1]) then StripRight(s[..|s| - 1]) else s
  }

  lemma StripLeftSpace(c: char, t: string)
    requires IsSpace(c)
    ensures StripLeft([c] + t) == StripLeft(t)
  {
    assert ([c] + t)[1..] == t;
  }

  lemma StripRightSpace(t: string, c: char)
    requires IsSpace(c)
    ensures StripRight(t + [c]) == StripRight(t)
  {
    assert (t + [c])[..|t|] == t;
  }

  /** Python's `s.strip()`: `s` without its leading and trailing whitespace. */
  function Strip(s: string): (r: string)
    ensures IsStripped(r)
    ensures var i := |s| - |StripLeft(s)|;
      i + |r| <= |s| && r == s[i..i + |r|] &&
      (forall k :: 0 <= k < i ==> IsSpace(s[k])) &&
      (forall k :: i + |r| <= k < |s| ==> IsSpace(s[k]))
  {
    var l := StripLeft(s);
    var r := StripRight(l);
    StripSlices(s, l, r);
    r
  }

  lemma StripSlices(s: string, l: string, r: string)
    requires |l| <= |s| && l == s[|s| - |l|..]
    requires |r| <= |l| && r == l[..|r|]
    requires forall k :: |r| <= k < |l| ==> IsSpace(l[k])
    ensures var i := |s| - |l|; r == s[i..i + |r|] && forall k :: i + |r| <= k < |s| ==> IsSpace(s[k])
  {
    var i := |s| - |l|;
    assert forall k :: i <= k < |s| ==> s[k] == l[k - i];
  }

  lemma {:induction false} StripOfStripped(s: string)
    requires IsStripped(s)
    ensures Strip(s) == s
  {
  }

  /** Python's line boundaries for `str.splitlines`: `\n`, `\r` (and the pair
      `\r\n`), `\v`, `\f`, `\x1c`, `\x1d`, `\x1e`, `\x85`, U+2028 and U+2029. */
  predicate IsLineBreak(c: char) {
    var n := c as int;
    (10 <= n <= 13) || (0x1C <= n <= 0x1E) || n == 0x85 || n == 0x2028 || n == 0x2029
  }

  /** Every line break is whitespace. */
  lemma BreakIsSpace(c: char)
    ensures IsLineBreak(c) ==> IsSpace(c)
  {
  }

  predicate NoBreaks(s: string) {
    forall k :: 0 <= k < |s| ==> !IsLineBreak(s[k])
  }

  /** The index of the first line break in `s`, or `|s|`. */
  function FirstBreak(s: string): (k: nat)
    ensures k <= |s|
    ensures forall j :: 0 <= j < k ==> !IsLineBreak(s[j])
    ensures k < |s| ==> IsLineBreak(s[k])
    decreases |s|
  {
    if |s| == 0 || IsLineBreak(s[0]) then 0 else 1 + FirstBreak(s[1..])
  }

  /** The width of the line break at `k`: two for `\r\n`, one otherwise. */
  function BreakWidth(s: string, k: nat): (w: nat)
    requires k < |s|
    ensures 1 <= w && k + w <= |s|
  {
    if s[k] == '\r' && k + 1 < |s| && s[k + 1] == '\n' then 2 else 1
  }

  /** Python's `s.splitlines()`: the lines without their line breaks; a final
      line break does not start an empty last line, and `""` has no lines. */
  function SplitLines(s: string): (lines: seq<string>)
    ensures forall i :: 0 <= i < |lines| ==> NoBreaks(lines[i])
    decreases |s|
  {
    if s == [] then []
    else
      var k := FirstBreak(s);
      if k == |s| then [s]
      else [s[..k]] + SplitLines(s[k + BreakWidth(s, k)..])
  }

  /** Python's `"\n".join(lines)`. */
  function JoinLines(lines: seq<string>): string
    decreases |lines|
  {
    if |lines| == 0 then ""
    else if |lines| == 1 then lines[0]
    else lines[0] + "\n" + JoinLines(lines[1..])
  }

  /** Lines without breaks whose last one is not empty come back unchanged
      from being joined and split again. */
  lemma {:induction false} SplitJoin(lines: seq<string>)
    requires forall i :: 0 <= i < |lines| ==> NoBreaks(lines[i])
    requires lines == [] || lines[|lines| - 1] != ""
    ensures SplitLines(JoinLines(lines)) == lines
    decreases |lines|
  {
    if |lines| == 1 {
      assert FirstBreak(lines[0]) == |lines[0]|;
    } else if |lines| > 1 {
      var l := lines[0];
      var rest := JoinLines(lines[1..]);
      var s := l + "\n" + rest;
      assert JoinLines(lines) == s;
      assert FirstBreak(s) == |l| by {
        assert forall j :: 0 <= j < |l| ==> s[j] == l[j];
        assert s[|l|] == '\n';
      }
      assert BreakWidth(s, |l|) == 1;
      assert s[..|l|] == l;
      assert s[|l| + 1..] == rest;
      SplitJoin(lines[1..]);
      assert lines == [l] + lines[1..];
    }
  }

  /** A text that is empty or ends in something other than a line break splits
      into lines whose last one is not empty and ends as the text does. */
  lemma {:induction false} SplitLastNonEmpty(s: string)
    requires s == [] || !IsLineBreak(s[|s| - 1])
    ensures SplitLines(s) == [] <==> s == []
    ensures s != [] ==> LastLineEnds(SplitLines(s), s[|s| - 1])
    decreases |s|
  {
    if s != [] {
      var k := FirstBreak(s);
      if k < |s| {
        var w := BreakWidth(s, k);
        var t := BreakRest(s, k, w);
        SplitLastNonEmpty(t);
        SplitStep(s, k, w);
        LastOfCons(SplitLines(s), s[..k], SplitLines(t), s[|s| - 1]);
      } else {
        SplitWhole(s);
      }
    }
  }

  /** After a line break that is not the last character, the rest of the text
      is shorter, not empty, and ends as the text does. */
  lemma BreakRest(s: string, k: nat, w: nat) returns (t: string)
    requires k == FirstBreak(s) && k < |s| && w == BreakWidth(s, k)
    requires !IsLineBreak(s[|s| - 1])
    ensures k + w < |s| && t == s[k + w..]
    ensures t != [] && |t| < |s| && t[|t| - 1] == s[|s| - 1]
  {
    assert k != |s| - 1;
    assert w == 2 ==> s[k + 1] == '\n';
    t := s[k + w..];
  }

  /** The last line is not empty and ends in `c`. */
  ghost predicate LastLineEnds(lines: seq<string>, c: char) {
    |lines| > 0 && |lines[|lines| - 1]| > 0 && lines[|lines| - 1][|lines[|lines| - 1]| - 1] == c
  }

  /** Putting a line in front keeps the last line. */
  lemma LastOfCons(lines: seq<string>, x: string, rest: seq<string>, c: char)
    requires lines == [x] + rest && LastLineEnds(rest, c)
    ensures LastLineEnds(lines, c)
  {
    assert lines[|lines| - 1] == rest[|rest| - 1];
  }

  /** A text with no line break is one line. */
  lemma SplitWhole(s: string)
    requires s != [] && FirstBreak(s) == |s|
    ensures SplitLines(s) == [s]
  {
  }

  /** One step of `splitlines` at the first line break. */
  lemma SplitStep(s: string, k: nat, w: nat)
    requires k == FirstBreak(s) && k < |s| && w == BreakWidth(s, k)
    ensures SplitLines(s) == [s[..k]] + SplitLines(s[k + w..])
  {
  }

  /** A text that starts with something other than a line break has a first
      line that starts as the text does. */
  lemma SplitFirst(s: string)
    requires s != [] && !IsLineBreak(s[0])
    ensures var lines := SplitLines(s); lines != [] && lines[0] != "" && lines[0][0] == s[0]
  {
  }

  /** The joined text starts as its first line, when that is not empty. */
  lemma JoinFirst(lines: seq<string>)
    requires lines != [] && lines[0] != ""
    ensures var s := JoinLines(lines); s != "" && s[0] == lines[0][0]
  {
  }

  /** The joined text ends as its last line, when that is not empty. */
  lemma {:induction false} JoinLast(lines: seq<string>)
    requires lines != [] && lines[|lines| - 1] != ""
    ensures var s := JoinLines(lines); var l := lines[|lines| - 1];
      s != "" && s[|s| - 1] == l[|l| - 1]
    decreases |lines|
  {
    if |lines| > 1 {
      var rest := JoinLines(lines[1..]);
      assert JoinLines(lines) == lines[0] + "\n" + rest;
      JoinLast(lines[1..]);
    }
  }

  /** A text whose only line breaks are `\n` and that does not end in one is
      what joining its lines gives back. */
  lemma {:induction false} JoinSplit(s: string)
    requires forall k :: 0 <= k < |s| && IsLineBreak(s[k]) ==> s[k] == '\n'
    requires s == [] || !IsLineBreak(s[|s| - 1])
    ensures JoinLines(SplitLines(s)) == s
    decreases |s|
  {
    if s != [] {
      var k := FirstBreak(s);
      if k < |s| {
        var t := s[k + 1..];
        assert BreakWidth(s, k) == 1;
        var rest := SplitLines(t);
        assert SplitLines(s) == [s[..k]] + rest;
        assert t != [] && rest != [];
        JoinSplit(t);
        JoinCons(s[..k], rest);
        assert s == s[..k] + "\n" + t;
      }
    }
  }

  lemma JoinCons(line: string, lines: seq<string>)
    requires lines != []
    ensures JoinLines([line] + lines) == line + "\n" + JoinLines(lines)
  {
    assert ([line] + lines)[1..] == lines;
  }
}
