/** The extraction step of `get_fixed_mermaid_data`
    (src/workflow_project/utils.py:26-27): `re.findall` of the pattern
    "```mermaid(.*?)```" with DOTALL, written as an indexed scan. A match
    starts at the leftmost opening fence "```mermaid" at or after the scan
    position and ends at the first "```" after that fence; scanning resumes
    after that closing fence, so matches never overlap. */
module Extract {
  import opened PyStr

  const Open: string := "```mermaid"
  const Close: string := "```"

  /** One match: the opening fence stands at `start`, the closing fence at
      `end`; the capture group is the text in between. */
  datatype Match = Match(start: nat, end: nat)

  /** The captured text of a match that lies inside `text`. */
  function Capture(text: string, m: Match): string
    requires m.start + |Open| <= m.end <= |text|
  {
    text[m.start + |Open|..m.end]
  }

  /** `m` is a match of the non-greedy pattern in `text`: an opening fence, then
      the FIRST closing fence after it. */
  ghost predicate IsMatch(text: string, m: Match) {
    OccursAt(text, Open, m.start) && m.start + |Open| <= m.end && OccursAt(text, Close, m.end) &&
    forall k :: m.start + |Open| <= k < m.end ==> !OccursAt(text, Close, k)
  }

  /** No opening fence starts in `[lo, hi)`. */
  ghost predicate NoOpenIn(text: string, lo: int, hi: int) {
    forall k :: lo <= k < hi ==> !OccursAt(text, Open, k)
  }

  /** No match starts in `[lo, hi)`: no opening fence there has a closing
      fence anywhere after it. */
  ghost predicate NoMatchIn(text: string, lo: int, hi: int) {
    forall k, e :: lo <= k < hi && k + |Open| <= e && OccursAt(text, Open, k) ==> !OccursAt(text, Close, e)
  }

  /** No match can start at or after `from`: every opening fence there has no
      closing fence after it. */
  ghost predicate NoMatchFrom(text: string, from: int) {
    forall k, e :: from <= k && k + |Open| <= e && OccursAt(text, Open, k) ==> !OccursAt(text, Close, e)
  }

  /** The regular-expression reading of `re.findall` from position `from`: the
      leftmost match at or after `from`, then the matches from just after its
      closing fence; none when no match can start. */
  ghost predicate IsFindAll(text: string, from: nat, ms: seq<Match>)
    decreases |ms|
  {
    if ms == [] then NoMatchFrom(text, from)
    else
      from <= ms[0].start && NoMatchIn(text, from, ms[0].start) && IsMatch(text, ms[0]) &&
      IsFindAll(text, ms[0].end + |Close|, ms[1..])
  }

  /** What one step of the scan finds: nothing more, or the next match. */
  datatype Step = Done | Next(m: Match)

  /** One step of the scan: the next opening fence at or after `from`, then
      the next closing fence after it. */
  function Advance(text: string, from: nat): (r: Step)
    ensures r.Next? ==> from <= r.m.start && r.m.start + |Open| <= r.m.end && r.m.end + |Close| <= |text|
  {
    var i := FindFrom(text, Open, from);
    if i < 0 then Done
    else
      var j := FindFrom(text, Close, i + |Open|);
      if j < 0 then Done else Next(Match(i, j))
  }

  /** The indexed scan: step after step, each resuming after the closing
      fence of the match before. */
  function Scan(text: string, from: nat): seq<Match>
    decreases |text| - from
  {
    var r := Advance(text, from);
    if r.Done? then [] else [r.m] + Scan(text, r.m.end + |Close|)
  }

  /** The scan finds exactly what the regular-expression reading describes. */
  lemma {:induction false} ScanIsFindAll(text: string, from: nat)
    ensures IsFindAll(text, from, Scan(text, from))
    decreases |text| - from
  {
    var found, m, next := NextMatch(text, from);
    if found {
      ScanIsFindAll(text, next);
      FoundMatch(text, from, m, next);
    }
  }

  /** The two ways one step of the scan can go: it finds the leftmost match
      `m` at or after `from` and goes on at `next`, just after its closing
      fence, or no match can start at or after `from`. */
  lemma NextMatch(text: string, from: nat) returns (found: bool, m: Match, next: nat)
    ensures found ==> (from < next && next == m.end + |Close| &&
      from <= m.start && NoOpenIn(text, from, m.start) && IsMatch(text, m) &&
      Scan(text, from) == [m] + Scan(text, next))
    ensures !found ==> NoMatchFrom(text, from) && Scan(text, from) == []
  {
    var r := Advance(text, from);
    found := r.Next?;
    if found {
      m := r.m;
      next := m.end + |Close|;
      LeftmostMatch(text, from, m);
      ScanStep(text, from, m);
    } else {
      m, next := Match(0, 0), 0;
      NothingFound(text, from);
    }
  }

  /** A leftmost match followed by what the regular-expression reading finds
      after it is what that reading finds from `from`. */
  lemma FoundMatch(text: string, from: nat, m: Match, next: nat)
    requires next == m.end + |Close|
    requires from <= m.start && NoOpenIn(text, from, m.start) && IsMatch(text, m)
    requires Scan(text, from) == [m] + Scan(text, next)
    requires IsFindAll(text, next, Scan(text, next))
    ensures IsFindAll(text, from, Scan(text, from))
  {
    NoEarlierOpen(text, from, m);
    var ms := Scan(text, from);
    assert ms[1..] == Scan(text, next);
  }

  /** The match a step finds is the leftmost match at or after `from`. */
  lemma LeftmostMatch(text: string, from: nat, m: Match)
    requires Advance(text, from) == Next(m)
    ensures from <= m.start && NoOpenIn(text, from, m.start) && IsMatch(text, m)
  {
    AdvanceFound(text, from, m);
    FencesFound(text, from, m);
  }

  /** A step that finds `m` found its two fences with `FindFrom`. */
  lemma AdvanceFound(text: string, from: nat, m: Match)
    requires Advance(text, from) == Next(m)
    ensures FindFrom(text, Open, from) == m.start
    ensures FindFrom(text, Close, m.start + |Open|) == m.end
  {
  }

  /** The fences `FindFrom` finds form the leftmost match at or after `from`. */
  lemma FencesFound(text: string, from: nat, m: Match)
    requires FindFrom(text, Open, from) == m.start
    requires FindFrom(text, Close, m.start + |Open|) == m.end
    ensures from <= m.start && NoOpenIn(text, from, m.start) && IsMatch(text, m)
  {
    FindFromSpec(text, Open, from);
    FindFromSpec(text, Close, m.start + |Open|);
  }

  /** When the scan finds no opening fence, or no closing fence after the one
      it finds, no match can start at or after `from`. */
  lemma NothingFound(text: string, from: nat)
    requires Advance(text, from) == Done
    ensures NoMatchFrom(text, from) && Scan(text, from) == []
  {
    var i := FindFrom(text, Open, from);
    FindFromSpec(text, Open, from);
    if i >= 0 {
      FindFromSpec(text, Close, i + |Open|);
    }
  }

  /** The scan is the only sequence of matches the regular-expression reading
      admits. */
  lemma {:induction false} FindAllUnique(text: string, from: nat, ms: seq<Match>)
    requires IsFindAll(text, from, ms)
    ensures ms == Scan(text, from)
    decreases |ms|
  {
    if ms == [] {
      ScanEmpty(text, from);
    } else {
      var m := ms[0];
      var next := m.end + |Close|;
      LeftmostStep(text, from, m);
      assert ms[1..] == Scan(text, next) by {
        FindAllUnique(text, next, ms[1..]);
      }
      assert ms == [m] + ms[1..];
    }
  }

  /** The scan's first match is the leftmost match, and it goes on after it. */
  lemma LeftmostStep(text: string, from: nat, m: Match)
    requires from <= m.start && NoMatchIn(text, from, m.start) && IsMatch(text, m)
    ensures Scan(text, from) == [m] + Scan(text, m.end + |Close|)
  {
    NoEarlierOpen(text, from, m);
    ScanHead(text, from, m);
    ScanStep(text, from, m);
  }

  /** Before a match, no match starts exactly when no opening fence does: the
      match's closing fence would also close an earlier opening fence. */
  lemma NoEarlierOpen(text: string, from: nat, m: Match)
    requires IsMatch(text, m)
    ensures NoMatchIn(text, from, m.start) <==> NoOpenIn(text, from, m.start)
  {
    if NoMatchIn(text, from, m.start) {
      forall k | from <= k < m.start ensures !OccursAt(text, Open, k) {
        assert k + |Open| <= m.end;
      }
    }
  }

  /** When no match can start at or after `from`, the scan finds none. */
  lemma {:induction false} ScanEmpty(text: string, from: nat)
    requires NoMatchFrom(text, from)
    ensures Scan(text, from) == []
  {
    var i := FindFrom(text, Open, from);
    FindFromSpec(text, Open, from);
    if i >= 0 {
      var j := FindFrom(text, Close, i + |Open|);
      FindFromSpec(text, Close, i + |Open|);
      assert j >= 0 ==> OccursAt(text, Close, j);
      assert OccursAt(text, Open, i);
    }
  }

  /** The leftmost match at or after `from` is the first one the scan finds. */
  lemma {:induction false} ScanHead(text: string, from: nat, m: Match)
    requires from <= m.start && NoOpenIn(text, from, m.start) && IsMatch(text, m)
    ensures Advance(text, from) == Next(m)
  {
    FirstOccurrence(text, Open, from, m.start);
    FirstOccurrence(text, Close, m.start + |Open|, m.end);
  }

  /** One step of the scan, when it finds a match. */
  lemma {:induction false} ScanStep(text: string, from: nat, m: Match)
    requires Advance(text, from) == Next(m)
    ensures Scan(text, from) == [m] + Scan(text, m.end + |Close|)
  {
  }

  /** The first occurrence at or after `from` is what `FindFrom` finds. */
  lemma FirstOccurrence(s: string, p: string, from: nat, k: nat)
    requires from <= k && OccursAt(s, p, k)
    requires forall j :: from <= j < k ==> !OccursAt(s, p, j)
    ensures FindFrom(s, p, from) == k
  {
    FindFromSpec(s, p, from);
  }

  /** Matches lie inside the text, in left-to-right order, without overlaps
      (each starts after the previous closing fence), and each is a match of
      the non-greedy pattern. */
  lemma {:induction false} FindAllOrdered(text: string, from: nat, ms: seq<Match>)
    requires IsFindAll(text, from, ms)
    ensures forall i :: 0 <= i < |ms| ==> from <= ms[i].start && IsMatch(text, ms[i])
    ensures forall i :: 0 <= i < |ms| ==> ms[i].end + |Close| <= |text|
    ensures forall i :: 0 <= i < |ms| - 1 ==> ms[i].end + |Close| <= ms[i + 1].start
    decreases |ms|
  {
    if ms != [] {
      FindAllOrdered(text, ms[0].end + |Close|, ms[1..]);
      assert forall i :: 1 <= i < |ms| ==> ms[i] == ms[1..][i - 1];
    }
  }

  /** What `re.findall` returns: the captured texts, in order. */
  function Captures(text: string): (cs: seq<string>)
    ensures |cs| == |Scan(text, 0)|
  {
    var ms := Scan(text, 0);
    ScanIsFindAll(text, 0);
    FindAllOrdered(text, 0, ms);
    seq(|ms|, i requires 0 <= i < |ms| => Capture(text, ms[i]))
  }

  /** A match's capture with its two fences is the text at the match, and it
      holds no closing fence: the non-greedy stop at the first "```". */
  lemma MatchSpan(text: string, m: Match)
    requires IsMatch(text, m) && m.end + |Close| <= |text|
    ensures OccursAt(text, Open + Capture(text, m) + Close, m.start)
    ensures forall k :: !OccursAt(Capture(text, m), Close, k)
  {
    var c := Capture(text, m);
    assert text[m.start..m.end + |Close|] == text[m.start..m.start + |Open|] + c + text[m.end..m.end + |Close|];
    forall k | k >= 0 ensures !OccursAt(c, Close, k) {
      OccursInSlice(text, Close, m.start + |Open|, m.end, k);
    }
  }

  /** Each capture comes from its match: the full span "```mermaid" + capture +
      "```" is the text at that match, and the capture holds no "```". */
  lemma CapturesAreSpans(text: string)
    ensures var ms := Scan(text, 0);
      var cs := Captures(text);
      forall i :: 0 <= i < |cs| ==>
        OccursAt(text, Open + cs[i] + Close, ms[i].start) &&
        forall k :: !OccursAt(cs[i], Close, k)
  {
    var ms := Scan(text, 0);
    var cs := Captures(text);
    ScanIsFindAll(text, 0);
    FindAllOrdered(text, 0, ms);
    forall i | 0 <= i < |cs|
      ensures OccursAt(text, Open + cs[i] + Close, ms[i].start)
      ensures forall k :: !OccursAt(cs[i], Close, k)
    {
      MatchSpan(text, ms[i]);
    }
  }

  /** `re.findall` finds nothing exactly when no opening fence has a closing
      fence somewhere after it. */
  lemma NoMatchIff(text: string)
    ensures Captures(text) == [] <==> NoMatchFrom(text, 0)
  {
    ScanIsFindAll(text, 0);
    if NoMatchFrom(text, 0) {
      ScanEmpty(text, 0);
    }
  }

  /** An opening fence with no closing fence after it yields no match: every
      match starts before it and closes before its end. */
  lemma Unterminated(text: string, k: nat)
    requires OccursAt(text, Open, k)
    requires forall e :: k + |Open| <= e ==> !OccursAt(text, Close, e)
    ensures forall m :: m in Scan(text, 0) ==> m.start < k && m.end < k + |Open|
  {
    var ms := Scan(text, 0);
    ScanIsFindAll(text, 0);
    FindAllOrdered(text, 0, ms);
  }
}
