/**
 * The line parser of `import_pdf`: the pattern `(.+?)[\s\t]+(.+)` applied
 * with `re.match` (anchored at the start of the line, not at its end),
 * followed by `.strip()` on both groups.
 *
 * `Candidate` and `PythonMatch` say what the backtracking engine of `re`
 * returns; `MatchPattern` computes it directly.  The lines the importer
 * passes never contain '\n' (they come from `split('\n')`), so `.` matches
 * every character of them.
 */
module LineParser {
  import opened Wrappers
  import opened Text

  /** The two captured groups of a match, in pattern order. */
  type Groups = (string, string)

  /**
   * One way the pattern can match at the start of `line`: group 1 is
   * `line[..k]` (one or more characters other than '\n'), the separator
   * `line[k..m]` (one or more whitespace characters, `[\s\t]` being just `\s`)
   * and group 2 is `line[m..e]` (one or more characters other than '\n').
   */
  ghost predicate Candidate(line: string, k: int, m: int, e: int)
  {
    && 1 <= k < m < e <= |line|
    && '\n' !in line[..k]
    && AllSpace(line[k..m])
    && '\n' !in line[m..e]
  }

  /**
   * The match `re.match` reports: the lazy `.+?` takes the shortest group 1
   * that lets the rest match, then the greedy `[\s\t]+` the longest
   * separator that lets the rest match, then the greedy `.+` the longest group 2.
   */
  ghost predicate PythonMatch(line: string, k: int, m: int, e: int)
  {
    && Candidate(line, k, m, e)
    && (forall k', m', e' :: k' < k ==> !Candidate(line, k', m', e'))
    && (forall m', e' :: m < m' ==> !Candidate(line, k, m', e'))
    && (forall e' :: e < e' ==> !Candidate(line, k, m, e'))
  }

  /** The first index from `i` on holding whitespace with at least one character after it. */
  function FirstSeparator(line: string, i: nat): (k: Option<nat>)
    ensures k.Some? ==> i <= k.value && k.value + 1 < |line| && IsSpace(line[k.value])
    ensures k.Some? ==> forall j :: i <= j < k.value ==> !IsSpace(line[j])
    ensures k.None? ==> forall j :: i <= j && j + 1 < |line| ==> !IsSpace(line[j])
    decreases |line| - i
  {
    if i + 1 >= |line| then None
    else if IsSpace(line[i]) then Some(i)
    else FirstSeparator(line, i + 1)
  }

  /** The end of the run of whitespace that starts at `k`. */
  function RunEnd(line: string, k: nat): (m: nat)
    requires k <= |line|
    ensures k <= m <= |line| && AllSpace(line[k..m])
    ensures m < |line| ==> !IsSpace(line[m])
    decreases |line| - k
  {
    if k < |line| && IsSpace(line[k]) then
      var m := RunEnd(line, k + 1);
      assert line[k..m] == [line[k]] + line[k + 1..m];
      m
    else
      k
  }

  /**
   * `pattern.match(line)` with its two groups: group 1 ends at the first
   * whitespace character that is neither the first nor the last character of
   * the line; the separator runs to the end of that stretch of whitespace but
   * leaves at least one character for group 2, which runs to the end of the line.
   */
  function MatchPattern(line: string): (g: Option<Groups>)
    requires '\n' !in line
    ensures g.Some? ==> g.value.0 != [] && g.value.1 != [] && |g.value.0| + |g.value.1| < |line|
  {
    match FirstSeparator(line, 1)
    case None => None
    case Some(k) =>
      var m := if RunEnd(line, k) < |line| then RunEnd(line, k) else |line| - 1;
      Some((line[..k], line[m..]))
  }

  /**
   * `MatchPattern` is what Python's engine returns: it finds a match exactly
   * when one exists, and the one it finds is the leftmost-lazy, then greedy one.
   */
  lemma MatchPatternIsPythonMatch(line: string)
    requires '\n' !in line
    ensures MatchPattern(line).Some? <==> exists k, m, e :: Candidate(line, k, m, e)
    ensures MatchPattern(line).Some? ==>
      var (g1, g2) := MatchPattern(line).value;
      && PythonMatch(line, |g1|, |line| - |g2|, |line|)
      && g1 == line[..|g1|] && g2 == line[|line| - |g2|..]
  {
    match FirstSeparator(line, 1)
    case None =>
      forall k, m, e ensures !Candidate(line, k, m, e) {
        CandidateSeparator(line, k, m, e);
      }
    case Some(k) =>
      var end := RunEnd(line, k);
      var m := if end < |line| then end else |line| - 1;
      FoundIsCandidate(line, k, end, m);
      forall k', m', e' | k' < k ensures !Candidate(line, k', m', e') {
        CandidateSeparator(line, k', m', e');
      }
      forall m', e' | m < m' ensures !Candidate(line, k, m', e') {
        SeparatorStopsAtRunEnd(line, k, m', e');
      }
  }

  /** Every candidate's separator starts with a whitespace character that has a character after it. */
  lemma CandidateSeparator(line: string, k: int, m: int, e: int)
    ensures Candidate(line, k, m, e) ==> IsSpace(line[k]) && k + 1 < |line|
  {
    if Candidate(line, k, m, e) {
      assert line[k..m][0] == line[k];
    }
  }

  /** No candidate separator starting at `k` runs past the end of the run of whitespace there. */
  lemma SeparatorStopsAtRunEnd(line: string, k: nat, m': int, e': int)
    requires k <= |line|
    ensures Candidate(line, k, m', e') ==> m' <= RunEnd(line, k) && m' < |line|
  {
    if Candidate(line, k, m', e') {
      SpaceSpan(line, k, m');
    }
  }

  /** What `MatchPattern` returns is a candidate. */
  lemma FoundIsCandidate(line: string, k: nat, end: nat, m: nat)
    requires '\n' !in line
    requires FirstSeparator(line, 1) == Some(k)
    requires end == RunEnd(line, k) && m == (if end < |line| then end else |line| - 1)
    ensures Candidate(line, k, m, |line|)
  {
    SpaceSpan(line, k, end);
    SliceKeepsAbsence(line, 0, k, '\n');
    SliceKeepsAbsence(line, m, |line|, '\n');
    assert AllSpace(line[k..m]) by {
      assert forall i :: 0 <= i < m - k ==> line[k..m][i] == line[k + i];
    }
  }

  /** `ParseLine` gives back `(col1, col2)`: both groups, stripped. */
  function ParseLine(line: string): (p: Option<(string, string)>)
    requires '\n' !in line
    ensures p.Some? <==> MatchPattern(line).Some?
  {
    match MatchPattern(line)
    case None => None
    case Some((g1, g2)) => Some((Strip(g1), Strip(g2)))
  }

  /**
   * On a stripped, non-empty line the pattern has a plain meaning: it matches
   * exactly when the line holds some whitespace; group 1 is then everything
   * before the first whitespace character, group 2 everything after that run
   * of whitespace, and the `.strip()` applied to the groups changes nothing.
   */
  lemma StrippedLineMatch(line: string)
    requires line != [] && IsStripped(line) && '\n' !in line
    ensures ParseLine(line).Some? <==> exists i :: 0 <= i < |line| && IsSpace(line[i])
    ensures ParseLine(line).Some? ==>
      var (c1, c2) := ParseLine(line).value;
      && MatchPattern(line) == Some((c1, c2))
      && c1 != [] && NoSpace(c1)
      && c2 != [] && IsStripped(c2)
      && |c1| + |c2| < |line|
      && line == c1 + line[|c1|..|line| - |c2|] + c2
      && AllSpace(line[|c1|..|line| - |c2|])
  {
    SeparatorInStrippedLine(line);
    if FirstSeparator(line, 1).Some? {
      StrippedGroups(line);
      var (g1, g2) := MatchPattern(line).value;
      StrippedIsFixed(g1);
      StrippedIsFixed(g2);
    }
  }

  lemma SeparatorInStrippedLine(line: string)
    requires line != [] && IsStripped(line)
    ensures FirstSeparator(line, 1).Some? <==> exists i :: 0 <= i < |line| && IsSpace(line[i])
  {
  }

  lemma StrippedGroups(line: string)
    requires line != [] && IsStripped(line) && '\n' !in line
    requires FirstSeparator(line, 1).Some?
    ensures
      var (g1, g2) := MatchPattern(line).value;
      && g1 != [] && NoSpace(g1)
      && g2 != [] && IsStripped(g2)
      && |g1| + |g2| < |line|
      && line == g1 + line[|g1|..|line| - |g2|] + g2
      && AllSpace(line[|g1|..|line| - |g2|])
  {
    var k := FirstSeparator(line, 1).value;
    var end := RunEnd(line, k);
    SpaceSpan(line, k, end);
    assert end < |line|;
    assert MatchPattern(line) == Some((line[..k], line[end..]));
    CutAroundRun(line, k, end);
  }

  /** Cutting a stripped line around a run of whitespace that follows a whitespace-free start. */
  lemma CutAroundRun(line: string, k: nat, end: nat)
    requires IsStripped(line) && 0 < k < end < |line|
    requires forall j :: 0 <= j < k ==> !IsSpace(line[j])
    requires AllSpace(line[k..end]) && !IsSpace(line[end])
    ensures var (g1, g2) := (line[..k], line[end..]);
      && g1 != [] && NoSpace(g1)
      && g2 != [] && IsStripped(g2)
      && |g1| + |g2| < |line|
      && line == g1 + line[|g1|..|line| - |g2|] + g2
      && AllSpace(line[|g1|..|line| - |g2|])
  {
    var g1, g2 := line[..k], line[end..];
    assert NoSpace(g1) by {
      assert forall j :: 0 <= j < k ==> g1[j] == line[j];
    }
    assert g2[0] == line[end] && g2[|g2| - 1] == line[|line| - 1];
    assert |g1| == k && |line| - |g2| == end;
    ThreeSlices(line, k, end);
  }

  /**
   * Round trip: a whitespace-free word, a run of whitespace and a stripped
   * phrase, put together, form a line that the parser takes apart again
   * into the word and the phrase.
   */
  lemma ParseJoined(a: string, ws: string, b: string)
    requires a != [] && NoSpace(a)
    requires ws != [] && AllSpace(ws) && '\n' !in ws
    requires b != [] && IsStripped(b) && '\n' !in b
    ensures '\n' !in a + ws + b && IsStripped(a + ws + b)
    ensures ParseLine(a + ws + b) == Some((a, b))
  {
    MatchJoined(a, ws, b);
    assert IsStripped(a);
    StrippedIsFixed(a);
    StrippedIsFixed(b);
  }

  lemma MatchJoined(a: string, ws: string, b: string)
    requires a != [] && NoSpace(a)
    requires ws != [] && AllSpace(ws) && '\n' !in ws
    requires b != [] && IsStripped(b) && '\n' !in b
    ensures '\n' !in a + ws + b && IsStripped(a + ws + b)
    ensures MatchPattern(a + ws + b) == Some((a, b))
  {
    var line := a + ws + b;
    var p, q := |a|, |a| + |ws|;
    NoSpaceNoNewline(a);
    assert line[0] == a[0] && line[|line| - 1] == b[|b| - 1];
    assert forall j :: 0 <= j < p ==> line[j] == a[j];
    assert forall j :: p <= j < q ==> line[j] == ws[j - p];
    assert line[q] == b[0];
    assert IsSpace(line[p]) && p + 1 < |line|;
    assert FirstSeparator(line, 1) == Some(p);
    assert RunEnd(line, p) == q by { RunEndIs(line, p, q); }
    assert line[..p] == a && line[q..] == b;
  }

  lemma RunEndIs(line: string, k: nat, m: nat)
    requires k <= m < |line|
    requires forall j :: k <= j < m ==> IsSpace(line[j])
    requires !IsSpace(line[m])
    ensures RunEnd(line, k) == m
    decreases m - k
  {
    if k < m {
      RunEndIs(line, k + 1, m);
    }
  }

  /** The round trip with the single space that separates the columns in the usual layout. */
  lemma ParseSpaced(a: string, b: string)
    requires a != [] && NoSpace(a)
    requires b != [] && IsStripped(b) && '\n' !in b
    ensures ParseLine(a + " " + b) == Some((a, b))
  {
    ParseJoined(a, " ", b);
  }

  /** A stripped line without whitespace, such as a heading or page number, gives nothing. */
  lemma NoSeparatorSkipped(line: string)
    requires IsStripped(line) && NoSpace(line)
    ensures '\n' !in line && ParseLine(line) == None
  {
    NoSpaceNoNewline(line);
    if line != [] {
      StrippedLineMatch(line);
    }
  }
}
