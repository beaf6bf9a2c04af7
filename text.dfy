/**
 * The string operations of Python that the importer relies on: `str.isspace`
 * (which is also the class `\s` of a `re` pattern over `str`), `str.strip()`,
 * `str.split(sep)`, `str.endswith`, `str.replace(old, '')` and the decimal
 * rendering of an integer in an f-string.
 */
module Text {
  import opened Wrappers

  /** Concatenation regrouped; stated once so that long proofs need not rediscover it. */
  lemma Regroup<T>(a: seq<T>, b: seq<T>, c: seq<T>)
    ensures (a + b) + c == a + (b + c)
  {
  }

  /** Python's `str.isspace` on one character: the Unicode whitespace set. */
  predicate IsSpace(c: char)
  {
    || c == ' '
    || '\t' <= c <= '\r'
    || '\U{1C}' <= c <= '\U{1F}'
    || c == '\U{85}'
    || c == '\U{A0}'
    || c == '\U{1680}'
    || '\U{2000}' <= c <= '\U{200A}'
    || c == '\U{2028}'
    || c == '\U{2029}'
    || c == '\U{202F}'
    || c == '\U{205F}'
    || c == '\U{3000}'
  }

  predicate AllSpace(s: string)
  {
    forall i :: 0 <= i < |s| ==> IsSpace(s[i])
  }

  predicate NoSpace(s: string)
  {
    forall i :: 0 <= i < |s| ==> !IsSpace(s[i])
  }

  /** Neither starts nor ends with whitespace. */
  predicate IsStripped(s: string)
  {
    s == [] || (!IsSpace(s[0]) && !IsSpace(s[|s| - 1]))
  }

  /** Where the leading whitespace of `s`, scanned from index `i`, ends. */
  function LeadEnd(s: string, i: nat): (e: nat)
    requires i <= |s|
    ensures i <= e <= |s|
    ensures forall k :: i <= k < e ==> IsSpace(s[k])
    ensures e < |s| ==> !IsSpace(s[e])
    decreases |s| - i
  {
    if i < |s| && IsSpace(s[i]) then LeadEnd(s, i + 1) else i
  }

  /** Where the trailing whitespace of `s[lo..j]`, scanned back from index `j`, starts. */
  function TrailStart(s: string, lo: nat, j: nat): (b: nat)
    requires lo <= j <= |s|
    ensures lo <= b <= j
    ensures forall k :: b <= k < j ==> IsSpace(s[k])
    ensures lo < b ==> !IsSpace(s[b - 1])
    decreases j - lo
  {
    if lo < j && IsSpace(s[j - 1]) then TrailStart(s, lo, j - 1) else j
  }

  /**
   * Python's `str.strip()`: `s` with its leading and trailing whitespace
   * removed.  The result neither starts nor ends with whitespace, and
   * everything of `s` before and after it is whitespace.
   */
  function Strip(s: string): (r: string)
    ensures IsStripped(r) && |r| <= |s|
  {
    var i := LeadEnd(s, 0);
    var j := TrailStart(s, i, |s|);
    s[i..j]
  }

  /** Where `Strip` cuts: the result is a slice of `s` with only whitespace outside it. */
  lemma StripShape(s: string) returns (i: int, j: int)
    ensures StripsTo(s, i, j) && Strip(s) == s[i..j]
  {
    i := LeadEnd(s, 0);
    j := TrailStart(s, i, |s|);
  }

  /** `s[i..j]` is `s` without whitespace on either side. */
  ghost predicate StripsTo(s: string, i: int, j: int)
  {
    && 0 <= i <= j <= |s|
    && (forall k :: 0 <= k < i ==> IsSpace(s[k]))
    && (forall k :: j <= k < |s| ==> IsSpace(s[k]))
    && (i < j ==> !IsSpace(s[i]) && !IsSpace(s[j - 1]))
  }

  lemma SliceKeepsAbsence(s: string, i: int, j: int, c: char)
    requires 0 <= i <= j <= |s| && c !in s
    ensures c !in s[i..j]
  {
    assert forall k :: 0 <= k < j - i ==> s[i..j][k] == s[i + k];
  }

  lemma SpaceSpan(s: string, lo: int, hi: int)
    requires 0 <= lo <= hi <= |s| && AllSpace(s[lo..hi])
    ensures forall k :: lo <= k < hi ==> IsSpace(s[k])
  {
    assert forall k :: lo <= k < hi ==> s[lo..hi][k - lo] == s[k];
  }

  /** A string is the concatenation of its three slices around `i` and `j`. */
  lemma ThreeSlices(s: string, i: int, j: int)
    requires 0 <= i <= j <= |s|
    ensures s == s[..i] + s[i..j] + s[j..]
  {
    assert s[..i] + s[i..j] == s[..j];
  }

  /** '\n' is whitespace, so a whitespace-free string has no line break. */
  lemma NoSpaceNoNewline(s: string)
    requires NoSpace(s)
    ensures '\n' !in s
  {
    assert IsSpace('\n');
  }

  /** Stripping deletes characters and never introduces any. */
  lemma StripKeepsAbsence(s: string, c: char)
    requires c !in s
    ensures c !in Strip(s)
  {
    var i, j := StripShape(s);
    SliceKeepsAbsence(s, i, j, c);
  }

  /** Two ways of cutting the whitespace off `s` agree. */
  lemma StripsToUnique(s: string, i: int, j: int, p: int, q: int)
    requires StripsTo(s, i, j) && StripsTo(s, p, q)
    ensures s[i..j] == s[p..q]
  {
    if p < q {
      assert i <= p && q <= j;
    }
    if i < j {
      assert p <= i && j <= q;
    }
  }

  /**
   * The description in `Strip`'s contract fixes its result: whenever `s` is
   * whitespace, then `r`, then whitespace, with `r` stripped, `Strip(s)` is `r`.
   */
  lemma StripUnique(s: string, a: string, r: string, b: string)
    requires s == a + r + b && AllSpace(a) && AllSpace(b) && IsStripped(r)
    ensures Strip(s) == r
  {
    var i, j := StripShape(s);
    ConcatStripsTo(a, r, b);
    StripsToUnique(s, i, j, |a|, |a| + |r|);
  }

  lemma ConcatStripsTo(a: string, r: string, b: string)
    requires AllSpace(a) && AllSpace(b) && IsStripped(r)
    ensures StripsTo(a + r + b, |a|, |a| + |r|) && (a + r + b)[|a|..|a| + |r|] == r
  {
    var s, n := a + r + b, |a| + |r|;
    assert forall k :: 0 <= k < |a| ==> s[k] == a[k];
    assert forall k :: |a| <= k < n ==> s[k] == r[k - |a|];
    assert forall k :: n <= k < |s| ==> s[k] == b[k - n];
    assert s[|a|..n] == r;
  }

  lemma StrippedIsFixed(s: string)
    requires IsStripped(s)
    ensures Strip(s) == s
  {
    var i, j := StripShape(s);
    StripsToUnique(s, i, j, 0, |s|);
  }

  /** Stripping twice changes nothing more than stripping once. */
  lemma StripIdempotent(s: string)
    ensures Strip(Strip(s)) == Strip(s)
  {
    StrippedIsFixed(Strip(s));
  }

  /** The inverse of `Split`: the pieces glued back together with `sep`. */
  function Join(parts: seq<string>, sep: char): string
    requires |parts| >= 1
  {
    if |parts| == 1 then parts[0] else parts[0] + [sep] + Join(parts[1..], sep)
  }

  /**
   * Python's `str.split(sep)` with an explicit one-character separator: the
   * pieces between the separators, an empty text giving one empty piece.
   */
  function Split(t: string, sep: char): (r: seq<string>)
    ensures |r| >= 1
    ensures forall k :: 0 <= k < |r| ==> sep !in r[k]
    ensures Join(r, sep) == t
  {
    if t == [] then
      [[]]
    else
      var rest := Split(t[1..], sep);
      if t[0] == sep then
        assert t == [sep] + t[1..];
        [[]] + rest
      else
        var r := [[t[0]] + rest[0]] + rest[1..];
        assert r[1..] == rest[1..];
        assert t == [t[0]] + t[1..];
        r
  }

  lemma {:induction false} JoinAppend(p: seq<string>, q: seq<string>, sep: char)
    requires |p| >= 1 && |q| >= 1
    ensures Join(p + q, sep) == Join(p, sep) + [sep] + Join(q, sep)
    decreases |p|
  {
    assert (p + q)[0] == p[0];
    if |p| == 1 {
      assert (p + q)[1..] == q;
    } else {
      assert (p + q)[1..] == p[1..] + q;
      JoinAppend(p[1..], q, sep);
      var h, j, tail := p[0] + [sep], Join(p[1..], sep), Join(q, sep);
      assert Join(p + q, sep) == h + ((j + [sep]) + tail);
      assert Join(p, sep) == h + j;
      Regroup(h, j, [sep]);
      Regroup(h, j + [sep], tail);
    }
  }

  /** Splitting a joined list of separator-free pieces gives the pieces back. */
  lemma {:induction false} SplitJoin(parts: seq<string>, sep: char)
    requires |parts| >= 1
    requires forall k :: 0 <= k < |parts| ==> sep !in parts[k]
    ensures Split(Join(parts, sep), sep) == parts
    decreases |parts|, |parts[0]|
  {
    var t := Join(parts, sep);
    var head := parts[0];
    if |parts| == 1 {
      if head != [] {
        assert head[0] != sep;
        assert Join([head[1..]], sep) == head[1..];
        SplitJoin([head[1..]], sep);
      }
    } else if head == [] {
      assert t == [sep] + Join(parts[1..], sep);
      assert t[1..] == Join(parts[1..], sep);
      SplitJoin(parts[1..], sep);
      assert parts == [[]] + parts[1..];
    } else {
      var shorter := [head[1..]] + parts[1..];
      assert shorter[1..] == parts[1..];
      assert head[0] != sep;
      assert t == [head[0]] + Join(shorter, sep);
      assert t[1..] == Join(shorter, sep);
      assert forall k :: 0 <= k < |shorter| ==> sep !in shorter[k] by {
        forall k | 0 <= k < |shorter| ensures sep !in shorter[k] {
          if k == 0 { SliceKeepsAbsence(head, 1, |head|, sep); }
        }
      }
      SplitJoin(shorter, sep);
      assert head == [head[0]] + shorter[0];
      assert parts == [[head[0]] + shorter[0]] + shorter[1..];
    }
  }

  /** Splitting `t1 + sep + t2` gives the pieces of `t1` followed by those of `t2`. */
  lemma SplitAppend(t1: string, t2: string, sep: char)
    ensures Split(t1 + [sep] + t2, sep) == Split(t1, sep) + Split(t2, sep)
  {
    var p, q := Split(t1, sep), Split(t2, sep);
    JoinAppend(p, q, sep);
    SplitJoin(p + q, sep);
  }

  /** Python's `s.endswith(suffix)`. */
  predicate EndsWith(s: string, suffix: string)
  {
    |suffix| <= |s| && s[|s| - |suffix|..] == suffix
  }

  /** An occurrence of `pat` starts at index `i` of `s`. */
  predicate OccursAt(s: string, pat: string, i: int)
  {
    0 <= i && i + |pat| <= |s| && s[i..i + |pat|] == pat
  }

  /** No occurrence of `pat` starts anywhere in `s`. */
  predicate NoOccurrence(s: string, pat: string)
  {
    forall i :: 0 <= i <= |s| ==> !OccursAt(s, pat, i)
  }

  /** No proper suffix of `pat` is also a prefix of it, so two occurrences never overlap. */
  predicate BorderFree(pat: string)
  {
    forall k :: 0 < k < |pat| ==> pat[k..] != pat[..|pat| - k]
  }

  /**
   * Python's `s.replace(pat, '')`: scanning from the left, every occurrence
   * of `pat` that does not overlap an earlier removed one is deleted, in a
   * single pass (what the deletions bring together is not scanned again).
   */
  function RemoveAll(s: string, pat: string): (r: string)
    requires pat != []
    ensures |r| <= |s|
    ensures NoOccurrence(s, pat) ==> r == s
    decreases |s|
  {
    if |s| < |pat| then s
    else if s[..|pat|] == pat then
      assert OccursAt(s, pat, 0);
      RemoveAll(s[|pat|..], pat)
    else
      assert NoOccurrence(s, pat) ==> NoOccurrence(s[1..], pat) by {
        if NoOccurrence(s, pat) {
          forall i | 0 <= i <= |s| - 1 ensures !OccursAt(s[1..], pat, i) {
            if 0 <= i && i + |pat| <= |s| - 1 {
              assert s[1..][i..i + |pat|] == s[i + 1..i + 1 + |pat|];
              assert !OccursAt(s, pat, i + 1);
            }
          }
        }
      }
      [s[0]] + RemoveAll(s[1..], pat)
  }

  /**
   * Every occurrence of a border-free `pat` is removed, wherever it sits: an
   * occurrence between `x` and `y` goes, and the removal on each side is
   * done as if the other side were not there.
   */
  lemma {:induction false} RemoveAllSplit(x: string, pat: string, y: string)
    requires pat != [] && BorderFree(pat)
    ensures RemoveAll(x + pat + y, pat) == RemoveAll(x, pat) + RemoveAll(y, pat)
    decreases |x|
  {
    if x == [] {
      SplitAtFront(x, pat, y);
    } else if |x| < |pat| || x[..|pat|] != pat {
      RemoveAllSplit(x[1..], pat, y);
      SplitPastFirst(x, pat, y);
    } else {
      RemoveAllSplit(x[|pat|..], pat, y);
      SplitPastOccurrence(x, pat, y);
    }
  }

  /** The base case of `RemoveAllSplit`: `pat` comes first. */
  lemma SplitAtFront(x: string, pat: string, y: string)
    requires pat != [] && x == []
    ensures RemoveAll(x + pat + y, pat) == RemoveAll(x, pat) + RemoveAll(y, pat)
  {
    var s := x + pat + y;
    assert s[..|pat|] == pat && s[|pat|..] == y;
    RemoveAllAt(s, pat);
    assert RemoveAll(x, pat) + RemoveAll(y, pat) == RemoveAll(y, pat);
  }

  /** `RemoveAll` on a text that starts with `pat`: that occurrence goes, and the scan goes on after it. */
  lemma RemoveAllAt(s: string, pat: string)
    requires pat != [] && |s| >= |pat| && s[..|pat|] == pat
    ensures RemoveAll(s, pat) == RemoveAll(s[|pat|..], pat)
  {
  }

  /** `RemoveAll` on a text that does not start with `pat`: the first character stays. */
  lemma RemoveAllMiss(s: string, pat: string)
    requires pat != [] && s != [] && (|s| < |pat| || s[..|pat|] != pat)
    ensures RemoveAll(s, pat) == [s[0]] + RemoveAll(s[1..], pat)
  {
    if |s| < |pat| {
      assert s == [s[0]] + s[1..];
    }
  }

  /** Slicing `x + pat + y` within its first `|x + pat|` characters. */
  lemma SliceThree(x: string, pat: string, y: string, n: nat)
    requires n <= |x + pat|
    ensures (x + pat + y)[..n] == (x + pat)[..n]
    ensures n <= |x| ==> (x + pat + y)[..n] == x[..n] && (x + pat + y)[n..] == x[n..] + pat + y
  {
    var s := x + pat + y;
    assert s == (x + pat) + y;
    if n <= |x| {
      assert s == x + (pat + y);
      assert x == x[..n] + x[n..];
      assert s == x[..n] + (x[n..] + (pat + y));
      assert x[n..] + (pat + y) == x[n..] + pat + y;
    }
  }

  /** The step of `RemoveAllSplit` when no occurrence starts at the front of `x`. */
  lemma SplitPastFirst(x: string, pat: string, y: string)
    requires pat != [] && BorderFree(pat) && x != []
    requires |x| < |pat| || x[..|pat|] != pat
    requires RemoveAll(x[1..] + pat + y, pat) == RemoveAll(x[1..], pat) + RemoveAll(y, pat)
    ensures RemoveAll(x + pat + y, pat) == RemoveAll(x, pat) + RemoveAll(y, pat)
  {
    var s := x + pat + y;
    SliceThree(x, pat, y, 1);
    if |x| < |pat| {
      SliceThree(x, pat, y, |pat|);
      NoBorderOccurrence(x, pat);
    } else {
      SliceThree(x, pat, y, |pat|);
    }
    assert s[0] == x[0];
    RemoveAllMiss(s, pat);
    RemoveAllMiss(x, pat);
    Regroup([x[0]], RemoveAll(x[1..], pat), RemoveAll(y, pat));
  }

  /** The step of `RemoveAllSplit` when an occurrence starts at the front of `x`. */
  lemma SplitPastOccurrence(x: string, pat: string, y: string)
    requires pat != [] && |x| >= |pat| && x[..|pat|] == pat
    requires RemoveAll(x[|pat|..] + pat + y, pat) == RemoveAll(x[|pat|..], pat) + RemoveAll(y, pat)
    ensures RemoveAll(x + pat + y, pat) == RemoveAll(x, pat) + RemoveAll(y, pat)
  {
    var s := x + pat + y;
    SliceThree(x, pat, y, |pat|);
    RemoveAllAt(s, pat);
    RemoveAllAt(x, pat);
  }

  /** A trailing occurrence of a border-free `pat` is removed and nothing else changes. */
  lemma RemoveAllTrailing(x: string, pat: string)
    requires pat != [] && BorderFree(pat)
    ensures RemoveAll(x + pat, pat) == RemoveAll(x, pat)
  {
    RemoveAllSplit(x, pat, []);
    assert x + pat + [] == x + pat;
  }

  /** A text without the first character of `pat` holds no occurrence of it. */
  lemma NoOccurrenceWithout(s: string, pat: string)
    requires pat != [] && pat[0] !in s
    ensures NoOccurrence(s, pat)
  {
    forall i | 0 <= i <= |s| ensures !OccursAt(s, pat, i) {
      if i + |pat| <= |s| {
        assert s[i..i + |pat|][0] == s[i];
      }
    }
  }

  /** A border-free `pat` does not start inside a shorter text put in front of it. */
  lemma NoBorderOccurrence(x: string, pat: string)
    requires 0 < |x| < |pat| && BorderFree(pat)
    ensures (x + pat)[..|pat|] != pat
  {
    var k := |x|;
    assert (x + pat)[..|pat|][k..] == pat[..|pat| - k];
  }

  /** ".pdf" has no border, so the removal of a trailing ".pdf" is exact. */
  lemma PdfBorderFree()
    ensures BorderFree(".pdf")
  {
    var pat := ".pdf";
    forall k | 0 < k < |pat| ensures pat[k..] != pat[..|pat| - k] {
      assert pat[k..][0] != pat[..|pat| - k][0];
    }
  }

  /** The decimal digit `d`. */
  function Digit(d: nat): (c: char)
    requires d < 10
    ensures '0' <= c <= '9' && c as int - '0' as int == d
  {
    (48 + d) as char
  }

  predicate AllDigits(s: string)
  {
    forall i :: 0 <= i < |s| ==> '0' <= s[i] <= '9'
  }

  /** How an f-string renders a non-negative integer: its decimal digits, without leading zeros. */
  function Decimal(n: nat): (s: string)
    ensures s != [] && AllDigits(s)
  {
    if n < 10 then [Digit(n)] else Decimal(n / 10) + [Digit(n % 10)]
  }

  /** The number written by a non-empty string of decimal digits; `None` for any other string. */
  function DecimalValue(s: string): Option<nat>
  {
    if s == [] || !AllDigits(s) then None
    else
      var last := s[|s| - 1] as int - '0' as int;
      if |s| == 1 then Some(last)
      else match DecimalValue(s[..|s| - 1])
        case Some(v) => Some(v * 10 + last)
        case None => None
  }

  /** Reading back what `Decimal` wrote gives the number. */
  lemma {:induction false} DecimalRoundTrip(n: nat)
    ensures DecimalValue(Decimal(n)) == Some(n)
  {
    if n >= 10 {
      var s := Decimal(n);
      assert s[..|s| - 1] == Decimal(n / 10);
      DecimalRoundTrip(n / 10);
    }
  }

  /** The part of `s` after its last `c` (all of `s` when there is none). */
  function AfterLast(s: string, c: char): (r: string)
    ensures c !in r
  {
    if s == [] || s[|s| - 1] == c then [] else AfterLast(s[..|s| - 1], c) + [s[|s| - 1]]
  }

  lemma {:induction false} AfterLastOf(p: string, c: char, q: string)
    requires c !in q
    ensures AfterLast(p + [c] + q, c) == q
    decreases |q|
  {
    var s := p + [c] + q;
    if q != [] {
      assert q[|q| - 1] in q;
      assert s[..|s| - 1] == p + [c] + q[..|q| - 1];
      assert c !in q[..|q| - 1] by { SliceKeepsAbsence(q, 0, |q| - 1, c); }
      AfterLastOf(p, c, q[..|q| - 1]);
      assert q == q[..|q| - 1] + [q[|q| - 1]];
    }
  }
}
