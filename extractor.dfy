/**
 * The walk of `import_pdf` over the extracted text: every page is split on
 * '\n', every line stripped, blank lines skipped and the others matched; the
 * matched `(col1, col2)` pairs of all pages form one sequence, in page order
 * and, within a page, in line order.
 */
module Extractor {
  import opened Wrappers
  import opened Text
  import opened LineParser

  /** The stripped groups `(col1, col2)` of one matched line. */
  type Pair = (string, string)

  predicate NoBreaks(lines: seq<string>)
  {
    forall k :: 0 <= k < |lines| ==> '\n' !in lines[k]
  }

  /** What a matched line can give: a whitespace-free first column and a stripped, non-empty second one. */
  predicate WellFormed(p: Pair)
  {
    && p.0 != [] && NoSpace(p.0)
    && p.1 != [] && IsStripped(p.1) && '\n' !in p.1
  }

  /** One line of a page: stripped, skipped when blank, otherwise matched. */
  function LinePair(raw: string): Option<Pair>
    requires '\n' !in raw
  {
    var line := Strip(raw);
    StripKeepsAbsence(raw, '\n');
    if line == [] then None else ParseLine(line)
  }

  /** What one line adds to the list: nothing, or its pair. */
  function Contribution(raw: string): seq<Pair>
    requires '\n' !in raw
  {
    match LinePair(raw)
    case None => []
    case Some(p) => [p]
  }

  /** The pairs of a sequence of lines, in line order. */
  function LinesPairs(lines: seq<string>): seq<Pair>
    requires NoBreaks(lines)
  {
    if lines == [] then [] else LinesPairs(lines[..|lines| - 1]) + Contribution(lines[|lines| - 1])
  }

  /** The pairs of one page's text; a page without text is skipped. */
  function PagePairs(text: string): seq<Pair>
  {
    if text == [] then [] else LinesPairs(Split(text, '\n'))
  }

  /** The pairs of a whole document, page after page. */
  function DocumentPairs(pages: seq<string>): seq<Pair>
  {
    if pages == [] then [] else DocumentPairs(pages[..|pages| - 1]) + PagePairs(pages[|pages| - 1])
  }

  /**
   * A line gives a pair exactly when, once stripped, it is non-empty and holds
   * some whitespace; the pair is then the stripped line cut around its first
   * run of whitespace, and it is well formed.
   */
  lemma LinePairMeaning(raw: string)
    requires '\n' !in raw
    ensures
      var line := Strip(raw);
      LinePair(raw).Some? <==> exists i :: 0 <= i < |line| && IsSpace(line[i])
    ensures LinePair(raw).Some? ==>
      var line := Strip(raw);
      var (c1, c2) := LinePair(raw).value;
      && WellFormed((c1, c2))
      && |c1| + |c2| < |line|
      && line == c1 + line[|c1|..|line| - |c2|] + c2
      && AllSpace(line[|c1|..|line| - |c2|])
  {
    var line := Strip(raw);
    StripKeepsAbsence(raw, '\n');
    assert LinePair(raw) == if line == [] then None else ParseLine(line);
    if line != [] {
      StrippedLineMatch(line);
    }
  }

  lemma LinesPairsSnoc(lines: seq<string>)
    requires NoBreaks(lines) && lines != []
    ensures NoBreaks(lines[..|lines| - 1])
    ensures LinesPairs(lines) == LinesPairs(lines[..|lines| - 1]) + Contribution(lines[|lines| - 1])
  {
  }

  lemma DocumentPairsSnoc(pages: seq<string>)
    requires pages != []
    ensures DocumentPairs(pages) == DocumentPairs(pages[..|pages| - 1]) + PagePairs(pages[|pages| - 1])
  {
  }

  /** The pairs of two runs of lines are those of the first run followed by those of the second. */
  lemma {:induction false} LinesPairsAppend(a: seq<string>, b: seq<string>)
    requires NoBreaks(a) && NoBreaks(b)
    ensures NoBreaks(a + b) && LinesPairs(a + b) == LinesPairs(a) + LinesPairs(b)
    decreases |b|
  {
    assert forall i :: 0 <= i < |a + b| ==> (a + b)[i] == if i < |a| then a[i] else b[i - |a|];
    if b == [] {
      assert a + b == a;
    } else {
      var b' := b[..|b| - 1];
      assert (a + b)[..|a + b| - 1] == a + b';
      assert (a + b)[|a + b| - 1] == b[|b| - 1];
      LinesPairsAppend(a, b');
      var x, y, z := LinesPairs(a), LinesPairs(b'), Contribution(b[|b| - 1]);
      assert LinesPairs(a + b) == (x + y) + z;
      assert LinesPairs(b) == y + z;
      Regroup(x, y, z);
    }
  }

  /** The pairs of two runs of pages are those of the first run followed by those of the second. */
  lemma {:induction false} DocumentPairsAppend(a: seq<string>, b: seq<string>)
    ensures DocumentPairs(a + b) == DocumentPairs(a) + DocumentPairs(b)
    decreases |b|
  {
    assert forall i :: 0 <= i < |a + b| ==> (a + b)[i] == if i < |a| then a[i] else b[i - |a|];
    if b == [] {
      assert a + b == a;
    } else {
      var b' := b[..|b| - 1];
      assert (a + b)[..|a + b| - 1] == a + b';
      assert (a + b)[|a + b| - 1] == b[|b| - 1];
      DocumentPairsAppend(a, b');
      var x, y, z := DocumentPairs(a), DocumentPairs(b'), PagePairs(b[|b| - 1]);
      assert DocumentPairs(a + b) == (x + y) + z;
      assert DocumentPairs(b) == y + z;
      Regroup(x, y, z);
    }
  }

  /** Skipping a page whose text is empty is only a shortcut: its one empty line gives nothing anyway. */
  lemma PagePairsOfLines(text: string)
    ensures PagePairs(text) == LinesPairs(Split(text, '\n'))
  {
    if text == [] {
      var lines := Split(text, '\n');
      assert lines == [[]];
      assert Contribution([]) == [] by { StrippedIsFixed([]); }
      LinesPairsSnoc(lines);
      assert lines[..0] == [];
    }
  }

  /** Two texts joined by a line break give the pairs of the first followed by those of the second. */
  lemma PagePairsJoin(t1: string, t2: string)
    ensures PagePairs(t1 + ['\n'] + t2) == PagePairs(t1) + PagePairs(t2)
  {
    SplitAppend(t1, t2, '\n');
    LinesPairsAppend(Split(t1, '\n'), Split(t2, '\n'));
    PagePairsOfLines(t1);
    PagePairsOfLines(t2);
    PagePairsOfLines(t1 + ['\n'] + t2);
  }

  /**
   * The usual layout: a page holding one word, a space and its meaning gives
   * exactly that pair; with `PagePairsJoin` this extends line by line.
   */
  lemma OneLinePage(a: string, b: string)
    requires a != [] && NoSpace(a)
    requires b != [] && IsStripped(b) && '\n' !in b
    ensures PagePairs(a + " " + b) == [(a, b)]
  {
    var t := a + " " + b;
    ParseJoined(a, " ", b);
    ParseSpaced(a, b);
    SplitJoin([t], '\n');
    assert Split(t, '\n') == [t];
    StrippedIsFixed(t);
    assert Contribution(t) == [(a, b)];
    LinesPairsSnoc([t]);
    assert [t][..0] == [];
  }

  /** A page holding only a line without whitespace, such as a heading, gives nothing. */
  lemma SkippedLinePage(line: string)
    requires IsStripped(line) && NoSpace(line)
    ensures PagePairs(line) == []
  {
    NoSeparatorSkipped(line);
    if line != [] {
      SplitJoin([line], '\n');
      assert Split(line, '\n') == [line];
      StrippedIsFixed(line);
      assert Contribution(line) == [];
      LinesPairsSnoc([line]);
      assert [line][..0] == [];
    }
  }

  /** A page holding only a blank line gives nothing. */
  lemma BlankLinePage(blank: string)
    requires AllSpace(blank) && '\n' !in blank
    ensures PagePairs(blank) == []
  {
    if blank != [] {
      assert blank == blank + [] + [];
      StripUnique(blank, blank, [], []);
      SplitJoin([blank], '\n');
      assert Split(blank, '\n') == [blank];
      assert Contribution(blank) == [];
      LinesPairsSnoc([blank]);
      assert [blank][..0] == [];
    }
  }

  /**
   * A word list with a blank line and a line that cannot be split, such as
   * "cat 猫", "dog 狗", "" and "garbled-line-no-separator": the two word
   * lines give their pairs, in order, and the other two lines nothing.
   */
  lemma WordListPage(w1: string, m1: string, w2: string, m2: string, blank: string, heading: string)
    requires w1 != [] && NoSpace(w1) && m1 != [] && IsStripped(m1) && '\n' !in m1
    requires w2 != [] && NoSpace(w2) && m2 != [] && IsStripped(m2) && '\n' !in m2
    requires AllSpace(blank) && '\n' !in blank
    requires IsStripped(heading) && NoSpace(heading)
    ensures PagePairs((w1 + " " + m1) + "\n" + (w2 + " " + m2) + "\n" + blank + "\n" + heading) == [(w1, m1), (w2, m2)]
  {
    OneLinePage(w1, m1);
    OneLinePage(w2, m2);
    BlankLinePage(blank);
    SkippedLinePage(heading);
    var l1, l2 := w1 + " " + m1, w2 + " " + m2;
    var two := l1 + "\n" + l2;
    PagePairsJoin(l1, l2);
    assert [(w1, m1)] + [(w2, m2)] == [(w1, m1), (w2, m2)];
    var three := two + "\n" + blank;
    PagePairsJoin(two, blank);
    assert PagePairs(two) + [] == PagePairs(two);
    PagePairsJoin(three, heading);
    assert PagePairs(three) + [] == PagePairs(three);
  }

  /**
   * Page boundaries leave no trace: a document gives the same pairs as the
   * single text made of its pages joined by line breaks.
   */
  lemma {:induction false} DocumentIsOneStream(pages: seq<string>)
    requires |pages| >= 1
    ensures DocumentPairs(pages) == PagePairs(Join(pages, '\n'))
    decreases |pages|
  {
    DocumentPairsSnoc(pages);
    if |pages| == 1 {
      assert pages[..0] == [];
    } else {
      var init := pages[..|pages| - 1];
      var last := pages[|pages| - 1];
      assert pages == init + [last];
      JoinAppend(init, [last], '\n');
      DocumentIsOneStream(init);
      PagePairsJoin(Join(init, '\n'), last);
    }
  }

  /** Every pair of a run of lines is well formed. */
  lemma {:induction false} LinesPairsWellFormed(lines: seq<string>)
    requires NoBreaks(lines)
    ensures forall k :: 0 <= k < |LinesPairs(lines)| ==> WellFormed(LinesPairs(lines)[k])
    decreases |lines|
  {
    if lines != [] {
      LinesPairsSnoc(lines);
      LinesPairsWellFormed(lines[..|lines| - 1]);
      LinePairMeaning(lines[|lines| - 1]);
    }
  }

  /** Every pair of a document is well formed. */
  lemma {:induction false} DocumentPairsWellFormed(pages: seq<string>)
    ensures forall k :: 0 <= k < |DocumentPairs(pages)| ==> WellFormed(DocumentPairs(pages)[k])
    decreases |pages|
  {
    if pages != [] {
      DocumentPairsSnoc(pages);
      DocumentPairsWellFormed(pages[..|pages| - 1]);
      var text := pages[|pages| - 1];
      if text != [] {
        LinesPairsWellFormed(Split(text, '\n'));
      }
    }
  }
}
