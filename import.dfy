/**
 * The `/import_pdf` request handler: the upload check, the mode field, the
 * walk over the pages and lines of the document, and the response.
 */
module PdfImport {
  import opened Wrappers
  import opened Text
  import opened LineParser
  import opened Extractor
  import opened Enrichment

  /** The JSON body with its status: an error object, or the imported book with its items (status 200). */
  datatype Response = Rejected(status: nat, error: string) | Imported(title: string, items: seq<Item>)

  /** The error message for a missing upload or a file name without the ".pdf" ending. */
  const BadUpload: string := "请上传有效的 PDF 文件"

  /** One page as the reader gives it: its extracted text (empty when it has none), or the error raised while extracting it. */
  type Page = Result<string, string>

  /** The `mode` form field, "en_cn" when it is absent. */
  function FormMode(field: Option<string>): string
  {
    match field
    case None => KeepOrder
    case Some(m) => m
  }

  /** An upload is accepted when there is a file whose name ends in ".pdf". */
  predicate ValidUpload(upload: Option<string>)
  {
    upload.Some? && EndsWith(upload.value, ".pdf")
  }

  /** `filename.replace('.pdf', '')`: the book title is the file name without any ".pdf". */
  function BookTitle(filename: string): (t: string)
    ensures |t| <= |filename|
  {
    RemoveAll(filename, ".pdf")
  }

  /** The usual case: the title is the name before its ".pdf" ending. */
  lemma BookTitleDropsExtension(name: string)
    requires NoOccurrence(name, ".pdf")
    ensures BookTitle(name + ".pdf") == name
  {
    PdfBorderFree();
    RemoveAllTrailing(name, ".pdf");
  }

  /** A doubled ending is removed completely, not just the last ".pdf". */
  lemma BookTitleDropsDoubledExtension(name: string)
    requires NoOccurrence(name, ".pdf")
    ensures BookTitle(name + ".pdf" + ".pdf") == name
  {
    PdfBorderFree();
    RemoveAllTrailing(name + ".pdf", ".pdf");
    RemoveAllTrailing(name, ".pdf");
  }

  /** Every ".pdf" goes, not only a trailing one: the name is cut at each occurrence. */
  lemma BookTitleDropsEveryExtension(x: string, y: string)
    ensures BookTitle(x + ".pdf" + y) == BookTitle(x) + BookTitle(y)
  {
    PdfBorderFree();
    RemoveAllSplit(x, ".pdf", y);
  }

  /** An inner ".pdf" goes as well: "notes.pdf-copy.pdf" is titled "notes-copy". */
  lemma BookTitleOfCopy()
    ensures BookTitle("notes" + ".pdf" + "-copy" + ".pdf") == "notes" + "-copy"
  {
    NoOccurrenceWithout("notes", ".pdf");
    NoOccurrenceWithout("-copy", ".pdf");
    BookTitleDropsExtension("-copy");
    BookTitleDropsEveryExtension("notes", "-copy" + ".pdf");
    Regroup("notes" + ".pdf", "-copy", ".pdf");
  }

  /**
   * The removal is a single pass: the text that closes up around a removed
   * ".pdf" is not scanned again, so "a.p.pdfdf" is titled "a.p" + "df",
   * which is "a.pdf" again.
   */
  lemma BookTitleSinglePass()
    ensures BookTitle("a.p" + ".pdf" + "df") == "a.p" + "df"
    ensures EndsWith("a.p" + "df", ".pdf")
  {
    BookTitleDropsEveryExtension("a.p", "df");
  }

  /** The position of the first page whose text could not be extracted; `|pages|` when there is none. */
  function FirstUnreadable(pages: seq<Page>): (f: nat)
    ensures f <= |pages|
    ensures forall q :: 0 <= q < f ==> pages[q].Success?
    ensures f < |pages| ==> pages[f].Failure?
    decreases |pages|
  {
    if pages == [] || pages[0].Failure? then 0 else 1 + FirstUnreadable(pages[1..])
  }

  lemma FirstUnreadableAt(pages: seq<Page>, p: nat)
    requires p <= |pages|
    requires forall q :: 0 <= q < p ==> pages[q].Success?
    requires p < |pages| ==> pages[p].Failure?
    ensures FirstUnreadable(pages) == p
  {
  }

  /** The first `n` pages were all read. */
  predicate AllRead(pages: seq<Page>, n: nat)
  {
    n <= |pages| && forall q :: 0 <= q < n ==> pages[q].Success?
  }

  /** The texts of the first `n` pages, all of which were read. */
  function Texts(pages: seq<Page>, n: nat): (r: seq<string>)
    requires AllRead(pages, n)
    ensures |r| == n
  {
    if n == 0 then [] else Texts(pages, n - 1) + [pages[n - 1].value]
  }

  /** Reading one more page adds that page's pairs. */
  lemma PagesStep(pages: seq<Page>, p: nat)
    requires AllRead(pages, p + 1)
    ensures DocumentPairs(Texts(pages, p + 1)) == DocumentPairs(Texts(pages, p)) + PagePairs(pages[p].value)
  {
    DocumentPairsSnoc(Texts(pages, p + 1));
    assert Texts(pages, p + 1)[..p] == Texts(pages, p);
  }

  /** Reading one more line adds what that line contributes. */
  lemma LinesStep(lines: seq<string>, j: nat)
    requires j < |lines| && NoBreaks(lines)
    ensures NoBreaks(lines[..j]) && NoBreaks(lines[..j + 1])
    ensures LinesPairs(lines[..j + 1]) == LinesPairs(lines[..j]) + Contribution(lines[j])
  {
    LinesPairsSnoc(lines[..j + 1]);
    assert lines[..j + 1][..j] == lines[..j];
  }

  /** What a line contributes, in the steps the handler takes: strip, skip if blank, match. */
  lemma ContributionOf(raw: string)
    requires '\n' !in raw
    ensures '\n' !in Strip(raw)
    ensures Strip(raw) == [] ==> Contribution(raw) == []
    ensures Strip(raw) != [] && ParseLine(Strip(raw)).None? ==> Contribution(raw) == []
    ensures Strip(raw) != [] && ParseLine(Strip(raw)).Some? ==> Contribution(raw) == [ParseLine(Strip(raw)).value]
  {
    StripKeepsAbsence(raw, '\n');
  }

  /** One more pair adds one item and, among the first ten, one prompt. */
  lemma ItemsStep(done: seq<Pair>, x: Pair, mode: string, service: string -> Reply, clock: nat -> string)
    ensures Items(done + [x], mode, service, clock) == Items(done, mode, service, clock) + [MakeItem(mode, service, clock(|done|), |done|, x)]
    ensures Requests(done + [x], mode) ==
      Requests(done, mode) + if |done| < EnrichLimit then [Prompt(Orient(mode, x.0, x.1).0, Orient(mode, x.0, x.1).1)] else []
  {
    assert (done + [x])[..|done|] == done;
  }

  /**
   * One matched line: the terms in the mode's order, the enrichment while
   * fewer than ten items exist (the placeholder after that), and the new
   * item at the end of the list. `seen` are the pairs matched before.
   */
  method AddItem(col1: string, col2: string, mode: string, service: string -> Reply, clock: nat -> string,
                 ghost seen: seq<Pair>, items0: seq<Item>, prompts0: seq<string>, count0: nat)
    returns (items: seq<Item>, prompts: seq<string>, count: nat)
    requires items0 == Items(seen, mode, service, clock) && prompts0 == Requests(seen, mode)
    requires count0 == |items0|
    ensures items == Items(seen + [(col1, col2)], mode, service, clock)
    ensures prompts == Requests(seen + [(col1, col2)], mode)
    ensures count == |items|
  {
    var en := if mode == KeepOrder then col1 else col2;
    var zh := if mode == KeepOrder then col2 else col1;
    var ai := Placeholder;
    prompts := prompts0;
    if count0 < EnrichLimit {
      ai := FetchEnrichment(service, en, zh);
      prompts := prompts + [Prompt(en, zh)];
    }
    ItemsStep(seen, (col1, col2), mode, service, clock);
    items := items0 + [Item(ItemId(clock(count0), count0), en, zh, ai)];
    count := count0 + 1;
  }

  /**
   * The body of the line loop of `import_pdf` for one line: strip it, skip
   * it when blank, match it, and add an item for a match. `seen` are the
   * pairs matched before this line.
   */
  method ImportLine(raw: string, mode: string, service: string -> Reply, clock: nat -> string,
                    ghost seen: seq<Pair>, items0: seq<Item>, prompts0: seq<string>, count0: nat)
    returns (items: seq<Item>, prompts: seq<string>, count: nat)
    requires '\n' !in raw
    requires items0 == Items(seen, mode, service, clock) && prompts0 == Requests(seen, mode)
    requires count0 == |items0|
    ensures items == Items(seen + Contribution(raw), mode, service, clock)
    ensures prompts == Requests(seen + Contribution(raw), mode)
    ensures count == |items|
  {
    ContributionOf(raw);
    items, prompts, count := items0, prompts0, count0;
    var line := Strip(raw);
    if line == [] {
      assert seen + Contribution(raw) == seen;
      return;
    }
    match ParseLine(line)
    case None =>
      assert seen + Contribution(raw) == seen;
    case Some((col1, col2)) =>
      items, prompts, count := AddItem(col1, col2, mode, service, clock, seen, items, prompts, count);
  }

  /**
   * The body of the page loop of `import_pdf` for one page: nothing for a
   * page without text, otherwise every line in turn is stripped, skipped when
   * blank, and matched; each match becomes an item, enriched while fewer
   * than ten items exist. `done` are the pairs of the earlier pages.
   */
  method ImportPage(text: string, mode: string, service: string -> Reply, clock: nat -> string,
                    ghost done: seq<Pair>, items0: seq<Item>, prompts0: seq<string>, count0: nat)
    returns (items: seq<Item>, prompts: seq<string>, count: nat)
    requires items0 == Items(done, mode, service, clock) && prompts0 == Requests(done, mode)
    requires count0 == |items0|
    ensures items == Items(done + PagePairs(text), mode, service, clock)
    ensures prompts == Requests(done + PagePairs(text), mode)
    ensures count == |items|
  {
    items, prompts, count := items0, prompts0, count0;
    if text == [] {
      assert done + PagePairs(text) == done;
      return;
    }
    var lines := Split(text, '\n');
    var j := 0;
    assert done + LinesPairs(lines[..j]) == done by { assert lines[..j] == []; }
    while j < |lines|
      invariant 0 <= j <= |lines|
      invariant NoBreaks(lines) && NoBreaks(lines[..j])
      invariant count == |items| && items == Items(done + LinesPairs(lines[..j]), mode, service, clock)
      invariant prompts == Requests(done + LinesPairs(lines[..j]), mode)
    {
      LinesStep(lines, j);
      Regroup(done, LinesPairs(lines[..j]), Contribution(lines[j]));
      items, prompts, count := ImportLine(lines[j], mode, service, clock, done + LinesPairs(lines[..j]), items, prompts, count);
      j := j + 1;
    }
    assert lines[..j] == lines;
  }

  /**
   * One turn of the page loop of `import_pdf` for the page at `p`, all
   * pages before which were read: its lines are added after theirs.
   */
  method ImportPageAt(pages: seq<Page>, p: nat, mode: string, service: string -> Reply, clock: nat -> string,
                      items0: seq<Item>, prompts0: seq<string>, count0: nat)
    returns (items: seq<Item>, prompts: seq<string>, count: nat)
    requires AllRead(pages, p + 1)
    requires items0 == Items(DocumentPairs(Texts(pages, p)), mode, service, clock)
    requires prompts0 == Requests(DocumentPairs(Texts(pages, p)), mode)
    requires count0 == |items0|
    ensures items == Items(DocumentPairs(Texts(pages, p + 1)), mode, service, clock)
    ensures prompts == Requests(DocumentPairs(Texts(pages, p + 1)), mode)
    ensures count == |items|
  {
    PagesStep(pages, p);
    items, prompts, count := ImportPage(pages[p].value, mode, service, clock,
      DocumentPairs(Texts(pages, p)), items0, prompts0, count0);
  }

  /**
   * The `try` block of `import_pdf`: the page loop over a document that
   * opened. `unreadable` is the error of the first page whose text could not
   * be extracted, which ends the loop; the items and prompts up to there are
   * returned with it.
   */
  method ImportPages(pages: seq<Page>, mode: string, service: string -> Reply, clock: nat -> string)
    returns (unreadable: Option<string>, items: seq<Item>, prompts: seq<string>)
    ensures var f := FirstUnreadable(pages);
      var pairs := DocumentPairs(Texts(pages, f));
      && items == Items(pairs, mode, service, clock)
      && prompts == Requests(pairs, mode)
      && (f < |pages| ==> unreadable == Some(pages[f].error))
      && (f == |pages| ==> unreadable == None)
  {
    items, prompts := [], [];
    var count := 0;
    var p := 0;
    while p < |pages| && pages[p].Success?
      invariant AllRead(pages, p)
      invariant count == |items|
      invariant items == Items(DocumentPairs(Texts(pages, p)), mode, service, clock)
      invariant prompts == Requests(DocumentPairs(Texts(pages, p)), mode)
    {
      items, prompts, count := ImportPageAt(pages, p, mode, service, clock, items, prompts, count);
      p := p + 1;
    }
    FirstUnreadableAt(pages, p);
    unreadable := if p < |pages| then Some(pages[p].error) else None;
  }

  /**
   * `import_pdf`. The upload, the mode field, `secure_filename`, the PDF
   * reader, the AI service and the clock are parameters; `prompts` is the
   * sequence of prompts sent to the service, in order. A page whose text
   * cannot be extracted ends the import with status 500 after the prompts of
   * the pages before it were sent.
   */
  method ImportPdf(upload: Option<string>, modeField: Option<string>, sanitize: string -> string,
                   document: Result<seq<Page>, string>, service: string -> Reply, clock: nat -> string)
    returns (res: Response, prompts: seq<string>)
    ensures !ValidUpload(upload) ==> res == Rejected(400, BadUpload) && prompts == []
    ensures ValidUpload(upload) && document.Failure? ==> res == Rejected(500, document.error) && prompts == []
    ensures ValidUpload(upload) && document.Success? ==>
      var pages, mode := document.value, FormMode(modeField);
      var f := FirstUnreadable(pages);
      var pairs := DocumentPairs(Texts(pages, f));
      && prompts == Requests(pairs, mode)
      && (f < |pages| ==> res == Rejected(500, pages[f].error))
      && (f == |pages| ==> res == Imported(BookTitle(sanitize(upload.value)), Items(pairs, mode, service, clock)))
  {
    var mode := FormMode(modeField);
    if upload.None? || !EndsWith(upload.value, ".pdf") {
      return Rejected(400, BadUpload), [];
    }
    var filename := sanitize(upload.value);
    if document.Failure? {
      return Rejected(500, document.error), [];
    }
    var unreadable, items;
    unreadable, items, prompts := ImportPages(document.value, mode, service, clock);
    if unreadable.Some? {
      return Rejected(500, unreadable.value), prompts;
    }
    return Imported(BookTitle(filename), items), prompts;
  }
}
