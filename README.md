# PDF word-list import, modelled in Dafny

This project models the `/import_pdf` handler of the vocabulary app in
`app.py` and the `fetch_ai_enrichment` helper it calls. The handler
receives an uploaded PDF word list and a `mode` field. It first rejects a
missing upload or a file name not ending in ".pdf" (status 400). It then
walks the pages of the document in order, splitting each page's text on
'\n' and stripping every line. Blank lines are skipped. The rest are
matched against the pattern `(.+?)[\s\t]+(.+)`, and both groups are
stripped. Every match becomes an item. Its `en`/`zh` terms are the two
columns, kept in order when the mode is "en_cn" and swapped otherwise. Its
id is `pdf_<timestamp>_<count>`. Its `ai` text is the answer of the AI
service for the first ten items and a placeholder for the rest. The book
title is the sanitised file name with every ".pdf" removed. An error while
reading the document ends the request with status 500 and the error text.

The modules follow the program's layers:

- `Wrappers`: `Option` and `Result`.
- `Text`: the Python string operations involved, on `seq<char>` (code
  points, like Python's `str`).
  - `str.isspace`, which for a `str` pattern is also the regex class `\s`.
  - `strip()`, `split('\n')`, `endswith`, `replace('.pdf', '')`.
  - The decimal rendering of an `int` in an f-string.
- `LineParser`: `re.match` of the line pattern. `Candidate`/`PythonMatch`
  state the backtracking semantics of Python's `re`: lazy group 1, then
  the greedy separator, then the greedy group 2. `MatchPattern` computes
  the match directly, and a lemma proves the two agree.
- `Extractor`: the pairs of a line, a page and a document, as functions
  over the page texts.
- `Enrichment`:
  - the prompt, and `fetch_ai_enrichment` over an abstract service;
  - the mode's orientation and the item ids;
  - the items and prompts built from a sequence of pairs.
- `PdfImport`: the handler itself, as imperative methods with the source's
  nested loops. `ImportPdf` handles the upload check and the response;
  `ImportPages` runs the page loop; `ImportPage` runs the line loop;
  `ImportLine` and `AddItem` handle one line and one item. `count` is
  carried along as in the source. Each method is proved against the
  specification functions of `Extractor` and `Enrichment`.

The environment enters as parameters:

- the upload's file name (`Option<string>`) and the `mode` field;
- `secure_filename`, as `sanitize`;
- the PDF reader's outcome, as `Result<seq<Page>, string>`. A page's
  outcome is `Result<string, string>`: its extracted text, or the message
  of the exception raised while extracting it;
- the AI service, as a function from the prompt to a `Reply`;
- the clock, as `clock(n)`: the timestamp text read for the n-th item.

`ImportPdf` also returns the sequence of prompts sent to the service, so
that "only the first ten items are enriched" is a statement about the
calls made, not only about the stored text.

Where the design documentation of the system and the code disagree, the
model follows the code:

- The comment at `app.py:76` speaks of 20 enriched words. The code
  (`app.py:97`) enriches 10, and the model uses `EnrichLimit == 10`.
- The documentation describes an extracted page that fails as skipped. In
  the code, the exception from `extract_text()` reaches the `except` at
  `app.py:115`. The whole request then fails with status 500 after the
  earlier items' prompts were sent, and the model does the same.
- The documentation describes background, concurrent enrichment and
  per-mode character classes. The code calls the service synchronously
  inside the loop, uses one pattern for every mode, and only swaps the two
  columns. Any mode other than "en_cn", not only "cn_en", swaps them.
- The documentation describes a requested title and persistence of the
  book. The code takes the title from the file name and stores nothing.

## Model

| member | source | states |
|---|---|---|
| Text.Strip | app.py:84 | the result has no leading or trailing whitespace (Python's `isspace` set) and is no longer than the input |
| Text.StripUnique | app.py:84 | whatever whitespace surrounds a stripped core, `strip()` returns exactly that core |
| Text.StripIdempotent | app.py:84 | `strip()` is idempotent: stripping a second time gives the same text as stripping once |
| Text.Split | app.py:82 | `split('\n')` gives at least one piece, no piece holds the separator, and joining the pieces with it gives the text back |
| Text.SplitJoin | app.py:82 | splitting separator-free pieces joined by the separator gives exactly those pieces |
| Text.SplitAppend | app.py:82 | splitting `t1 + '\n' + t2` gives the pieces of `t1` followed by those of `t2` |
| Text.RemoveAll | app.py:111 | `replace('.pdf', '')` as one left-to-right pass. Its contract says the name is never lengthened and a name without ".pdf" is unchanged; `RemoveAllSplit` states that every occurrence goes |
| Text.RemoveAllSplit | app.py:111 | for a border-free pattern such as ".pdf", an occurrence anywhere in the text is removed, and each side is treated as if the other were not there |
| Text.RemoveAllTrailing | app.py:111 | a trailing occurrence of a border-free pattern, such as ".pdf", is removed and the rest is treated as before |
| Text.EndsWith | app.py:61 | `str.endswith`: the text's last characters are the suffix; no contract of its own, used by `PdfImport.ValidUpload` and the 400 case of `PdfImport.ImportPdf` |
| Text.Decimal | app.py:101 | the f-string rendering of a count is a non-empty string of decimal digits |
| Text.DecimalRoundTrip | app.py:101 | reading back the digits of a count gives the count |
| LineParser.Candidate | app.py:74 | reference semantics of the pattern: one way it can match at the start of the line, with group 1, the whitespace separator and group 2 each non-empty; `MatchPatternIsPythonMatch` relates it to `MatchPattern` |
| LineParser.PythonMatch | app.py:87 | reference semantics of `re.match`: the candidate with the shortest group 1, then the longest separator, then the longest group 2; `MatchPatternIsPythonMatch` shows `MatchPattern` returns it |
| LineParser.FirstSeparator | app.py:74 | the first whitespace from a position on that has a character after it, with no whitespace before it; none when there is no such character |
| LineParser.RunEnd | app.py:74 | the end of the whitespace run starting at a position: all whitespace up to it, and a non-whitespace character at it |
| LineParser.MatchPattern | app.py:74 | a match has two non-empty groups that together are shorter than the line |
| LineParser.MatchPatternIsPythonMatch | app.py:87 | a match is found exactly when the pattern can match at all, and it is the one Python reports: shortest group 1, then longest separator, then longest group 2 |
| LineParser.ParseLine | app.py:87-89 | the line gives a pair exactly when the pattern matches it |
| LineParser.StrippedLineMatch | app.py:84-89 | a non-empty stripped line gives a pair exactly when it holds whitespace; then `col1` is the text before the first whitespace, `col2` the stripped rest after that run of whitespace, and the line is `col1`, whitespace and `col2`. The `.strip()` on the groups changes nothing here: the pair equals the raw groups of `MatchPattern` |
| LineParser.ParseJoined | app.py:87-89 | a whitespace-free word, any run of whitespace and a stripped phrase form a line that is parsed back into that word and phrase |
| LineParser.MatchJoined | app.py:87 | on such a line the two groups of the match are the word and the phrase themselves |
| LineParser.RunEndIs | app.py:74 | a run of whitespace that stops at a non-whitespace character ends exactly there |
| LineParser.ParseSpaced | app.py:87-89 | the single-space layout "word meaning" is parsed back into word and meaning |
| LineParser.NoSeparatorSkipped | app.py:88 | a line without whitespace, such as a heading or a page number, yields nothing |
| Extractor.LinePairMeaning | app.py:84-89 | a raw line yields a pair exactly when its stripped form holds whitespace; the pair is that stripped line cut around its first run of whitespace, and it is well formed |
| Extractor.LinePair | app.py:84-89 | one raw line stripped, skipped when blank, otherwise matched and its groups stripped; `LinePairMeaning` states what it yields |
| Extractor.Contribution | app.py:84-89 | what one line adds to the item list: nothing, or its pair; `PdfImport.ImportLine` is proved against it |
| Extractor.LinesPairs | app.py:83-89 | the pairs of a run of lines, in line order; `LinesPairsAppend` and `LinesPairsWellFormed` state its meaning |
| Extractor.PagePairs | app.py:79-89 | the pairs of one page's text: none for a page without text, else those of its `split('\n')` lines; `PagePairsOfLines`, `PagePairsJoin` and `WordListPage` state its meaning |
| Extractor.DocumentPairs | app.py:78-89 | the pairs of all pages, in page order; `DocumentPairsAppend`, `DocumentIsOneStream` and `DocumentPairsWellFormed` state its meaning |
| Extractor.LinesPairsAppend | app.py:83 | the pairs of two runs of lines are those of the first run followed by those of the second |
| Extractor.DocumentPairsAppend | app.py:78 | the pairs of two runs of pages are those of the first run followed by those of the second |
| Extractor.PagePairsOfLines | app.py:80 | skipping a page without text gives the same pairs as splitting and walking it |
| Extractor.PagePairsJoin | app.py:82 | two texts joined by a line break give the pairs of the first followed by those of the second |
| Extractor.OneLinePage | app.py:82-89 | a page holding one "word meaning" line gives exactly that pair |
| Extractor.SkippedLinePage | app.py:88 | a page holding only a line without whitespace gives nothing |
| Extractor.BlankLinePage | app.py:85 | a page holding only a blank line gives nothing |
| Extractor.WordListPage | app.py:82-89 | a page with two word lines, a blank line and a heading gives the two pairs, in order, and nothing else |
| Extractor.DocumentIsOneStream | app.py:78-88 | page boundaries leave no trace: a document gives the pairs of its pages joined by line breaks |
| Extractor.LinesPairsWellFormed | app.py:89 | every pair from a run of lines has a non-empty, whitespace-free `col1` and a non-empty, stripped `col2` |
| Extractor.DocumentPairsWellFormed | app.py:89 | every pair of a document is well formed in that sense |
| Enrichment.Prompt | app.py:31 | the exact prompt text around the word and the meaning; `PromptQuotes` and `PromptNamesPair` state its meaning |
| Enrichment.Orient | app.py:92-93 | `(en_term, zh_term)`: the columns in order for "en_cn", swapped for any other mode; `ItemsAt` and `ModeSwapsTerms` use it |
| Enrichment.ItemId | app.py:101 | `pdf_<timestamp>_<count>`; `ItemIdPosition` and `ItemIdsDistinct` state its meaning |
| Enrichment.MakeItem | app.py:92-107 | the item for the n-th pair: oriented terms, its id, and the service's answer when n < 10, the placeholder otherwise; `ItemsAt` states it item by item |
| Enrichment.Requests | app.py:96-98 | the prompts sent while the items are built, in order; `RequestsAt` states its length and content |
| Enrichment.PromptNamesPair | app.py:31 | equal prompts name the same word and meaning, for words without an apostrophe |
| Enrichment.PromptQuotes | app.py:31 | the word sits between the head and the first apostrophe after it, and the meaning between the middle and the tail |
| Enrichment.FetchEnrichment | app.py:29-47 | the content of the service's answer to the prompt for this word and meaning, or "AI 解析暂时不可用" when the call fails |
| Enrichment.ItemIdPosition | app.py:101 | the text after the last underscore of an id reads back as the item's count, whatever the timestamp |
| Enrichment.ItemIdsDistinct | app.py:101 | items with different counts have different ids, whatever the timestamps |
| Enrichment.Items | app.py:100-107 | one item per matched pair |
| Enrichment.ItemsAt | app.py:92-107 | item i has the columns of pair i in the mode's order, the id `pdf_<clock(i)>_<i>`, and the service's answer for its own terms when i < 10, the placeholder otherwise |
| Enrichment.ItemIdsArePositions | app.py:101 | the number after the last underscore of every id is that item's position in the list, so ids are pairwise distinct. That this position is the `count` of the source is the clause "count equals the length of items" in `PdfImport.AddItem`, `ImportPage` and `ImportPages` |
| Enrichment.RequestsAt | app.py:96-98 | the service is asked min(n, 10) times, the i-th time about item i's own terms |
| Enrichment.ModeSwapsTerms | app.py:92-93 | any mode other than "en_cn" exchanges `en` and `zh` of every item and keeps the ids |
| Enrichment.LateItemsWait | app.py:96-97 | items from the eleventh on carry "点击学习时生成详情", whatever the service does |
| Enrichment.FailedServiceFallsBack | app.py:46-47 | with the service down, each of the first ten items carries the fallback text |
| PdfImport.BookTitle | app.py:111 | the file name with every ".pdf" removed. Its contract says the title is never longer than the name; `BookTitleDropsEveryExtension` states that every ".pdf" goes |
| PdfImport.BookTitleDropsExtension | app.py:111 | for a name without ".pdf", the title of "name.pdf" is "name" |
| PdfImport.BookTitleDropsDoubledExtension | app.py:111 | "name.pdf.pdf" also gives "name": every ".pdf" goes, not just the last one |
| PdfImport.BookTitleDropsEveryExtension | app.py:111 | a ".pdf" anywhere in the name is removed: the title of `x + ".pdf" + y` is the title of `x` followed by the title of `y` |
| PdfImport.BookTitleOfCopy | app.py:111 | "notes.pdf-copy.pdf" is titled "notes-copy" |
| PdfImport.BookTitleSinglePass | app.py:111 | the removal is one pass: "a.p.pdfdf" is titled "a.pdf", which still ends in ".pdf" |
| PdfImport.FormMode | app.py:59 | the `mode` field, "en_cn" when it is absent; used by the contract of `ImportPdf` |
| PdfImport.ValidUpload | app.py:61 | an upload is accepted when there is a file whose name ends in ".pdf"; `ImportPdf` answers 400 exactly when it fails |
| PdfImport.FirstUnreadable | app.py:78-79 | the position of the first page whose text cannot be extracted: all pages before it are read, and it is the end when every page is readable |
| PdfImport.AddItem | app.py:92-107 | appending one pair's item extends the items and prompts exactly as `Items`/`Requests` say, with `count` equal to the new length |
| PdfImport.ImportLine | app.py:84-107 | one raw line extends items and prompts by what that line contributes: nothing when it is blank or unmatched |
| PdfImport.ImportPage | app.py:79-107 | a page's text extends items and prompts by the pairs of that page, in line order |
| PdfImport.ImportPageAt | app.py:78-107 | after page p the items and prompts are those of the pairs of pages 0..p |
| PdfImport.ImportPages | app.py:70-116 | the loop stops at the first unreadable page and reports its error; the items and prompts are those of the pairs of all pages before it |
| PdfImport.ImportPdf | app.py:57-116 | 400 with "请上传有效的 PDF 文件" and no prompt for a missing or non-".pdf" upload; 500 with the reader's error when the document or a page cannot be read; otherwise the title and the items of all pairs of the document, with exactly the prompts `Requests` names |

## Left out

- Flask, CORS, JSON encoding and HTTP status handling: the response is the
  `Response` datatype. Its `Imported` case stands for status 200 with
  `"success": True`. The health-check route at `app.py:52-54` is not
  modelled.
- The upload's bytes and the filesystem: `file.save`, the upload folder and
  the `finally` clause that removes the file do not change any result, so
  they are left out. Cleanup is not modelled.
- `secure_filename` is the parameter `sanitize`; its own rules are not
  modelled.
- PyPDF2: parsing the PDF and extracting page text are the parameter
  `document`. An `extract_text()` that returns `None` is an empty text.
- The HTTP call to the AI service is the parameter `service`. The API key,
  headers, payload, the ten-second timeout and the JSON navigation are
  left out; every failure of the call is `Unavailable`. A `content` that is
  not a string is not modelled.
- `datetime.now()` is the parameter `clock`, read once per item. The
  millisecond `ts` field of each item is left out, since it is another
  clock reading with no property of its own.
- Exceptions other than the reader's are not modelled: a failing
  `file.save` outside the `try` block, memory errors, and so on.
- `LineParser.MatchPattern` is stated for lines without '\n'. Every line
  the handler matches comes from `split('\n')`, so `.` matches every
  character of it.
- `PdfImport.ImportPdf`: the error text of status 500 is the reader's
  message, as given. The conversion `str(e)` is not modelled.
