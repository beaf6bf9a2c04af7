/**
 * The enrichment step of `import_pdf` and the items it builds: the prompt
 * sent to the AI service, the fallback text when the service fails, the
 * orientation chosen by the mode, the item ids, and the rule that only the
 * first ten items are enriched.
 */
module Enrichment {
  import opened Wrappers
  import opened Text
  import opened Extractor

  /** What the chat-completions call yields: the message content, or nothing usable (network error, bad JSON, timeout). */
  datatype Reply = Content(text: string) | Unavailable

  /** One imported item; the millisecond `ts` field is not part of this model. */
  datatype Item = Item(id: string, en: string, zh: string, ai: string)

  /** Returned by `fetch_ai_enrichment` when the call fails in any way. */
  const Sentinel: string := "AI 解析暂时不可用"

  /** Stored in `ai` for the items that are not enriched at import time. */
  const Placeholder: string := "点击学习时生成详情"

  /** How many items, counted from the first, are enriched. */
  const EnrichLimit: nat := 10

  /** The mode that keeps the columns in order; every other value swaps them. */
  const KeepOrder: string := "en_cn"

  const PromptHead: string := "为单词'"
  const PromptMiddle: string := "'(释义:"
  const PromptTail: string := ")提供：1.核心解析；2.英文例句；3.例句翻译。格式严格遵循：解析：xxx\n例句：xxx\n翻译：xxx"

  /** The prompt `fetch_ai_enrichment` sends for a word and its meaning. */
  function Prompt(word: string, meaning: string): string
  {
    PromptHead + word + PromptMiddle + meaning + PromptTail
  }

  /**
   * A prompt names the pair it asks about: two prompts are equal only for the
   * same word and meaning, as long as the words hold no apostrophe (the
   * character that closes the word in the prompt).
   */
  lemma PromptNamesPair(w1: string, m1: string, w2: string, m2: string)
    requires '\'' !in w1 && '\'' !in w2
    requires Prompt(w1, m1) == Prompt(w2, m2)
    ensures w1 == w2 && m1 == m2
  {
    var p := Prompt(w1, m1);
    var h := |PromptHead|;
    PromptQuotes(w1, m1);
    PromptQuotes(w2, m2);
    assert |w1| == |w2|;
    assert w1 == p[h..h + |w1|] == w2;
    var lo, hi := h + |w1| + |PromptMiddle|, |p| - |PromptTail|;
    assert m1 == p[lo..hi] == m2;
  }

  /** Where the word of a prompt sits, and that the apostrophe after it is the first one past the head. */
  lemma PromptQuotes(w: string, m: string)
    requires '\'' !in w
    ensures var p, h := Prompt(w, m), |PromptHead|;
      && |p| == h + |w| + |PromptMiddle| + |m| + |PromptTail|
      && p[h..h + |w|] == w
      && p[h + |w|] == '\''
      && (forall i :: h <= i < h + |w| ==> p[i] != '\'')
      && p[h + |w| + |PromptMiddle|..|p| - |PromptTail|] == m
  {
    var p, h := Prompt(w, m), |PromptHead|;
    assert p == PromptHead + w + (PromptMiddle + m + PromptTail);
    assert forall i :: h <= i < h + |w| ==> p[i] == w[i - h];
  }

  /**
   * `fetch_ai_enrichment`: the content of the service's reply to the prompt
   * for this word and meaning, or the fallback text when there is none.
   */
  function FetchEnrichment(service: string -> Reply, word: string, meaning: string): (r: string)
    ensures service(Prompt(word, meaning)).Content? ==> r == service(Prompt(word, meaning)).text
    ensures service(Prompt(word, meaning)).Unavailable? ==> r == Sentinel
  {
    match service(Prompt(word, meaning))
    case Content(text) => text
    case Unavailable => Sentinel
  }

  /** `(en_term, zh_term)` for the columns of a line under the given mode. */
  function Orient(mode: string, col1: string, col2: string): (string, string)
  {
    if mode == KeepOrder then (col1, col2) else (col2, col1)
  }

  /** The id of the `n`-th item: the clock reading, then the position. */
  function ItemId(stamp: string, n: nat): string
  {
    "pdf_" + stamp + "_" + Decimal(n)
  }

  /** The text after the last underscore of an id is the item's position, whatever the clock said. */
  lemma ItemIdPosition(stamp: string, n: nat)
    ensures DecimalValue(AfterLast(ItemId(stamp, n), '_')) == Some(n)
  {
    var q := Decimal(n);
    assert '_' !in q by {
      assert forall i :: 0 <= i < |q| ==> q[i] != '_';
    }
    assert ItemId(stamp, n) == ("pdf_" + stamp) + ['_'] + q;
    AfterLastOf("pdf_" + stamp, '_', q);
    DecimalRoundTrip(n);
  }

  /** Items at different positions have different ids, whatever the clock said. */
  lemma ItemIdsDistinct(s1: string, n1: nat, s2: string, n2: nat)
    requires n1 != n2
    ensures ItemId(s1, n1) != ItemId(s2, n2)
  {
    ItemIdPosition(s1, n1);
    ItemIdPosition(s2, n2);
  }

  /** The item built for the `n`-th matched pair, with `stamp` read from the clock. */
  function MakeItem(mode: string, service: string -> Reply, stamp: string, n: nat, p: Pair): Item
  {
    var (en, zh) := Orient(mode, p.0, p.1);
    var ai := if n < EnrichLimit then FetchEnrichment(service, en, zh) else Placeholder;
    Item(ItemId(stamp, n), en, zh, ai)
  }

  /**
   * The items built for a sequence of pairs; `clock(n)` is the clock reading
   * for the `n`-th. The contract only gives the length; what each item holds
   * is stated by `ItemsAt`.
   */
  function Items(pairs: seq<Pair>, mode: string, service: string -> Reply, clock: nat -> string): (r: seq<Item>)
    ensures |r| == |pairs|
  {
    if pairs == [] then []
    else
      var n := |pairs| - 1;
      Items(pairs[..n], mode, service, clock) + [MakeItem(mode, service, clock(n), n, pairs[n])]
  }

  /** The prompts sent while building the items for `pairs`, in order. */
  function Requests(pairs: seq<Pair>, mode: string): (r: seq<string>)
  {
    if pairs == [] then []
    else
      var n := |pairs| - 1;
      var (en, zh) := Orient(mode, pairs[n].0, pairs[n].1);
      Requests(pairs[..n], mode) + if n < EnrichLimit then [Prompt(en, zh)] else []
  }

  /**
   * Item by item: the terms are the columns in the mode's order, the id ends
   * in the item's position, the first ten items carry the service's answer
   * about their own terms and the others the placeholder.
   */
  lemma {:induction false} ItemsAt(pairs: seq<Pair>, mode: string, service: string -> Reply, clock: nat -> string)
    ensures forall i :: 0 <= i < |pairs| ==>
      var it := Items(pairs, mode, service, clock)[i];
      && (it.en, it.zh) == Orient(mode, pairs[i].0, pairs[i].1)
      && it.id == ItemId(clock(i), i)
      && it.ai == (if i < EnrichLimit then FetchEnrichment(service, it.en, it.zh) else Placeholder)
    decreases |pairs|
  {
    if pairs != [] {
      ItemsAt(pairs[..|pairs| - 1], mode, service, clock);
    }
  }

  /**
   * `count` and the list stay in step: the number at the end of every id is
   * that item's position in the list, so the ids are pairwise distinct.
   */
  lemma ItemIdsArePositions(pairs: seq<Pair>, mode: string, service: string -> Reply, clock: nat -> string)
    ensures forall i :: 0 <= i < |pairs| ==>
      DecimalValue(AfterLast(Items(pairs, mode, service, clock)[i].id, '_')) == Some(i)
    ensures forall i, j :: 0 <= i < j < |pairs| ==>
      Items(pairs, mode, service, clock)[i].id != Items(pairs, mode, service, clock)[j].id
  {
    ItemsAt(pairs, mode, service, clock);
    forall i | 0 <= i < |pairs|
      ensures DecimalValue(AfterLast(Items(pairs, mode, service, clock)[i].id, '_')) == Some(i)
    {
      ItemIdPosition(clock(i), i);
    }
  }

  /**
   * The service is asked exactly once for each of the first ten items, in
   * order, about that item's own terms, and never for the items after them.
   */
  lemma {:induction false} RequestsAt(pairs: seq<Pair>, mode: string, service: string -> Reply, clock: nat -> string)
    ensures |Requests(pairs, mode)| == if |pairs| < EnrichLimit then |pairs| else EnrichLimit
    ensures forall i :: 0 <= i < |Requests(pairs, mode)| ==>
      var it := Items(pairs, mode, service, clock)[i];
      Requests(pairs, mode)[i] == Prompt(it.en, it.zh)
    decreases |pairs|
  {
    if pairs != [] {
      RequestsAt(pairs[..|pairs| - 1], mode, service, clock);
      ItemsAt(pairs, mode, service, clock);
    }
  }

  /**
   * Every other mode exchanges the two terms of every item: what "en_cn"
   * files under `en` is filed under `zh`, and the other way round; ids are
   * the same.
   */
  lemma ModeSwapsTerms(pairs: seq<Pair>, mode: string, service: string -> Reply, clock: nat -> string)
    requires mode != KeepOrder
    ensures forall i :: 0 <= i < |pairs| ==>
      var kept, swapped := Items(pairs, KeepOrder, service, clock)[i], Items(pairs, mode, service, clock)[i];
      && swapped.en == kept.zh && swapped.zh == kept.en && swapped.id == kept.id
  {
    ItemsAt(pairs, KeepOrder, service, clock);
    ItemsAt(pairs, mode, service, clock);
  }

  /** Whatever the service answers, the items past the tenth carry the placeholder. */
  lemma LateItemsWait(pairs: seq<Pair>, mode: string, service: string -> Reply, clock: nat -> string)
    ensures forall i :: EnrichLimit <= i < |pairs| ==> Items(pairs, mode, service, clock)[i].ai == Placeholder
  {
    ItemsAt(pairs, mode, service, clock);
  }

  /** An item enriched while the service was down carries the fallback text. */
  lemma FailedServiceFallsBack(pairs: seq<Pair>, mode: string, service: string -> Reply, clock: nat -> string)
    requires forall prompt :: service(prompt) == Unavailable
    ensures forall i :: 0 <= i < |pairs| && i < EnrichLimit ==>
      Items(pairs, mode, service, clock)[i].ai == Sentinel
  {
    ItemsAt(pairs, mode, service, clock);
  }
}
