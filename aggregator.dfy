/**
 * The aggregation pipeline `fetch_and_translate`: for every registered feed,
 * in registry order, take the first entries of the fetched feed, translate
 * each title (and each summary that is present), collect one article per
 * entry, rank the collection by descending `published` and return the first
 * `MaxArticles` of it.
 *
 * The two external calls are parameters: `fetch` maps a feed URL to the
 * entries the feed parser returns for it (an unreachable feed yields none, a
 * malformed one whatever the parser recovers), and `service` is the
 * translation service, whose failures `Translation.TranslateToJapanese`
 * turns into sentinel strings.
 */
module Aggregator {
  import opened Lex
  import opened Feeds
  import opened Translation
  import opened Ranking

  /** `feed.entries[:10]`: the entries of a feed that are considered. */
  function Retained(entries: seq<RawEntry>): (r: seq<RawEntry>)
    ensures |r| == Min(EntriesPerSource, |entries|)
    ensures r == entries[..|r|]
  {
    if |entries| <= EntriesPerSource then entries else entries[..EntriesPerSource]
  }

  /** The record built for entry `e` of the feed registered as `source`. */
  function BuildArticle(service: string -> Outcome, source: string, e: RawEntry): Article
  {
    Article(
      source,
      e.title,
      TranslateToJapanese(service, e.title),
      if e.summary.Some? then TranslateToJapanese(service, e.summary.value) else "",
      e.link,
      PublishedOrEmpty(e))
  }

  /** The articles built from `entries`, in feed order. */
  function SourceArticles(service: string -> Outcome, source: string, entries: seq<RawEntry>): (r: seq<Article>)
    ensures |r| == |entries|
    ensures forall j {:trigger r[j]} :: 0 <= j < |entries| ==> r[j] == BuildArticle(service, source, entries[j])
  {
    if |entries| == 0 then []
    else SourceArticles(service, source, entries[..|entries| - 1]) + [BuildArticle(service, source, entries[|entries| - 1])]
  }

  /** The collection before ranking: registry order first, then feed order. */
  function Collected(service: string -> Outcome, registry: seq<FeedSource>, fetch: string -> seq<RawEntry>): seq<Article>
  {
    if |registry| == 0 then []
    else
      var last := registry[|registry| - 1];
      Collected(service, registry[..|registry| - 1], fetch) + SourceArticles(service, last.name, Retained(fetch(last.url)))
  }

  /** The texts handed to the translator for one entry: its title, then its summary if present. */
  function EntryCalls(e: RawEntry): seq<string>
  {
    [e.title] + if e.summary.Some? then [e.summary.value] else []
  }

  function SourceCalls(entries: seq<RawEntry>): seq<string>
  {
    if |entries| == 0 then [] else SourceCalls(entries[..|entries| - 1]) + EntryCalls(entries[|entries| - 1])
  }

  /** The texts handed to the translator during one run, in call order. */
  function TranslatorCalls(registry: seq<FeedSource>, fetch: string -> seq<RawEntry>): seq<string>
  {
    if |registry| == 0 then []
    else TranslatorCalls(registry[..|registry| - 1], fetch) + SourceCalls(Retained(fetch(registry[|registry| - 1].url)))
  }

  /** The number of retained entries over all sources: the sum of `min(10, len(entries))`. */
  function RetainedTotal(registry: seq<FeedSource>, fetch: string -> seq<RawEntry>): nat
  {
    if |registry| == 0 then 0
    else RetainedTotal(registry[..|registry| - 1], fetch) + Min(EntriesPerSource, |fetch(registry[|registry| - 1].url)|)
  }

  function SummaryCount(entries: seq<RawEntry>): nat
  {
    if |entries| == 0 then 0
    else SummaryCount(entries[..|entries| - 1]) + if entries[|entries| - 1].summary.Some? then 1 else 0
  }

  /** The number of retained entries that have a summary, over all sources. */
  function SummaryTotal(registry: seq<FeedSource>, fetch: string -> seq<RawEntry>): nat
  {
    if |registry| == 0 then 0
    else SummaryTotal(registry[..|registry| - 1], fetch) + SummaryCount(Retained(fetch(registry[|registry| - 1].url)))
  }

  /** The collection ranked by `published`, before truncation. */
  function Ranked(service: string -> Outcome, registry: seq<FeedSource>, fetch: string -> seq<RawEntry>): seq<Article>
  {
    SortByPublished(Collected(service, registry, fetch))
  }

  /** What `fetch_and_translate` returns: the first `MaxArticles` ranked articles. */
  function Headlines(service: string -> Outcome, registry: seq<FeedSource>, fetch: string -> seq<RawEntry>): seq<Article>
  {
    var ranked := Ranked(service, registry, fetch);
    ranked[..Min(MaxArticles, |ranked|)]
  }

  /** One unfolding of `Collected`: the last feed's articles come last. */
  lemma CollectedUnfold(service: string -> Outcome, registry: seq<FeedSource>, fetch: string -> seq<RawEntry>)
    requires |registry| > 0
    ensures Collected(service, registry, fetch)
         == Collected(service, registry[..|registry| - 1], fetch)
            + SourceArticles(service, registry[|registry| - 1].name, Retained(fetch(registry[|registry| - 1].url)))
  {
  }

  /** One unfolding of `TranslatorCalls`: the last feed's calls come last. */
  lemma CallsUnfold(registry: seq<FeedSource>, fetch: string -> seq<RawEntry>)
    requires |registry| > 0
    ensures TranslatorCalls(registry, fetch)
         == TranslatorCalls(registry[..|registry| - 1], fetch) + SourceCalls(Retained(fetch(registry[|registry| - 1].url)))
  {
  }

  lemma SourceStep(service: string -> Outcome, source: string, entries: seq<RawEntry>, j: nat)
    requires j < |entries|
    ensures SourceArticles(service, source, entries[..j + 1])
         == SourceArticles(service, source, entries[..j]) + [BuildArticle(service, source, entries[j])]
    ensures SourceCalls(entries[..j + 1]) == SourceCalls(entries[..j]) + EntryCalls(entries[j])
  {
    assert entries[..j + 1][..j] == entries[..j];
  }

  lemma RegistryStep(service: string -> Outcome, registry: seq<FeedSource>, fetch: string -> seq<RawEntry>, i: nat)
    requires i < |registry|
    ensures Collected(service, registry[..i + 1], fetch)
         == Collected(service, registry[..i], fetch) + SourceArticles(service, registry[i].name, Retained(fetch(registry[i].url)))
    ensures TranslatorCalls(registry[..i + 1], fetch)
         == TranslatorCalls(registry[..i], fetch) + SourceCalls(Retained(fetch(registry[i].url)))
  {
    assert registry[..i + 1][..i] == registry[..i];
  }

  /**
   * The inner loop of `fetch_and_translate` for one feed: translate the
   * retained entries one by one and build their records. `calls` is the log
   * of the texts passed to the translator, in call order.
   */
  method TranslateEntries(service: string -> Outcome, source: string, entries: seq<RawEntry>)
    returns (built: seq<Article>, ghost calls: seq<string>)
    ensures built == SourceArticles(service, source, entries)
    ensures calls == SourceCalls(entries)
  {
    built, calls := [], [];
    for j := 0 to |entries|
      invariant built == SourceArticles(service, source, entries[..j])
      invariant calls == SourceCalls(entries[..j])
    {
      var entry := entries[j];
      var titleJa := TranslateToJapanese(service, entry.title);
      calls := calls + [entry.title];
      var summaryJa := "";
      if entry.summary.Some? {
        summaryJa := TranslateToJapanese(service, entry.summary.value);
        calls := calls + [entry.summary.value];
      }
      var published := if entry.published.Some? then entry.published.value else "";
      built := built + [Article(source, entry.title, titleJa, summaryJa, entry.link, published)];
      SourceStep(service, source, entries, j);
    }
    assert entries[..|entries|] == entries;
  }

  /**
   * `fetch_and_translate`, with the registry, the feed fetcher and the
   * translation service as parameters. `calls` is the log of the texts passed
   * to the translator, in call order.
   */
  method FetchAndTranslate(service: string -> Outcome, registry: seq<FeedSource>, fetch: string -> seq<RawEntry>)
    returns (top: seq<Article>, ghost calls: seq<string>)
    ensures top == Headlines(service, registry, fetch)
    ensures calls == TranslatorCalls(registry, fetch)
  {
    var articles: seq<Article> := [];
    calls := [];
    for i := 0 to |registry|
      invariant articles == Collected(service, registry[..i], fetch)
      invariant calls == TranslatorCalls(registry[..i], fetch)
    {
      var source := registry[i];
      var built, sourceCalls := TranslateEntries(service, source.name, Retained(fetch(source.url)));
      articles := articles + built;
      calls := calls + sourceCalls;
      RegistryStep(service, registry, fetch, i);
    }
    assert registry[..|registry|] == registry;
    var ranked := new Article[|articles|](k requires 0 <= k < |articles| => articles[k]);
    assert ranked[..] == articles;
    SortInPlace(ranked);
    assert ranked[..] == Ranked(service, registry, fetch);
    top := ranked[..Min(MaxArticles, ranked.Length)];
  }
}
