# translated-news-app: the aggregation pipeline in Dafny

This project models `fetch_and_translate` in `app.py` (Seki59/translated-news-app), which builds a Japanese news digest:

1. For each feed of the registry `RSS_FEEDS` (BBC, AlJazeera, APNews, in that order), take the first 10 entries of the parsed feed.
2. Translate each entry's title, and its summary when present. The translator turns every failure into the string `"[翻訳エラー]: "` followed by the cause.
3. Build one record per entry: `source`, `title_en`, `title_ja`, `summary_ja`, `link`, `published`.
4. Sort all records by the raw `published` string in descending order. The sort is stable.
5. Return the first 10 records.

The two external calls are parameters of the model:

- `fetch` maps a feed URL to the entries the feed parser yields. An unreachable feed yields none; a malformed one yields whatever the parser recovers.
- `service` is the translation service. For each text it answers `Translated(text)` or `Failed(cause)`.

Modules:

- `Lex`: Python's `<` on `str`. Code points are compared left to right, and a proper prefix is smaller.
- `Feeds`: the entry, registry and record types, and the two caps of 10 (entries per feed, records returned) and `RSS_FEEDS`.
- `Translation`: `translate_to_japanese` over a service, and reading a failure sentinel back.
- `Ranking`: the stable descending sort.
  - The specification is a function, `SortByPublished`.
  - The implementation is an in-place insertion sort on an array, `SortInPlace`, which moves an article left only past strictly smaller keys.
  - Python documents `list.sort` as stable, also with `reverse=True`. `StableSortUnique` shows that every sorted, stable result equals `SortByPublished`.
- `Aggregator`: the specification functions (`Collected`, `Ranked`, `Headlines`, `TranslatorCalls`) and the imperative pipeline.
  - `FetchAndTranslate` has nested loops that append records, then copies them into an array, sorts it in place and slices it.
  - It also returns the log of texts passed to the translator, as a ghost output.
- `AggregatorProperties`: what the pipeline guarantees. It covers:
  - sizes and the per-feed cap;
  - order, stability and truncation;
  - the field-by-field origin of each record;
  - exactly which texts reach the translator, and how many;
  - that an empty feed is the same as no feed;
  - that translation failures change only the two translated fields.

Ranking compares raw strings, not dates. With RFC 822 dates the weekday name decides first, so Wednesday 3 January 2024 is ranked above Tuesday 7 January 2025. `RawDateOrder` proves this example. The model keeps that behaviour.

## Model

| member | source | states |
|---|---|---|
| Lex.LessIrreflexive | app.py:49 | no `published` string sorts before itself |
| Lex.LessAsymmetric | app.py:49 | the string order used by the sort is asymmetric |
| Lex.LessTransitive | app.py:49 | the string order used by the sort is transitive |
| Lex.LessTotal | app.py:49 | any two different strings are ordered one way or the other |
| Lex.NotLessTransitive | app.py:49 | "not smaller than" is transitive, so descending order is a consistent ranking |
| Lex.EmptyIsLeast | app.py:46-49 | the default `""` is below every non-empty `published` |
| Lex.Less | app.py:49 | Python's `<` on `str`, whose order the `Lex` lemmas below state: irreflexive, asymmetric, transitive, total, with `""` least |
| Feeds.PublishedOrEmpty | app.py:46 | `entry.get("published", "")`; `HeadlineOrigin` states that each record's `published` is this value |
| Feeds.RssFeeds | app.py:11-15 | the registry `RSS_FEEDS` in dict order; `RegisteredSources` states that every returned source is one of its names |
| Translation.TranslateToJapanese | app.py:18-30 | `translate_to_japanese` over a service; `FailureYieldsSentinel` and `UntaggedIsTranslation` state that a failure yields the sentinel carrying its cause and that any other result is the service's translation |
| Translation.SentinelCause | app.py:30 | a text reads as a sentinel exactly when it starts with the tag, and is then the tag followed by the cause it returns |
| Translation.FailureYieldsSentinel | app.py:29-30 | a failed call yields a non-empty sentinel from which the failure cause is read back |
| Translation.UntaggedIsTranslation | app.py:18-30 | a result without the tag is the service's own translation of that text |
| Aggregator.BuildArticle | app.py:38-47 | one record from one entry; `HeadlineOrigin` and `SourceArticles` state its fields: source name, title unchanged and translated, summary translated or `""`, link unchanged, `published` or `""` |
| Aggregator.Collected | app.py:34-47 | the list before sorting; `CollectedLength`, `CollectedAt` and `CollectedMembers` state its length, the position of each entry's record, and its members |
| Aggregator.EntryCalls | app.py:38-39 | the texts one entry sends to the translator, title first, then the summary if present; `SourceCallsLength` and `SourceCallsMembers` state the count and members |
| Aggregator.SourceCalls | app.py:37-39 | the texts one feed sends; `SourceCallsMembers` and `SourceCallsLength` state its members and length |
| Aggregator.TranslatorCalls | app.py:35-39 | the texts the run sends, in call order; `TranslatorCallsMembers` and `TranslatorCallCount` state its members and length, `EmptyFeedCalls` that an empty feed adds none |
| Aggregator.Ranked | app.py:49 | the sorted collection; `RankedIsTheStableSort` states it is the unique sorted, stable arrangement of `Collected` |
| Aggregator.Headlines | app.py:49-50 | the response; `HeadlinesLength`, `HeadlinesRanked`, `HeadlinesAreTop`, `HeadlinesStable` and `HeadlineOrigin` state its length, order, selection, stability and field-by-field origin |
| Aggregator.Retained | app.py:37 | `entries[:10]` is the prefix of length min(10, len) |
| Aggregator.SourceArticles | app.py:37-47 | one record per retained entry, in feed order: record `j` is built from entry `j` |
| Aggregator.TranslateEntries | app.py:37-47 | the inner loop builds the records and the translator call log of one feed, in feed order |
| Aggregator.FetchAndTranslate | app.py:33-50 | the method returns the first 10 records of the stably ranked collection, and its call log is the specified call sequence |
| Ranking.Insert | app.py:49 | one insertion step; `InsertPermutation`, `InsertSorted`, `InsertStable` and `InsertSplit` state it is a permutation, keeps the order, keeps equal keys in order and places `x` after the last key not smaller |
| Ranking.SortByPublished | app.py:49 | the stable descending sort; `SortByPublishedPermutation`, `SortByPublishedSorted` and `SortByPublishedStable` state it is a permutation, non-increasing, and stable, and `StableSortUnique` that it is the only such list |
| Ranking.InsertPermutation | app.py:49 | one insertion step adds the article and loses nothing |
| Ranking.SortByPublishedPermutation | app.py:49 | ranking is a permutation of the collection |
| Ranking.InsertSorted | app.py:49 | inserting into a descending list keeps it descending |
| Ranking.SortByPublishedSorted | app.py:49 | the ranked list is non-increasing in `published` |
| Ranking.InsertStable | app.py:49 | an inserted article goes after every article with the same key |
| Ranking.SortByPublishedStable | app.py:49 | for every key, the ranked list keeps the input order of the articles with that key |
| Ranking.StableSortUnique | app.py:49 | two sorted lists with the same articles per key, in the same order, are equal |
| Ranking.PrefixIsTop | app.py:49-50 | a prefix of a ranked list is a sub-multiset, and ranks at least as high as every article cut |
| Ranking.EmptyPublishedLast | app.py:46-49 | in a ranked list, an article without a date is followed only by articles without a date |
| Ranking.InsertSplit | app.py:49 | insertion places the article right after the last key that is not smaller |
| Ranking.InsertAt | app.py:49 | the in-place shift is the insertion of `a[i]` into `a[..i]`, and the rest of the array is unchanged |
| Ranking.SortInPlace | app.py:49 | sorting the array in place yields `SortByPublished` of its old contents |
| AggregatorProperties.CollectedLength | app.py:35-40 | the collection has sum over feeds of min(10, entries) records |
| AggregatorProperties.HeadlinesLength | app.py:37-50 | the response has exactly min(10, sum over feeds of min(10, entries)) records, so at most 10 |
| AggregatorProperties.HeadlinesRanked | app.py:46-50 | the response is non-increasing in `published`, and undated articles come last |
| AggregatorProperties.RawDateOrder | app.py:49 | the raw RFC 822 strings of Wednesday 3 January 2024 and Tuesday 7 January 2025 rank the older date first |
| AggregatorProperties.HeadlinesAreTop | app.py:49-50 | the response is a sub-multiset of the collection, and no cut article ranks above a kept one |
| AggregatorProperties.HeadlinesStable | app.py:35-50 | for every `published` value, the response holds the first collected articles with it, in collection order |
| AggregatorProperties.RankedIsTheStableSort | app.py:49 | any sorted arrangement that is stable with respect to the collection is the ranking |
| AggregatorProperties.CollectedAt | app.py:34-47 | entry `j < 10` of feed `i` sits at position (retained entries of earlier feeds) + `j`: registry order, then feed order |
| AggregatorProperties.CollectedFromRetained | app.py:35-47 | every collected record is built from a retained entry of a registered feed |
| AggregatorProperties.RetainedAreCollected | app.py:35-47 | every retained entry of every registered feed yields a collected record |
| AggregatorProperties.CollectedMembers | app.py:35-47 | a record is collected exactly when it is built from some retained entry |
| AggregatorProperties.HeadlineOrigin | app.py:35-50 | each returned record is built field by field from entry `j < 10` of registered feed `i` (translated fields, summary `""` when absent, `published` `""` when absent) |
| AggregatorProperties.RegisteredSources | app.py:11-41 | with `RSS_FEEDS`, every record's source is BBC, AlJazeera or APNews |
| AggregatorProperties.SourceCallsMembers | app.py:37-39 | within one feed, a text is translated exactly when it is the title or present summary of an entry |
| AggregatorProperties.CallsFromRetained | app.py:35-39 | every text sent to the translator comes from a retained entry |
| AggregatorProperties.RetainedAreSent | app.py:35-39 | the title and present summary of every retained entry are sent to the translator |
| AggregatorProperties.TranslatorCallsMembers | app.py:35-39 | a text reaches the translator exactly when it is the title or present summary of a retained entry, so entries past the 10th never do |
| AggregatorProperties.SourceCallsLength | app.py:37-39 | one feed costs one call per entry, plus one per present summary |
| AggregatorProperties.TranslatorCallCount | app.py:35-39 | the run makes (retained entries) + (retained entries with a summary) translator calls |
| AggregatorProperties.CollectedConcat | app.py:35-40 | the collection of two registries, one after the other, is the concatenation of their collections |
| AggregatorProperties.CallsConcat | app.py:35-39 | the same holds for the translator calls |
| AggregatorProperties.EmptyFeedCollected | app.py:35-37 | a feed with no entries leaves the collection as if it were not registered |
| AggregatorProperties.EmptyFeedCalls | app.py:35-37 | a feed with no entries leaves the translator calls as if it were not registered |
| AggregatorProperties.EmptyFeedIsolated | app.py:35-50 | a feed with no entries leaves the response and the translator calls as if it were not registered |
| AggregatorProperties.InsertUntranslated | app.py:49 | insertion does not look at the translated fields |
| AggregatorProperties.SortUntranslated | app.py:49 | ranking does not look at the translated fields |
| AggregatorProperties.SourceArticlesUntranslated | app.py:38-47 | two services build the same records of a feed apart from `title_ja` / `summary_ja` |
| AggregatorProperties.CollectedUntranslated | app.py:35-47 | two services give the same collection apart from `title_ja` / `summary_ja` |
| AggregatorProperties.TranslationDoesNotAffectSelection | app.py:29-50 | which records are returned, and their order, do not depend on the translation service |
| AggregatorProperties.ServiceOutage | app.py:29-50 | when every call fails, the run still returns its full count; each title is the sentinel carrying the failure cause, and each summary is either `""` or a sentinel, and it is `""` exactly when the record's entry (a retained entry of a registered feed) has no summary |

## Left out

- Fetching and parsing feeds (`feedparser.parse`, app.py:36) is external. `fetch` is a function from URL to entries. So two feeds with the same URL see the same entries in one run, and a parser exception is not modelled.
- The OpenAI chat completion call, its model name, prompt and temperature (app.py:20-28) are a network call. `service` is a function of the text, so equal texts get equal answers within a run, which a remote model need not give. The cause of a failure is the exception's text, given as a string.
- Reading `OPENAI_API_KEY` and `PORT` from the environment, and the port default (app.py:8, 61), are process configuration.
- The Flask app, the `/api/news` route and the `jsonify` serialisation (app.py:53-62) are HTTP transport. A record is a datatype whose fields are the JSON keys.
- Entries without `title` or `link` raise `AttributeError` in the source (app.py:38, 45). In the model these fields are required, so that path is absent.
- The registry is any sequence of feeds. The source's dict forbids two feeds with the same name; no lemma needs that.
- Aggregator.FetchAndTranslate: Python's Timsort is replaced by an insertion sort. Python documents `list.sort` as stable, also with `reverse=True`, and the model takes that as given. `StableSortUnique` shows that every sorted, stable result equals `SortByPublished`.
- Aggregator.FetchAndTranslate: the call log is a ghost output. The source observes the calls only through the translator's side effects.
