/**
 * What `fetch_and_translate` guarantees, stated over the specification
 * functions of `Aggregator` (which `Aggregator.FetchAndTranslate` is proved
 * to compute): the size bound, the per-feed cap, the ranking and its
 * stability, where every article comes from, which texts reach the
 * translator, and that an empty feed or a failing translation service
 * degrades the result without aborting it.
 */
module AggregatorProperties {
  import opened Lex
  import opened Feeds
  import opened Translation
  import opened Ranking
  import opened Aggregator

  // ---------------------------------------------------------------------------
  // Sizes

  lemma {:induction false} CollectedLength(service: string -> Outcome, registry: seq<FeedSource>, fetch: string -> seq<RawEntry>)
    ensures |Collected(service, registry, fetch)| == RetainedTotal(registry, fetch)
    decreases |registry|
  {
    if |registry| > 0 {
      CollectedLength(service, registry[..|registry| - 1], fetch);
    }
  }

  /** The response holds min(10, sum over feeds of min(10, entries)) articles. */
  lemma HeadlinesLength(service: string -> Outcome, registry: seq<FeedSource>, fetch: string -> seq<RawEntry>)
    ensures |Headlines(service, registry, fetch)| == Min(MaxArticles, RetainedTotal(registry, fetch))
    ensures |Headlines(service, registry, fetch)| <= MaxArticles
  {
    CollectedLength(service, registry, fetch);
  }

  // ---------------------------------------------------------------------------
  // Ranking and truncation

  /**
   * The response is ordered by non-increasing `published` (as strings), so an
   * article without a date is followed only by articles without a date.
   */
  lemma HeadlinesRanked(service: string -> Outcome, registry: seq<FeedSource>, fetch: string -> seq<RawEntry>)
    ensures SortedDesc(Headlines(service, registry, fetch))
    ensures forall i, j :: 0 <= i < j < |Headlines(service, registry, fetch)| && Headlines(service, registry, fetch)[i].published == ""
              ==> Headlines(service, registry, fetch)[j].published == ""
  {
    var h := Headlines(service, registry, fetch);
    SortByPublishedSorted(Collected(service, registry, fetch));
    forall i, j | 0 <= i < j < |h| && h[i].published == ""
      ensures h[j].published == ""
    {
      EmptyPublishedLast(h, i, j);
    }
  }

  /**
   * The order is the raw string order, not the chronological one: with RFC 822
   * dates, as RSS feeds carry them, the weekday name decides first, so a
   * Wednesday article from 2024 is ranked above a Tuesday article from 2025.
   */
  lemma {:induction false} RawDateOrder(newer: Article, older: Article)
    requires newer.published == "Tue, 07 Jan 2025 09:00:00 GMT"
    requires older.published == "Wed, 03 Jan 2024 09:00:00 GMT"
    ensures SortByPublished([newer, older]) == [older, newer]
  {
    var s := [newer, older];
    assert Less(newer.published, older.published);
    assert s[..1] == [newer];
    assert SortByPublished([newer]) == [newer];
    InsertPastSmaller(older, [newer]);
  }

  /**
   * The response is drawn from the collected articles without adding or
   * duplicating any, and every collected article that was cut is ranked no
   * higher than any article that was kept.
   */
  lemma HeadlinesAreTop(service: string -> Outcome, registry: seq<FeedSource>, fetch: string -> seq<RawEntry>)
    ensures multiset(Headlines(service, registry, fetch)) <= multiset(Collected(service, registry, fetch))
    ensures forall a, b :: a in Headlines(service, registry, fetch)
              && b in multiset(Collected(service, registry, fetch)) - multiset(Headlines(service, registry, fetch))
              ==> !Less(a.published, b.published)
  {
    var c := Collected(service, registry, fetch);
    var r := SortByPublished(c);
    SortByPublishedSorted(c);
    SortByPublishedPermutation(c);
    PrefixIsTop(r, |Headlines(service, registry, fetch)|);
  }

  /**
   * Stability: for every `published` value, the articles of the response with
   * that value are the first ones collected with it, in collection order
   * (registry order, then feed order).
   */
  lemma HeadlinesStable(service: string -> Outcome, registry: seq<FeedSource>, fetch: string -> seq<RawEntry>, k: string)
    ensures WithPublished(Headlines(service, registry, fetch), k) <= WithPublished(Collected(service, registry, fetch), k)
  {
    var r := Ranked(service, registry, fetch);
    WithPublishedPrefix(r, |Headlines(service, registry, fetch)|, k);
    SortByPublishedStable(Collected(service, registry, fetch), k);
  }

  /**
   * The ranking is the one any stable sort by descending `published` yields:
   * a sorted list that keeps the collection order within every key is it.
   */
  lemma RankedIsTheStableSort(service: string -> Outcome, registry: seq<FeedSource>, fetch: string -> seq<RawEntry>, t: seq<Article>)
    requires SortedDesc(t)
    requires forall k :: WithPublished(t, k) == WithPublished(Collected(service, registry, fetch), k)
    ensures t == Ranked(service, registry, fetch)
  {
    var c := Collected(service, registry, fetch);
    SortByPublishedSorted(c);
    forall k | true
      ensures WithPublished(t, k) == WithPublished(SortByPublished(c), k)
    {
      SortByPublishedStable(c, k);
    }
    StableSortUnique(t, SortByPublished(c));
  }

  // ---------------------------------------------------------------------------
  // Where articles come from

  /**
   * The collection is laid out feed by feed in registry order, each feed's
   * retained entries in feed order: entry `j` of feed `i` sits right after
   * the retained entries of the feeds before it.
   */
  lemma {:induction false} CollectedAt(service: string -> Outcome, registry: seq<FeedSource>, fetch: string -> seq<RawEntry>, i: nat, j: nat)
    requires i < |registry| && j < Min(EntriesPerSource, |fetch(registry[i].url)|)
    ensures RetainedTotal(registry[..i], fetch) + j < |Collected(service, registry, fetch)|
    ensures Collected(service, registry, fetch)[RetainedTotal(registry[..i], fetch) + j]
         == BuildArticle(service, registry[i].name, fetch(registry[i].url)[j])
    decreases |registry|
  {
    var n := |registry| - 1;
    if i < n {
      var init := registry[..n];
      assert init[..i] == registry[..i] && init[i] == registry[i];
      CollectedAt(service, init, fetch, i, j);
      CollectedAtEarlier(service, registry, fetch, RetainedTotal(registry[..i], fetch) + j);
    } else {
      CollectedAtLast(service, registry, fetch, j);
    }
  }

  /** Positions within the feeds before the last one are unchanged by the last feed's articles. */
  lemma CollectedAtEarlier(service: string -> Outcome, registry: seq<FeedSource>, fetch: string -> seq<RawEntry>, p: nat)
    requires |registry| > 0 && p < |Collected(service, registry[..|registry| - 1], fetch)|
    ensures p < |Collected(service, registry, fetch)|
    ensures Collected(service, registry, fetch)[p] == Collected(service, registry[..|registry| - 1], fetch)[p]
  {
    CollectedUnfold(service, registry, fetch);
    var n := |registry| - 1;
    IndexLeft(Collected(service, registry[..n], fetch), SourceArticles(service, registry[n].name, Retained(fetch(registry[n].url))), p);
  }

  /** The last feed's retained entries come right after all the others. */
  lemma CollectedAtLast(service: string -> Outcome, registry: seq<FeedSource>, fetch: string -> seq<RawEntry>, j: nat)
    requires |registry| > 0 && j < Min(EntriesPerSource, |fetch(registry[|registry| - 1].url)|)
    ensures RetainedTotal(registry[..|registry| - 1], fetch) + j < |Collected(service, registry, fetch)|
    ensures Collected(service, registry, fetch)[RetainedTotal(registry[..|registry| - 1], fetch) + j]
         == BuildArticle(service, registry[|registry| - 1].name, fetch(registry[|registry| - 1].url)[j])
  {
    var n := |registry| - 1;
    var earlier, own := Collected(service, registry[..n], fetch), SourceArticles(service, registry[n].name, Retained(fetch(registry[n].url)));
    CollectedUnfold(service, registry, fetch);
    CollectedLength(service, registry[..n], fetch);
    RetainedArticlesAt(service, registry[n].name, fetch(registry[n].url), j);
    IndexRight(earlier, own, j);
  }

  /** The `j`-th article of a feed within the cap is built from its `j`-th entry. */
  lemma RetainedArticlesAt(service: string -> Outcome, source: string, entries: seq<RawEntry>, j: nat)
    requires j < Min(EntriesPerSource, |entries|)
    ensures SourceArticles(service, source, Retained(entries))[j] == BuildArticle(service, source, entries[j])
  {
    var kept := Retained(entries);
    assert kept[j] == entries[j];
  }

  /** `a` is the record built from entry `j` of the feed registered at position `i`, and `j` is within the cap. */
  predicate BuiltFromRetained(service: string -> Outcome, registry: seq<FeedSource>, fetch: string -> seq<RawEntry>, a: Article, i: int, j: int)
  {
    && 0 <= i < |registry|
    && 0 <= j < Min(EntriesPerSource, |fetch(registry[i].url)|)
    && a == BuildArticle(service, registry[i].name, fetch(registry[i].url)[j])
  }

  /** The feeds before the last one see the same entries at the same positions. */
  lemma BuiltFromRetainedInit(service: string -> Outcome, registry: seq<FeedSource>, fetch: string -> seq<RawEntry>, a: Article, i: nat, j: nat)
    requires 0 < |registry| && i < |registry| - 1
    ensures BuiltFromRetained(service, registry, fetch, a, i, j) <==> BuiltFromRetained(service, registry[..|registry| - 1], fetch, a, i, j)
  {
    assert registry[..|registry| - 1][i] == registry[i];
  }

  lemma {:induction false} CollectedFromRetained(service: string -> Outcome, registry: seq<FeedSource>, fetch: string -> seq<RawEntry>, a: Article)
    requires a in Collected(service, registry, fetch)
    ensures exists i, j :: BuiltFromRetained(service, registry, fetch, a, i, j)
    decreases |registry|
  {
    var n := |registry| - 1;
    var init, last := registry[..n], registry[n];
    var kept := Retained(fetch(last.url));
    CollectedUnfold(service, registry, fetch);
    if a in Collected(service, init, fetch) {
      CollectedFromRetained(service, init, fetch, a);
      var i, j :| BuiltFromRetained(service, init, fetch, a, i, j);
      BuiltFromRetainedInit(service, registry, fetch, a, i, j);
    } else {
      var own := SourceArticles(service, last.name, kept);
      assert a in own;
      var j :| 0 <= j < |own| && own[j] == a;
      assert kept[j] == fetch(registry[n].url)[j];
      assert BuiltFromRetained(service, registry, fetch, a, n, j);
    }
  }

  lemma {:induction false} RetainedAreCollected(service: string -> Outcome, registry: seq<FeedSource>, fetch: string -> seq<RawEntry>, a: Article, i: nat, j: nat)
    requires BuiltFromRetained(service, registry, fetch, a, i, j)
    ensures a in Collected(service, registry, fetch)
    decreases |registry|
  {
    var n := |registry| - 1;
    var init, last := registry[..n], registry[n];
    if i < n {
      BuiltFromRetainedInit(service, registry, fetch, a, i, j);
      RetainedAreCollected(service, init, fetch, a, i, j);
      CollectedUnfold(service, registry, fetch);
    } else {
      var kept := Retained(fetch(last.url));
      assert kept[j] == fetch(last.url)[j];
      var earlier, own := Collected(service, init, fetch), SourceArticles(service, last.name, kept);
      assert own[j] == a;
      CollectedUnfold(service, registry, fetch);
      assert (earlier + own)[|earlier| + j] == a;
    }
  }

  /**
   * An article is collected exactly when it is built from one of the first
   * `EntriesPerSource` entries of some registered feed.
   */
  lemma CollectedMembers(service: string -> Outcome, registry: seq<FeedSource>, fetch: string -> seq<RawEntry>, a: Article)
    ensures a in Collected(service, registry, fetch) <==> exists i, j :: BuiltFromRetained(service, registry, fetch, a, i, j)
  {
    if a in Collected(service, registry, fetch) {
      CollectedFromRetained(service, registry, fetch, a);
    }
    if exists i, j :: BuiltFromRetained(service, registry, fetch, a, i, j) {
      var i, j :| BuiltFromRetained(service, registry, fetch, a, i, j);
      RetainedAreCollected(service, registry, fetch, a, i, j);
    }
  }

  /**
   * Every returned article is built field by field from one of the first
   * `EntriesPerSource` entries of a registered feed: the registry name, the
   * title unchanged and translated, the summary translated or empty when
   * absent, the link unchanged, and `published` or empty when absent.
   */
  lemma HeadlineOrigin(service: string -> Outcome, registry: seq<FeedSource>, fetch: string -> seq<RawEntry>, a: Article)
    returns (i: nat, j: nat)
    requires a in Headlines(service, registry, fetch)
    ensures i < |registry| && j < EntriesPerSource && j < |fetch(registry[i].url)|
    ensures a.source == registry[i].name
    ensures a.titleEn == fetch(registry[i].url)[j].title
    ensures a.titleJa == TranslateToJapanese(service, fetch(registry[i].url)[j].title)
    ensures fetch(registry[i].url)[j].summary.None? ==> a.summaryJa == ""
    ensures fetch(registry[i].url)[j].summary.Some? ==>
              a.summaryJa == TranslateToJapanese(service, fetch(registry[i].url)[j].summary.value)
    ensures a.link == fetch(registry[i].url)[j].link
    ensures a.published == PublishedOrEmpty(fetch(registry[i].url)[j])
  {
    HeadlinesAreTop(service, registry, fetch);
    assert a in multiset(Headlines(service, registry, fetch));
    assert a in Collected(service, registry, fetch);
    CollectedMembers(service, registry, fetch, a);
    i, j :| BuiltFromRetained(service, registry, fetch, a, i, j);
  }

  /** Every returned article names one of the feeds of `RSS_FEEDS`. */
  lemma RegisteredSources(service: string -> Outcome, fetch: string -> seq<RawEntry>, a: Article)
    requires a in Headlines(service, RssFeeds, fetch)
    ensures a.source in {"BBC", "AlJazeera", "APNews"}
  {
    var i, j := HeadlineOrigin(service, RssFeeds, fetch, a);
  }

  // ---------------------------------------------------------------------------
  // Calls to the translator

  lemma {:induction false} SourceCallsMembers(entries: seq<RawEntry>, t: string)
    ensures t in SourceCalls(entries)
        <==> exists j :: 0 <= j < |entries| && (entries[j].title == t || entries[j].summary == Some(t))
    decreases |entries|
  {
    if |entries| > 0 {
      var init := entries[..|entries| - 1];
      SourceCallsMembers(init, t);
      if exists j :: 0 <= j < |entries| && (entries[j].title == t || entries[j].summary == Some(t)) {
        var j :| 0 <= j < |entries| && (entries[j].title == t || entries[j].summary == Some(t));
        if j < |init| {
          assert init[j] == entries[j];
        }
      }
      if exists j :: 0 <= j < |init| && (init[j].title == t || init[j].summary == Some(t)) {
        var j :| 0 <= j < |init| && (init[j].title == t || init[j].summary == Some(t));
        assert entries[j] == init[j];
      }
    }
  }

  lemma InEither<T>(x: T, a: seq<T>, b: seq<T>)
    ensures x in a + b <==> x in a || x in b
  {
  }

  /** Text `t` is the title, or the present summary, of entry `j` of feed `i`, which is retained. */
  predicate SentFromRetained(registry: seq<FeedSource>, fetch: string -> seq<RawEntry>, t: string, i: int, j: int)
  {
    0 <= i < |registry| && 0 <= j < Min(EntriesPerSource, |fetch(registry[i].url)|)
    && (fetch(registry[i].url)[j].title == t || fetch(registry[i].url)[j].summary == Some(t))
  }

  /** The feeds before the last one hand the same texts to the translator. */
  lemma SentFromRetainedInit(registry: seq<FeedSource>, fetch: string -> seq<RawEntry>, t: string, i: nat, j: nat)
    requires 0 < |registry| && i < |registry| - 1
    ensures SentFromRetained(registry, fetch, t, i, j) <==> SentFromRetained(registry[..|registry| - 1], fetch, t, i, j)
  {
    assert registry[..|registry| - 1][i] == registry[i];
  }

  lemma {:induction false} CallsFromRetained(registry: seq<FeedSource>, fetch: string -> seq<RawEntry>, t: string)
    requires t in TranslatorCalls(registry, fetch)
    ensures exists i, j :: SentFromRetained(registry, fetch, t, i, j)
    decreases |registry|
  {
    var n := |registry| - 1;
    var init, last := registry[..n], registry[n];
    var kept := Retained(fetch(last.url));
    CallsUnfold(registry, fetch);
    if t in TranslatorCalls(init, fetch) {
      CallsFromRetained(init, fetch, t);
      var i, j :| SentFromRetained(init, fetch, t, i, j);
      SentFromRetainedInit(registry, fetch, t, i, j);
    } else {
      assert t in SourceCalls(kept);
      SourceCallsMembers(kept, t);
      var j :| 0 <= j < |kept| && (kept[j].title == t || kept[j].summary == Some(t));
      assert kept[j] == fetch(registry[n].url)[j];
      assert SentFromRetained(registry, fetch, t, n, j);
    }
  }

  lemma {:induction false} RetainedAreSent(registry: seq<FeedSource>, fetch: string -> seq<RawEntry>, t: string, i: nat, j: nat)
    requires SentFromRetained(registry, fetch, t, i, j)
    ensures t in TranslatorCalls(registry, fetch)
    decreases |registry|
  {
    var n := |registry| - 1;
    var init, kept := registry[..n], Retained(fetch(registry[n].url));
    if i < n {
      assert t in TranslatorCalls(init, fetch) by {
        SentFromRetainedInit(registry, fetch, t, i, j);
        RetainedAreSent(init, fetch, t, i, j);
      }
    } else {
      assert t in SourceCalls(kept) by {
        assert kept[j] == fetch(registry[i].url)[j];
        SourceCallsMembers(kept, t);
      }
    }
    CallsUnfold(registry, fetch);
    InEither(t, TranslatorCalls(init, fetch), SourceCalls(kept));
  }

  /**
   * A text reaches the translator exactly when it is the title, or the
   * present summary, of one of the first `EntriesPerSource` entries of a
   * registered feed; later entries are never translated.
   */
  lemma TranslatorCallsMembers(registry: seq<FeedSource>, fetch: string -> seq<RawEntry>, t: string)
    ensures t in TranslatorCalls(registry, fetch) <==> exists i, j :: SentFromRetained(registry, fetch, t, i, j)
  {
    if t in TranslatorCalls(registry, fetch) {
      CallsFromRetained(registry, fetch, t);
    }
    if exists i, j :: SentFromRetained(registry, fetch, t, i, j) {
      var i, j :| SentFromRetained(registry, fetch, t, i, j);
      RetainedAreSent(registry, fetch, t, i, j);
    }
  }

  lemma {:induction false} SourceCallsLength(entries: seq<RawEntry>)
    ensures |SourceCalls(entries)| == |entries| + SummaryCount(entries)
    decreases |entries|
  {
    if |entries| > 0 {
      SourceCallsLength(entries[..|entries| - 1]);
    }
  }

  /**
   * The translator is called once per retained entry for its title and once
   * more only for each retained entry that has a summary.
   */
  lemma {:induction false} TranslatorCallCount(registry: seq<FeedSource>, fetch: string -> seq<RawEntry>)
    ensures |TranslatorCalls(registry, fetch)| == RetainedTotal(registry, fetch) + SummaryTotal(registry, fetch)
    decreases |registry|
  {
    if |registry| > 0 {
      TranslatorCallCount(registry[..|registry| - 1], fetch);
      SourceCallsLength(Retained(fetch(registry[|registry| - 1].url)));
    }
  }

  // ---------------------------------------------------------------------------
  // Failure isolation

  lemma IndexLeft<T>(a: seq<T>, b: seq<T>, p: nat)
    requires p < |a|
    ensures (a + b)[p] == a[p]
  {
  }

  lemma IndexRight<T>(a: seq<T>, b: seq<T>, j: nat)
    requires j < |b|
    ensures (a + b)[|a| + j] == b[j]
  {
  }

  lemma AppendAssoc<T>(a: seq<T>, b: seq<T>, c: seq<T>)
    ensures (a + b) + c == a + (b + c)
  {
  }

  lemma {:induction false} CollectedConcat(service: string -> Outcome, r1: seq<FeedSource>, r2: seq<FeedSource>, fetch: string -> seq<RawEntry>)
    ensures Collected(service, r1 + r2, fetch) == Collected(service, r1, fetch) + Collected(service, r2, fetch)
    decreases |r2|
  {
    if |r2| == 0 {
      assert r1 + r2 == r1;
    } else {
      var init, last := r2[..|r2| - 1], r2[|r2| - 1];
      var both := r1 + r2;
      assert both[..|both| - 1] == r1 + init;
      assert both[|both| - 1] == last;
      CollectedConcat(service, r1, init, fetch);
      CollectedUnfold(service, both, fetch);
      CollectedUnfold(service, r2, fetch);
      var f := SourceArticles(service, last.name, Retained(fetch(last.url)));
      var a, b := Collected(service, r1, fetch), Collected(service, init, fetch);
      AppendAssoc(a, b, f);
    }
  }

  lemma {:induction false} CallsConcat(r1: seq<FeedSource>, r2: seq<FeedSource>, fetch: string -> seq<RawEntry>)
    ensures TranslatorCalls(r1 + r2, fetch) == TranslatorCalls(r1, fetch) + TranslatorCalls(r2, fetch)
    decreases |r2|
  {
    if |r2| == 0 {
      assert r1 + r2 == r1;
    } else {
      var init, last := r2[..|r2| - 1], r2[|r2| - 1];
      var both := r1 + r2;
      assert both[..|both| - 1] == r1 + init;
      assert both[|both| - 1] == last;
      CallsConcat(r1, init, fetch);
      CallsUnfold(both, fetch);
      CallsUnfold(r2, fetch);
      var f := SourceCalls(Retained(fetch(last.url)));
      var a, b := TranslatorCalls(r1, fetch), TranslatorCalls(init, fetch);
      AppendAssoc(a, b, f);
    }
  }

  lemma DropEmpty<T>(left: seq<T>, a: seq<T>, e: seq<T>, b: seq<T>)
    requires left == a + e && e == []
    ensures left + b == a + b
  {
  }

  /** A registry of one feed that yields no entries collects nothing. */
  lemma SilentFeed(service: string -> Outcome, source: FeedSource, fetch: string -> seq<RawEntry>)
    requires fetch(source.url) == []
    ensures Collected(service, [source], fetch) == []
  {
    assert [source][..0] == [];
  }

  lemma SplitAround<T>(s: seq<T>, i: nat)
    requires i < |s|
    ensures s == (s[..i] + [s[i]]) + s[i + 1..]
  {
  }

  lemma EmptyFeedCollected(service: string -> Outcome, registry: seq<FeedSource>, fetch: string -> seq<RawEntry>, i: nat)
    requires i < |registry| && fetch(registry[i].url) == []
    ensures Collected(service, registry, fetch) == Collected(service, registry[..i] + registry[i + 1..], fetch)
  {
    var before, dead, after := registry[..i], [registry[i]], registry[i + 1..];
    var a, b := Collected(service, before, fetch), Collected(service, after, fetch);
    calc {
      Collected(service, registry, fetch);
      { SplitAround(registry, i); }
      Collected(service, (before + dead) + after, fetch);
      { CollectedConcat(service, before + dead, after, fetch); }
      Collected(service, before + dead, fetch) + b;
      { CollectedConcat(service, before, dead, fetch);
        SilentFeed(service, registry[i], fetch);
        DropEmpty(Collected(service, before + dead, fetch), a, Collected(service, dead, fetch), b); }
      a + b;
      { CollectedConcat(service, before, after, fetch); }
      Collected(service, before + after, fetch);
    }
  }

  /** A registry of one feed that yields no entries sends nothing to the translator. */
  lemma SilentFeedCalls(source: FeedSource, fetch: string -> seq<RawEntry>)
    requires fetch(source.url) == []
    ensures TranslatorCalls([source], fetch) == []
  {
    assert [source][..0] == [];
  }

  lemma EmptyFeedCalls(registry: seq<FeedSource>, fetch: string -> seq<RawEntry>, i: nat)
    requires i < |registry| && fetch(registry[i].url) == []
    ensures TranslatorCalls(registry, fetch) == TranslatorCalls(registry[..i] + registry[i + 1..], fetch)
  {
    var before, dead, after := registry[..i], [registry[i]], registry[i + 1..];
    var a, b := TranslatorCalls(before, fetch), TranslatorCalls(after, fetch);
    calc {
      TranslatorCalls(registry, fetch);
      { SplitAround(registry, i); }
      TranslatorCalls((before + dead) + after, fetch);
      { CallsConcat(before + dead, after, fetch); }
      TranslatorCalls(before + dead, fetch) + b;
      { CallsConcat(before, dead, fetch);
        SilentFeedCalls(registry[i], fetch);
        DropEmpty(TranslatorCalls(before + dead, fetch), a, TranslatorCalls(dead, fetch), b); }
      a + b;
      { CallsConcat(before, after, fetch); }
      TranslatorCalls(before + after, fetch);
    }
  }

  /**
   * A feed that yields no entries (an unreachable one, say) changes nothing:
   * the response and the translator calls are those of the registry without it.
   */
  lemma EmptyFeedIsolated(service: string -> Outcome, registry: seq<FeedSource>, fetch: string -> seq<RawEntry>, i: nat)
    requires i < |registry| && fetch(registry[i].url) == []
    ensures Headlines(service, registry, fetch) == Headlines(service, registry[..i] + registry[i + 1..], fetch)
    ensures TranslatorCalls(registry, fetch) == TranslatorCalls(registry[..i] + registry[i + 1..], fetch)
  {
    EmptyFeedCollected(service, registry, fetch, i);
    EmptyFeedCalls(registry, fetch, i);
  }

  /** An article with its two translated fields blanked. */
  function Untranslated(a: Article): Article
  {
    a.(titleJa := "", summaryJa := "")
  }

  function UntranslatedAll(s: seq<Article>): (r: seq<Article>)
    ensures |r| == |s|
  {
    seq(|s|, i requires 0 <= i < |s| => Untranslated(s[i]))
  }

  lemma UntranslatedAppend(x: seq<Article>, y: seq<Article>)
    ensures UntranslatedAll(x + y) == UntranslatedAll(x) + UntranslatedAll(y)
  {
  }

  lemma UntranslatedPrefix(s: seq<Article>, n: nat)
    requires n <= |s|
    ensures UntranslatedAll(s[..n]) == UntranslatedAll(s)[..n]
  {
  }

  lemma {:induction false} InsertUntranslated(x: Article, s: seq<Article>)
    ensures UntranslatedAll(Insert(x, s)) == Insert(Untranslated(x), UntranslatedAll(s))
    decreases |s|
  {
    var ux, u := Untranslated(x), UntranslatedAll(s);
    if |s| == 0 {
      assert UntranslatedAll([x]) == [ux];
    } else {
      var init, last := s[..|s| - 1], s[|s| - 1];
      assert u[..|u| - 1] == UntranslatedAll(init) && u[|u| - 1] == Untranslated(last);
      if Less(last.published, x.published) {
        calc {
          UntranslatedAll(Insert(x, s));
          { InsertPastSmaller(x, s); }
          UntranslatedAll(Insert(x, init) + [last]);
          { UntranslatedAppend(Insert(x, init), [last]);
            assert UntranslatedAll([last]) == [Untranslated(last)]; }
          UntranslatedAll(Insert(x, init)) + [Untranslated(last)];
          { InsertUntranslated(x, init); }
          Insert(ux, UntranslatedAll(init)) + [Untranslated(last)];
          { InsertPastSmaller(ux, u); }
          Insert(ux, u);
        }
      } else {
        calc {
          UntranslatedAll(Insert(x, s));
          { InsertBehindLast(x, s); }
          UntranslatedAll(s + [x]);
          { UntranslatedAppend(s, [x]);
            assert UntranslatedAll([x]) == [ux]; }
          u + [ux];
          { InsertBehindLast(ux, u); }
          Insert(ux, u);
        }
      }
    }
  }

  lemma {:induction false} SortUntranslated(s: seq<Article>)
    ensures UntranslatedAll(SortByPublished(s)) == SortByPublished(UntranslatedAll(s))
    decreases |s|
  {
    if |s| > 0 {
      var init := s[..|s| - 1];
      var u := UntranslatedAll(s);
      assert u[..|u| - 1] == UntranslatedAll(init) && u[|u| - 1] == Untranslated(s[|s| - 1]);
      SortUntranslated(init);
      InsertUntranslated(s[|s| - 1], SortByPublished(init));
    }
  }

  lemma {:induction false} SourceArticlesUntranslated(s1: string -> Outcome, s2: string -> Outcome, source: string, entries: seq<RawEntry>)
    ensures UntranslatedAll(SourceArticles(s1, source, entries)) == UntranslatedAll(SourceArticles(s2, source, entries))
    decreases |entries|
  {
    if |entries| > 0 {
      var init, e := entries[..|entries| - 1], entries[|entries| - 1];
      var p1, p2 := SourceArticles(s1, source, init), SourceArticles(s2, source, init);
      var b1, b2 := BuildArticle(s1, source, e), BuildArticle(s2, source, e);
      calc {
        UntranslatedAll(SourceArticles(s1, source, entries));
        UntranslatedAll(p1 + [b1]);
        { UntranslatedAppend(p1, [b1]); }
        UntranslatedAll(p1) + UntranslatedAll([b1]);
        { SourceArticlesUntranslated(s1, s2, source, init);
          assert UntranslatedAll([b1]) == [Untranslated(b1)] == [Untranslated(b2)] == UntranslatedAll([b2]); }
        UntranslatedAll(p2) + UntranslatedAll([b2]);
        { UntranslatedAppend(p2, [b2]); }
        UntranslatedAll(p2 + [b2]);
        UntranslatedAll(SourceArticles(s2, source, entries));
      }
    }
  }

  lemma {:induction false} CollectedUntranslated(s1: string -> Outcome, s2: string -> Outcome, registry: seq<FeedSource>, fetch: string -> seq<RawEntry>)
    ensures UntranslatedAll(Collected(s1, registry, fetch)) == UntranslatedAll(Collected(s2, registry, fetch))
    decreases |registry|
  {
    if |registry| > 0 {
      var init, last := registry[..|registry| - 1], registry[|registry| - 1];
      CollectedUntranslated(s1, s2, init, fetch);
      SourceArticlesUntranslated(s1, s2, last.name, Retained(fetch(last.url)));
      var c1, c2 := Collected(s1, init, fetch), Collected(s2, init, fetch);
      var t1, t2 := SourceArticles(s1, last.name, Retained(fetch(last.url))), SourceArticles(s2, last.name, Retained(fetch(last.url)));
      CollectedUnfold(s1, registry, fetch);
      CollectedUnfold(s2, registry, fetch);
      UntranslatedAppend(c1, t1);
      UntranslatedAppend(c2, t2);
    }
  }

  /**
   * Translation results never decide which articles are returned or in what
   * order: with any two translation services (one of them failing on every
   * text, say), the responses differ only in `title_ja` and `summary_ja`.
   */
  lemma TranslationDoesNotAffectSelection(s1: string -> Outcome, s2: string -> Outcome, registry: seq<FeedSource>, fetch: string -> seq<RawEntry>)
    ensures UntranslatedAll(Headlines(s1, registry, fetch)) == UntranslatedAll(Headlines(s2, registry, fetch))
  {
    var c1, c2 := Collected(s1, registry, fetch), Collected(s2, registry, fetch);
    CollectedUntranslated(s1, s2, registry, fetch);
    SortUntranslated(c1);
    SortUntranslated(c2);
    var r1, r2 := SortByPublished(c1), SortByPublished(c2);
    var n := Min(MaxArticles, |r1|);
    UntranslatedPrefix(r1, n);
    UntranslatedPrefix(r2, n);
  }

  /**
   * When every call to the translation service fails, the run still returns
   * its full number of articles, each with a sentinel title carrying the
   * service's failure cause, and a sentinel summary wherever the entry has one.
   */
  lemma ServiceOutage(service: string -> Outcome, registry: seq<FeedSource>, fetch: string -> seq<RawEntry>)
    requires forall t :: service(t).Failed?
    ensures |Headlines(service, registry, fetch)| == Min(MaxArticles, RetainedTotal(registry, fetch))
    ensures forall a :: a in Headlines(service, registry, fetch) ==> SentinelCause(a.titleJa) == Some(service(a.titleEn).cause)
    ensures forall a :: a in Headlines(service, registry, fetch) ==> a.summaryJa == "" || SentinelCause(a.summaryJa).Some?
    ensures forall a :: a in Headlines(service, registry, fetch) ==>
      exists i, j :: BuiltFromRetained(service, registry, fetch, a, i, j) && (a.summaryJa == "" <==> fetch(registry[i].url)[j].summary.None?)
  {
    HeadlinesLength(service, registry, fetch);
    forall a | a in Headlines(service, registry, fetch)
      ensures SentinelCause(a.titleJa) == Some(service(a.titleEn).cause)
      ensures a.summaryJa == "" || SentinelCause(a.summaryJa).Some?
      ensures exists i, j :: BuiltFromRetained(service, registry, fetch, a, i, j) && (a.summaryJa == "" <==> fetch(registry[i].url)[j].summary.None?)
    {
      var i, j := HeadlineOrigin(service, registry, fetch, a);
      FailureYieldsSentinel(service, a.titleEn);
      var e := fetch(registry[i].url)[j];
      if e.summary.Some? {
        FailureYieldsSentinel(service, e.summary.value);
      }
      assert BuiltFromRetained(service, registry, fetch, a, i, j);
    }
  }
}
