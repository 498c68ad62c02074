/**
 * The data the aggregation pipeline works on: the feed registry, the entries a
 * feed fetch yields, and the translated article records it returns.
 */
module Feeds {

  datatype Option<T> = None | Some(value: T)

  /** A registered origin: the name used in output records and the feed URL. */
  datatype FeedSource = FeedSource(name: string, url: string)

  /**
   * One entry of a parsed feed. `title` and `link` are required (the source
   * reads them as attributes); `summary` and `published` may be absent.
   */
  datatype RawEntry = RawEntry(title: string, summary: Option<string>, link: string, published: Option<string>)

  /**
   * One record of the response; the fields are the JSON keys `source`,
   * `title_en`, `title_ja`, `summary_ja`, `link` and `published`.
   */
  datatype Article = Article(
    source: string,
    titleEn: string,
    titleJa: string,
    summaryJa: string,
    link: string,
    published: string)

  /** At most this many entries of each feed are considered (`feed.entries[:10]`). */
  const EntriesPerSource: nat := 10

  /** At most this many articles are returned (`articles[:10]`). */
  const MaxArticles: nat := 10

  /** The registry `RSS_FEEDS`, in the insertion order a Python dict iterates in. */
  const RssFeeds: seq<FeedSource> := [
    FeedSource("BBC", "https://feeds.bbci.co.uk/news/world/rss.xml"),
    FeedSource("AlJazeera", "https://www.aljazeera.com/xml/rss/all.xml"),
    FeedSource("APNews", "https://apnews.com/rss")
  ]

  function Min(a: nat, b: nat): nat
  {
    if a <= b then a else b
  }

  /** `entry.get("published", "")`. */
  function PublishedOrEmpty(e: RawEntry): string
  {
    match e.published
    case Some(p) => p
    case None => ""
  }
}
