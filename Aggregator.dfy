/** The Pokémon news aggregator run: collect the keyword items of every
    configured feed, drop near-duplicates, order newest first. Reading the
    feeds is a parameter; writing the output feed is not modelled. */
module Aggregator {
  import opened Seqs
  import opened Feeds
  import opened TopicFilter
  import opened Dedup
  import opened Ranking

  /** The feeds read, in this order. */
  const RssSources: seq<string> := [
    "https://game.watch.impress.co.jp/data/rss/1.0/gmw/feed.rdf",
    "https://www.ndw.jp/feed/",
    "https://www.4gamer.net/publisher/013/P01387/contents.xml",
    "https://hobby.watch.impress.co.jp/data/rss/1.0/hbw/feed.rdf"
  ]

  /** One run. `fetch(url)` stands for the entries the feed parser returns
      for `url` (none when the feed cannot be read); `similarity` is the
      title similarity measure. The result is the item list in the order it
      is written out. */
  method Aggregate(fetch: string -> seq<FeedEntry>, similarity: Similarity) returns (items: seq<Item>)
    ensures items == SortByDate(Deduplicated(TopicItems(Flatten(Map(RssSources, fetch))), similarity)) &&
            NewestFirst(items) &&
            multiset(items) == multiset(Deduplicated(TopicItems(Flatten(Map(RssSources, fetch))), similarity)) &&
            forall k :: WithKey(items, k) == WithKey(Deduplicated(TopicItems(Flatten(Map(RssSources, fetch))), similarity), k)
  {
    var feeds := Map(RssSources, fetch);
    var allEntries := CollectTopicItems(feeds);
    var unique := RemoveNearDuplicates(allEntries, similarity);
    items := SortByDate(unique);
    SortedNewestFirst(unique);
    forall k
      ensures WithKey(items, k) == WithKey(unique, k)
    {
      SortIsStable(unique, k);
    }
  }
}
