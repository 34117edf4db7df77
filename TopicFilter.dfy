/** Step 1 of the Pokémon news aggregator: read every configured feed in
    order and keep, as items, the entries whose title or summary mentions
    the topic keyword. */
module TopicFilter {
  import opened Wrappers
  import opened Strings
  import opened Seqs
  import opened Feeds

  /** The topic keyword ("Pokémon" in Japanese), matched case-sensitively. */
  const Keyword: string := "ポケモン"

  /** The record the aggregator builds for a kept entry. */
  datatype Item = Item(title: string, link: string, date: Option<int>, summary: string)

  /** `entry.get('summary', entry.get('description', ''))`: the description
      is read only when the summary field is absent. */
  function SummaryText(e: FeedEntry): string {
    match e.summary
    case Some(s) => s
    case None => e.description.GetOr("")
  }

  predicate MentionsKeyword(e: FeedEntry) {
    Contains(e.title.GetOr(""), Keyword) || Contains(SummaryText(e), Keyword)
  }

  /** The item appended for a kept entry; a missing link reads as "". */
  function ToItem(e: FeedEntry): Item {
    Item(e.title.GetOr(""), e.link.GetOr(""), e.published, SummaryText(e))
  }

  /** The items built from `entries`, in encounter order. */
  function TopicItems(entries: seq<FeedEntry>): seq<Item> {
    Map(Filter(entries, MentionsKeyword), ToItem)
  }

  /** The nested loop over the feeds (in configuration order) and over the
      entries of each feed, appending an item for every entry that mentions
      the keyword. `feeds[i]` is what the feed parser returned for the i-th
      source; a source that could not be read contributes no entries. */
  method CollectTopicItems(feeds: seq<seq<FeedEntry>>) returns (all: seq<Item>)
    ensures all == TopicItems(Flatten(feeds))
  {
    all := [];
    for f := 0 to |feeds|
      invariant all == TopicItems(Flatten(feeds[..f]))
    {
      assert feeds[..f + 1][..f] == feeds[..f];
      var entries := feeds[f];
      assert Flatten(feeds[..f]) + entries[..0] == Flatten(feeds[..f]);
      for j := 0 to |entries|
        invariant all == TopicItems(Flatten(feeds[..f]) + entries[..j])
      {
        var e := entries[j];
        var title := e.title.GetOr("");
        var summary := SummaryText(e);
        assert entries[..j + 1] == entries[..j] + [e];
        assert Flatten(feeds[..f]) + entries[..j + 1] == (Flatten(feeds[..f]) + entries[..j]) + [e];
        TopicItemsAppendOne(Flatten(feeds[..f]) + entries[..j], e);
        if Contains(title, Keyword) || Contains(summary, Keyword) {
          all := all + [Item(title, e.link.GetOr(""), e.published, summary)];
        }
      }
      assert entries[..|entries|] == entries;
    }
    assert feeds[..|feeds|] == feeds;
  }

  /** Appending one entry appends its item, if it mentions the keyword. */
  lemma TopicItemsAppendOne(seen: seq<FeedEntry>, e: FeedEntry)
    ensures TopicItems(seen + [e]) ==
      TopicItems(seen) + (if MentionsKeyword(e) then [ToItem(e)] else [])
  {
    assert (seen + [e])[..|seen|] == seen;
  }

  /** An item is produced exactly for the entries that mention the keyword
      in the title or in the summary (falling back to the description). */
  lemma TopicItemMembership(entries: seq<FeedEntry>, it: Item)
    ensures it in TopicItems(entries) <==>
      exists e :: e in entries && MentionsKeyword(e) && it == ToItem(e)
  {
    var kept := Filter(entries, MentionsKeyword);
    MapMembership(kept, ToItem, it);
    if e :| e in entries && MentionsKeyword(e) && it == ToItem(e) {
      var i :| 0 <= i < |entries| && entries[i] == e;
      assert e in kept;
    }
  }

  /** Encounter order: the items of all feeds together are the items of the
      first feed, then those of the second, and so on. */
  lemma {:induction false} ItemsFollowFeedOrder(feeds: seq<seq<FeedEntry>>)
    ensures TopicItems(Flatten(feeds)) == Flatten(Map(feeds, TopicItems))
    decreases |feeds|
  {
    if feeds != [] {
      var init, last := feeds[..|feeds| - 1], feeds[|feeds| - 1];
      ItemsFollowFeedOrder(init);
      FilterAppend(Flatten(init), last, MentionsKeyword);
      MapAppend(Filter(Flatten(init), MentionsKeyword), Filter(last, MentionsKeyword), ToItem);
      assert Map(feeds, TopicItems)[..|feeds| - 1] == Map(init, TopicItems);
    }
  }
}
