/** A parsed feed entry as the feed-parsing library hands it over. Every
    field the two scripts read is here; a field the feed did not carry is
    `None`, and each reader decides what default stands in for it. */
module Feeds {
  import opened Wrappers

  /** One category tag of an entry (`entry.tags[i]`); `term` may be missing. */
  datatype Tag = Tag(term: Option<string>)

  /** `published` is `published_parsed` already converted to seconds since
      the epoch, or `None` when the entry has no publication time. */
  datatype FeedEntry = FeedEntry(
    title: Option<string>,
    link: Option<string>,
    summary: Option<string>,
    description: Option<string>,
    tags: seq<Tag>,
    category: Option<string>,
    published: Option<int>)
}
