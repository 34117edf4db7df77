# Keyword and duplicate filters for game news feeds

This project models the decision logic of two small news-feed scripts.

- **Goods filter** (`gamewatch_goods_filter.py`). It keeps the Game Watch entries that belong to the game-goods category. Membership is judged by category tags, the `category` field, the title or the link. It then drops every entry whose title or summary names Pokémon.
- **Pokémon aggregator** (`pokemon_aggregator.py`). It reads four feeds in a fixed order. It keeps, as items, the entries whose title or summary contains the word ポケモン. It drops each item whose title is too similar to the title of an item already kept. Finally it orders the rest newest first.

The goods filter's two tests are pure predicates: `IsGoodsCategory` and `ContainsExcluded`. Their loops become recursive functions, each specified by an existential statement. `filter_entries` is a method with a loop, proved equal to `Seqs.Filter` with the `Accepted` predicate.

The aggregator's `main` is split into its three steps:
- `TopicFilter.CollectTopicItems` is the nested loop over feeds and entries.
- `Dedup.RemoveNearDuplicates` is the scan with the `is_duplicate` flag and early `break`.
- `Ranking.SortByDate` is the keyed stable sort.

The two loops are methods, each proved equal to a specification function: `CollectTopicItems` to `TopicItems`, `RemoveNearDuplicates` to `Deduplicated`. The sort (`unique_entries.sort(key=..., reverse=True)`) is a single library call, so it is modelled by the function `Ranking.SortByDate` itself. `Aggregator.Aggregate` composes the three steps and is proved equal to `SortByDate(Deduplicated(TopicItems(...)))`. The source's promises are proved as lemmas about these functions.

Modelling choices:
- A parsed entry is `Feeds.FeedEntry`. A field the feed does not carry is `None`, and each reader applies the same default as the source's `entry.get(key, default)`.
- The aggregator's summary is `entry.get('summary', entry.get('description', ''))`. So the description is used only when the summary field is absent, not when it is empty.
- Lower-casing (`str.lower`) is `Strings.Lower`, which folds ASCII letters only.
- Substring tests (`in`) are `Strings.Contains`. `Strings.ContainsAt` proves it equal to "occurs at some position".
- The title similarity (`get_similarity`, a `difflib` ratio) is a parameter `similarity: (string, string) -> real`. A candidate is a duplicate when `similarity(candidate.title, kept.title) > 0.85`, with the arguments in the source's order. Every dedup property holds for any such function, except `Dedup.IdenticalTitlesKeptOnce`, which assumes that identical titles score 1.0.
- Dates are `Option<int>`: seconds since the epoch, or `None`. The sort key of `None` is `MinDate`, which is `datetime.min` (0001-01-01 UTC) in seconds.
- The network is a parameter. `CollectTopicItems` takes the parsed entries of each source. `Aggregate` takes a function `fetch` from URL to entries, where a feed that cannot be read yields no entries.

Behaviours of the code worth noting:
- Inclusion is not driven by the configured `INCLUDE_KEYWORDS` list, which the code never reads. The code hard-codes `'グッズ'`, `'goods'` (tags only) and `'/goods/'` (link only). `GoodsFilter.IncludeKeywordsCoveredByGoods` shows that the configured words would match nothing more.
- The `category` field is matched case-sensitively, and only against `'グッズ'`. Tag terms are lower-cased and also matched against `'goods'`.
- An undated entry is sorted with the key `datetime.min`, so it comes after every entry dated later than `datetime.min`. An entry dated exactly `datetime.min` ties with undated entries, and the tie keeps input order.

## Model

| member | source | states |
|---|---|---|
| Strings.ContainsAt | gamewatch_goods_filter.py:61 | the containment test used for Python's `in` holds exactly when the word occurs at some position of the text |
| GoodsFilter.TagSignal | gamewatch_goods_filter.py:48-49 | a tag matches iff its lower-cased term (missing term read as "") contains グッズ or "goods"; lower-casing twice is the same as once |
| GoodsFilter.AnyGoodsTag | gamewatch_goods_filter.py:46-50 | the loop over tags with early return is true iff some tag matches |
| GoodsFilter.IsGoodsCategory | gamewatch_goods_filter.py:43-64 | an entry is in the category iff some lower-cased tag term contains グッズ or "goods", or the category field contains グッズ (case-sensitive), or the title contains グッズ, or the link contains "/goods/"; otherwise false |
| GoodsFilter.AnyKeywordIn | gamewatch_goods_filter.py:74-78 | the loop over the blocklist with early return is true iff some lower-cased keyword occurs in the text |
| GoodsFilter.ContainsExcluded | gamewatch_goods_filter.py:67-78 | an entry names Pokémon iff some lower-cased keyword of EXCLUDE_KEYWORDS occurs in lower(title + " " + summary), missing fields read as "" |
| GoodsFilter.FilterEntries | gamewatch_goods_filter.py:81-101 | the loop keeps exactly the input entries that are in the category and do not name Pokémon, as the order-preserving filter by both tests: every output entry passes both tests, every passing input entry is in the output, and the output is no longer than the input |
| Seqs.FilterIsSubsequence | gamewatch_goods_filter.py:83-101 | the filtered list is a subsequence of its input, so kept entries stay in input order |
| GoodsFilter.MissingFieldsReadAsEmpty | gamewatch_goods_filter.py:58-70 | a missing title, link or summary is read as "": filling it in with "" changes neither test |
| GoodsFilter.GoodsTagIncludes | gamewatch_goods_filter.py:46-50 | an entry with a tag whose term contains グッズ is in the category, whatever its title, link or category field |
| GoodsFilter.BlockedWordRejects | gamewatch_goods_filter.py:69-96 | a blocked word in the title or in the summary, in any ASCII case, makes the entry rejected even when it passes inclusion |
| GoodsFilter.CategoryNarrowerThanTags | gamewatch_goods_filter.py:46-55 | the word "Goods" qualifies an entry as a tag term but not as its category field |
| GoodsFilter.PokemonGoodsRejected | gamewatch_goods_filter.py:89-96 | an entry titled ポケモングッズ新情報 passes inclusion through its title and is still rejected for naming ポケモン |
| GoodsFilter.FamicomGoodsAccepted | gamewatch_goods_filter.py:89-99 | an entry titled ファミコングッズ特集 tagged グッズ is accepted |
| GoodsFilter.ScenarioKeepsOnlyFamicomGoods | gamewatch_goods_filter.py:83-101 | filtering those two entries keeps only the second |
| GoodsFilter.IncludeKeywordsCoveredByGoods | gamewatch_goods_filter.py:26 | every text containing a word of INCLUDE_KEYWORDS contains グッズ, so the unused configuration would match nothing more than the hard-coded word |
| TopicFilter.CollectTopicItems | pokemon_aggregator.py:26-45 | the nested loop yields, in encounter order over all feeds, one item (title, link, date, summary with description fallback) per entry whose title or summary contains ポケモン |
| TopicFilter.TopicItemsAppendOne | pokemon_aggregator.py:29-45 | one more entry adds its item at the end exactly when it mentions the keyword |
| TopicFilter.TopicItemMembership | pokemon_aggregator.py:30-45 | an item is produced iff some entry mentions the keyword in its title or its summary (description when the summary is absent) and the item is built from it |
| TopicFilter.ItemsFollowFeedOrder | pokemon_aggregator.py:26-29 | the items of all feeds are the items of the first source, then those of the second, and so on, in source order |
| Dedup.RemoveNearDuplicates | pokemon_aggregator.py:48-58 | the loop with the duplicate flag and early break keeps exactly the items of the item-by-item dedup definition |
| Dedup.KeptIsSubsequence | pokemon_aggregator.py:48-58 | the kept items are a subsequence of the input in input order |
| Dedup.FirstIsKept | pokemon_aggregator.py:48-58 | on a non-empty input the first item is kept, in first place |
| Dedup.KeptHaveNoDuplicatePairs | pokemon_aggregator.py:51-58 | no kept item scores above 0.85 against any item kept before it |
| Dedup.KeptSoFarIsPrefix | pokemon_aggregator.py:48-58 | the items kept after the first n inputs are the start of the final result |
| Dedup.ItemFate | pokemon_aggregator.py:50-58 | item i is dropped iff it scores above 0.85 against an item kept before it (an item of the final result); otherwise it is the next kept item, so the earliest member of a look-alike cluster is kept |
| Dedup.DuplicateFreeUnchanged | pokemon_aggregator.py:48-58 | a list with no item scoring above the threshold against an earlier one passes through unchanged |
| Dedup.Idempotent | pokemon_aggregator.py:48-58 | running dedup on its own output returns it unchanged |
| Dedup.IdenticalTitlesKeptOnce | pokemon_aggregator.py:18-20 | with a measure scoring identical titles 1.0, no two kept items share a title |
| Dedup.LaterLookalikeDropped | pokemon_aggregator.py:49-58 | of two items where the later scores above 0.85 against the earlier, only the earlier survives |
| Ranking.SortedNewestFirst | pokemon_aggregator.py:61 | the sorted list is ordered by date descending, a missing date reading as datetime.min, and is a permutation of its input |
| Ranking.SortIsStable | pokemon_aggregator.py:61 | for every date value, the items with that date (all undated items included) keep their input order |
| Ranking.UndatedLast | pokemon_aggregator.py:61 | every undated item comes after every item dated later than datetime.min |
| Ranking.SortIsTheStableSort | pokemon_aggregator.py:61 | any newest-first list that keeps the input order within every date is exactly the sorted list, so the sort is the stable descending sort |
| Aggregator.Aggregate | pokemon_aggregator.py:22-61 | a run yields the stable newest-first sort of the deduplicated keyword items of the four sources, read in order; the result is newest first, a permutation of the deduplicated items, and for every date keeps the deduplicated items with that date in their order |

## Left out

- Fetching and parsing feeds (`fetch_rss`, `feedparser.parse`) is network I/O behind a library. Parsed entries are an input, and the goods filter's early return on a fetch failure is not modelled.
- Writing the output feed (`create_filtered_rss`, the `FeedGenerator` block) goes through a library and the file system.
- Converting `published_parsed` to a date (`time.mktime`, `datetime.fromtimestamp`) depends on the local time zone. Dates are given as integers.
- The `difflib` similarity ratio is a foreign floating-point algorithm. It is a parameter, and no value of it is modelled.
- Logging with `print`, the banner and the `main` of the goods filter are side effects only. The order of the two tests in `filter_entries` (exclusion is tested only after inclusion passed) has no observable effect, because both tests are pure. The method still runs them in that order.
- Lower-casing folds ASCII letters only. Python's `str.lower` also folds other scripts (for example `É` to `é`, full-width Latin letters) and can change a string's length. A keyword written in such letters may therefore match in Python and not in the model.
- TopicFilter.CollectTopicItems: the source reads `entry.link` without a default, which raises when an entry has no link. The model reads a missing link as "" instead.
- Python's list sort (Timsort) is not modelled step by step. `Ranking.SortByDate` is an insertion sort function with the same specification: stable, descending by key. The in-place update of the list is modelled as replacing the list with the sorted one.
