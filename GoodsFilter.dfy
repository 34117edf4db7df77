/** The Game Watch goods filter: keep the entries of the game-goods
    category and drop those that mention Pokémon. */
module GoodsFilter {
  import opened Wrappers
  import opened Strings
  import opened Seqs
  import opened Feeds

  /** The inclusion word the code looks for ("goods" in Japanese). */
  const Goods: string := "グッズ"

  /** The configured inclusion words. The checks below use only `Goods`,
      which occurs in each of them. */
  const IncludeKeywords: seq<string> := ["ゲームグッズ", "グッズ"]

  /** Blocklist applied, lower-cased, to the title and summary. */
  const ExcludeKeywords: seq<string> := ["ポケモン", "ポケットモンスター", "ポケカ", "Pokémon", "Pokemon"]

  function TitleOf(e: FeedEntry): string { e.title.GetOr("") }
  function LinkOf(e: FeedEntry): string { e.link.GetOr("") }
  function SummaryOf(e: FeedEntry): string { e.summary.GetOr("") }
  function TermOf(t: Tag): string { t.term.GetOr("") }

  /** The test applied to one tag: its lower-cased term contains the
      Japanese word, or (lower-cased once more) contains "goods". */
  function TagSignal(t: Tag): (b: bool)
    ensures b <==> Contains(Lower(TermOf(t)), Goods) || Contains(Lower(TermOf(t)), "goods")
  {
    var term := Lower(TermOf(t));
    LowerIdempotent(TermOf(t));
    Contains(term, Goods) || Contains(Lower(term), "goods")
  }

  /** The loop over the tags, returning at the first tag that matches. */
  function AnyGoodsTag(tags: seq<Tag>): (b: bool)
    ensures b <==> exists i :: 0 <= i < |tags| && TagSignal(tags[i])
  {
    if tags == [] then false
    else if TagSignal(tags[0]) then true
    else
      var b := AnyGoodsTag(tags[1..]);
      assert forall i :: 1 <= i < |tags| ==> tags[i] == tags[1..][i - 1];
      b
  }

  /** is_game_goods_category: tags first, then the category field
      (case-sensitive, Japanese word only), then title or link. */
  function IsGoodsCategory(e: FeedEntry): (b: bool)
    ensures b <==>
      (exists i :: 0 <= i < |e.tags| &&
        (Contains(Lower(TermOf(e.tags[i])), Goods) || Contains(Lower(TermOf(e.tags[i])), "goods")))
      || (e.category.Some? && Contains(e.category.value, Goods))
      || Contains(TitleOf(e), Goods)
      || Contains(LinkOf(e), "/goods/")
  {
    if |e.tags| > 0 && AnyGoodsTag(e.tags) then true
    else if e.category.Some? && e.category.value != "" && Contains(e.category.value, Goods) then true
    else Contains(TitleOf(e), Goods) || Contains(LinkOf(e), "/goods/")
  }

  /** The text searched for blocked words: `f"{title} {summary}".lower()`. */
  function SearchText(e: FeedEntry): string {
    Lower(TitleOf(e) + " " + SummaryOf(e))
  }

  /** The loop over the blocklist, returning at the first keyword found. */
  function AnyKeywordIn(keywords: seq<string>, text: string): (b: bool)
    ensures b <==> exists i :: 0 <= i < |keywords| && Contains(text, Lower(keywords[i]))
  {
    if keywords == [] then false
    else if Contains(text, Lower(keywords[0])) then true
    else
      var b := AnyKeywordIn(keywords[1..], text);
      assert forall i :: 1 <= i < |keywords| ==> keywords[i] == keywords[1..][i - 1];
      b
  }

  /** contains_pokemon. */
  function ContainsExcluded(e: FeedEntry): (b: bool)
    ensures b <==> (exists i :: 0 <= i < |ExcludeKeywords| &&
                      Contains(Lower(TitleOf(e) + " " + SummaryOf(e)), Lower(ExcludeKeywords[i])))
  {
    AnyKeywordIn(ExcludeKeywords, SearchText(e))
  }

  /** An entry that filter_entries adopts. */
  predicate Accepted(e: FeedEntry) {
    IsGoodsCategory(e) && !ContainsExcluded(e)
  }

  /** filter_entries: walk the entries in order, skip those outside the
      category, skip (without adding) those that mention a blocked word,
      append the rest. */
  method FilterEntries(entries: seq<FeedEntry>) returns (filtered: seq<FeedEntry>)
    ensures filtered == Filter(entries, Accepted) && |filtered| <= |entries| &&
            (forall i :: 0 <= i < |filtered| ==> Accepted(filtered[i])) &&
            (forall i :: 0 <= i < |entries| && Accepted(entries[i]) ==> entries[i] in filtered)
  {
    filtered := [];
    for i := 0 to |entries|
      invariant filtered == Filter(entries[..i], Accepted)
    {
      var e := entries[i];
      assert entries[..i + 1] == entries[..i] + [e];
      assert entries[..i + 1][..i] == entries[..i];
      assert Filter(entries[..i + 1], Accepted) == Filter(entries[..i], Accepted) + (if Accepted(e) then [e] else []);
      if !IsGoodsCategory(e) {
        continue;
      }
      if ContainsExcluded(e) {
        continue;
      }
      filtered := filtered + [e];
    }
    assert entries[..|entries|] == entries;
  }

  /** A title, link or summary the feed did not carry reads as the empty
      string: filling it in with "" changes no decision. */
  lemma MissingFieldsReadAsEmpty(e: FeedEntry)
    ensures var filled := e.(title := Some(TitleOf(e)), link := Some(LinkOf(e)), summary := Some(SummaryOf(e)));
      IsGoodsCategory(filled) == IsGoodsCategory(e) && ContainsExcluded(filled) == ContainsExcluded(e)
  {
  }

  /** A tag whose term contains the Japanese word makes the entry part of
      the category, whatever its title, link or category field say. */
  lemma GoodsTagIncludes(e: FeedEntry, i: nat)
    requires i < |e.tags| && Contains(TermOf(e.tags[i]), Goods)
    ensures IsGoodsCategory(e)
  {
    ContainsLower(TermOf(e.tags[i]), Goods);
    assert Lower(Goods) == Goods;
  }

  /** A blocked word in the title or in the summary, in any ASCII case,
      rejects the entry even when it passes every inclusion signal. */
  lemma BlockedWordRejects(e: FeedEntry, k: nat)
    requires k < |ExcludeKeywords|
    requires Contains(Lower(TitleOf(e)), Lower(ExcludeKeywords[k])) || Contains(Lower(SummaryOf(e)), Lower(ExcludeKeywords[k]))
    ensures ContainsExcluded(e) && !Accepted(e)
  {
    var kw := Lower(ExcludeKeywords[k]);
    LowerAppend(TitleOf(e), " " + SummaryOf(e));
    LowerAppend(" ", SummaryOf(e));
    assert SearchText(e) == Lower(TitleOf(e)) + (Lower(" ") + Lower(SummaryOf(e)));
    if Contains(Lower(TitleOf(e)), kw) {
      ContainsAppendRight(Lower(TitleOf(e)), Lower(" ") + Lower(SummaryOf(e)), kw);
    } else {
      ContainsAppendLeft(Lower(" "), Lower(SummaryOf(e)), kw);
      ContainsAppendLeft(Lower(TitleOf(e)), Lower(" ") + Lower(SummaryOf(e)), kw);
    }
  }

  /** Scenario: "ポケモングッズ新情報" names goods in its title, so it is in the
      category, but it also names Pokémon, so it is rejected. */
  function PokemonGoodsEntry(): FeedEntry {
    FeedEntry(Some("ポケモングッズ新情報"), None, None, None, [], None, None)
  }

  /** Scenario: "ファミコングッズ特集" is tagged with the goods category and names no blocked word. */
  function FamicomGoodsEntry(): FeedEntry {
    FeedEntry(Some("ファミコングッズ特集"), None, None, None, [Tag(Some(Goods))], None, None)
  }

  lemma PokemonGoodsRejected()
    ensures IsGoodsCategory(PokemonGoodsEntry()) && !Accepted(PokemonGoodsEntry())
  {
    var e := PokemonGoodsEntry();
    assert OccursAt(TitleOf(e), Goods, 4);
    ContainsAt(TitleOf(e), Goods);
    assert Lower(TitleOf(e)) == TitleOf(e);
    assert OccursAt(TitleOf(e), ExcludeKeywords[0], 0);
    ContainsAt(TitleOf(e), ExcludeKeywords[0]);
    assert Lower(ExcludeKeywords[0]) == ExcludeKeywords[0];
    BlockedWordRejects(e, 0);
  }

  lemma FamicomGoodsAccepted()
    ensures Accepted(FamicomGoodsEntry())
  {
    var e := FamicomGoodsEntry();
    assert Goods <= TermOf(e.tags[0]);
    GoodsTagIncludes(e, 0);
    var text := SearchText(e);
    assert text == "ファミコングッズ特集 ";
    forall k | 0 <= k < |ExcludeKeywords|
      ensures !Contains(text, Lower(ExcludeKeywords[k]))
    {
      FirstCharAbsent(text, Lower(ExcludeKeywords[k]));
    }
  }

  /** Of the two scenario entries, only the goods-tagged one is kept. */
  lemma ScenarioKeepsOnlyFamicomGoods()
    ensures Filter([PokemonGoodsEntry(), FamicomGoodsEntry()], Accepted) == [FamicomGoodsEntry()]
  {
    PokemonGoodsRejected();
    FamicomGoodsAccepted();
    FilterDropsFirstKeepsSecond(PokemonGoodsEntry(), FamicomGoodsEntry(), Accepted);
  }

  /** The category field is matched case-sensitively and only against the
      Japanese word, while a tag is lower-cased and also matched against
      "goods": the same word "Goods" qualifies as a tag and not as a category. */
  lemma CategoryNarrowerThanTags()
    ensures !IsGoodsCategory(FeedEntry(None, None, None, None, [], Some("Goods"), None))
    ensures IsGoodsCategory(FeedEntry(None, None, None, None, [Tag(Some("Goods"))], None, None))
  {
    FirstCharAbsent("Goods", Goods);
    var tagged := FeedEntry(None, None, None, None, [Tag(Some("Goods"))], None, None);
    assert Lower(TermOf(tagged.tags[0])) == "goods";
    assert "goods" <= Lower(TermOf(tagged.tags[0]));
  }

  /** Matching the configured inclusion words instead of the hard-coded word
      would find nothing more: a text containing any of them contains `Goods`. */
  lemma IncludeKeywordsCoveredByGoods(s: string, k: nat)
    requires k < |IncludeKeywords| && Contains(s, IncludeKeywords[k])
    ensures Contains(s, Goods)
  {
    ContainsAt(s, IncludeKeywords[k]);
    ContainsAt(s, Goods);
    var i: nat :| OccursAt(s, IncludeKeywords[k], i);
    var offset := |IncludeKeywords[k]| - |Goods|;
    assert IncludeKeywords[k][offset..] == Goods;
    assert s[i + offset..i + offset + |Goods|] == s[i..i + |IncludeKeywords[k]|][offset..];
    assert OccursAt(s, Goods, i + offset);
  }
}
