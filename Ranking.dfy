/** Step 3 of the aggregator: order the kept items newest first. The source
    calls the language's stable list sort with a key (the date, or the
    earliest representable date when there is none) and `reverse=True`,
    which keeps items with equal keys in their input order. */
module Ranking {
  import opened Wrappers
  import opened TopicFilter

  /** The earliest representable date (0001-01-01 00:00 UTC) in seconds since the epoch. */
  const MinDate: int := -62135596800

  /** The sort key: the date, with a missing date read as MinDate. */
  function DateKey(d: Option<int>): int {
    match d
    case Some(t) => t
    case None => MinDate
  }

  function KeyOf(x: Item): int { DateKey(x.date) }

  predicate NewestFirst(s: seq<Item>) {
    forall i, j :: 0 <= i < j < |s| ==> KeyOf(s[j]) <= KeyOf(s[i])
  }

  /** The items of `s` whose key is `k`, in their order in `s`. This is
      `Seqs.Filter` with the test "key is `k`", written here recursing from
      the front because `InsertByDate` and `SortByDate` recurse from the
      front, so each stability step unfolds both in the same direction. */
  function WithKey(s: seq<Item>, k: int): seq<Item> {
    if s == [] then [] else (if KeyOf(s[0]) == k then [s[0]] else []) + WithKey(s[1..], k)
  }

  /** Puts `x` in front of the first item that is not strictly newer. */
  function InsertByDate(x: Item, s: seq<Item>): seq<Item> {
    if s == [] || KeyOf(s[0]) <= KeyOf(x) then [x] + s else [s[0]] + InsertByDate(x, s[1..])
  }

  /** The stable newest-first sort of `s`. */
  function SortByDate(s: seq<Item>): seq<Item> {
    if s == [] then [] else InsertByDate(s[0], SortByDate(s[1..]))
  }

  lemma {:induction false} InsertKeepsNewestFirst(x: Item, s: seq<Item>)
    requires NewestFirst(s)
    ensures NewestFirst(InsertByDate(x, s))
    ensures multiset(InsertByDate(x, s)) == multiset(s) + multiset{x}
    ensures InsertByDate(x, s) != [] && (InsertByDate(x, s)[0] == x || (s != [] && InsertByDate(x, s)[0] == s[0]))
  {
    if s != [] && KeyOf(s[0]) > KeyOf(x) {
      InsertKeepsNewestFirst(x, s[1..]);
      assert s == [s[0]] + s[1..];
    }
  }

  /** The sorted list is ordered newest first and is a permutation of its input. */
  lemma {:induction false} SortedNewestFirst(s: seq<Item>)
    ensures NewestFirst(SortByDate(s))
    ensures multiset(SortByDate(s)) == multiset(s)
  {
    if s != [] {
      SortedNewestFirst(s[1..]);
      InsertKeepsNewestFirst(s[0], SortByDate(s[1..]));
      assert s == [s[0]] + s[1..];
    }
  }

  lemma WithKeyCons(x: Item, s: seq<Item>, k: int)
    ensures WithKey([x] + s, k) == (if KeyOf(x) == k then [x] else []) + WithKey(s, k)
  {
    assert ([x] + s)[1..] == s;
  }

  lemma {:induction false} InsertWithKey(x: Item, s: seq<Item>, k: int)
    ensures WithKey(InsertByDate(x, s), k) == (if KeyOf(x) == k then [x] else []) + WithKey(s, k)
  {
    if s == [] || KeyOf(s[0]) <= KeyOf(x) {
      WithKeyCons(x, s, k);
    } else {
      var rest := InsertByDate(x, s[1..]);
      assert InsertByDate(x, s) == [s[0]] + rest;
      InsertWithKey(x, s[1..], k);
      WithKeyCons(s[0], rest, k);
      assert s == [s[0]] + s[1..];
      WithKeyCons(s[0], s[1..], k);
      var headKey, xKey := KeyOf(s[0]) == k, KeyOf(x) == k;
      assert !(headKey && xKey);
      if headKey {
        assert WithKey(InsertByDate(x, s), k) == [s[0]] + WithKey(s[1..], k);
      } else {
        assert WithKey(InsertByDate(x, s), k) == WithKey(rest, k);
      }
    }
  }

  /** Stability: for every date, the items with that date (all undated
      items among them, for MinDate) keep their input order. */
  lemma {:induction false} SortIsStable(s: seq<Item>, k: int)
    ensures WithKey(SortByDate(s), k) == WithKey(s, k)
  {
    if s != [] {
      SortIsStable(s[1..], k);
      InsertWithKey(s[0], SortByDate(s[1..]), k);
    }
  }

  /** Every item without a date comes after every item dated later than MinDate. */
  lemma UndatedLast(s: seq<Item>)
    ensures var r := SortByDate(s);
      forall i, j :: 0 <= i < |r| && 0 <= j < |r| && r[i].date.None? && r[j].date.Some? && r[j].date.value > MinDate ==> j < i
  {
    SortedNewestFirst(s);
  }

  lemma {:induction false} WithKeyMember(s: seq<Item>, k: int, x: Item)
    requires x in WithKey(s, k)
    ensures x in s && KeyOf(x) == k
  {
    if s != [] && !(KeyOf(s[0]) == k && x == s[0]) {
      WithKeyMember(s[1..], k, x);
    }
  }

  lemma HeadIsNewest(s: seq<Item>, x: Item)
    requires NewestFirst(s) && x in s
    ensures KeyOf(x) <= KeyOf(s[0])
  {
    var i :| 0 <= i < |s| && s[i] == x;
    if i > 0 {
      assert KeyOf(s[i]) <= KeyOf(s[0]);
    }
  }

  lemma SameHeadSameTailBlocks(a: seq<Item>, b: seq<Item>)
    requires a != [] && b != [] && a[0] == b[0]
    requires forall k :: WithKey(a, k) == WithKey(b, k)
    ensures forall k :: WithKey(a[1..], k) == WithKey(b[1..], k)
  {
    forall k
      ensures WithKey(a[1..], k) == WithKey(b[1..], k)
    {
      var head := if KeyOf(a[0]) == k then [a[0]] else [];
      assert WithKey(a, k) == head + WithKey(a[1..], k);
      assert WithKey(b, k) == head + WithKey(b[1..], k);
      assert WithKey(a[1..], k) == (head + WithKey(a[1..], k))[|head|..];
      assert WithKey(b[1..], k) == (head + WithKey(b[1..], k))[|head|..];
    }
  }

  lemma HeadBlockNonEmpty(s: seq<Item>)
    requires s != []
    ensures WithKey(s, KeyOf(s[0])) != [] && WithKey(s, KeyOf(s[0]))[0] == s[0]
  {
  }

  /** Two non-empty newest-first lists with the same key blocks start with the same item. */
  lemma SameKeyBlocksSameHead(a: seq<Item>, b: seq<Item>)
    requires a != [] && b != []
    requires NewestFirst(a) && NewestFirst(b)
    requires WithKey(a, KeyOf(a[0])) == WithKey(b, KeyOf(a[0]))
    requires WithKey(a, KeyOf(b[0])) == WithKey(b, KeyOf(b[0]))
    ensures a[0] == b[0]
  {
    var ka, kb := KeyOf(a[0]), KeyOf(b[0]);
    HeadBlockNonEmpty(a);
    HeadBlockNonEmpty(b);
    WithKeyMember(b, ka, WithKey(b, ka)[0]);
    HeadIsNewest(b, WithKey(b, ka)[0]);
    WithKeyMember(a, kb, WithKey(a, kb)[0]);
    HeadIsNewest(a, WithKey(a, kb)[0]);
  }

  /** Two newest-first lists with the same items of each date, in the same
      order, are equal. */
  lemma {:induction false} SameKeyBlocksSameList(a: seq<Item>, b: seq<Item>)
    requires NewestFirst(a) && NewestFirst(b)
    requires forall k :: WithKey(a, k) == WithKey(b, k)
    ensures a == b
    decreases |a| + |b|
  {
    if a != [] {
      HeadBlockNonEmpty(a);
      assert WithKey(b, KeyOf(a[0])) != [];
    }
    if b != [] {
      HeadBlockNonEmpty(b);
      assert WithKey(a, KeyOf(b[0])) != [];
    }
    if a != [] && b != [] {
      SameKeyBlocksSameHead(a, b);
      SameHeadSameTailBlocks(a, b);
      SameKeyBlocksSameList(a[1..], b[1..]);
      assert a == [a[0]] + a[1..] && b == [b[0]] + b[1..];
    }
  }

  /** The sort is fully determined by its specification: a newest-first
      list that keeps, for every date, the input order of the items with
      that date is exactly SortByDate of the input. */
  lemma SortIsTheStableSort(s: seq<Item>, t: seq<Item>)
    requires NewestFirst(t)
    requires forall k :: WithKey(t, k) == WithKey(s, k)
    ensures t == SortByDate(s)
  {
    SortedNewestFirst(s);
    forall k
      ensures WithKey(t, k) == WithKey(SortByDate(s), k)
    {
      SortIsStable(s, k);
    }
    SameKeyBlocksSameList(t, SortByDate(s));
  }
}
