/** The Wallstreetcn live-feed fetcher: each raw item of a channel becomes a
    news item (many items carry only body text, so a title is made from its
    first 50 characters), and the global and A-share channels are merged
    keeping the first item of every id. */
module Wallstreetcn {
  import opened Wrappers
  import opened MinMax
  import opened Subsequence

  const TitleLength: nat := 50
  const Ellipsis: string := "..."
  const Source: string := "wallstreetcn"

  /** A raw feed item. Text fields the feed leaves out are "" and a missing
      `display_time` is 0: the source only tests them for truthiness. `id`
      is already the string `String(x.id)`. */
  datatype RawItem = RawItem(
    id: string,
    title: string,
    contentText: string,
    content: string,
    uri: string,
    displayTime: int)

  /** The item `fetchChannel` hands on for storing. The stored row that
      `Processor.NewsItem` de-duplicates and the text triple `Sentiment.Item`
      scores are other views of the same news: each module keeps only the
      fields its source file reads or writes. */
  datatype NewsItem = NewsItem(
    id: string,
    source: string,
    title: string,
    brief: string,
    content: string,
    url: string,
    publishedAt: int)

  /** The title made from a brief: its first 50 characters, with an
      ellipsis when anything was cut. */
  function SynthesizeTitle(brief: string): (title: string)
    ensures |title| <= TitleLength + |Ellipsis|
    ensures brief[..Min(TitleLength, |brief|)] <= title
    ensures |brief| <= TitleLength ==> title == brief
    ensures |brief| > TitleLength ==> |title| == TitleLength + |Ellipsis| && title[TitleLength..] == Ellipsis
  {
    brief[..Min(TitleLength, |brief|)] + (if |brief| > TitleLength then Ellipsis else "")
  }

  /** One raw item as a news item; `now` stands in for `Date.now()`, used
      when the item has no display time. */
  function Normalize(x: RawItem, now: int): (item: NewsItem)
    ensures item.id == x.id && item.source == Source && item.url == x.uri
    ensures x.title != "" ==> item.title == x.title
    ensures x.title == "" ==> |item.title| <= TitleLength + |Ellipsis|
  {
    var brief := x.contentText;
    var title := if x.title == "" && brief != "" then SynthesizeTitle(brief) else x.title;
    NewsItem(
      x.id,
      Source,
      title,
      brief,
      if x.content != "" then x.content else x.contentText,
      x.uri,
      if x.displayTime != 0 then x.displayTime * 1000 else now)
  }

  /** A news item has a title whenever its raw item has any title or body
      text; an existing title is kept, a made-up one starts with the body. */
  lemma NormalizeTitle(x: RawItem, now: int)
    ensures var n := Normalize(x, now);
      && (n.title == "" <==> x.title == "" && x.contentText == "")
      && (x.title != "" ==> n.title == x.title)
      && (x.title == "" ==> x.contentText[..Min(TitleLength, |x.contentText|)] <= n.title)
  {
  }

  /** The body is `content`, else `content_text`, else empty; the brief is
      always `content_text` and the source tag is fixed. */
  lemma NormalizeContent(x: RawItem, now: int)
    ensures var n := Normalize(x, now);
      && (x.content != "" ==> n.content == x.content)
      && (x.content == "" ==> n.content == x.contentText)
      && (n.content == "" <==> x.content == "" && x.contentText == "")
      && n.brief == x.contentText && n.source == Source && n.id == x.id
  {
  }

  /** The publication time is the display time, converted from seconds to
      milliseconds, and `now` only when there is none. */
  lemma NormalizeTimestamp(x: RawItem, now: int)
    ensures var n := Normalize(x, now);
      && (x.displayTime != 0 ==> n.publishedAt % 1000 == 0 && n.publishedAt / 1000 == x.displayTime)
      && (x.displayTime == 0 ==> n.publishedAt == now)
  {
  }

  function Normalized(raw: seq<RawItem>, now: int): (items: seq<NewsItem>)
    ensures |items| == |raw|
    ensures forall k :: 0 <= k < |raw| ==> items[k] == Normalize(raw[k], now)
  {
    seq(|raw|, k requires 0 <= k < |raw| => Normalize(raw[k], now))
  }

  /** The ids occurring in a list of items. */
  ghost function IdsOf(items: seq<NewsItem>): set<string> {
    set k | 0 <= k < |items| :: items[k].id
  }

  ghost predicate DistinctIds(items: seq<NewsItem>) {
    forall k1, k2 :: 0 <= k1 < k2 < |items| ==> items[k1].id != items[k2].id
  }

  /** Position `i` holds the first item with its id. */
  ghost predicate IsFirst(items: seq<NewsItem>, i: nat) {
    i < |items| && forall i' :: 0 <= i' < i ==> items[i'].id != items[i].id
  }

  function HasId(items: seq<NewsItem>, id: string): bool {
    exists k | 0 <= k < |items| :: items[k].id == id
  }

  /** The merged list with every item dropped whose id an earlier item
      already had. */
  function FirstById(items: seq<NewsItem>): seq<NewsItem>
    decreases |items|
  {
    if |items| == 0 then []
    else
      var n := |items| - 1;
      var kept := FirstById(items[..n]);
      if HasId(kept, items[n].id) then kept else kept + [items[n]]
  }

  /** The positions `FirstById` keeps. */
  ghost function FirstPicks(items: seq<NewsItem>): seq<nat>
    decreases |items|
  {
    if |items| == 0 then []
    else
      var n := |items| - 1;
      var kept := FirstById(items[..n]);
      var picks := FirstPicks(items[..n]);
      if HasId(kept, items[n].id) then picks else picks + [n]
  }

  /** The kept items carry every id of the input, each exactly once. */
  lemma {:induction false} FirstByIdIds(items: seq<NewsItem>)
    ensures IdsOf(FirstById(items)) == IdsOf(items)
    ensures DistinctIds(FirstById(items))
    decreases |items|
  {
    if |items| > 0 {
      var n := |items| - 1;
      var p := items[..n];
      var kept := FirstById(p);
      FirstByIdIds(p);
      assert items == p + [items[n]];
      IdsOfAppend(p, items[n]);
      if HasId(kept, items[n].id) {
        HasIdIsIdsOf(kept, items[n].id);
      } else {
        IdsOfAppend(kept, items[n]);
        var r := kept + [items[n]];
        assert forall k :: 0 <= k < |kept| ==> r[k] == kept[k];
        HasIdIsIdsOf(kept, items[n].id);
      }
    }
  }

  lemma IdsOfAppend(items: seq<NewsItem>, x: NewsItem)
    ensures IdsOf(items + [x]) == IdsOf(items) + {x.id}
  {
    var r := items + [x];
    forall id | id in IdsOf(r) ensures id in IdsOf(items) + {x.id} {
      var k :| 0 <= k < |r| && r[k].id == id;
      if k < |items| {
        assert r[k] == items[k];
      }
    }
    forall id | id in IdsOf(items) ensures id in IdsOf(r) {
      var k :| 0 <= k < |items| && items[k].id == id;
      assert r[k] == items[k];
    }
    assert r[|items|] == x;
  }

  lemma HasIdIsIdsOf(items: seq<NewsItem>, id: string)
    ensures HasId(items, id) <==> id in IdsOf(items)
  {
    if id in IdsOf(items) {
      var k :| 0 <= k < |items| && items[k].id == id;
    }
  }

  lemma HasIdAppend(items: seq<NewsItem>, x: NewsItem, id: string)
    ensures HasId(items + [x], id) <==> HasId(items, id) || x.id == id
  {
    var r := items + [x];
    if HasId(r, id) {
      var k :| 0 <= k < |r| && r[k].id == id;
      if k < |items| {
        assert items[k] == r[k];
      }
    }
    if HasId(items, id) {
      var k :| 0 <= k < |items| && items[k].id == id;
      assert r[k] == items[k];
    }
    assert r[|items|] == x;
  }

  /** A first occurrence in a prefix is a first occurrence in the whole. */
  lemma IsFirstInPrefix(items: seq<NewsItem>, n: nat, j: nat)
    requires n <= |items| && IsFirst(items[..n], j)
    ensures IsFirst(items, j)
  {
    forall i' | 0 <= i' < j ensures items[i'].id != items[j].id {
      assert items[i'] == items[..n][i'];
      assert items[j] == items[..n][j];
    }
  }

  /** The last item is a first occurrence when the items kept from before
      it do not have its id. */
  lemma NewIdIsFirst(items: seq<NewsItem>)
    requires |items| > 0
    requires !HasId(FirstById(items[..|items| - 1]), items[|items| - 1].id)
    ensures IsFirst(items, |items| - 1)
  {
    var n := |items| - 1;
    var p := items[..n];
    FirstByIdIds(p);
    HasIdIsIdsOf(FirstById(p), items[n].id);
    forall i' | 0 <= i' < n ensures items[i'].id != items[n].id {
      assert items[i'] == p[i'];
      assert p[i'].id in IdsOf(p);
    }
  }

  /** The kept items are the input's first occurrences, in input order. */
  lemma {:induction false} FirstByIdPicksFirsts(items: seq<NewsItem>)
    ensures PicksFrom(FirstById(items), items, FirstPicks(items))
    ensures forall k :: 0 <= k < |FirstPicks(items)| ==> IsFirst(items, FirstPicks(items)[k])
    decreases |items|
  {
    if |items| > 0 {
      var n := |items| - 1;
      var p := items[..n];
      var kept := FirstById(p);
      var picks := FirstPicks(p);
      FirstByIdPicksFirsts(p);
      PicksFromPrefix(kept, items, n, picks);
      forall k | 0 <= k < |picks| ensures picks[k] < n && IsFirst(items, picks[k]) {
        IsFirstInPrefix(items, n, picks[k]);
      }
      if !HasId(kept, items[n].id) {
        NewIdIsFirst(items);
        PicksFromLast(kept, items, picks);
        var picks' := picks + [n];
        assert forall k :: 0 <= k < |picks| ==> picks'[k] == picks[k];
      }
    }
  }

  /** Every first occurrence in the input is kept. */
  lemma FirstByIdKeepsFirsts(items: seq<NewsItem>, i: nat)
    requires IsFirst(items, i)
    ensures items[i] in FirstById(items)
  {
    var r := FirstById(items);
    var picks := FirstPicks(items);
    FirstByIdIds(items);
    FirstByIdPicksFirsts(items);
    assert items[i].id in IdsOf(items);
    var k :| 0 <= k < |r| && r[k].id == items[i].id;
    assert IsFirst(items, picks[k]);
    assert picks[k] == i;
  }

  /** A list whose ids are already distinct is left as it is; in particular
      removing duplicates twice is removing them once. */
  lemma {:induction false} FirstByIdOfDistinct(items: seq<NewsItem>)
    requires DistinctIds(items)
    ensures FirstById(items) == items
    decreases |items|
  {
    if |items| > 0 {
      var n := |items| - 1;
      var p := items[..n];
      assert forall k :: 0 <= k < |p| ==> p[k] == items[k];
      assert DistinctIds(p);
      FirstByIdOfDistinct(p);
      assert !HasId(p, items[n].id) by {
        forall k | 0 <= k < |p| ensures p[k].id != items[n].id {
          assert items[k].id != items[n].id;
        }
      }
      assert p + [items[n]] == items;
    }
  }

  lemma FirstByIdIdempotent(items: seq<NewsItem>)
    ensures FirstById(FirstById(items)) == FirstById(items)
  {
    FirstByIdIds(items);
    FirstByIdOfDistinct(FirstById(items));
  }

  /** Merging keeps the whole de-duplicated first channel at the front: the
      second channel only adds items after it. */
  lemma {:induction false} FirstChannelFirst(first: seq<NewsItem>, second: seq<NewsItem>)
    ensures FirstById(first) <= FirstById(first + second)
    decreases |second|
  {
    if |second| == 0 {
      assert first + second == first;
    } else {
      var m := |second| - 1;
      var all := first + second;
      assert all[..|all| - 1] == first + second[..m];
      FirstChannelFirst(first, second[..m]);
    }
  }

  /** `runOnce`'s de-duplication loop, with the set of ids seen so far. */
  method UniqueById(all: seq<NewsItem>) returns (unique: seq<NewsItem>)
    ensures unique == FirstById(all)
  {
    unique := [];
    var seen: set<string> := {};
    var i := 0;
    while i < |all|
      invariant 0 <= i <= |all|
      invariant unique == FirstById(all[..i])
      invariant forall id :: id in seen <==> HasId(unique, id)
    {
      var it := all[i];
      assert all[..i + 1][..i] == all[..i];
      if it.id !in seen {
        seen := seen + {it.id};
        forall id ensures HasId(unique + [it], id) <==> HasId(unique, id) || it.id == id {
          HasIdAppend(unique, it, id);
        }
        unique := unique + [it];
      }
      i := i + 1;
    }
    assert all[..i] == all;
  }

  /** `runOnce`: fetch both channels (given here as their raw items), merge
      them global first, drop repeated ids, and report how many remain. */
  method RunOnce(global: seq<RawItem>, astock: seq<RawItem>, now: int)
    returns (unique: seq<NewsItem>, count: nat)
    ensures unique == FirstById(Normalized(global, now) + Normalized(astock, now))
    ensures count == |unique|
    ensures DistinctIds(unique)
    ensures IdsOf(unique) == IdsOf(Normalized(global, now) + Normalized(astock, now))
    ensures FirstById(Normalized(global, now)) <= unique
  {
    var all := Normalized(global, now) + Normalized(astock, now);
    unique := UniqueById(all);
    count := |unique|;
    FirstByIdIds(all);
    FirstChannelFirst(Normalized(global, now), Normalized(astock, now));
  }
}
