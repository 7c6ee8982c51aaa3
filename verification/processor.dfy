/** News de-duplication and map-phase splitting of
    src/intelligence/processor.js. */
module Processor {
  import opened EditDistance
  import opened StableSort
  import opened Chunking
  import opened Subsequence
  import opened MinMax

  /** A stored news item as the de-duplication reads it; only the title and
      the publication time (ms since the epoch) take part. It is the stored
      form of `Wallstreetcn.NewsItem` (and of the other fetchers' items),
      cut down to the fields src/intelligence/processor.js touches. */
  datatype NewsItem = NewsItem(id: string, title: string, brief: string, publishedAt: int)

  /** The comparator `(a, b) => Number(b.published_at) - Number(a.published_at)`:
      newest first. */
  function NewestFirst(): (NewsItem, NewsItem) -> bool {
    (a: NewsItem, b: NewsItem) => a.publishedAt >= b.publishedAt
  }

  lemma NewestFirstIsTotalPreorder()
    ensures TotalPreorder(NewestFirst())
  {
  }

  /** The similarity rule: the longer title has more than 5 characters and
      `dist / maxLen < 0.3`, compared as exact rationals. */
  predicate NearDuplicate(t: string, u: string) {
    var maxLen := Max(|t|, |u|);
    maxLen > 5 && (Dist(t, u) as real) / (maxLen as real) < 0.3
  }

  /** `item` is dropped against `unique`: identical titles, or similar ones. */
  predicate Duplicate(t: string, u: string) {
    t == u || NearDuplicate(t, u)
  }

  /** The ratio test in integers: 10 * dist < 3 * maxLen. */
  lemma NearDuplicateInIntegers(t: string, u: string)
    ensures NearDuplicate(t, u) <==> Max(|t|, |u|) > 5 && 10 * Dist(t, u) < 3 * Max(|t|, |u|)
  {
    var maxLen := Max(|t|, |u|);
    if maxLen > 5 {
      RatioBelowThreeTenths(Dist(t, u), maxLen);
    }
  }

  lemma RatioBelowThreeTenths(d: nat, m: nat)
    requires m > 0
    ensures (d as real) / (m as real) < 0.3 <==> 10 * d < 3 * m
  {
    DivLess(d as real, m as real, 0.3);
  }

  lemma DivLess(x: real, y: real, c: real)
    requires y > 0.0
    ensures x / y < c <==> x < c * y
  {
    var q := x / y;
    assert x == q * y;
    if q < c {
      assert (c - q) * y > 0.0;
    } else {
      assert (q - c) * y >= 0.0;
    }
  }

  /** Titles of at most 5 characters are dropped only when identical. */
  lemma ShortTitlesOnlyExact(t: string, u: string)
    requires Max(|t|, |u|) <= 5
    ensures Duplicate(t, u) <==> t == u
  {
  }

  /** The rule does not depend on which title is the newer one. */
  lemma DuplicateSymmetric(t: string, u: string)
    ensures Duplicate(t, u) <==> Duplicate(u, t)
  {
    DistSymmetric(t, u);
  }

  /** `item` duplicates one of the items kept so far. */
  predicate DuplicateOfAny(item: NewsItem, kept: seq<NewsItem>) {
    exists k | 0 <= k < |kept| :: Duplicate(item.title, kept[k].title)
  }

  /** The greedy pass over an already sorted list: keep an item unless it
      duplicates one kept earlier. */
  function Greedy(s: seq<NewsItem>): (kept: seq<NewsItem>)
    ensures |kept| <= |s|
    decreases |s|
  {
    if |s| == 0 then []
    else
      var kept := Greedy(s[..|s| - 1]);
      if DuplicateOfAny(s[|s| - 1], kept) then kept else kept + [s[|s| - 1]]
  }

  /** The positions of `s` the greedy pass keeps. */
  ghost function GreedyPicks(s: seq<NewsItem>): seq<nat>
    decreases |s|
  {
    if |s| == 0 then []
    else
      var picks := GreedyPicks(s[..|s| - 1]);
      if DuplicateOfAny(s[|s| - 1], Greedy(s[..|s| - 1])) then picks else picks + [|s| - 1]
  }

  /** `deduplicate(items)`. */
  function Deduplicate(items: seq<NewsItem>): (unique: seq<NewsItem>)
    ensures |unique| <= |items|
  {
    var sorted := Sort(items, NewestFirst());
    assert |sorted| == |multiset(sorted)| == |items|;
    Greedy(sorted)
  }

  /** The greedy pass keeps a selection of its input, in input order, and
      keeps position j exactly when that item duplicates nothing kept from
      the positions before it. */
  lemma {:induction false} GreedyKeeps(s: seq<NewsItem>)
    ensures PicksFrom(Greedy(s), s, GreedyPicks(s))
    ensures forall k :: 0 <= k < |GreedyPicks(s)| ==> GreedyPicks(s)[k] < |s|
    decreases |s|
  {
    if |s| > 0 {
      var s' := s[..|s| - 1];
      GreedyKeeps(s');
      var p := GreedyPicks(s');
      forall k | 0 <= k < |p|
        ensures s[p[k]] == s'[p[k]]
      {
      }
    }
  }

  /** What was kept from a prefix is a prefix of what is kept overall. */
  lemma {:induction false} GreedyPrefix(s: seq<NewsItem>, j: nat)
    requires j <= |s|
    ensures Greedy(s[..j]) <= Greedy(s)
    decreases |s|
  {
    if j < |s| {
      var s' := s[..|s| - 1];
      assert s'[..j] == s[..j];
      GreedyPrefix(s', j);
    } else {
      assert s[..j] == s;
    }
  }

  /** No kept item duplicates an item kept before it; in particular the kept
      titles are pairwise distinct. */
  lemma {:induction false} GreedyNoDuplicates(s: seq<NewsItem>)
    ensures forall i, j :: 0 <= i < j < |Greedy(s)| ==> !Duplicate(Greedy(s)[j].title, Greedy(s)[i].title)
    ensures forall i, j :: 0 <= i < j < |Greedy(s)| ==> Greedy(s)[i].title != Greedy(s)[j].title
    decreases |s|
  {
    if |s| > 0 {
      GreedyNoDuplicates(s[..|s| - 1]);
    }
  }

  /** An item that the pass drops duplicates an item kept from earlier
      positions; over a newest-first list that item is at least as new. */
  lemma DroppedHasNewerDuplicate(s: seq<NewsItem>, j: nat)
    requires Sorted(s, NewestFirst())
    requires j < |s|
    ensures s[j] in Greedy(s)
         || exists k :: 0 <= k < |Greedy(s)|
              && Duplicate(s[j].title, Greedy(s)[k].title)
              && Greedy(s)[k].publishedAt >= s[j].publishedAt
  {
    var before := Greedy(s[..j]);
    GreedyPrefix(s, j);
    GreedyPrefix(s, j + 1);
    assert s[..j + 1][..j] == s[..j];
    if DuplicateOfAny(s[j], before) {
      var k :| 0 <= k < |before| && Duplicate(s[j].title, before[k].title);
      GreedyKeeps(s[..j]);
      var p := GreedyPicks(s[..j]);
      assert before[k] == s[p[k]];
      assert Greedy(s)[k] == before[k];
    } else {
      assert Greedy(s[..j + 1]) == before + [s[j]];
      assert Greedy(s)[|before|] == s[j];
    }
  }

  /** Over a list where no item duplicates an earlier one, the pass keeps
      everything. */
  lemma {:induction false} GreedyKeepsAllWhenNoDuplicates(t: seq<NewsItem>)
    requires forall i, j :: 0 <= i < j < |t| ==> !Duplicate(t[j].title, t[i].title)
    ensures Greedy(t) == t
    decreases |t|
  {
    if |t| > 0 {
      var t' := t[..|t| - 1];
      GreedyKeepsAllWhenNoDuplicates(t');
      assert t' + [t[|t| - 1]] == t;
    }
  }

  /** A selection, in order, from a newest-first list is newest-first. */
  lemma GreedySorted(s: seq<NewsItem>)
    requires Sorted(s, NewestFirst())
    ensures Sorted(Greedy(s), NewestFirst())
  {
    GreedyKeeps(s);
    var p := GreedyPicks(s);
    var r := Greedy(s);
    forall i, j | 0 <= i < j < |r|
      ensures NewestFirst()(r[i], r[j])
    {
      assert r[i] == s[p[i]] && r[j] == s[p[j]] && p[i] < p[j];
    }
  }

  /** The result is a selection of the input: it is no longer, and holds
      every item at most as often as the input does. */
  lemma DeduplicateSelects(items: seq<NewsItem>)
    ensures |Deduplicate(items)| <= |items|
    ensures multiset(Deduplicate(items)) <= multiset(items)
  {
    var sorted := Sort(items, NewestFirst());
    GreedyKeeps(sorted);
    PicksBound(Greedy(sorted), sorted, GreedyPicks(sorted));
    assert |multiset(sorted)| == |multiset(items)|;
  }

  /** The result is newest-first, and ties keep their input order. */
  lemma DeduplicateOrder(items: seq<NewsItem>)
    ensures Sorted(Deduplicate(items), NewestFirst())
    ensures IsSubsequence(Deduplicate(items), Sort(items, NewestFirst()))
  {
    var sorted := Sort(items, NewestFirst());
    NewestFirstIsTotalPreorder();
    SortSorted(items, NewestFirst());
    GreedySorted(sorted);
    GreedyKeeps(sorted);
  }

  /** De-duplicating a de-duplicated list changes nothing. */
  lemma DeduplicateIdempotent(items: seq<NewsItem>)
    ensures Deduplicate(Deduplicate(items)) == Deduplicate(items)
  {
    var once := Deduplicate(items);
    DeduplicateOrder(items);
    SortOfSorted(once, NewestFirst());
    GreedyNoDuplicates(Sort(items, NewestFirst()));
    GreedyKeepsAllWhenNoDuplicates(once);
  }

  /** `deduplicate(items)` with the source's loops: sort newest first, then
      test each item against every kept one, exact title first and the
      Levenshtein ratio second, stopping at the first hit. */
  method DeduplicateLoop(items: seq<NewsItem>) returns (unique: seq<NewsItem>)
    ensures unique == Deduplicate(items)
  {
    var sorted := Sort(items, NewestFirst());
    unique := [];
    var n := 0;
    while n < |sorted|
      invariant n <= |sorted|
      invariant unique == Greedy(sorted[..n])
    {
      var item := sorted[n];
      var isDuplicate := false;
      var k := 0;
      while k < |unique|
        invariant k <= |unique|
        invariant !isDuplicate ==> forall k' :: 0 <= k' < k ==> !Duplicate(item.title, unique[k'].title)
        invariant isDuplicate ==> DuplicateOfAny(item, unique)
      {
        if item.title == unique[k].title {
          isDuplicate := true;
          break;
        }
        var dist := Levenshtein(item.title, unique[k].title);
        var maxLen := Max(|item.title|, |unique[k].title|);
        if maxLen > 5 && (dist as real) / (maxLen as real) < 0.3 {
          isDuplicate := true;
          break;
        }
        k := k + 1;
      }
      if !isDuplicate {
        unique := unique + [item];
      }
      assert sorted[..n + 1][..n] == sorted[..n];
      n := n + 1;
    }
    assert sorted[..n] == sorted;
  }

  /** Items per map-phase request. */
  const ChunkSize: nat := 20

  /** The map phase of `mapReduceAnalyze`: consecutive slices of 20 items. */
  method MapPhaseChunks(items: seq<NewsItem>) returns (chunks: seq<seq<NewsItem>>)
    ensures Flatten(chunks) == items
    ensures forall k :: 0 <= k < |chunks| ==> 1 <= |chunks[k]| <= ChunkSize
    ensures |chunks| == CeilDiv(|items|, ChunkSize)
  {
    chunks := SliceLoop(items, ChunkSize);
    ChunksShape(items, ChunkSize);
  }
}
