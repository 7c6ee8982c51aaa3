/** The keyword sentiment scorer of src/sentiment.js: one point for every
    distinct positive keyword a text contains, minus one for every distinct
    negative keyword. */
module Sentiment {
  import opened Text

  const Positive: seq<string> :=
    ["涨停", "增持", "上调", "突破", "获批", "签约", "盈利", "扭亏", "创历史新高", "强势"]
  const Negative: seq<string> :=
    ["停牌", "处罚", "下调", "亏损", "爆雷", "被调查", "违约", "跌停", "裁员", "风险"]

  /** A news item as the scorer sees it: only the three text fields `derive`
      joins, a missing one as "". The fuller records are
      `Wallstreetcn.NewsItem` and `Processor.NewsItem`. */
  datatype Item = Item(title: string, brief: string, content: string)

  predicate Distinct<T(==)>(s: seq<T>) {
    forall i, j :: 0 <= i < j < |s| ==> s[i] != s[j]
  }

  /** Keywords usable for whole-word-free substring matching: non-empty and
      without a space. */
  predicate SpaceFree(keywords: seq<string>) {
    forall i :: 0 <= i < |keywords| ==> |keywords[i]| > 0 && ' ' !in keywords[i]
  }

  /** The keywords of `keywords` that occur in `t`. */
  function Matched(t: string, keywords: seq<string>): set<string> {
    set k | k in keywords && Includes(t, k)
  }

  /** How many entries of `keywords` occur in `t`: the loop
      `for (const k of list) if (t.includes(k)) s += 1`. */
  function CountIncluded(t: string, keywords: seq<string>): (n: nat)
    ensures n <= |keywords|
  {
    if |keywords| == 0 then 0
    else (if Includes(t, keywords[0]) then 1 else 0) + CountIncluded(t, keywords[1..])
  }

  /** Over a list without repeats, the loop counts each matched keyword once. */
  lemma {:induction false} CountIsMatchedSize(t: string, keywords: seq<string>)
    requires Distinct(keywords)
    ensures CountIncluded(t, keywords) == |Matched(t, keywords)|
    decreases |keywords|
  {
    if |keywords| > 0 {
      var k := keywords[0];
      var rest := keywords[1..];
      assert Distinct(rest);
      CountIsMatchedSize(t, rest);
      assert k !in rest;
      if Includes(t, k) {
        assert Matched(t, keywords) == {k} + Matched(t, rest);
      } else {
        assert Matched(t, keywords) == Matched(t, rest);
      }
    }
  }

  lemma KeywordTables()
    ensures |Positive| == 10 && |Negative| == 10
    ensures Distinct(Positive) && Distinct(Negative)
    ensures SpaceFree(Positive) && SpaceFree(Negative)
  {
  }

  /** `score(text)`: 0 for a falsy (empty) text, otherwise the number of
      distinct positive keywords present minus the number of distinct
      negative ones. */
  function Score(text: string): (s: int)
    ensures s == |Matched(text, Positive)| - |Matched(text, Negative)|
    ensures -10 <= s <= 10
  {
    KeywordTables();
    CountIsMatchedSize(text, Positive);
    CountIsMatchedSize(text, Negative);
    if text == "" then
      assert Matched(text, Positive) == {} by {
        forall k | k in Positive ensures !Includes(text, k) {
          var i :| 0 <= i < |Positive| && Positive[i] == k;
        }
      }
      assert Matched(text, Negative) == {} by {
        forall k | k in Negative ensures !Includes(text, k) {
          var i :| 0 <= i < |Negative| && Negative[i] == k;
        }
      }
      0
    else
      CountIncluded(text, Positive) - CountIncluded(text, Negative)
  }

  /** The text `derive` scores: the three fields joined by single spaces. */
  function Joined(item: Item): string {
    item.title + " " + item.brief + " " + item.content
  }

  /** `derive(item)`: the score of title, brief and content joined by spaces. */
  function Derive(item: Item): (s: int)
    ensures s == |Matched(Joined(item), Positive)| - |Matched(Joined(item), Negative)|
    ensures -10 <= s <= 10
  {
    Score(Joined(item))
  }

  /** A keyword without a space occurs in `a + " " + b` exactly when it
      occurs in `a` or in `b`: no match straddles the separator. */
  lemma IncludesAcrossSpace(a: string, b: string, k: string)
    requires |k| > 0 && ' ' !in k
    ensures Includes(a + " " + b, k) <==> Includes(a, k) || Includes(b, k)
  {
    var j := a + " " + b;
    if Includes(a, k) {
      var i :| 0 <= i <= |a| && OccursAt(a, k, i);
      assert j[i..i + |k|] == a[i..i + |k|];
      assert OccursAt(j, k, i);
    }
    if Includes(b, k) {
      var i :| 0 <= i <= |b| && OccursAt(b, k, i);
      assert j[|a| + 1 + i..|a| + 1 + i + |k|] == b[i..i + |k|];
      assert OccursAt(j, k, |a| + 1 + i);
    }
    if Includes(j, k) {
      var i :| 0 <= i <= |j| && OccursAt(j, k, i);
      if i + |k| <= |a| {
        assert a[i..i + |k|] == j[i..i + |k|];
        assert OccursAt(a, k, i);
      } else if i >= |a| + 1 {
        assert b[i - |a| - 1..i - |a| - 1 + |k|] == j[i..i + |k|];
        assert OccursAt(b, k, i - |a| - 1);
      } else {
        OccurrenceCovers(j, k, i, |a|);
        assert false;
      }
    }
  }

  lemma OccurrenceCovers(t: string, k: string, i: int, p: int)
    requires OccursAt(t, k, i)
    requires i <= p < i + |k|
    ensures t[p] in k
  {
    assert t[p] == t[i..i + |k|][p - i];
  }

  /** The keywords matched in the joined text are exactly those matched in
      some field on its own. */
  lemma DeriveMatchesFields(item: Item, keywords: seq<string>)
    requires SpaceFree(keywords)
    ensures Matched(Joined(item), keywords)
         == Matched(item.title, keywords) + Matched(item.brief, keywords) + Matched(item.content, keywords)
  {
    forall k | k in keywords
      ensures Includes(Joined(item), k)
          <==> Includes(item.title, k) || Includes(item.brief, k) || Includes(item.content, k)
    {
      var i :| 0 <= i < |keywords| && keywords[i] == k;
      IncludesAcrossSpace(item.title, item.brief, k);
      IncludesAcrossSpace(item.title + " " + item.brief, item.content, k);
    }
  }

  /** A text that contains no keyword scores 0. */
  lemma NoKeywordScoresZero(text: string)
    requires forall k :: k in Positive ==> !Includes(text, k)
    requires forall k :: k in Negative ==> !Includes(text, k)
    ensures Score(text) == 0
  {
    assert Matched(text, Positive) == {};
    assert Matched(text, Negative) == {};
  }
}
