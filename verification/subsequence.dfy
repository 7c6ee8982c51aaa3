/** Order-preserving selection: `r` is obtained from `s` by dropping items. */
module Subsequence {

  /** `picks` lists, in increasing order, the positions of `s` that make up `r`. */
  ghost predicate PicksFrom<T>(r: seq<T>, s: seq<T>, picks: seq<nat>) {
    && |picks| == |r|
    && (forall k :: 0 <= k < |picks| ==> picks[k] < |s| && r[k] == s[picks[k]])
    && (forall k1, k2 :: 0 <= k1 < k2 < |picks| ==> picks[k1] < picks[k2])
  }

  ghost predicate IsSubsequence<T>(r: seq<T>, s: seq<T>) {
    exists picks :: PicksFrom(r, s, picks)
  }

  /** A selection keeps at most as many items as it selects from, and each
      item at most as often. */
  lemma {:induction false} PicksBound<T>(r: seq<T>, s: seq<T>, picks: seq<nat>)
    requires PicksFrom(r, s, picks)
    ensures |r| <= |s|
    ensures multiset(r) <= multiset(s)
    decreases |s|
  {
    if |r| > 0 {
      var n := |r| - 1;
      var last := picks[n];
      var s' := s[..last];
      PicksBeforeLast(r, s, picks);
      PicksBound(r[..n], s', picks[..n]);
      assert multiset(r) == multiset(r[..n]) + multiset{s[last]} by {
        assert r == r[..n] + [s[last]];
      }
      assert multiset(s[..last + 1]) == multiset(s') + multiset{s[last]} by {
        assert s[..last + 1] == s' + [s[last]];
      }
      assert multiset(s[..last + 1]) <= multiset(s) by {
        assert s == s[..last + 1] + s[last + 1..];
      }
    }
  }

  /** Dropping the last selected item leaves a selection from the items
      before it. */
  lemma PicksBeforeLast<T>(r: seq<T>, s: seq<T>, picks: seq<nat>)
    requires |r| > 0 && PicksFrom(r, s, picks)
    ensures PicksFrom(r[..|r| - 1], s[..picks[|r| - 1]], picks[..|r| - 1])
  {
    var n := |r| - 1;
    forall k | 0 <= k < n ensures picks[k] < picks[n] && r[k] == s[..picks[n]][picks[k]] {
    }
  }

  /** A selection from a prefix is a selection from the whole. */
  lemma PicksFromPrefix<T>(r: seq<T>, s: seq<T>, n: nat, picks: seq<nat>)
    requires n <= |s| && PicksFrom(r, s[..n], picks)
    ensures PicksFrom(r, s, picks)
  {
    forall k | 0 <= k < |picks| ensures picks[k] < |s| && r[k] == s[picks[k]] {
      assert s[..n][picks[k]] == s[picks[k]];
    }
  }

  /** Selecting the last item as well extends a selection from the items
      before it. */
  lemma PicksFromLast<T>(r: seq<T>, s: seq<T>, picks: seq<nat>)
    requires |s| > 0 && PicksFrom(r, s, picks)
    requires forall k :: 0 <= k < |picks| ==> picks[k] < |s| - 1
    ensures PicksFrom(r + [s[|s| - 1]], s, picks + [|s| - 1])
  {
    var r', picks' := r + [s[|s| - 1]], picks + [|s| - 1];
    assert forall k :: 0 <= k < |picks| ==> picks'[k] == picks[k] && r'[k] == r[k];
  }
}
