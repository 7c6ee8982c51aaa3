/** A stable insertion sort, the model of JavaScript's `Array.prototype.sort`
    with a comparator (stable since ECMAScript 2019). `before(a, b)` holds
    when the comparator does not ask for `a` to move after `b`, that is when
    `compare(a, b) <= 0`. */
module StableSort {

  /** `before` orders every pair and is transitive, as the comparators used
      in the repository (numeric and string comparisons) are. */
  ghost predicate TotalPreorder<T(!new)>(before: (T, T) -> bool) {
    && (forall a, b :: before(a, b) || before(b, a))
    && (forall a, b, c :: before(a, b) && before(b, c) ==> before(a, c))
  }

  ghost predicate Sorted<T>(s: seq<T>, before: (T, T) -> bool) {
    forall i, j :: 0 <= i < j < |s| ==> before(s[i], s[j])
  }

  /** Two items the comparator does not distinguish (it returns 0). */
  predicate Tied<T>(a: T, b: T, before: (T, T) -> bool) {
    before(a, b) && before(b, a)
  }

  /** The items of `s` tied with `e`, in their order in `s`. */
  function TiedWith<T>(s: seq<T>, e: T, before: (T, T) -> bool): seq<T> {
    if |s| == 0 then []
    else (if Tied(s[0], e, before) then [s[0]] else []) + TiedWith(s[1..], e, before)
  }

  /** Places `x` in front of the first item it may stand before. */
  function Insert<T>(x: T, s: seq<T>, before: (T, T) -> bool): (r: seq<T>)
    ensures multiset(r) == multiset(s) + multiset{x}
  {
    if |s| == 0 || before(x, s[0]) then [x] + s
    else
      assert s == [s[0]] + s[1..];
      [s[0]] + Insert(x, s[1..], before)
  }

  function Sort<T>(xs: seq<T>, before: (T, T) -> bool): (r: seq<T>)
    ensures multiset(r) == multiset(xs)
  {
    if |xs| == 0 then []
    else
      assert xs == [xs[0]] + xs[1..];
      Insert(xs[0], Sort(xs[1..], before), before)
  }

  lemma {:induction false} InsertSorted<T(!new)>(x: T, s: seq<T>, before: (T, T) -> bool)
    requires TotalPreorder(before)
    requires Sorted(s, before)
    ensures Sorted(Insert(x, s, before), before)
    decreases |s|
  {
    if |s| == 0 || before(x, s[0]) {
    } else {
      InsertSorted(x, s[1..], before);
      var r := Insert(x, s, before);
      var tail := Insert(x, s[1..], before);
      assert r == [s[0]] + tail;
      assert before(s[0], x);
      forall j | 0 < j < |r|
        ensures before(s[0], r[j])
      {
        assert r[j] in multiset(tail);
        assert r[j] in multiset(s[1..]) + multiset{x};
        if r[j] != x {
          assert r[j] in s[1..];
        }
      }
    }
  }

  /** The sort orders its output. */
  lemma {:induction false} SortSorted<T(!new)>(xs: seq<T>, before: (T, T) -> bool)
    requires TotalPreorder(before)
    ensures Sorted(Sort(xs, before), before)
    decreases |xs|
  {
    if |xs| > 0 {
      SortSorted(xs[1..], before);
      InsertSorted(xs[0], Sort(xs[1..], before), before);
    }
  }

  lemma {:induction false} TiedWithAppend<T>(a: seq<T>, b: seq<T>, e: T, before: (T, T) -> bool)
    ensures TiedWith(a + b, e, before) == TiedWith(a, e, before) + TiedWith(b, e, before)
    decreases |a|
  {
    if |a| == 0 {
      assert a + b == b;
    } else {
      var head := if Tied(a[0], e, before) then [a[0]] else [];
      assert (a + b)[0] == a[0] && (a + b)[1..] == a[1..] + b;
      TiedWithAppend(a[1..], b, e, before);
      calc {
        TiedWith(a + b, e, before);
        head + TiedWith(a[1..] + b, e, before);
        head + (TiedWith(a[1..], e, before) + TiedWith(b, e, before));
        (head + TiedWith(a[1..], e, before)) + TiedWith(b, e, before);
      }
    }
  }

  lemma {:induction false} InsertStable<T(!new)>(x: T, s: seq<T>, e: T, before: (T, T) -> bool)
    requires TotalPreorder(before)
    ensures TiedWith(Insert(x, s, before), e, before)
         == TiedWith([x], e, before) + TiedWith(s, e, before)
    decreases |s|
  {
    if |s| == 0 || before(x, s[0]) {
      TiedWithAppend([x], s, e, before);
    } else {
      InsertStable(x, s[1..], e, before);
      TiedWithAppend([s[0]], Insert(x, s[1..], before), e, before);
      TiedWithAppend([s[0]], s[1..], e, before);
      assert [s[0]] + s[1..] == s;
      if Tied(x, e, before) {
        assert !Tied(s[0], e, before);
      }
    }
  }

  /** Stability: the items tied with any given item come out in the order
      they went in. */
  lemma {:induction false} SortStable<T(!new)>(xs: seq<T>, e: T, before: (T, T) -> bool)
    requires TotalPreorder(before)
    ensures TiedWith(Sort(xs, before), e, before) == TiedWith(xs, e, before)
    decreases |xs|
  {
    if |xs| > 0 {
      SortStable(xs[1..], e, before);
      InsertStable(xs[0], Sort(xs[1..], before), e, before);
      TiedWithAppend([xs[0]], xs[1..], e, before);
      assert [xs[0]] + xs[1..] == xs;
    }
  }

  /** Sorting an already sorted list changes nothing. */
  lemma {:induction false} SortOfSorted<T>(xs: seq<T>, before: (T, T) -> bool)
    requires Sorted(xs, before)
    ensures Sort(xs, before) == xs
    decreases |xs|
  {
    if |xs| > 0 {
      SortOfSorted(xs[1..], before);
      assert xs == [xs[0]] + xs[1..];
    }
  }
}
