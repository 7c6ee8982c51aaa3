/** Levenshtein distance as used by the news de-duplication of
    src/intelligence/processor.js: a recursive insert/delete/substitute
    definition, and the source's dynamic-programming table proved to compute
    it. */
module EditDistance {
  import opened MinMax

  function Min3(a: nat, b: nat, c: nat): nat {
    Min(Min(a, b), c)
  }

  function DropLast(s: string): string
    requires |s| > 0
  {
    s[..|s| - 1]
  }

  /** The least number of single-character insertions, deletions and
      substitutions that turn `a` into `b`, by recursion on the last
      characters: substitute (free when they agree), delete the last of `a`,
      or insert the last of `b`. */
  function Dist(a: string, b: string): nat
    decreases |a| + |b|
  {
    if |a| == 0 then |b|
    else if |b| == 0 then |a|
    else
      Min3(Dist(DropLast(a), DropLast(b)) + (if a[|a| - 1] == b[|b| - 1] then 0 else 1),
           Dist(DropLast(a), b) + 1,
           Dist(a, DropLast(b)) + 1)
  }

  /** Removing the last character of the second string changes the distance
      by at most one. */
  lemma {:induction false} DropLastOfSecond(x: string, y: string)
    requires |y| > 0
    ensures Dist(x, DropLast(y)) <= Dist(x, y) + 1
    decreases |x| + |y|
  {
    if |x| > 0 {
      var x', y' := DropLast(x), DropLast(y);
      // Deleting the last of x is always an option for (x, y').
      assert Dist(x, y') <= Dist(x', y') + 1;
      DropLastOfSecond(x', y);
    }
  }

  /** Removing the last character of the first string changes the distance
      by at most one. */
  lemma {:induction false} DropLastOfFirst(x: string, y: string)
    requires |x| > 0
    ensures Dist(DropLast(x), y) <= Dist(x, y) + 1
    decreases |x| + |y|
  {
    if |y| > 0 {
      var x', y' := DropLast(x), DropLast(y);
      assert Dist(x', y) <= Dist(x', y') + 1;
      DropLastOfFirst(x, y');
    }
  }

  /** When the last characters agree, matching them is optimal: the source's
      table copies the diagonal cell without taking a minimum. */
  lemma MatchingLastIsOptimal(a: string, b: string)
    requires |a| > 0 && |b| > 0 && a[|a| - 1] == b[|b| - 1]
    ensures Dist(a, b) == Dist(DropLast(a), DropLast(b))
  {
    DropLastOfSecond(DropLast(a), b);
    DropLastOfFirst(a, DropLast(b));
  }

  /** The cell recurrence of the source's table. */
  lemma CellRecurrence(a: string, b: string, i: nat, j: nat)
    requires 1 <= i <= |b| && 1 <= j <= |a|
    ensures b[i - 1] == a[j - 1] ==> Dist(a[..j], b[..i]) == Dist(a[..j - 1], b[..i - 1])
    ensures b[i - 1] != a[j - 1] ==>
              Dist(a[..j], b[..i]) == Min3(Dist(a[..j - 1], b[..i - 1]) + 1,
                                           Dist(a[..j - 1], b[..i]) + 1,
                                           Dist(a[..j], b[..i - 1]) + 1)
  {
    assert DropLast(a[..j]) == a[..j - 1];
    assert DropLast(b[..i]) == b[..i - 1];
    if b[i - 1] == a[j - 1] {
      MatchingLastIsOptimal(a[..j], b[..i]);
    }
  }

  /** `levenshtein(a, b)`: the (|b|+1) x (|a|+1) table, row i and column j
      holding the distance between the first j characters of `a` and the
      first i of `b`. */
  method Levenshtein(a: string, b: string) returns (d: nat)
    ensures d == Dist(a, b)
  {
    if |a| == 0 {
      return |b|;
    }
    if |b| == 0 {
      return |a|;
    }
    var matrix := new nat[|b| + 1, |a| + 1];
    var i := 0;
    while i <= |b|
      invariant 0 <= i <= |b| + 1
      invariant forall p :: 0 <= p < i ==> matrix[p, 0] == p
    {
      matrix[i, 0] := i;
      i := i + 1;
    }
    var j := 0;
    while j <= |a|
      invariant 0 <= j <= |a| + 1
      invariant forall q :: 0 <= q < j ==> matrix[0, q] == q
      invariant forall p :: 1 <= p <= |b| ==> matrix[p, 0] == p
    {
      matrix[0, j] := j;
      j := j + 1;
    }
    assert forall q :: 0 <= q <= |a| ==> matrix[0, q] == Dist(a[..q], b[..0]);
    i := 1;
    while i <= |b|
      invariant 1 <= i <= |b| + 1
      invariant forall p, q :: 0 <= p < i && 0 <= q <= |a| ==> matrix[p, q] == Dist(a[..q], b[..p])
      invariant forall p :: i <= p <= |b| ==> matrix[p, 0] == p
    {
      FillRow(matrix, a, b, i);
      i := i + 1;
    }
    d := matrix[|b|, |a|];
    assert a[..|a|] == a && b[..|b|] == b;
  }

  /** Fills row `i` of the table from row `i - 1`, left to right. */
  method FillRow(matrix: array2<nat>, a: string, b: string, i: nat)
    requires matrix.Length0 == |b| + 1 && matrix.Length1 == |a| + 1
    requires 1 <= i <= |b|
    requires forall p, q :: 0 <= p < i && 0 <= q <= |a| ==> matrix[p, q] == Dist(a[..q], b[..p])
    requires matrix[i, 0] == i
    modifies matrix
    ensures forall p, q :: 0 <= p <= i && 0 <= q <= |a| ==> matrix[p, q] == Dist(a[..q], b[..p])
    ensures forall p, q :: i < p <= |b| && 0 <= q <= |a| ==> matrix[p, q] == old(matrix[p, q])
  {
    assert matrix[i, 0] == Dist(a[..0], b[..i]);
    var j := 1;
    while j <= |a|
      invariant 1 <= j <= |a| + 1
      invariant forall p, q :: 0 <= p <= |b| && p != i && 0 <= q <= |a| ==> matrix[p, q] == old(matrix[p, q])
      invariant forall q :: 0 <= q < j ==> matrix[i, q] == Dist(a[..q], b[..i])
    {
      CellRecurrence(a, b, i, j);
      var diagonal, left, above := matrix[i - 1, j - 1], matrix[i, j - 1], matrix[i - 1, j];
      assert diagonal == Dist(a[..j - 1], b[..i - 1]);
      assert above == Dist(a[..j], b[..i - 1]);
      if b[i - 1] == a[j - 1] {
        matrix[i, j] := diagonal;
      } else {
        matrix[i, j] := Min3(diagonal + 1, left + 1, above + 1);
      }
      j := j + 1;
    }
  }

  /** Against the empty string the distance is the other string's length. */
  lemma DistToEmpty(a: string)
    ensures Dist(a, "") == |a| && Dist("", a) == |a|
  {
  }

  /** A string is at distance 0 from itself. */
  lemma {:induction false} DistSelf(a: string)
    ensures Dist(a, a) == 0
    decreases |a|
  {
    if |a| > 0 {
      DistSelf(DropLast(a));
    }
  }

  /** Distance 0 means equal strings. */
  lemma {:induction false} DistZeroIsEqual(a: string, b: string)
    requires Dist(a, b) == 0
    ensures a == b
    decreases |a| + |b|
  {
    if |a| > 0 && |b| > 0 {
      var a', b' := DropLast(a), DropLast(b);
      var same := a[|a| - 1] == b[|b| - 1];
      assert Dist(a, b) == Min3(Dist(a', b') + (if same then 0 else 1), Dist(a', b) + 1, Dist(a, b') + 1);
      // Only the diagonal step can cost nothing.
      assert Dist(a', b') == 0 && same;
      DistZeroIsEqual(a', b');
      assert a == a' + [a[|a| - 1]];
      assert b == b' + [b[|b| - 1]];
    }
  }

  /** Substituting position by position and then inserting or deleting the
      surplus never takes more than the longer length. */
  lemma {:induction false} DistAtMostLonger(a: string, b: string)
    ensures Dist(a, b) <= Max(|a|, |b|)
    decreases |a| + |b|
  {
    if |a| > 0 && |b| > 0 {
      DistAtMostLonger(DropLast(a), DropLast(b));
    }
  }

  /** The distance does not depend on the order of its arguments. */
  lemma {:induction false} DistSymmetric(a: string, b: string)
    ensures Dist(a, b) == Dist(b, a)
    decreases |a| + |b|
  {
    if |a| > 0 && |b| > 0 {
      DistSymmetric(DropLast(a), DropLast(b));
      DistSymmetric(DropLast(a), b);
      DistSymmetric(a, DropLast(b));
    }
  }
}
