/** Fixed-size batching. The repository splits lists into consecutive slices
    of a fixed size in four places (the map phase of the news digest, note
    generation, the daily-quote import and the CSV migration); all of them
    produce the slices defined here. */
module Chunking {
  import opened MinMax

  /** The number of slices of `size` needed to hold `n` items, counted one
      slice at a time; `CeilDivIsCeiling` shows it is the ceiling of
      n / size, the `Math.ceil(arr.length / size)` of the source. */
  function CeilDiv(n: nat, size: nat): nat
    requires size > 0
    decreases n
  {
    if n == 0 then 0
    else if n <= size then 1
    else CeilDiv(n - size, size) + 1
  }

  lemma {:induction false} CeilDivIsCeiling(n: nat, size: nat)
    requires size > 0
    ensures n == 0 <==> CeilDiv(n, size) == 0
    ensures n > 0 ==> (CeilDiv(n, size) - 1) * size < n <= CeilDiv(n, size) * size
    decreases n
  {
    if n > size {
      var r' := CeilDiv(n - size, size);
      CeilDivIsCeiling(n - size, size);
      assert (r' + 1) * size == r' * size + size;
      assert r' * size == (r' - 1) * size + size;
    }
  }

  /** `s.slice(start, end)` for non-negative bounds: both are clamped to the
      length, and an end before the start gives the empty slice. */
  function JsSlice<T>(s: seq<T>, start: int, end: int): (r: seq<T>)
    requires 0 <= start && 0 <= end
  {
    var lo := Min(start, |s|);
    var hi := Min(Max(end, lo), |s|);
    s[lo..hi]
  }

  /** Concatenation of a list of slices. */
  function Flatten<T>(chunks: seq<seq<T>>): seq<T> {
    if |chunks| == 0 then [] else chunks[0] + Flatten(chunks[1..])
  }

  /** All slices have between 1 and `size` items, and all but the last have
      exactly `size`. */
  ghost predicate WellShaped<T>(chunks: seq<seq<T>>, size: nat) {
    && (forall k :: 0 <= k < |chunks| ==> 1 <= |chunks[k]| <= size)
    && (forall k :: 0 <= k < |chunks| - 1 ==> |chunks[k]| == size)
  }

  /** Consecutive slices `xs[0..size]`, `xs[size..2*size]`, ..., the last one
      possibly shorter. */
  function Chunks<T>(xs: seq<T>, size: nat): seq<seq<T>>
    requires size > 0
    decreases |xs|
  {
    if |xs| == 0 then []
    else if |xs| <= size then [xs]
    else [xs[..size]] + Chunks(xs[size..], size)
  }

  /** The slices put back together give the list; each holds 1 to `size`
      items, all but the last exactly `size`; there are ceil(n / size) of
      them. */
  lemma {:induction false} ChunksShape<T>(xs: seq<T>, size: nat)
    requires size > 0
    ensures Flatten(Chunks(xs, size)) == xs
    ensures WellShaped(Chunks(xs, size), size)
    ensures |Chunks(xs, size)| == CeilDiv(|xs|, size)
    decreases |xs|
  {
    if |xs| > size {
      ChunksShape(xs[size..], size);
      var r := Chunks(xs, size);
      assert r[1..] == Chunks(xs[size..], size);
      assert xs[..size] + xs[size..] == xs;
    }
  }

  /** Any well-shaped slicing of a list is its `Chunks`: the shape alone
      determines the slices. */
  lemma {:induction false} ChunksUnique<T>(xs: seq<T>, size: nat, chunks: seq<seq<T>>)
    requires size > 0
    requires Flatten(chunks) == xs
    requires WellShaped(chunks, size)
    ensures chunks == Chunks(xs, size)
    decreases |chunks|
  {
    if |chunks| > 0 {
      var rest := chunks[1..];
      assert WellShaped(rest, size);
      ChunksUnique(xs[|chunks[0]|..], size, rest);
      if |rest| == 0 {
        assert xs == chunks[0];
      } else {
        assert |chunks[0]| == size;
        assert |Flatten(rest)| > 0 by {
          assert |rest[0]| >= 1;
          assert Flatten(rest) == rest[0] + Flatten(rest[1..]);
        }
        assert xs[..size] == chunks[0];
      }
    }
  }

  /** Splitting a list whose length is a multiple of `size` and chunking the
      halves separately gives the same slices: a batch buffer that is flushed
      every `size` items produces `Chunks`. */
  lemma {:induction false} ChunksAppend<T>(a: seq<T>, b: seq<T>, size: nat, k: nat)
    requires size > 0
    requires |a| == k * size
    ensures Chunks(a + b, size) == Chunks(a, size) + Chunks(b, size)
    decreases k
  {
    if k == 0 {
      assert a + b == b;
    } else {
      assert |a| >= size;
      var ab := a + b;
      if |a| == size {
        if |b| == 0 {
          assert ab == a;
        } else {
          assert ab[..size] == a;
          assert ab[size..] == b;
        }
      } else {
        assert |a| - size == (k - 1) * size;
        assert ab[..size] == a[..size];
        assert ab[size..] == a[size..] + b;
        ChunksAppend(a[size..], b, size, k - 1);
      }
    }
  }

  /** One turn of the loop `for (i = 0; i < n; i += size) push(xs.slice(i, i + size))`:
      the slices from position i on are the slice at i followed by the
      slices from i + size on. */
  lemma ChunksStep<T>(xs: seq<T>, i: nat, size: nat)
    requires size > 0
    requires i < |xs|
    ensures Chunks(xs[i..], size) == [xs[i..Min(i + size, |xs|)]] + Chunks(xs[Min(i + size, |xs|)..], size)
  {
    var rest := xs[i..];
    var end := Min(i + size, |xs|);
    if |rest| <= size {
      assert rest == xs[i..end];
      assert xs[end..] == [];
    } else {
      assert rest[..size] == xs[i..end];
      assert rest[size..] == xs[end..];
    }
  }

  /** The loop `for (let i = 0; i < xs.length; i += size) chunks.push(xs.slice(i, i + size))`. */
  method SliceLoop<T>(xs: seq<T>, size: nat) returns (chunks: seq<seq<T>>)
    requires size > 0
    ensures chunks == Chunks(xs, size)
  {
    chunks := [];
    var i: nat := 0;
    assert xs[0..] == xs;
    while i < |xs|
      invariant chunks + Chunks(xs[Min(i, |xs|)..], size) == Chunks(xs, size)
    {
      var slice := xs[i..Min(i + size, |xs|)];
      SliceLoopStep(xs, i, size, chunks);
      chunks := chunks + [slice];
      i := i + size;
    }
    SliceLoopDone(xs, i, size, chunks);
  }

  lemma SliceLoopStep<T>(xs: seq<T>, i: nat, size: nat, chunks: seq<seq<T>>)
    requires size > 0 && i < |xs|
    requires chunks + Chunks(xs[Min(i, |xs|)..], size) == Chunks(xs, size)
    ensures (chunks + [xs[i..Min(i + size, |xs|)]]) + Chunks(xs[Min(i + size, |xs|)..], size) == Chunks(xs, size)
  {
    ChunksStep(xs, i, size);
  }

  lemma SliceLoopDone<T>(xs: seq<T>, i: nat, size: nat, chunks: seq<seq<T>>)
    requires size > 0 && i >= |xs|
    requires chunks + Chunks(xs[Min(i, |xs|)..], size) == Chunks(xs, size)
    ensures chunks == Chunks(xs, size)
  {
    assert xs[Min(i, |xs|)..] == [];
  }
}
