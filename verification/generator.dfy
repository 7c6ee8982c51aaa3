/** The `chunk` helper of src/ai/generator.js, which `runBatch` uses to
    generate notes five items at a time. */
module Generator {
  import opened Chunking
  import opened MinMax

  /** Notes generated concurrently per round. */
  const BatchSize: nat := 5

  /** `chunk(arr, size)`: `Array.from({ length: Math.ceil(arr.length / size) },
      (v, i) => arr.slice(i * size, i * size + size))`. `slice` clamps its
      bounds to the array, as `Min` does here. With size 0 an empty array
      gives `ceil(0 / 0)`, NaN, which `Array.from` reads as length 0; a
      non-empty one gives an infinite length, on which `Array.from` throws. */
  function Chunk<T>(arr: seq<T>, size: nat): (r: seq<seq<T>>)
    requires size > 0 || |arr| == 0
    ensures |arr| == 0 ==> r == []
    ensures size > 0 ==> r == Chunks(arr, size)
    ensures Flatten(r) == arr
    ensures WellShaped(r, size)
    ensures size > 0 ==> |r| == CeilDiv(|arr|, size)
  {
    if size == 0 then []
    else
      ChunkMatchesLoop(arr, size);
      ChunksShape(arr, size);
      IndexedSlices(arr, size)
  }

  /** The indexed construction: slice i covers positions i * size up to
      i * size + size. */
  function IndexedSlices<T>(arr: seq<T>, size: nat): seq<seq<T>>
    requires size > 0
  {
    seq(CeilDiv(|arr|, size), i requires 0 <= i => JsSlice(arr, i * size, i * size + size))
  }

  /** Slice i + 1 of a list is slice i of the list without its first `size`
      items. */
  lemma SliceShift<T>(arr: seq<T>, size: nat, i: nat)
    requires size > 0 && |arr| > size
    ensures JsSlice(arr, (i + 1) * size, (i + 1) * size + size)
         == JsSlice(arr[size..], i * size, i * size + size)
  {
    var a := i * size;
    assert (i + 1) * size == a + size;
  }

  /** The indexed construction yields the same slices as the
      `i += size` loops elsewhere in the repository. */
  lemma {:induction false} ChunkMatchesLoop<T>(arr: seq<T>, size: nat)
    requires size > 0
    ensures IndexedSlices(arr, size) == Chunks(arr, size)
    decreases |arr|
  {
    var r := IndexedSlices(arr, size);
    if |arr| == 0 {
    } else if |arr| <= size {
      assert |r| == 1;
      assert r[0] == JsSlice(arr, 0, size) == arr;
    } else {
      var tail := arr[size..];
      ChunkMatchesLoop(tail, size);
      var t := IndexedSlices(tail, size);
      assert |r| == |t| + 1;
      assert r[0] == JsSlice(arr, 0, size) == arr[..size];
      forall i | 0 <= i < |t|
        ensures r[i + 1] == t[i]
      {
        SliceShift(arr, size, i);
      }
      assert r == [r[0]] + t;
    }
  }

  /** With the batch size used by `runBatch`: every item is noted exactly
      once, in order, in rounds of at most five, and an empty selection
      takes no round at all. */
  lemma RunBatchRounds<T>(items: seq<T>)
    ensures Flatten(Chunk(items, BatchSize)) == items
    ensures forall k :: 0 <= k < |Chunk(items, BatchSize)| ==> 1 <= |Chunk(items, BatchSize)[k]| <= BatchSize
    ensures forall k :: 0 <= k < |Chunk(items, BatchSize)| - 1 ==> |Chunk(items, BatchSize)[k]| == BatchSize
    ensures |items| == 0 <==> |Chunk(items, BatchSize)| == 0
  {
    CeilDivIsCeiling(|items|, BatchSize);
  }
}
