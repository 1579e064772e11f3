/** `chunk` (libs/common/object-utility/src/lib/object.ts): cuts a list
    into consecutive pairs, the last one a single element when the length
    is odd. */
module Chunks {

  function Min(a: int, b: int): int { if a <= b then a else b }

  /** The `reduce` after visiting indexes 0 .. n - 1: at every even index
      it pushes `array.slice(index, index + 2)`, which the end of the array
      cuts short. */
  function ChunkUpTo<T>(arr: seq<T>, n: nat): (chunks: seq<seq<T>>)
    requires n <= |arr|
    decreases n
  {
    if n == 0 then []
    else
      var index := n - 1;
      ChunkUpTo(arr, index) + (if index % 2 == 0 then [arr[index..Min(index + 2, |arr|)]] else [])
  }

  function Chunk<T>(arr: seq<T>): (chunks: seq<seq<T>>)
  {
    ChunkUpTo(arr, |arr|)
  }

  /** The chunks glued back together, in order. */
  function Flatten<T>(chunks: seq<seq<T>>): (flat: seq<T>)
    decreases |chunks|
  {
    if |chunks| == 0 then [] else Flatten(chunks[..|chunks| - 1]) + chunks[|chunks| - 1]
  }

  /** Chunk j is the slice starting at 2 * j, two long unless the array
      ends first. */
  predicate IsChunkingOf<T(==)>(arr: seq<T>, chunks: seq<seq<T>>) {
    forall j :: 0 <= j < |chunks| ==> 2 * j < |arr| && chunks[j] == arr[2 * j..Min(2 * j + 2, |arr|)]
  }

  lemma {:induction false} ChunkUpToShape<T>(arr: seq<T>, n: nat)
    requires n <= |arr|
    ensures |ChunkUpTo(arr, n)| == (n + 1) / 2
    ensures IsChunkingOf(arr, ChunkUpTo(arr, n))
    decreases n
  {
    if n > 0 {
      ChunkUpToShape(arr, n - 1);
    }
  }

  /** One chunk per two elements, rounded up; chunk j starts at 2 * j. */
  lemma ChunkShape<T>(arr: seq<T>)
    ensures |Chunk(arr)| == (|arr| + 1) / 2
    ensures IsChunkingOf(arr, Chunk(arr))
  {
    ChunkUpToShape(arr, |arr|);
  }

  /** Every chunk holds two elements except the last, which holds one
      exactly when the length is odd. */
  lemma ChunkSizes<T>(arr: seq<T>)
    ensures |Chunk(arr)| == (|arr| + 1) / 2
    ensures forall j :: 0 <= j < |Chunk(arr)| - 1 ==> |Chunk(arr)[j]| == 2
    ensures |arr| > 0 ==> (|Chunk(arr)[|Chunk(arr)| - 1]| == 1 <==> |arr| % 2 == 1)
    ensures |arr| > 0 ==> |Chunk(arr)[|Chunk(arr)| - 1]| in {1, 2}
  {
    ChunkShape(arr);
  }

  /** The first k chunks of a chunking glue back into the first 2 * k
      elements, or all of them. */
  lemma {:induction false} FlattenPrefix<T>(arr: seq<T>, chunks: seq<seq<T>>, k: nat)
    requires IsChunkingOf(arr, chunks) && k <= |chunks|
    ensures Flatten(chunks[..k]) == arr[..Min(2 * k, |arr|)]
    decreases k
  {
    if k > 0 {
      FlattenPrefix(arr, chunks, k - 1);
      assert chunks[..k][..k - 1] == chunks[..k - 1];
      assert arr[..Min(2 * k, |arr|)] == arr[..2 * (k - 1)] + chunks[k - 1];
    }
  }

  /** Gluing the chunks back together gives the array back. */
  lemma ChunkFlattens<T>(arr: seq<T>)
    ensures Flatten(Chunk(arr)) == arr
  {
    var chunks := Chunk(arr);
    ChunkShape(arr);
    FlattenPrefix(arr, chunks, |chunks|);
    assert chunks[..|chunks|] == chunks;
  }

  /** The two examples written above the source's definition. */
  lemma ChunkExamples()
    ensures Chunk([0, 1, 2, 3, 4]) == [[0, 1], [2, 3], [4]]
    ensures Chunk([0, 1, 2, 3, 4, 5]) == [[0, 1], [2, 3], [4, 5]]
    ensures Chunk<int>([]) == []
  {
    var five := [0, 1, 2, 3, 4];
    var six := [0, 1, 2, 3, 4, 5];
    ChunkShape(five);
    ChunkShape(six);
    assert five[0..2] == [0, 1] && five[2..4] == [2, 3] && five[4..5] == [4];
    assert six[0..2] == [0, 1] && six[2..4] == [2, 3] && six[4..6] == [4, 5];
  }
}
