/**
 * Splitting the list of pomodoros into sets (main.py, sets_of_pomodoros):
 * consecutive chunks of `size` elements, the last one possibly shorter.
 */
module Sets {
  function Min(a: int, b: int): int
  {
    if a <= b then a else b
  }

  /** Concatenation of a list of lists, in order. */
  function Flatten<T>(ss: seq<seq<T>>): seq<T>
  {
    if ss == [] then [] else ss[0] + Flatten(ss[1..])
  }

  lemma {:induction false} FlattenAppend<T>(ss: seq<seq<T>>, tt: seq<seq<T>>)
    ensures Flatten(ss + tt) == Flatten(ss) + Flatten(tt)
  {
    if ss == [] {
      assert ss + tt == tt;
    } else {
      assert (ss + tt)[1..] == ss[1..] + tt;
      FlattenAppend(ss[1..], tt);
    }
  }

  /** Adding one set at the end adds its elements at the end of the flattening. */
  lemma FlattenSnoc<T>(ss: seq<seq<T>>, s: seq<T>)
    ensures Flatten(ss + [s]) == Flatten(ss) + s
  {
    FlattenAppend(ss, [s]);
    assert Flatten([s]) == s + Flatten([]);
  }

  lemma {:induction false} MulAtLeast(x: int, d: int)
    requires x >= 1 && d > 0
    ensures x * d >= d
  {
    if x > 1 {
      MulAtLeast(x - 1, d);
      assert x * d == (x - 1) * d + d;
    }
  }

  /** Euclidean division is determined by quotient and remainder. */
  lemma DivUnique(a: int, d: int, q: int, m: int)
    requires d > 0 && a == q * d + m && 0 <= m < d
    ensures a / d == q && a % d == m
  {
    var q', m' := a / d, a % d;
    assert (q - q') * d == m' - m;
    if q > q' {
      MulAtLeast(q - q', d);
    } else if q < q' {
      MulAtLeast(q' - q, d);
    }
  }

  lemma MulSucc(k: int, d: int)
    ensures (k + 1) * d == k * d + d
  {
  }

  /** One more full chunk's worth of elements means one more chunk. */
  lemma DivStep(a: int, d: int)
    requires d > 0
    ensures (a + d) / d == a / d + 1
  {
    var q, m := a / d, a % d;
    assert a + d == (q + 1) * d + m;
    DivUnique(a + d, d, q + 1, m);
  }

  /**
   * The chunks of `xs`: each slice `xs[i .. i + size]` (cut short at the end
   * of the list) for i = 0, size, 2 * size, ... below |xs|. None is empty,
   * none is longer than `size`, and all but the last are exactly `size` long.
   */
  function Chunks<T>(xs: seq<T>, size: nat): (r: seq<seq<T>>)
    requires size > 0
    ensures forall k :: 0 <= k < |r| ==> 1 <= |r[k]| <= size
    ensures forall k :: 0 <= k < |r| - 1 ==> |r[k]| == size
    decreases |xs|
  {
    if xs == [] then
      []
    else
      var n := Min(size, |xs|);
      [xs[..n]] + Chunks(xs[n..], size)
  }

  /** Flattening the chunks gives the list back. */
  lemma {:induction false} ChunksFlatten<T>(xs: seq<T>, size: nat)
    requires size > 0
    ensures Flatten(Chunks(xs, size)) == xs
    decreases |xs|
  {
    if xs != [] {
      var n := Min(size, |xs|);
      var rest := Chunks(xs[n..], size);
      ChunksFlatten(xs[n..], size);
      assert ([xs[..n]] + rest)[1..] == rest;
      assert xs[..n] + xs[n..] == xs;
    }
  }

  /** There are ceil(|xs| / size) chunks. */
  lemma {:induction false} ChunkCount<T>(xs: seq<T>, size: nat)
    requires size > 0
    ensures |Chunks(xs, size)| == (|xs| + size - 1) / size
  {
    if xs == [] {
      DivUnique(size - 1, size, 0, size - 1);
    } else if |xs| <= size {
      DivUnique(|xs| + size - 1, size, 1, |xs| - 1);
    } else {
      ChunkCount(xs[size..], size);
      DivStep(|xs| - 1, size);
    }
  }

  /**
   * The list comprehension of the source: on a non-zero step `size`, the
   * chunks of `xs` for a positive step and no chunk at all for a negative
   * one (Python's `range(0, len, size)` is then empty). A zero step makes
   * `range` raise, which the requires excludes.
   */
  function SetsOfPomodoros<T>(pomodoros: seq<T>, size: int): (r: seq<seq<T>>)
    requires size != 0
    ensures size < 0 ==> r == []
    ensures size > 0 ==> Flatten(r) == pomodoros && |r| == (|pomodoros| + size - 1) / size
  {
    if size < 0 then
      []
    else
      ChunkCount(pomodoros, size);
      ChunksFlatten(pomodoros, size);
      Chunks(pomodoros, size)
  }

  /** Past the first chunk, the chunks are those of what follows it. */
  lemma ChunksTail<T>(xs: seq<T>, size: nat, k: nat)
    requires size > 0
    requires 0 < k < |Chunks(xs, size)|
    ensures |xs| > size && Chunks(xs, size) == [xs[..size]] + Chunks(xs[size..], size)
  {
  }

  lemma SliceOfDrop<T>(xs: seq<T>, d: nat, lo: nat, hi: nat)
    requires d <= |xs| && lo <= hi <= |xs| - d
    ensures xs[d..][lo..hi] == xs[lo + d .. hi + d]
  {
  }

  /**
   * k * size, counted up one chunk at a time. It is used only inside the
   * proofs about chunk positions, where it keeps the solver away from
   * nonlinear arithmetic. OffsetIsProduct ties it to k * size, and the
   * lemmas callers use (ChunkAt, LastChunk) are stated with the product.
   */
  function Offset(k: nat, size: nat): nat
  {
    if k == 0 then 0 else Offset(k - 1, size) + size
  }

  lemma {:induction false} OffsetIsProduct(k: nat, size: nat)
    ensures Offset(k, size) == k * size
  {
    if k > 0 {
      OffsetIsProduct(k - 1, size);
      MulSucc(k - 1, size);
    }
  }

  lemma {:induction false} ChunkAtOffset<T>(xs: seq<T>, size: nat, k: nat)
    requires size > 0
    requires k < |Chunks(xs, size)|
    ensures Offset(k, size) < |xs|
    ensures Chunks(xs, size)[k] == xs[Offset(k, size) .. Min(Offset(k, size) + size, |xs|)]
  {
    if k > 0 {
      var tail := xs[size..];
      ChunksTail(xs, size, k);
      ChunkAtOffset(tail, size, k - 1);
      var lo, o := Offset(k - 1, size), Offset(k, size);
      var hi := Min(lo + size, |tail|);
      assert o == lo + size && hi + size == Min(o + size, |xs|);
      assert Chunks(xs, size)[k] == tail[lo..hi];
      SliceOfDrop(xs, size, lo, hi);
    }
  }

  /**
   * Chunk k (from 0) is the slice starting at k * size, cut at the end of
   * the list: the chunks are contiguous, non-overlapping and in order.
   */
  lemma ChunkAt<T>(xs: seq<T>, size: nat, k: nat)
    requires size > 0
    requires k < |Chunks(xs, size)|
    ensures k * size < |xs|
    ensures Chunks(xs, size)[k] == xs[k * size .. Min(k * size + size, |xs|)]
  {
    ChunkAtOffset(xs, size, k);
    OffsetIsProduct(k, size);
  }

  /** The last chunk reaches the end of the list. */
  lemma {:induction false} LastChunkReachesEnd<T>(xs: seq<T>, size: nat)
    requires size > 0
    requires xs != []
    ensures |Chunks(xs, size)| > 0
    ensures Offset(|Chunks(xs, size)| - 1, size) + size >= |xs|
  {
    if |xs| > size {
      LastChunkReachesEnd(xs[size..], size);
    }
  }

  /**
   * The last chunk is what is left after the full ones: |xs| mod size
   * elements, or a full `size` when size divides |xs|.
   */
  lemma LastChunk<T>(xs: seq<T>, size: nat)
    requires size > 0
    requires xs != []
    ensures var r := Chunks(xs, size);
      |r| > 0 && (|r| - 1) * size < |xs| && r[|r| - 1] == xs[(|r| - 1) * size ..]
    ensures var r := Chunks(xs, size);
      |r[|r| - 1]| == if |xs| % size == 0 then size else |xs| % size
  {
    var r := Chunks(xs, size);
    LastChunkReachesEnd(xs, size);
    var q := |r| - 1;
    ChunkAtOffset(xs, size, q);
    OffsetIsProduct(q, size);
    var o := Offset(q, size);
    assert Min(o + size, |xs|) == |xs|;
    assert r[q] == xs[o..];
    RemainderOfLength(|xs|, size, q, |xs| - o);
  }

  /** n = q * size + len with 1 <= len <= size: len is n mod size, or size when that is 0. */
  lemma RemainderOfLength(n: int, size: int, q: int, len: int)
    requires size > 0 && n == q * size + len && 1 <= len <= size
    ensures len == if n % size == 0 then size else n % size
  {
    if len == size {
      MulSucc(q, size);
      DivUnique(n, size, q + 1, 0);
    } else {
      DivUnique(n, size, q, len);
    }
  }

  /** The empty list has no chunks. */
  lemma ChunksEmpty<T>(xs: seq<T>, size: nat)
    requires size > 0 && xs == []
    ensures Chunks(xs, size) == []
  {
  }
}
