/** Everyday helpers (`utils.py`). */
module Utils {

  /** The chunks laid end to end. */
  function Concat<T>(chunks: seq<seq<T>>): seq<T> {
    if chunks == [] then [] else Concat(chunks[..|chunks| - 1]) + chunks[|chunks| - 1]
  }

  function Min(a: int, b: int): int {
    if a <= b then a else b
  }

  /** `split_every(n, iterable)`: takes pieces of at most `n` items off one
      shared iterator (`islice`) until a piece comes back empty. `pos` is how
      far the iterator has been consumed. With `n == 0` the first piece is
      already empty, so nothing is produced. (`islice` rejects a negative
      `n`, hence `n: nat`.) */
  method SplitEvery<T>(n: nat, xs: seq<T>) returns (chunks: seq<seq<T>>)
    ensures n == 0 ==> chunks == []
    ensures n > 0 ==> Concat(chunks) == xs
    ensures forall i :: 0 <= i < |chunks| ==> 0 < |chunks[i]| <= n
    ensures forall i :: 0 <= i < |chunks| - 1 ==> |chunks[i]| == n
    ensures n > 0 ==> |chunks| == (|xs| + n - 1) / n
  {
    chunks := [];
    var pos := 0;
    var piece := xs[pos..Min(pos + n, |xs|)];
    while piece != []
      invariant 0 <= pos <= |xs|
      invariant piece == xs[pos..Min(pos + n, |xs|)]
      invariant Concat(chunks) == xs[..pos]
      invariant forall i :: 0 <= i < |chunks| ==> 0 < |chunks[i]| <= n
      invariant forall i :: 0 <= i < |chunks| - 1 ==> |chunks[i]| == n
      invariant chunks != [] && |chunks[|chunks| - 1]| < n ==> pos == |xs|
      decreases |xs| - pos
    {
      assert xs[..pos + |piece|] == xs[..pos] + piece;
      assert (chunks + [piece])[..|chunks|] == chunks;
      chunks := chunks + [piece];
      pos := pos + |piece|;
      piece := xs[pos..Min(pos + n, |xs|)];
    }
    assert n > 0 ==> xs[..pos] == xs;
    if n > 0 {
      ChunkCount(chunks, n);
      CeilingDivision(|xs|, n, |chunks|);
    }
  }

  lemma {:induction false} FullChunksLength<T>(chunks: seq<seq<T>>, n: nat)
    requires forall i :: 0 <= i < |chunks| ==> |chunks[i]| == n
    ensures |Concat(chunks)| == |chunks| * n
  {
    if chunks != [] {
      FullChunksLength(chunks[..|chunks| - 1], n);
      assert (|chunks| - 1) * n + n == |chunks| * n;
    }
  }

  /** Pieces of at most `n` items, all full but the last, hold more than
      `n` times one fewer than their number of items and at most `n` times
      their number. */
  lemma ChunkCount<T>(chunks: seq<seq<T>>, n: nat)
    requires forall i :: 0 <= i < |chunks| ==> 0 < |chunks[i]| <= n
    requires forall i :: 0 <= i < |chunks| - 1 ==> |chunks[i]| == n
    ensures |chunks| * n - n < |Concat(chunks)| <= |chunks| * n || (chunks == [] && Concat(chunks) == [])
  {
    if chunks != [] {
      var init := chunks[..|chunks| - 1];
      FullChunksLength(init, n);
      assert (|chunks| - 1) * n + n == |chunks| * n;
    }
  }

  /** `c` pieces of size at most `n`, all full but the last, hold `p` items
      exactly when `c` is `p / n` rounded up. */
  lemma CeilingDivision(p: nat, n: nat, c: nat)
    requires n > 0
    requires c * n - n < p <= c * n || (c == 0 && p == 0)
    ensures c == (p + n - 1) / n
  {
    var q, r := (p + n - 1) / n, (p + n - 1) % n;
    assert p + n - 1 == q * n + r;
    assert (q - c) * n == q * n - c * n;
    ProductBelowFactor(q - c, n);
  }

  lemma ProductBelowFactor(d: int, n: int)
    requires n > 0 && -n < d * n < n
    ensures d == 0
  {
  }
}
