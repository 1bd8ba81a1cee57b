/**
 * The first loop of `importLVPositionen`: queue one write per position into
 * the current batch, close the batch when it holds `BATCH_SIZE` writes, and
 * close a non-empty last batch after the loop.
 */
module Batching {
  import opened Wrappers
  import opened Seqs
  import opened Positions
  import opened Mapping

  /** The store commits at most 500 writes per batch. */
  const BatchSize: nat := 500

  type Batch = seq<Write>

  /** Reference partition: consecutive slices of `n` elements, the last one possibly shorter. */
  function Chunks<T>(xs: seq<T>, n: nat): seq<seq<T>>
    requires n > 0
    decreases |xs|
  {
    if xs == [] then []
    else if |xs| <= n then [xs]
    else [xs[..n]] + Chunks(xs[n..], n)
  }

  /** Every chunk holds between 1 and `n` elements, and all but the last exactly `n`. */
  predicate WellSized<T>(bs: seq<seq<T>>, n: nat)
  {
    && (forall k :: 0 <= k < |bs| ==> 1 <= |bs[k]| <= n)
    && (forall k :: 0 <= k < |bs| - 1 ==> |bs[k]| == n)
  }

  /** The reference partition loses, repeats and reorders nothing, and is well sized. */
  lemma {:induction false} ChunksPartition<T>(xs: seq<T>, n: nat)
    requires n > 0
    ensures Flatten(Chunks(xs, n)) == xs
    ensures WellSized(Chunks(xs, n), n)
  {
    if |xs| > n {
      ChunksPartition(xs[n..], n);
      assert xs == xs[..n] + xs[n..];
    } else if xs != [] {
      assert Flatten([xs]) == xs + Flatten([]);
    }
  }

  /** A well-sized partition of `xs` is the reference partition: the shape is determined. */
  lemma {:induction false} WellSizedIsChunks<T>(bs: seq<seq<T>>, xs: seq<T>, n: nat)
    requires n > 0
    requires Flatten(bs) == xs && WellSized(bs, n)
    ensures bs == Chunks(xs, n)
  {
    if |bs| == 1 {
      assert Flatten(bs) == bs[0] + Flatten(bs[1..]);
      assert bs[1..] == [] && Flatten(bs[1..]) == [];
      assert xs == bs[0];
      assert bs == [bs[0]];
    } else if |bs| > 1 {
      var tail := Flatten(bs[1..]);
      assert Flatten(bs[1..]) == bs[1] + Flatten(bs[2..]);
      assert xs == bs[0] + tail && |bs[0]| == n && |tail| >= 1;
      assert xs[..n] == bs[0] && xs[n..] == tail;
      WellSizedIsChunks(bs[1..], tail, n);
    }
  }

  /** Number of chunks: no chunk for no input, otherwise the ceiling of `|xs| / n`. */
  lemma {:induction false} ChunksCount<T>(xs: seq<T>, n: nat)
    requires n > 0
    ensures (|Chunks(xs, n)| - 1) * n < |xs| <= |Chunks(xs, n)| * n
    ensures xs == [] <==> Chunks(xs, n) == []
  {
    if |xs| > n {
      ChunksCount(xs[n..], n);
      var k := |Chunks(xs[n..], n)|;
      assert |Chunks(xs, n)| == k + 1;
      assert (k + 1) * n == k * n + n;
    }
  }

  /** Input element `k * n + j`, for `j < n`, sits at place `j` of chunk `k`. */
  lemma {:induction false} ChunksLocate<T>(xs: seq<T>, n: nat, k: nat, j: nat)
    requires n > 0 && j < n && k * n + j < |xs|
    ensures k < |Chunks(xs, n)| && j < |Chunks(xs, n)[k]|
    ensures Chunks(xs, n)[k][j] == xs[k * n + j]
  {
    if k == 0 {
      assert k * n + j == j;
    } else {
      assert k * n == (k - 1) * n + n;
      var rest := Chunks(xs[n..], n);
      assert Chunks(xs, n) == [xs[..n]] + rest;
      ChunksLocate(xs[n..], n, k - 1, j);
      assert xs[n..][(k - 1) * n + j] == xs[k * n + j];
    }
  }

  /** With 500 writes per batch, write `i` is write `i % 500` of batch `i / 500`. */
  lemma BatchOfWrite<T>(xs: seq<T>, i: nat)
    requires i < |xs|
    ensures i / BatchSize < |Chunks(xs, BatchSize)|
    ensures i % BatchSize < |Chunks(xs, BatchSize)[i / BatchSize]|
    ensures Chunks(xs, BatchSize)[i / BatchSize][i % BatchSize] == xs[i]
  {
    assert i == (i / BatchSize) * BatchSize + i % BatchSize;
    ChunksLocate(xs, BatchSize, i / BatchSize, i % BatchSize);
  }

  /** Queuing the write of position `i` extends the writes of the positions before it. */
  lemma WritesStep(ps: seq<Position>, i: nat)
    requires i < |ps| && AllNumbered(ps[..i]) && ps[i].positionNr.Some?
    ensures AllNumbered(ps[..i + 1])
    ensures Writes(ps[..i + 1]) == Writes(ps[..i]) + [WriteFor(ps[i])]
  {
    assert ps[..i + 1] == ps[..i] + [ps[i]];
    MapSnoc(WriteFor, ps[..i], ps[i]);
  }

  /** Closing a full batch keeps the queued writes and the full-batch invariant. */
  lemma Close<T>(batches: seq<seq<T>>, current: seq<T>, n: nat)
    requires forall k :: 0 <= k < |batches| ==> |batches[k]| == n
    requires |current| == n
    ensures forall k :: 0 <= k < |batches + [current]| ==> |(batches + [current])[k]| == n
    ensures Flatten(batches + [current]) == Flatten(batches) + current
  {
    FlattenAppend(batches, current);
  }

  /**
   * After the loop: closing the last batch if it is not empty leaves
   * exactly the reference partition of the queued writes.
   */
  lemma Finish<T>(full: seq<seq<T>>, last: seq<T>, xs: seq<T>)
    requires forall k :: 0 <= k < |full| ==> |full[k]| == BatchSize
    requires |last| < BatchSize && Flatten(full) + last == xs
    ensures var bs := if last == [] then full else full + [last];
      && Flatten(bs) == xs
      && WellSized(bs, BatchSize)
      && bs == Chunks(xs, BatchSize)
      && |bs| == (|xs| + BatchSize - 1) / BatchSize
  {
    var bs := if last == [] then full else full + [last];
    if last == [] {
      assert Flatten(full) + last == Flatten(full);
    } else {
      FlattenAppend(full, last);
    }
    WellSizedIsChunks(bs, xs, BatchSize);
    ChunksCount(xs, BatchSize);
    var k := |bs|;
    assert (k - 1) * BatchSize < |xs| <= k * BatchSize;
    assert k == (|xs| + BatchSize - 1) / BatchSize;
  }

  /** The batches collected by the import, and the count it logs. */
  datatype Plan = Plan(batches: seq<Batch>, totalCount: nat)

  /** `pos.position_nr.replace(...)` throws a TypeError on an absent `position_nr`. */
  datatype ImportError =
    | MissingPositionNr(index: nat)
    | CommitFailed(batchIndex: nat)

  /**
   * The batching loop. An absent `position_nr` aborts the loop with the
   * TypeError of `replace` at the first such position; otherwise the
   * batches are the writes of all positions, in order, cut into chunks of
   * `BatchSize`.
   */
  method BuildBatches(positionen: seq<Position>) returns (r: Result<Plan, ImportError>)
    ensures r.Success? <==> AllNumbered(positionen)
    ensures r.Failure? ==>
      && r.error.MissingPositionNr?
      && r.error.index < |positionen|
      && positionen[r.error.index].positionNr.None?
      && AllNumbered(positionen[..r.error.index])
    ensures r.Success? ==>
      && AllNumbered(positionen)
      && Flatten(r.value.batches) == Writes(positionen)
      && WellSized(r.value.batches, BatchSize)
      && |r.value.batches| == (|positionen| + BatchSize - 1) / BatchSize
      && r.value.totalCount == |positionen|
      && r.value.batches == Chunks(Writes(positionen), BatchSize)
  {
    var batches: seq<Batch> := [];
    var currentBatch: Batch := [];
    var batchCount: nat := 0;
    var totalCount: nat := 0;
    for i := 0 to |positionen|
      invariant AllNumbered(positionen[..i])
      invariant totalCount == i
      invariant batchCount == |currentBatch| < BatchSize
      invariant i == |batches| * BatchSize + batchCount
      invariant forall k :: 0 <= k < |batches| ==> |batches[k]| == BatchSize
      invariant Flatten(batches) + currentBatch == Writes(positionen[..i])
    {
      var pos := positionen[i];
      if pos.positionNr.None? {
        return Failure(MissingPositionNr(i));
      }
      var write := WriteFor(pos);
      WritesStep(positionen, i);
      assert Flatten(batches) + (currentBatch + [write]) == (Flatten(batches) + currentBatch) + [write];
      currentBatch := currentBatch + [write];
      batchCount := batchCount + 1;
      totalCount := totalCount + 1;
      if batchCount >= BatchSize {
        Close(batches, currentBatch, BatchSize);
        batches := batches + [currentBatch];
        currentBatch := [];
        batchCount := 0;
      }
    }
    assert positionen[..|positionen|] == positionen;
    Finish(batches, currentBatch, Writes(positionen));
    if batchCount > 0 {
      batches := batches + [currentBatch];
    }
    return Success(Plan(batches, totalCount));
  }
}
