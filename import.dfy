/**
 * `importLVPositionen` as a whole: build the batches, commit them one after
 * the other, then count the positions per main group.
 */
module Import {
  import opened Wrappers
  import opened Positions
  import opened Mapping
  import opened Batching
  import opened Summary

  /**
   * The document store, reduced to what the import observes: the batches it
   * has committed, in commit order. A commit applies a whole batch or
   * nothing.
   */
  class Firestore {
    var committed: seq<Batch>

    constructor()
      ensures committed == []
    {
      committed := [];
    }

    /**
     * `batch.commit()`. Whether the store accepts the batch (network,
     * permissions, quotas) is outside the model: either outcome may happen.
     */
    method Commit(batch: Batch) returns (ok: bool)
      modifies this
      ensures ok ==> committed == old(committed) + [batch]
      ensures !ok ==> committed == old(committed)
    {
      ok := *;
      if ok {
        committed := committed + [batch];
      }
    }
  }

  /** What the import reports: the logged totals and the per-group summary. */
  datatype Report = Report(totalCount: nat, batchCount: nat, gruppen: map<string, nat>)

  /**
   * The whole import. A position without `position_nr` stops it before
   * anything is written. Otherwise the batches are committed in order, and
   * the first rejected commit stops it with the batches before it written;
   * when every commit succeeds, the report gives the number of positions,
   * the number of batches and the count per main group.
   */
  method ImportLvPositionen(store: Firestore, positionen: seq<Position>) returns (r: Result<Report, ImportError>)
    modifies store
    ensures r.Failure? && r.error.MissingPositionNr? ==>
      && !AllNumbered(positionen)
      && r.error.index < |positionen|
      && positionen[r.error.index].positionNr.None?
      && AllNumbered(positionen[..r.error.index])
      && store.committed == old(store.committed)
    ensures r.Failure? && r.error.CommitFailed? ==>
      && AllNumbered(positionen)
      && r.error.batchIndex < |Chunks(Writes(positionen), BatchSize)|
      && store.committed == old(store.committed) + Chunks(Writes(positionen), BatchSize)[..r.error.batchIndex]
    ensures r.Success? ==>
      && AllNumbered(positionen)
      && store.committed == old(store.committed) + Chunks(Writes(positionen), BatchSize)
      && r.value.totalCount == |positionen|
      && r.value.batchCount == (|positionen| + BatchSize - 1) / BatchSize
      && r.value.gruppen == Tally(positionen)
  {
    var built := BuildBatches(positionen);
    if built.Failure? {
      return Failure(built.error);
    }
    var plan := built.value;
    var batches := plan.batches;
    for i := 0 to |batches|
      invariant store.committed == old(store.committed) + batches[..i]
    {
      var ok := store.Commit(batches[i]);
      if !ok {
        return Failure(CommitFailed(i));
      }
      assert batches[..i + 1] == batches[..i] + [batches[i]];
    }
    assert batches[..|batches|] == batches;
    var gruppen := Summarize(positionen);
    return Success(Report(plan.totalCount, |batches|, gruppen));
  }
}
