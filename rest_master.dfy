/**
 * The REST master: the same split and dispatch as the gRPC master, over HTTP. Here a failed
 * call is not caught: the first failure met in completion order propagates out of
 * `count_words_distributed_rest` and no total is returned.
 */
module RestMaster {
  import opened Text
  import opened Tables
  import opened Counting
  import Chunker
  import opened Scheduling
  import opened Pipeline
  import Worker

  /** `split_text_into_chunks` of the REST master: a count of chunks that is zero or negative
      gives the whole text as one chunk; otherwise the shared chunker. */
  method SplitTextIntoChunks(text: string, nChunks: int) returns (chunks: seq<string>)
    ensures nChunks <= 0 ==> chunks == [text]
    ensures nChunks >= 1 ==> chunks == Chunker.Chunks(SplitLines(text), nChunks)
  {
    if nChunks <= 0 {
      return [text];
    }
    chunks := Chunker.SplitTextIntoChunks(text, nChunks);
  }

  /** The `as_completed` loop of `count_words_distributed_rest`: each outcome is merged in
      completion order, and the first failure met is re-raised by `future.result()`, which
      ends the loop. All outcomes merged means the merge of every table, whatever the order. */
  method MergeAsCompleted(outcomes: seq<Outcome>, order: seq<nat>) returns (result: Result<Table>)
    requires IsCompletionOrder(order, |outcomes|)
    ensures result.Ok? <==> forall i :: 0 <= i < |outcomes| ==> outcomes[i].Success?
    ensures result.Ok? ==> result.value == MergeAll(TablesOf(outcomes))
    ensures result.Err? ==>
      exists k :: 0 <= k < |order| && outcomes[order[k]].Failure? && result.failed == outcomes[order[k]].worker
        && forall j :: 0 <= j < k ==> outcomes[order[j]].Success?
  {
    var n := |outcomes|;
    CompletionOrderLength(order, n);
    ghost var tables := TablesOf(outcomes);
    var globalCounter := map[];
    var k := 0;
    while k < n
      invariant 0 <= k <= n
      invariant forall j :: 0 <= j < k ==> outcomes[order[j]].Success?
      invariant globalCounter == MergeAll(Permute(tables, order[..k]))
    {
      var outcome := outcomes[order[k]];
      if outcome.Failure? {
        result := Err(outcome.worker);
        assert outcomes[order[k]].Failure? && result.failed == outcomes[order[k]].worker;
        return;
      }
      assert tables[order[k]] == outcome.counts;
      PermuteStep(tables, order, k);
      MergeAllSnoc(Permute(tables, order[..k]), outcome.counts);
      globalCounter := Merge(globalCounter, outcome.counts);
      k := k + 1;
    }
    assert order[..k] == order;
    CompletedAll(outcomes, order);
    MergeReordered(tables, order);
    result := Ok(globalCounter);
  }

  /** `count_words_distributed_rest`: the merge succeeds exactly when every worker answers, and
      then it is the count of all chunks, which is the count of the lines the chunker kept;
      otherwise the failure of the first worker, in completion order, whose call failed.
      An empty list of workers makes the thread pool refuse `max_workers=0`. */
  method CountWordsDistributedRest(text: string, workerAddresses: seq<Address>, reachable: seq<bool>, order: seq<nat>)
    returns (result: Result<Table>)
    requires |workerAddresses| >= 1
    requires |reachable| == |workerAddresses|
    requires IsCompletionOrder(order, |workerAddresses|)
    ensures result.Ok? <==> forall i :: 0 <= i < |reachable| ==> reachable[i]
    ensures result.Ok? ==>
      var lines := SplitLines(text);
      && result.value == MergeAll(Partials(Chunker.Chunks(lines, |workerAddresses|)))
      && result.value == CountWords(Join(lines[..Chunker.Kept(|lines|, |workerAddresses|)]))
    ensures result.Err? ==>
      exists k :: 0 <= k < |order| && !reachable[order[k]] && result.failed == workerAddresses[order[k]]
        && forall j :: 0 <= j < k ==> reachable[order[j]]
  {
    var n := |workerAddresses|;
    var chunks := SplitTextIntoChunks(text, n);
    var outcomes := Worker.Dispatch(workerAddresses, chunks, reachable);
    result := MergeAsCompleted(outcomes, order);
    Worker.DispatchOutcomes(workerAddresses, chunks, reachable);
    if result.Ok? {
      Worker.DispatchAllSucceeded(workerAddresses, chunks, reachable);
      MergedCountOfChunks(text, n);
    }
  }
}
