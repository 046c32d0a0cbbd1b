/**
 * The gRPC master: splits the text into one chunk per worker, sends chunk `i` to worker `i`,
 * and merges the replies as they complete; a worker whose call fails is reported and left
 * out of the total.
 */
module GrpcMaster {
  import opened Text
  import opened Tables
  import opened Counting
  import Chunker
  import opened Scheduling
  import opened Pipeline
  import Worker

  /** The `if`/`elif` at the end of this variant's chunker cuts or pads to `Fit`. */
  lemma CutOrPad(strides: seq<string>, n: nat)
    ensures (if |strides| > n then strides[..n]
             else if |strides| < n then strides + Chunker.Blanks(n - |strides|)
             else strides) == Chunker.Fit(strides, n, "")
  {
  }

  /** `split_text_into_chunks` of the gRPC master: the strides, then cut to `n_chunks` when
      there are more, or padded with "" when there are fewer. `n_chunks = 0` divides by zero. */
  method SplitTextIntoChunks(text: string, nChunks: nat) returns (chunks: seq<string>)
    requires nChunks >= 1
    ensures chunks == Chunker.Chunks(SplitLines(text), nChunks)
  {
    var lines := SplitLines(text);
    var size := Chunker.ChunkSize(|lines|, nChunks);
    chunks := Chunker.JoinStrides(lines, size);
    CutOrPad(chunks, nChunks);
    if |chunks| > nChunks {
      chunks := chunks[..nChunks];
    } else if |chunks| < nChunks {
      chunks := chunks + Chunker.Blanks(nChunks - |chunks|);
    }
    Chunker.ChunksFromStrides(lines, nChunks);
  }

  /** The `as_completed` loop of `count_words_distributed`: each reply is merged in
      completion order and a failed call is reported and skipped. The result is the merge of
      the successful replies in dispatch order, whatever the completion order. */
  method MergeSkippingFailures(outcomes: seq<Outcome>, order: seq<nat>) returns (globalCounter: Table)
    requires IsCompletionOrder(order, |outcomes|)
    ensures globalCounter == MergeAll(SuccessfulCounts(outcomes))
  {
    var n := |outcomes|;
    CompletionOrderLength(order, n);
    globalCounter := map[];
    var k := 0;
    while k < n
      invariant 0 <= k <= n
      invariant globalCounter == MergeAll(SuccessfulCounts(Permute(outcomes, order[..k])))
    {
      var outcome := outcomes[order[k]];
      PermuteStep(outcomes, order, k);
      MergeSuccessfulStep(Permute(outcomes, order[..k]), outcome);
      if outcome.Success? {
        globalCounter := Merge(globalCounter, outcome.counts);
      }
      k := k + 1;
    }
    assert order[..k] == order;
    MergeSuccessfulReordered(outcomes, order);
  }

  /** `count_words_distributed`: chunk `i` goes to worker `i`; the replies are merged in the
      order the calls complete, skipping every call that failed. The total is the count of the
      chunks whose worker answered, whatever the completion order; when every worker answers
      it is the count of the lines the chunker kept. */
  method CountWordsDistributed(text: string, workerAddresses: seq<Address>, reachable: seq<bool>, order: seq<nat>)
    returns (globalCounter: Table)
    requires |workerAddresses| >= 1
    requires |reachable| == |workerAddresses|
    requires IsCompletionOrder(order, |workerAddresses|)
    ensures globalCounter ==
      Tally(AllWords(Worker.Survivors(Chunker.Chunks(SplitLines(text), |workerAddresses|), reachable)))
    ensures (forall i :: 0 <= i < |reachable| ==> reachable[i]) ==>
      var lines := SplitLines(text);
      globalCounter == CountWords(Join(lines[..Chunker.Kept(|lines|, |workerAddresses|)]))
  {
    var n := |workerAddresses|;
    var chunks := SplitTextIntoChunks(text, n);

    var outcomes: seq<Outcome> := [];
    var i := 0;
    while i < n
      invariant 0 <= i <= n && |outcomes| == i
      invariant forall j :: 0 <= j < i ==> outcomes[j] == Worker.Call(workerAddresses[j], chunks[j], reachable[j])
    {
      outcomes := outcomes + [Worker.Call(workerAddresses[i], chunks[i], reachable[i])];
      i := i + 1;
    }
    assert outcomes == Worker.Dispatch(workerAddresses, chunks, reachable);

    globalCounter := MergeSkippingFailures(outcomes, order);
    Worker.DispatchSucceeded(workerAddresses, chunks, reachable);
    MergePartials(Worker.Survivors(chunks, reachable));
    if forall i :: 0 <= i < |reachable| ==> reachable[i] {
      Worker.AllSurvive(chunks, reachable);
      MergedCountOfChunks(text, n);
    }
  }
}
