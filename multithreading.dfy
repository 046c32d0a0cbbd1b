/**
 * The single-machine, multi-threaded word count: one task per chunk on a thread pool, the
 * partial counts merged as the tasks complete. Counting a chunk cannot fail, so every chunk
 * is merged.
 */
module Multithreading {
  import opened Text
  import opened Tables
  import opened Counting
  import Chunker
  import opened Scheduling
  import opened Pipeline

  /** `count_words_single_machine`: the merged count of all chunks, whatever the completion
      order, which is the count of the lines the chunker kept. `n_workers = 0` divides by
      zero in the chunker. */
  method CountWordsSingleMachine(text: string, nWorkers: nat, order: seq<nat>) returns (globalCounter: Table)
    requires nWorkers >= 1
    requires IsCompletionOrder(order, nWorkers)
    ensures globalCounter == MergeAll(Partials(Chunker.Chunks(SplitLines(text), nWorkers)))
    ensures var lines := SplitLines(text);
      globalCounter == CountWords(Join(lines[..Chunker.Kept(|lines|, nWorkers)]))
  {
    var chunks := Chunker.SplitTextIntoChunks(text, nWorkers);
    globalCounter := map[];
    var futures := Partials(chunks);

    CompletionOrderLength(order, nWorkers);
    var k := 0;
    while k < nWorkers
      invariant 0 <= k <= nWorkers
      invariant globalCounter == MergeAll(Permute(futures, order[..k]))
    {
      var result := futures[order[k]];
      PermuteStep(futures, order, k);
      MergeAllSnoc(Permute(futures, order[..k]), result);
      globalCounter := Merge(globalCounter, result);
      k := k + 1;
    }
    assert order[..k] == order;
    MergeReordered(futures, order);
    MergedCountOfChunks(text, nWorkers);
  }
}
