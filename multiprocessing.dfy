/**
 * The single-machine, multi-process word count: the process pool maps the chunk count over
 * the chunks, and the partial counts are merged in chunk order.
 */
module Multiprocessing {
  import opened Text
  import opened Tables
  import opened Counting
  import Chunker
  import opened Pipeline

  /** `count_words_multiprocessing`: the merged count of all chunks, which is the count of the
      lines the chunker kept, holding as many occurrences as those lines have tokens.
      `n_workers = 0` divides by zero in the chunker. */
  method CountWordsMultiprocessing(text: string, nWorkers: nat) returns (globalCounts: Table)
    requires nWorkers >= 1
    ensures globalCounts == MergeAll(Partials(Chunker.Chunks(SplitLines(text), nWorkers)))
    ensures var lines := SplitLines(text);
      var kept := Join(lines[..Chunker.Kept(|lines|, nWorkers)]);
      globalCounts == CountWords(kept) && Total(globalCounts) == |Words(kept)|
  {
    var chunks := Chunker.SplitTextIntoChunks(text, nWorkers);
    var partialCounts := Partials(chunks);

    globalCounts := map[];
    var k := 0;
    while k < |partialCounts|
      invariant 0 <= k <= |partialCounts|
      invariant globalCounts == MergeAll(partialCounts[..k])
    {
      MergeAllPrefixStep(partialCounts, k);
      globalCounts := Merge(globalCounts, partialCounts[k]);
      k := k + 1;
    }
    assert partialCounts[..k] == partialCounts;
    ghost var lines := SplitLines(text);
    ghost var kept := Join(lines[..Chunker.Kept(|lines|, nWorkers)]);
    MergedCountOfChunks(text, nWorkers);
    assert globalCounts == CountWords(kept);
    MergedTotalOfChunks(text, nWorkers);
    assert Total(globalCounts) == |Words(kept)|;
  }
}
