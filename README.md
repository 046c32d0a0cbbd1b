# Word count: chunk, count, merge

A model of the word-count project's four variants of one map-reduce pipeline:

1. The master splits the text into lines (`str.splitlines`).
2. It groups consecutive lines into exactly `n` chunks, one per worker.
3. Each worker counts the words of its chunk: `Counter(re.findall(r"\w+", chunk.lower()))`.
4. The master merges the partial counts with `Counter.update`.

The four variants are:

- the gRPC master and worker (`wordcount_grpc_multimachine`);
- the REST master and worker (`wordcount_rest`);
- the thread-pool word count (`wordcount_purepython_multithreading`);
- the process-pool word count (`wordcount_purepython_multiprocessing`).

Modules, one concept each:

- `Text`: `splitlines`, `"\n".join`, `lower` and `re.findall(r"\w+", …)` as functions on strings.
- `Tables`: a `Counter` as `map<string, nat>`, `Counter(tokens)` (`Tally`) and `update` (`Merge`, `MergeAll`).
- `Counting`: `count_words_in_chunk`, the worker-side count.
- `Chunker`: `split_text_into_chunks`, both as a specification (`Chunks`) and as the pad-then-slice loop shared by the REST master and the two single-machine variants (`SplitTextIntoChunks`).
- `Scheduling`: completion order and per-worker outcomes. The order in which `as_completed` yields futures is a parameter `order`, a permutation of the dispatch indices.
- `Worker`: the gRPC servicer and REST endpoint, which compute the same reply, and the positional dispatch of chunk `i` to worker `i`. Whether a remote call goes through is a parameter `reachable` of `Worker.Call`.
- `Pipeline`: what a whole run computes. The merged count of the chunks is the count of the lines the chunker kept.
- `GrpcMaster`, `RestMaster`, `Multithreading`, `Multiprocessing`: the masters, as methods with the source's loops.

The chunker keeps a stride of `size = max(1, L // n)` lines per chunk. When `L > n` and `n` does not divide `L`, the `L % n` trailing lines fall after the `n`-th stride and are cut off. Their words are not counted by any variant. For three lines and two chunks the chunks are `"one two"` and `"two three"`, and the third line is lost (`Pipeline.ThreeLinesTwoChunks`). The model follows the code here.

## Model

| member | source | states |
|---|---|---|
| Text.SplitLines | wordcount_grpc_multimachine/master/master.py:23 | no line holds a line boundary; the text has no lines exactly when it is empty; a non-empty text without a boundary is one line |
| Text.SplitLinesAtBoundary | wordcount_grpc_multimachine/master/master.py:23 | a boundary-free line followed by one terminator (a boundary character, or "\r\n" as a single boundary) is the first line, and the rest splits on its own; a final terminator adds no empty line |
| Text.SplitLinesExample | wordcount_grpc_multimachine/master/master.py:23 | `"a\r\nb\n".splitlines()` is `["a", "b"]` |
| Text.IsLineBoundary | wordcount_grpc_multimachine/master/master.py:23 | the characters `str.splitlines` splits at: "\n", "\r", U+000B, U+000C, U+001C to U+001E, U+0085, U+2028, U+2029; "\r\n" is one boundary (`BoundaryLength`) |
| Text.Join | wordcount_purepython_multiprocessing/wordcount.py:14 | `"\n".join(lines)`: the lines separated by single "\n", none before the first or after the last; `SplitJoin` and `JoinSplit` are its round trips with `SplitLines` |
| Text.SplitJoin | wordcount_grpc_multimachine/master/master.py:23-28 | splitting the "\n"-join of boundary-free lines, the last one non-empty, gives the lines back |
| Text.JoinSplit | wordcount_grpc_multimachine/master/master.py:23-28 | "\n"-joining the lines of a text whose only boundaries are single inner "\n" rebuilds the text |
| Text.Tokens | wordcount_grpc_multimachine/worker/worker.py:24 | every token found is non-empty and made of word characters only |
| Text.IsWordChar | wordcount_grpc_multimachine/worker/worker.py:24 | the `\w` class: ASCII letters, digits and `_`, and the Latin-1 letters and numeric characters (ª, ², ³, µ, ¹, º, ¼ to ¾, À to ÿ except × and ÷) |
| Text.Lower | wordcount_grpc_multimachine/worker/worker.py:24 | `str.lower` on one character: A to Z and À to Þ (except ×) map to the character 32 code points higher (a to z, à to þ); a character is a word character, or a line boundary, exactly when its lower-case form is |
| Text.LowerStr | wordcount_grpc_multimachine/worker/worker.py:24 | `chunk.lower()`, character by character, of the same length |
| Text.RunCount | wordcount_grpc_multimachine/worker/worker.py:24 | a reference count, scanning every position: how many maximal runs of word characters equal to `w` start in the text |
| Text.TokenMultiplicity | wordcount_grpc_multimachine/worker/worker.py:24 | `findall` lists each maximal run once: `w` occurs among the tokens exactly `RunCount(s, w)` times |
| Text.TokensAround | wordcount_grpc_multimachine/worker/worker.py:24 | a non-word character splits the token list: no token spans it |
| Text.TokensAreMaximalRuns | wordcount_grpc_multimachine/worker/worker.py:24 | every token is a maximal run of word characters of the text |
| Text.MaximalRunsAreTokens | wordcount_grpc_multimachine/worker/worker.py:24 | every maximal run of word characters of the text is a token |
| Text.LowerStrIdempotent | wordcount_grpc_multimachine/worker/worker.py:24 | lower-casing twice is lower-casing once |
| Text.LowerStrAppend | wordcount_grpc_multimachine/worker/worker.py:24 | lower-casing distributes over concatenation |
| Tables.Tally | wordcount_grpc_multimachine/worker/worker.py:25 | `Counter(tokens)` has exactly the tokens as keys, each with its number of occurrences |
| Tables.Merge | wordcount_grpc_multimachine/master/master.py:62 | `a.update(b)`: every key of either table, with the two counts added and a missing key counting 0 |
| Tables.MergeAll | wordcount_purepython_multiprocessing/wordcount.py:34-36 | `update` with each table in turn, starting from an empty Counter |
| Tables.TallyAppend | wordcount_grpc_multimachine/master/master.py:62 | counting a concatenation of token lists is merging their counts |
| Tables.TotalTally | wordcount_grpc_multimachine/worker/worker.py:24-25 | the counts of `Counter(tokens)` add up to the number of tokens |
| Tables.MergeEmpty | wordcount_grpc_multimachine/master/master.py:56-62 | updating with, or starting from, an empty Counter changes nothing |
| Tables.MergeCommutes | wordcount_grpc_multimachine/master/master.py:62 | `update` is commutative on the resulting table |
| Tables.MergeAssociates | wordcount_grpc_multimachine/master/master.py:62 | `update` is associative |
| Tables.MergeAllSnoc | wordcount_purepython_multiprocessing/wordcount.py:34-36 | one more `update` merges one more table into the running total |
| Tables.MergeAllPrefixStep | wordcount_purepython_multiprocessing/wordcount.py:35-36 | merging the first `k + 1` tables is merging the first `k`, then table `k` |
| Tables.MergeAllPointwise | wordcount_purepython_multiprocessing/wordcount.py:34-36 | the merged table holds a key iff some table does, with the sum of its counts |
| Tables.MergeAllAppend | wordcount_purepython_multiprocessing/wordcount.py:34-36 | merging a concatenation of table lists is merging the two merges |
| Tables.MergeAllReordered | wordcount_purepython_multithreading/wordcount.py:38-40 | any two orderings of the same tables merge to the same table |
| Counting.CountWords | wordcount_purepython_multiprocessing/wordcount.py:22-24 | keys are exactly the tokens of the lower-cased chunk, each counted by multiplicity, every count at least 1; an empty chunk gives an empty table (also `count_words_in_chunk` of the thread-pool variant) |
| Counting.Words | wordcount_purepython_multiprocessing/wordcount.py:23 | `re.findall(r"\w+", chunk.lower())`: the tokens of the lower-cased chunk |
| Counting.CountIsRunCount | wordcount_purepython_multiprocessing/wordcount.py:22-24 | the count of `w` is the number of maximal runs of word characters equal to `w` in the lower-cased chunk |
| Counting.CountKeysAreMaximalRuns | wordcount_purepython_multiprocessing/wordcount.py:23 | a word is a key iff it is a maximal run of word characters of the lower-cased chunk |
| Counting.CountTotal | wordcount_purepython_multiprocessing/wordcount.py:23-24 | the counts add up to the number of tokens |
| Counting.CountIgnoresCase | wordcount_purepython_multiprocessing/wordcount.py:23 | a chunk and its lower-cased form count the same |
| Counting.CountTheTheThe | wordcount_purepython_multiprocessing/wordcount.py:22-24 | "The the THE" counts as {"the": 3} |
| Counting.WordsAround | wordcount_purepython_multiprocessing/wordcount.py:23 | a character that stays non-word when lower-cased separates the tokens of the two sides |
| Counting.CountAcrossNewline | wordcount_purepython_multiprocessing/wordcount.py:22-24 | counting `a + "\n" + b` is merging the counts of `a` and `b` |
| Counting.WordsOfJoin | wordcount_purepython_multiprocessing/wordcount.py:14 | joining lines with "\n" neither creates nor loses a token |
| Counting.WordsOfLines | wordcount_purepython_multiprocessing/wordcount.py:9 | the tokens of a text are the tokens of its lines, in order |
| Counting.Partials | wordcount_purepython_multiprocessing/wordcount.py:32 | one partial count per chunk |
| Counting.MergePartials | wordcount_purepython_multiprocessing/wordcount.py:32-36 | merging the per-chunk counts is counting the tokens of all chunks together |
| Counting.MergedTotal | wordcount_purepython_multiprocessing/wordcount.py:32-36 | the merged counts add up to the number of tokens of all chunks |
| Chunker.ChunkSize | wordcount_purepython_multiprocessing/wordcount.py:10 | the stride is at least 1; with `L >= n` it is `L // n`, with `L <= n` it is 1 |
| Chunker.Fit | wordcount_grpc_multimachine/master/master.py:31-34 | exactly `n` elements: the first `n` of the list, then padding |
| Chunker.Chunks | wordcount_purepython_multiprocessing/wordcount.py:8-19 | exactly `n` chunks |
| Chunker.StrideGroups | wordcount_purepython_multiprocessing/wordcount.py:13-14 | the slices `lines[i:i + size]` for `i` in `range(0, len(lines), size)`, the last one cut at the end |
| Chunker.Kept | wordcount_purepython_multiprocessing/wordcount.py:10-19 | how many leading lines end up in a chunk: `min(n * size, L)` |
| Chunker.StrideGroupsCover | wordcount_purepython_multiprocessing/wordcount.py:13-14 | the strides hold every line once, in order |
| Chunker.StrideGroupsCount | wordcount_purepython_multiprocessing/wordcount.py:13 | stride `j` exists iff `j * size` is below the number of lines |
| Chunker.StrideGroupAt | wordcount_purepython_multiprocessing/wordcount.py:13-14 | stride `j` is `lines[j * size : j * size + size]`, cut at the end |
| Chunker.StrideGroupsPrefix | wordcount_purepython_multiprocessing/wordcount.py:13-19 | the first `m` strides hold the first `m * size` lines |
| Chunker.GroupAt | wordcount_purepython_multiprocessing/wordcount.py:13-19 | chunk `j` holds Python's clamped slice `lines[j * size : j * size + size]` |
| Chunker.ChunkAt | wordcount_purepython_multiprocessing/wordcount.py:13-19 | chunk `j` is `"\n".join` of that slice: the positional chunk layout |
| Chunker.KeptLines | wordcount_purepython_multiprocessing/wordcount.py:8-19 | the chunks hold exactly the first `Kept` lines, in order |
| Chunker.FewLines | wordcount_purepython_multiprocessing/wordcount.py:8-19 | with `L <= n`, each line is its own chunk, then `n - L` empty chunks, and no line is lost |
| Chunker.KeptWhenManyLines | wordcount_purepython_multiprocessing/wordcount.py:10-19 | with `L >= n`, the chunks keep `n * (L // n) = L - L % n` lines |
| Chunker.ManyLines | wordcount_purepython_multiprocessing/wordcount.py:10-19 | with `L >= n`, every chunk holds exactly `L // n` consecutive lines |
| Chunker.NoLineLost | wordcount_purepython_multiprocessing/wordcount.py:8-19 | with `L <= n` or `n` dividing `L`, every line is in exactly one chunk |
| Chunker.TrailingLinesLost | wordcount_purepython_multiprocessing/wordcount.py:8-19 | with `L > n` and a remainder, the last `L % n` lines are in no chunk |
| Chunker.ChunksFromStrides | wordcount_purepython_multiprocessing/wordcount.py:13-19 | the chunks are the joined strides, cut or padded to `n` |
| Chunker.PadThenCut | wordcount_purepython_multiprocessing/wordcount.py:16-19 | padding with "" up to `n` and slicing to `n` cuts or pads to exactly `n` |
| Chunker.JoinStrides | wordcount_purepython_multiprocessing/wordcount.py:13-14 | the loop appends the joined strides, in order |
| Chunker.PadWithBlanks | wordcount_purepython_multiprocessing/wordcount.py:16-17 | the loop appends "" until there are `n` chunks, and adds nothing when there are already `n` |
| Chunker.SplitTextIntoChunks | wordcount_purepython_multiprocessing/wordcount.py:8-19 | the split, pad and slice return `Chunks(splitlines(text), n)` (the same chunker in the thread-pool variant and the REST master) |
| Scheduling.CompletionOrderPermutes | wordcount_purepython_multithreading/wordcount.py:38 | taking the results in completion order yields the same multiset of results |
| Scheduling.IsCompletionOrder | wordcount_purepython_multithreading/wordcount.py:38 | the order `as_completed` yields the futures in: every dispatch index exactly once, and nothing else |
| Scheduling.Permute | wordcount_purepython_multithreading/wordcount.py:38 | the results taken in a given order: element `k` is the result of future `order[k]` |
| Scheduling.CompletionOrderCovers | wordcount_purepython_multithreading/wordcount.py:38 | every submitted future is yielded by `as_completed` |
| Scheduling.PermuteSameIndices | wordcount_purepython_multithreading/wordcount.py:38 | two index lists with the same elements pick the same multiset of results |
| Scheduling.CompletedAll | wordcount_rest/master/master.py:58-60 | when every future met in completion order succeeded, every future succeeded |
| Scheduling.MergeReordered | wordcount_purepython_multithreading/wordcount.py:38-40 | merging the results in completion order is merging them in submission order |
| Scheduling.MergeSuccessfulStep | wordcount_grpc_multimachine/master/master.py:60-64 | a successful reply is merged and a failed call contributes nothing |
| Scheduling.SkipFailures | wordcount_grpc_multimachine/master/master.py:60-64 | skipping a failed call is merging an empty Counter |
| Scheduling.MergeSuccessfulReordered | wordcount_grpc_multimachine/master/master.py:58-64 | merging the successful replies does not depend on the completion order |
| Worker.CountWords | wordcount_grpc_multimachine/worker/worker.py:20-28 | the reply's keys are the tokens of the lower-cased chunk with their multiplicities; an empty chunk gives an empty reply (the REST endpoint computes the same reply) |
| Worker.Call | wordcount_rest/master/master.py:40-45 | `call_worker` and the gRPC stub call: a reachable worker answers with the count of its chunk, otherwise the call fails naming the worker |
| Worker.Dispatch | wordcount_grpc_multimachine/master/master.py:51-54 | one outcome per chunk |
| Worker.DispatchOutcomes | wordcount_grpc_multimachine/master/master.py:51-54 | outcome `i` is worker `i`'s answer for chunk `i`: its count when reachable, a failure naming worker `i` otherwise (the same pairing through `zip` in the REST master) |
| Worker.DispatchAllSucceeded | wordcount_rest/master/master.py:53-56 | when every worker answers, the replies are the chunk counts, in chunk order |
| Worker.DispatchSucceeded | wordcount_grpc_multimachine/master/master.py:51-64 | the successful replies are the counts of the chunks whose worker answered |
| Worker.AllSurvive | wordcount_grpc_multimachine/master/master.py:51-64 | when every worker answers, every chunk is counted |
| Pipeline.WordsOfChunks | wordcount_purepython_multiprocessing/wordcount.py:28-32 | the tokens of all chunks are the tokens of the kept lines |
| Pipeline.MergedCountOfChunks | wordcount_purepython_multiprocessing/wordcount.py:28-36 | merging the chunk counts counts the words of the kept lines |
| Pipeline.MergedTotalOfChunks | wordcount_purepython_multiprocessing/wordcount.py:28-36 | the merged counts add up to the number of tokens of the kept lines |
| Pipeline.MergedCountIsTextCount | wordcount_purepython_multiprocessing/wordcount.py:28-36 | with `L <= n` or `n` dividing `L`, the merged count is the count of the whole text |
| Pipeline.ThreeLinesTwoChunks | wordcount_purepython_multiprocessing/wordcount.py:8-36 | three lines over two chunks give "one two" and "two three", and the third line is not counted |
| GrpcMaster.CutOrPad | wordcount_grpc_multimachine/master/master.py:31-34 | the if/elif cut-or-pad gives exactly `n` elements |
| GrpcMaster.SplitTextIntoChunks | wordcount_grpc_multimachine/master/master.py:22-36 | the if/elif variant returns the same chunks as the pad-then-slice variant |
| GrpcMaster.MergeSkippingFailures | wordcount_grpc_multimachine/master/master.py:56-64 | the `as_completed` loop merges the successful replies, whatever the completion order |
| GrpcMaster.CountWordsDistributed | wordcount_grpc_multimachine/master/master.py:39-69 | the total counts the words of the chunks whose worker answered; with every worker answering, it is the count of the kept lines |
| RestMaster.SplitTextIntoChunks | wordcount_rest/master/master.py:23-37 | a chunk count of zero or less gives `[text]`; otherwise the shared chunker |
| RestMaster.MergeAsCompleted | wordcount_rest/master/master.py:58-60 | all outcomes merged iff all succeeded; otherwise the first failure in completion order, with every earlier one successful |
| RestMaster.CountWordsDistributedRest | wordcount_rest/master/master.py:48-62 | a result iff every worker answers, then the count of the kept lines; otherwise the first unreachable worker in completion order |
| Multithreading.CountWordsSingleMachine | wordcount_purepython_multithreading/wordcount.py:28-45 | whatever the completion order, the merged count of all chunks, which is the count of the kept lines |
| Multiprocessing.CountWordsMultiprocessing | wordcount_purepython_multiprocessing/wordcount.py:27-41 | the in-order merge of the chunk counts, which is the count of the kept lines, with as many occurrences as those lines have tokens |

## Left out

- Networking is not modelled: gRPC channels and stubs, protobuf messages, HTTP requests, JSON, FastAPI and `raise_for_status`. A remote call is a function of the chunk and a `reachable` flag.
- The error text of a failed call and the `print` of the gRPC master's error branch are not modelled; only the failure and the worker's address are.
- Timing is not modelled: `time.perf_counter`, `elapsed` and throughput. The masters return the count only.
- `main`, file reading, the `WORKER_ADDRESSES` configuration (constants and environment variable), argument parsing, `serve` and printing are not modelled.
- Thread and process pools are not modelled as concurrency. A pool that maps in order (`pool.map`) is an in-order loop. `as_completed` is an arbitrary completion order given as a parameter.
- A chunk count of 0 or less is not modelled. Counts are `nat`, so a negative count cannot be expressed, and every master requires at least one worker. The distributed masters take the count from the length of the worker list, so there it can only be 0, and then the gRPC chunker divides by zero. The single-machine variants take `n_workers` as a parameter. With 0 their chunker divides by zero. With a negative count their chunker does not fail: the stride is `max(1, L // n) = 1` and the result is cut to `chunks[:n_chunks]`, but `Pool(n)` and `ThreadPoolExecutor(max_workers=n)` then refuse the count. Only the REST chunker handles `n <= 0` itself (`RestMaster.SplitTextIntoChunks`).
- Unicode is only partly modelled. `\w` and `lower` are exact for code points up to U+00FF. Characters above that are treated as non-word characters that lower-case to themselves.
- Worker.CountWords: counts are unbounded naturals. The width of the counts in the wire format is not part of this model.
- GrpcMaster.CountWordsDistributed: returns the counter without the elapsed time that the source returns with it.
- Multiprocessing.CountWordsMultiprocessing: returns the counts without the elapsed time.
- Multithreading.CountWordsSingleMachine: returns the counter without the elapsed time.
