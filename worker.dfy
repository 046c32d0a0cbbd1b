/**
 * The worker service: one request carries a text chunk, the reply carries the chunk's word
 * counts. The gRPC servicer (`WordCountServicer.CountWords`) and the REST endpoint
 * (`POST /count_words`) exchange messages of the same shape and compute the same reply.
 * A worker keeps no state between requests, so it is a function of the request.
 *
 * Whether the remote call reaches the worker and comes back is decided by the network, so
 * it is a parameter, `reachable`.
 */
module Worker {
  import opened Tables
  import Counting
  import opened Scheduling

  datatype WordCountRequest = WordCountRequest(textChunk: string)

  datatype WordCountReply = WordCountReply(counts: Table)

  /** The reply maps each token of the lower-cased chunk to its number of occurrences, and
      holds no other key. */
  function CountWords(request: WordCountRequest): (reply: WordCountReply)
    ensures forall w :: w in reply.counts <==> w in Counting.Words(request.textChunk)
    ensures forall w :: Get(reply.counts, w) == multiset(Counting.Words(request.textChunk))[w]
    ensures request.textChunk == "" ==> reply.counts == map[]
  {
    WordCountReply(Counting.CountWords(request.textChunk))
  }

  /** Sending one chunk to the worker at `address`: the reply's counts when the call goes
      through, a failure naming the worker otherwise. */
  function Call(address: Address, chunk: string, reachable: bool): (outcome: Outcome)
    ensures outcome.Success? <==> reachable
    ensures outcome.Success? ==> outcome.counts == Counting.CountWords(chunk)
    ensures outcome.Failure? ==> outcome.worker == address
  {
    if reachable then Success(CountWords(WordCountRequest(chunk)).counts) else Failure(address)
  }

  /** One call per position of `zip(worker_addresses, chunks)`: chunk `i` goes to worker `i`. */
  function Dispatch(addresses: seq<Address>, chunks: seq<string>, reachable: seq<bool>): (outcomes: seq<Outcome>)
    requires |addresses| == |chunks| == |reachable|
    ensures |outcomes| == |chunks|
  {
    seq(|chunks|, i requires 0 <= i < |chunks| => Call(addresses[i], chunks[i], reachable[i]))
  }

  /** Outcome `i` of a dispatch is the answer of worker `i` to chunk `i`: the count of that
      chunk when the worker is reachable, a failure naming that worker otherwise. */
  lemma DispatchOutcomes(addresses: seq<Address>, chunks: seq<string>, reachable: seq<bool>)
    requires |addresses| == |chunks| == |reachable|
    ensures var outcomes := Dispatch(addresses, chunks, reachable);
      forall i :: 0 <= i < |chunks| ==>
        && (outcomes[i].Success? <==> reachable[i])
        && (outcomes[i].Success? ==> outcomes[i].counts == Counting.Partials(chunks)[i])
        && (outcomes[i].Failure? ==> outcomes[i].worker == addresses[i])
  {
    var outcomes := Dispatch(addresses, chunks, reachable);
    assert forall i :: 0 <= i < |chunks| ==> outcomes[i] == Call(addresses[i], chunks[i], reachable[i]);
  }

  /** When every worker answers, the tables of a dispatch are the counts of the chunks, in
      chunk order. */
  lemma DispatchAllSucceeded(addresses: seq<Address>, chunks: seq<string>, reachable: seq<bool>)
    requires |addresses| == |chunks| == |reachable|
    requires forall i :: 0 <= i < |reachable| ==> reachable[i]
    ensures TablesOf(Dispatch(addresses, chunks, reachable)) == Counting.Partials(chunks)
  {
    DispatchOutcomes(addresses, chunks, reachable);
    var outcomes := Dispatch(addresses, chunks, reachable);
    assert forall i :: 0 <= i < |chunks| ==> TablesOf(outcomes)[i] == outcomes[i].counts;
  }

  /** The chunks whose worker answered, in dispatch order. */
  function Survivors(chunks: seq<string>, reachable: seq<bool>): seq<string>
    requires |chunks| == |reachable|
  {
    if chunks == [] then []
    else
      var n := |chunks| - 1;
      Survivors(chunks[..n], reachable[..n]) + (if reachable[n] then [chunks[n]] else [])
  }

  /** When every worker answers, every chunk survives. */
  lemma {:induction false} AllSurvive(chunks: seq<string>, reachable: seq<bool>)
    requires |chunks| == |reachable|
    requires forall i :: 0 <= i < |reachable| ==> reachable[i]
    ensures Survivors(chunks, reachable) == chunks
  {
    if chunks != [] {
      var n := |chunks| - 1;
      AllSurvive(chunks[..n], reachable[..n]);
    }
  }

  /** The successful outcomes of a dispatch are the counts of the surviving chunks. */
  lemma {:induction false} DispatchSucceeded(addresses: seq<Address>, chunks: seq<string>, reachable: seq<bool>)
    requires |addresses| == |chunks| == |reachable|
    ensures SuccessfulCounts(Dispatch(addresses, chunks, reachable)) ==
      Counting.Partials(Survivors(chunks, reachable))
  {
    if chunks != [] {
      var n := |chunks| - 1;
      var outcomes := Dispatch(addresses, chunks, reachable);
      assert outcomes[..n] == Dispatch(addresses[..n], chunks[..n], reachable[..n]);
      DispatchSucceeded(addresses[..n], chunks[..n], reachable[..n]);
      var before := Survivors(chunks[..n], reachable[..n]);
      if reachable[n] {
        assert Counting.Partials(before + [chunks[n]]) == Counting.Partials(before) + [Counting.CountWords(chunks[n])];
      } else {
        assert Survivors(chunks, reachable) == before;
      }
    }
  }
}
