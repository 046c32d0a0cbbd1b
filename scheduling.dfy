/**
 * Dispatch outcomes and completion order. The masters submit one future per chunk and fold
 * the results as the futures complete (`as_completed`); the order of completion is chosen by
 * the scheduler and the network, so it is a parameter here: a permutation of the dispatch
 * indices.
 */
module Scheduling {
  import opened Tables

  /** A worker's address, as configured in the master. */
  type Address = string

  /** What one dispatch yields: the worker's count table, or the failure of the call. */
  datatype Outcome = Success(counts: Table) | Failure(worker: Address)

  /** The result of a master that lets a worker failure propagate. */
  datatype Result<T> = Ok(value: T) | Err(failed: Address)

  function Indices(n: nat): (r: seq<nat>)
    ensures |r| == n && forall i :: 0 <= i < n ==> r[i] == i
  {
    seq(n, i => i)
  }

  /** `order` lists the dispatch indices in the order their futures complete: every index below
      `n` exactly once, and nothing else. */
  predicate IsCompletionOrder(order: seq<nat>, n: nat) {
    && (forall k :: 0 <= k < |order| ==> order[k] < n)
    && multiset(order) == multiset(Indices(n))
  }

  /** The elements of `s` taken in the order `order` gives. */
  function Permute<T>(s: seq<T>, order: seq<nat>): (r: seq<T>)
    requires forall k :: 0 <= k < |order| ==> order[k] < |s|
    ensures |r| == |order|
    ensures forall k :: 0 <= k < |order| ==> r[k] == s[order[k]]
  {
    seq(|order|, k requires 0 <= k < |order| => s[order[k]])
  }

  lemma PermuteAppend<T>(s: seq<T>, a: seq<nat>, b: seq<nat>)
    requires forall k :: 0 <= k < |a| ==> a[k] < |s|
    requires forall k :: 0 <= k < |b| ==> b[k] < |s|
    ensures Permute(s, a + b) == Permute(s, a) + Permute(s, b)
  {
  }

  /** The last index of `a` occurs in `b`; taking it out of both leaves the same elements. */
  lemma TakeOutLast(a: seq<nat>, b: seq<nat>) returns (j: nat)
    requires a != [] && multiset(a) == multiset(b)
    ensures j < |b| && b[j] == a[|a| - 1]
    ensures multiset(a[..|a| - 1]) == multiset(b[..j] + b[j + 1..])
  {
    assert a[|a| - 1] in multiset(b);
    j :| 0 <= j < |b| && b[j] == a[|a| - 1];
    RemoveMatching(a, b, j);
  }

  /** Indices below `bound` stay below it when one of them is taken out. */
  lemma TakeOutInBounds(b: seq<nat>, j: nat, bound: nat)
    requires j < |b| && forall k :: 0 <= k < |b| ==> b[k] < bound
    ensures var rest := b[..j] + b[j + 1..];
      forall k :: 0 <= k < |rest| ==> rest[k] < bound
  {
    var rest := b[..j] + b[j + 1..];
    forall k | 0 <= k < |rest|
      ensures rest[k] < bound
    {
      if k < j {
        assert rest[k] == b[k];
      } else {
        assert rest[k] == b[k + 1];
      }
    }
  }

  /** Two index lists with the same elements pick the same elements of `s`. */
  lemma {:induction false} PermuteSameIndices<T>(s: seq<T>, a: seq<nat>, b: seq<nat>)
    requires multiset(a) == multiset(b)
    requires forall k :: 0 <= k < |a| ==> a[k] < |s|
    requires forall k :: 0 <= k < |b| ==> b[k] < |s|
    ensures multiset(Permute(s, a)) == multiset(Permute(s, b))
    decreases |a|
  {
    if a == [] {
      assert |multiset(b)| == 0;
    } else {
      var j := TakeOutLast(a, b);
      var a', x, before, after := a[..|a| - 1], a[|a| - 1], b[..j], b[j + 1..];
      TakeOutInBounds(b, j, |s|);
      PermuteSameIndices(s, a', before + after);
      assert a == a' + [x];
      PermuteAppend(s, a', [x]);
      assert Permute(s, [x]) == [s[x]];
      assert b == before + [x] + after;
      PermuteTakeOut(s, before, x, after);
    }
  }

  lemma PermuteTakeOut<T>(s: seq<T>, before: seq<nat>, x: nat, after: seq<nat>)
    requires x < |s|
    requires forall k :: 0 <= k < |before| ==> before[k] < |s|
    requires forall k :: 0 <= k < |after| ==> after[k] < |s|
    ensures multiset(Permute(s, before + [x] + after)) ==
      multiset(Permute(s, before + after)) + multiset{s[x]}
  {
    PermuteAppend(s, before, after);
    PermuteAppend(s, before, [x]);
    PermuteAppend(s, before + [x], after);
  }

  /** Taking every element of `s` in completion order gives back the same elements. */
  lemma CompletionOrderPermutes<T>(s: seq<T>, order: seq<nat>)
    requires IsCompletionOrder(order, |s|)
    ensures multiset(Permute(s, order)) == multiset(s)
  {
    PermuteSameIndices(s, order, Indices(|s|));
    assert Permute(s, Indices(|s|)) == s;
  }

  lemma CompletionOrderLength(order: seq<nat>, n: nat)
    requires IsCompletionOrder(order, n)
    ensures |order| == n
  {
    assert |multiset(order)| == |multiset(Indices(n))|;
  }

  /** Completing one more future: the order so far, then the index completed. */
  lemma PermuteStep<T>(s: seq<T>, order: seq<nat>, k: nat)
    requires k < |order| && forall i :: 0 <= i < |order| ==> order[i] < |s|
    ensures Permute(s, order[..k + 1]) == Permute(s, order[..k]) + [s[order[k]]]
  {
    assert order[..k + 1] == order[..k] + [order[k]];
    PermuteAppend(s, order[..k], [order[k]]);
  }

  /** Every dispatch index appears in the completion order. */
  lemma CompletionOrderCovers(order: seq<nat>, n: nat, i: nat)
    requires IsCompletionOrder(order, n) && i < n
    ensures |order| == n
    ensures exists k :: 0 <= k < |order| && order[k] == i
  {
    assert |multiset(order)| == |multiset(Indices(n))|;
    assert Indices(n)[i] == i;
    assert i in multiset(order);
  }

  /** When every outcome met in a completion order succeeded, every outcome succeeded. */
  lemma CompletedAll(outcomes: seq<Outcome>, order: seq<nat>)
    requires IsCompletionOrder(order, |outcomes|)
    requires forall k :: 0 <= k < |order| ==> outcomes[order[k]].Success?
    ensures forall i :: 0 <= i < |outcomes| ==> outcomes[i].Success?
  {
    forall i | 0 <= i < |outcomes|
      ensures outcomes[i].Success?
    {
      CompletionOrderCovers(order, |outcomes|, i);
    }
  }

  /** The table an outcome contributes to a merge that skips failures. */
  function TableOf(o: Outcome): Table {
    match o
    case Success(t) => t
    case Failure(_) => map[]
  }

  /** The tables of the successful outcomes, in the given order. */
  function SuccessfulCounts(outcomes: seq<Outcome>): seq<Table> {
    if outcomes == [] then []
    else
      var last := outcomes[|outcomes| - 1];
      SuccessfulCounts(outcomes[..|outcomes| - 1]) + (if last.Success? then [last.counts] else [])
  }

  /** One table per outcome, an empty one for a failure. */
  function TablesOf(outcomes: seq<Outcome>): (tables: seq<Table>)
    ensures |tables| == |outcomes|
  {
    seq(|outcomes|, i requires 0 <= i < |outcomes| => TableOf(outcomes[i]))
  }

  /** Merging one more outcome: its table if it succeeded, nothing if it failed. */
  lemma MergeSuccessfulStep(outcomes: seq<Outcome>, o: Outcome)
    ensures MergeAll(SuccessfulCounts(outcomes + [o])) ==
      if o.Success? then Merge(MergeAll(SuccessfulCounts(outcomes)), o.counts)
      else MergeAll(SuccessfulCounts(outcomes))
  {
    assert (outcomes + [o])[..|outcomes|] == outcomes;
    assert SuccessfulCounts(outcomes + [o]) ==
      SuccessfulCounts(outcomes) + (if o.Success? then [o.counts] else []);
    if o.Success? {
      MergeAllSnoc(SuccessfulCounts(outcomes), o.counts);
    } else {
      assert SuccessfulCounts(outcomes) + [] == SuccessfulCounts(outcomes);
    }
  }

  /** Skipping a failure is merging an empty table. */
  lemma {:induction false} SkipFailures(outcomes: seq<Outcome>)
    ensures MergeAll(SuccessfulCounts(outcomes)) == MergeAll(TablesOf(outcomes))
  {
    if outcomes != [] {
      var prefix, last := outcomes[..|outcomes| - 1], outcomes[|outcomes| - 1];
      SkipFailures(prefix);
      assert TablesOf(outcomes) == TablesOf(prefix) + [TableOf(last)];
      assert TablesOf(outcomes)[..|outcomes| - 1] == TablesOf(prefix);
      if last.Failure? {
        assert SuccessfulCounts(outcomes) == SuccessfulCounts(prefix);
        MergeEmpty(MergeAll(TablesOf(prefix)));
      }
    }
  }

  /** Completion order commutes with taking each outcome's table. */
  lemma TablesOfPermute(outcomes: seq<Outcome>, order: seq<nat>)
    requires forall k :: 0 <= k < |order| ==> order[k] < |outcomes|
    ensures TablesOf(Permute(outcomes, order)) == Permute(TablesOf(outcomes), order)
  {
  }

  /** Merging the successful outcomes gives the same table whatever the completion order. */
  lemma MergeSuccessfulReordered(outcomes: seq<Outcome>, order: seq<nat>)
    requires IsCompletionOrder(order, |outcomes|)
    ensures MergeAll(SuccessfulCounts(Permute(outcomes, order))) == MergeAll(SuccessfulCounts(outcomes))
  {
    SkipFailures(outcomes);
    SkipFailures(Permute(outcomes, order));
    TablesOfPermute(outcomes, order);
    MergeReordered(TablesOf(outcomes), order);
  }

  /** Merging tables gives the same table whatever the completion order. */
  lemma MergeReordered(tables: seq<Table>, order: seq<nat>)
    requires IsCompletionOrder(order, |tables|)
    ensures MergeAll(Permute(tables, order)) == MergeAll(tables)
  {
    CompletionOrderPermutes(tables, order);
    MergeAllReordered(Permute(tables, order), tables);
  }
}
