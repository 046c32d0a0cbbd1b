/**
 * Word-count tables: Python's `collections.Counter` restricted to what the word count uses,
 * building a table from a list of tokens and `Counter.update` with another table.
 */
module Tables {

  /** A table from token to number of occurrences. */
  type Table = map<string, nat>

  /** `counter[w]`: a Counter answers 0 for a missing key. */
  function Get(t: Table, w: string): nat {
    if w in t then t[w] else 0
  }

  /** Two tables are equal when they have the same keys and agree on every key. */
  lemma TableExtensionality(a: Table, b: Table)
    requires a.Keys == b.Keys
    requires forall w :: Get(a, w) == Get(b, w)
    ensures a == b
  {
    assert forall w :: w in a ==> a[w] == Get(a, w) == Get(b, w) == b[w];
  }

  /** `Counter(tokens)`: counts each token, scanning the list from left to right. */
  function Tally(tokens: seq<string>): (t: Table)
    ensures forall w :: w in t <==> w in tokens
    ensures forall w :: Get(t, w) == multiset(tokens)[w]
  {
    if tokens == [] then map[]
    else
      var prefix, last := tokens[..|tokens| - 1], tokens[|tokens| - 1];
      assert tokens == prefix + [last];
      var t := Tally(prefix);
      t[last := Get(t, last) + 1]
  }

  /** `a.update(b)` for a Counter `a` and a mapping `b`: every key of either table, with the
      two counts added. */
  function Merge(a: Table, b: Table): Table {
    map w | w in a.Keys + b.Keys :: Get(a, w) + Get(b, w)
  }

  /** Counting a concatenation is merging the two counts. */
  lemma TallyAppend(xs: seq<string>, ys: seq<string>)
    ensures Tally(xs + ys) == Merge(Tally(xs), Tally(ys))
  {
    assert multiset(xs + ys) == multiset(xs) + multiset(ys);
    TableExtensionality(Tally(xs + ys), Merge(Tally(xs), Tally(ys)));
  }

  lemma MergeEmpty(t: Table)
    ensures Merge(t, map[]) == t && Merge(map[], t) == t
  {
  }

  lemma MergeCommutes(a: Table, b: Table)
    ensures Merge(a, b) == Merge(b, a)
  {
  }

  lemma MergeAssociates(a: Table, b: Table, c: Table)
    ensures Merge(Merge(a, b), c) == Merge(a, Merge(b, c))
  {
    TableExtensionality(Merge(Merge(a, b), c), Merge(a, Merge(b, c)));
  }

  /** Starting from an empty Counter and calling `update` with each table in turn. */
  function MergeAll(ts: seq<Table>): Table {
    if ts == [] then map[] else Merge(MergeAll(ts[..|ts| - 1]), ts[|ts| - 1])
  }

  /** One more `update` merges one more table. */
  lemma MergeAllSnoc(ts: seq<Table>, t: Table)
    ensures MergeAll(ts + [t]) == Merge(MergeAll(ts), t)
  {
    assert (ts + [t])[..|ts|] == ts;
  }

  /** Merging the tables one by one in list order: the first `k + 1` are the first `k` and
      then table `k`. */
  lemma MergeAllPrefixStep(ts: seq<Table>, k: nat)
    requires k < |ts|
    ensures MergeAll(ts[..k + 1]) == Merge(MergeAll(ts[..k]), ts[k])
  {
    assert ts[..k + 1] == ts[..k] + [ts[k]];
    MergeAllSnoc(ts[..k], ts[k]);
  }

  /** The sum of the counts of `w` over all tables of `ts`. */
  function SumAt(ts: seq<Table>, w: string): nat {
    if ts == [] then 0 else SumAt(ts[..|ts| - 1], w) + Get(ts[|ts| - 1], w)
  }

  /** The merged table has the keys of all tables, and for each key the sum of its counts. */
  lemma {:induction false} MergeAllPointwise(ts: seq<Table>, w: string)
    ensures Get(MergeAll(ts), w) == SumAt(ts, w)
    ensures w in MergeAll(ts) <==> exists i :: 0 <= i < |ts| && w in ts[i]
  {
    if ts != [] {
      var prefix := ts[..|ts| - 1];
      MergeAllPointwise(prefix, w);
      if w in MergeAll(prefix) {
        var i :| 0 <= i < |prefix| && w in prefix[i];
        assert ts[i] == prefix[i];
      }
      if exists i :: 0 <= i < |ts| && w in ts[i] {
        var i :| 0 <= i < |ts| && w in ts[i];
        if i < |prefix| {
          assert w in prefix[i];
        }
      }
    }
  }

  /** Merging a concatenation is merging the two merges. */
  lemma {:induction false} MergeAllAppend(xs: seq<Table>, ys: seq<Table>)
    ensures MergeAll(xs + ys) == Merge(MergeAll(xs), MergeAll(ys))
    decreases |ys|
  {
    if ys == [] {
      assert xs + ys == xs;
      MergeEmpty(MergeAll(xs));
    } else {
      var ys', y := ys[..|ys| - 1], ys[|ys| - 1];
      assert (xs + ys)[..|xs + ys| - 1] == xs + ys';
      MergeAllAppend(xs, ys');
      MergeAssociates(MergeAll(xs), MergeAll(ys'), y);
    }
  }

  /** Taking the last element out of one of two equal multisets, and a matching element out
      of the other, leaves equal multisets. */
  lemma RemoveMatching<T>(xs: seq<T>, ys: seq<T>, j: nat)
    requires xs != [] && multiset(xs) == multiset(ys)
    requires j < |ys| && ys[j] == xs[|xs| - 1]
    ensures multiset(xs[..|xs| - 1]) == multiset(ys[..j] + ys[j + 1..])
  {
    var x := xs[|xs| - 1];
    assert xs == xs[..|xs| - 1] + [x];
    assert ys == ys[..j] + [x] + ys[j + 1..];
    var a, b := multiset(xs[..|xs| - 1]), multiset(ys[..j] + ys[j + 1..]);
    assert a + multiset{x} == b + multiset{x};
    forall v ensures a[v] == b[v] {
      assert (a + multiset{x})[v] == (b + multiset{x})[v];
    }
  }

  /** Moving one table to the end of the list does not change the merge. */
  lemma MergeAllMoveToEnd(before: seq<Table>, x: Table, after: seq<Table>)
    ensures MergeAll(before + [x] + after) == Merge(MergeAll(before + after), x)
  {
    calc {
      MergeAll(before + [x] + after);
      { MergeAllAppend(before + [x], after); }
      Merge(MergeAll(before + [x]), MergeAll(after));
      { assert (before + [x])[..|before|] == before; }
      Merge(Merge(MergeAll(before), x), MergeAll(after));
      { MergeAssociates(MergeAll(before), x, MergeAll(after));
        MergeCommutes(x, MergeAll(after));
        MergeAssociates(MergeAll(before), MergeAll(after), x); }
      Merge(Merge(MergeAll(before), MergeAll(after)), x);
      { MergeAllAppend(before, after); }
      Merge(MergeAll(before + after), x);
    }
  }

  /** The merged table does not depend on the order in which the tables are merged. */
  lemma {:induction false} MergeAllReordered(xs: seq<Table>, ys: seq<Table>)
    requires multiset(xs) == multiset(ys)
    ensures MergeAll(xs) == MergeAll(ys)
    decreases |xs|
  {
    if xs == [] {
      assert |multiset(ys)| == 0;
    } else {
      var xs', x := xs[..|xs| - 1], xs[|xs| - 1];
      assert x in multiset(ys);
      var j :| 0 <= j < |ys| && ys[j] == x;
      RemoveMatching(xs, ys, j);
      MergeAllReordered(xs', ys[..j] + ys[j + 1..]);
      assert ys == ys[..j] + [x] + ys[j + 1..];
      MergeAllMoveToEnd(ys[..j], x, ys[j + 1..]);
    }
  }

  /** The sum of all counts of a table. */
  ghost function Total(t: Table): nat
    decreases |t|
  {
    if t == map[] then 0
    else
      var w :| w in t;
      assert |(t - {w}).Keys| < |t.Keys|;
      t[w] + Total(t - {w})
  }

  /** `Total` may take out any key first. */
  lemma {:induction false} TotalWithout(t: Table, w: string)
    requires w in t
    ensures Total(t) == t[w] + Total(t - {w})
    decreases |t|
  {
    var v :| v in t && Total(t) == t[v] + Total(t - {v});
    if v != w {
      assert |(t - {v}).Keys| < |t.Keys|;
      TotalWithout(t - {v}, w);
      assert |(t - {w}).Keys| < |t.Keys|;
      TotalWithout(t - {w}, v);
      assert (t - {v}) - {w} == (t - {w}) - {v};
    }
  }

  /** Counting one more occurrence of `w` adds one to the total. */
  lemma TotalBump(t: Table, w: string)
    ensures Total(t[w := Get(t, w) + 1]) == Total(t) + 1
  {
    var t' := t[w := Get(t, w) + 1];
    TotalWithout(t', w);
    if w in t {
      TotalWithout(t, w);
      assert t' - {w} == t - {w};
    } else {
      assert t' - {w} == t;
    }
  }

  /** A Counter built from `n` tokens holds `n` occurrences in all. */
  lemma {:induction false} TotalTally(tokens: seq<string>)
    ensures Total(Tally(tokens)) == |tokens|
  {
    if tokens != [] {
      var prefix, last := tokens[..|tokens| - 1], tokens[|tokens| - 1];
      var t := Tally(prefix);
      assert Tally(tokens) == t[last := Get(t, last) + 1];
      TotalTally(prefix);
      TotalBump(t, last);
    }
  }
}
