/**
 * `split_text_into_chunks`: the text is cut into lines, the lines are walked in strides of
 * `chunk_size = max(1, len(lines) // n_chunks)`, each stride is joined with "\n", and the
 * list of strides is padded with "" or cut so that there are exactly `n_chunks` chunks.
 *
 * When there are more lines than chunks and `n_chunks` does not divide their number, the
 * strides past the first `n_chunks` are cut off: the last `len(lines) % n_chunks` lines are in
 * no chunk.
 */
module Chunker {
  import opened Text

  function Min(a: int, b: int): int {
    if a <= b then a else b
  }

  lemma MulStep(m: nat, size: nat)
    requires m >= 1
    ensures m * size == (m - 1) * size + size
  {
  }

  lemma MulMonotone(a: nat, b: nat, c: nat)
    requires a <= b
    ensures a * c <= b * c
  {
  }

  /** The concatenation of a list of lists. */
  function Flatten<T>(xss: seq<seq<T>>): seq<T> {
    if xss == [] then [] else xss[0] + Flatten(xss[1..])
  }

  lemma {:induction false} FlattenAppend<T>(xss: seq<seq<T>>, yss: seq<seq<T>>)
    ensures Flatten(xss + yss) == Flatten(xss) + Flatten(yss)
  {
    if xss == [] {
      assert xss + yss == yss;
    } else {
      assert (xss + yss)[1..] == xss[1..] + yss;
      FlattenAppend(xss[1..], yss);
    }
  }

  lemma {:induction false} FlattenEmpties<T>(k: nat)
    ensures Flatten(seq<seq<T>>(k, _ => [])) == []
  {
    if k > 0 {
      assert seq<seq<T>>(k, _ => [])[1..] == seq<seq<T>>(k - 1, _ => []);
      FlattenEmpties<T>(k - 1);
    }
  }

  /** `[""] * k`: `k` empty chunks. */
  function Blanks(k: nat): (r: seq<string>)
    ensures |r| == k && forall j :: 0 <= j < k ==> r[j] == ""
  {
    seq(k, _ => "")
  }

  /** `chunk_size = max(1, len(lines) // n_chunks)`: at least one line per stride, and when
      there are at least as many lines as chunks, `n_chunks` strides fit in the lines with
      fewer than `n_chunks` lines left over. */
  function ChunkSize(lineCount: nat, n: nat): (size: nat)
    requires n >= 1
    ensures size >= 1
    ensures lineCount >= n ==> size * n <= lineCount < size * n + n
    ensures lineCount <= n ==> size == 1
  {
    if lineCount / n > 1 then lineCount / n else 1
  }

  /** `[lines[i:i + size] for i in range(0, len(lines), size)]`. */
  function StrideGroups(lines: seq<string>, size: nat): seq<seq<string>>
    requires size >= 1
    decreases |lines|
  {
    if lines == [] then []
    else if |lines| <= size then [lines]
    else [lines[..size]] + StrideGroups(lines[size..], size)
  }

  /** The list cut to its first `n` elements, or padded with `pad` up to `n` elements. */
  function Fit<T>(s: seq<T>, n: nat, pad: T): (r: seq<T>)
    ensures |r| == n
    ensures forall j :: 0 <= j < n ==> r[j] == if j < |s| then s[j] else pad
  {
    if |s| >= n then s[..n] else s + seq(n - |s|, _ => pad)
  }

  /** Each group of lines joined with "\n". */
  function JoinEach(groups: seq<seq<string>>): (r: seq<string>)
    ensures |r| == |groups|
  {
    seq(|groups|, j requires 0 <= j < |groups| => Join(groups[j]))
  }

  /** The lines that go into each of the `n` chunks; a padding chunk has no line. */
  function Groups(lines: seq<string>, n: nat): (groups: seq<seq<string>>)
    requires n >= 1
    ensures |groups| == n
  {
    Fit(StrideGroups(lines, ChunkSize(|lines|, n)), n, [])
  }

  /** The chunks `split_text_into_chunks` returns for a text with these lines: exactly `n`
      strings. */
  function Chunks(lines: seq<string>, n: nat): (chunks: seq<string>)
    requires n >= 1
    ensures |chunks| == n
  {
    JoinEach(Groups(lines, n))
  }

  /** How many leading lines end up in some chunk. */
  function Kept(lineCount: nat, n: nat): nat
    requires n >= 1
  {
    Min(n * ChunkSize(lineCount, n), lineCount)
  }

  /** The first stride, then the strides of the rest. */
  lemma StrideGroupsStep(lines: seq<string>, size: nat)
    requires size >= 1 && lines != []
    ensures StrideGroups(lines, size) ==
      [lines[..Min(size, |lines|)]] + StrideGroups(lines[Min(size, |lines|)..], size)
  {
    if |lines| <= size {
      assert lines[..|lines|] == lines;
    }
  }

  /** The strides cover the lines in order, each line once. */
  lemma {:induction false} StrideGroupsCover(lines: seq<string>, size: nat)
    requires size >= 1
    ensures Flatten(StrideGroups(lines, size)) == lines
    decreases |lines|
  {
    if lines != [] {
      StrideGroupsStep(lines, size);
      StrideGroupsCover(lines[Min(size, |lines|)..], size);
      assert lines == lines[..Min(size, |lines|)] + lines[Min(size, |lines|)..];
    }
  }

  /** There is a stride number `j` exactly when the stride would start inside the lines. */
  lemma {:induction false} StrideGroupsCount(lines: seq<string>, size: nat, j: nat)
    requires size >= 1
    ensures j < |StrideGroups(lines, size)| <==> j * size < |lines|
    decreases |lines|
  {
    if j > 0 {
      assert j * size == (j - 1) * size + size;
      if |lines| > size {
        StrideGroupsCount(lines[size..], size, j - 1);
      }
    }
  }

  /** Stride `j` holds the lines `j * size` up to `j * size + size`, or up to the end. */
  lemma {:induction false} StrideGroupAt(lines: seq<string>, size: nat, j: nat)
    requires size >= 1 && j * size < |lines|
    ensures j < |StrideGroups(lines, size)|
    ensures StrideGroups(lines, size)[j] == lines[j * size..Min(j * size + size, |lines|)]
    decreases j, 1
  {
    if j == 0 {
      StrideGroupsStep(lines, size);
    } else {
      StrideGroupAtStep(lines, size, j);
    }
  }

  lemma {:induction false} StrideGroupAtStep(lines: seq<string>, size: nat, j: nat)
    requires size >= 1 && j >= 1 && j * size < |lines|
    ensures j < |StrideGroups(lines, size)|
    ensures StrideGroups(lines, size)[j] == lines[j * size..Min(j * size + size, |lines|)]
    decreases j, 0
  {
    StrideGroupsCount(lines, size, j);
    MulStep(j, size);
    StrideGroupAt(lines[size..], size, j - 1);
    StrideGroupAtCore(lines, size, j, (j - 1) * size);
  }

  /** A stride of the lines after the first stride is a stride of the lines. */
  lemma StrideIndexShift(lines: seq<string>, size: nat, j: nat)
    requires size >= 1 && j >= 1 && |lines| > size
    requires j - 1 < |StrideGroups(lines[size..], size)|
    ensures StrideGroups(lines, size)[j] == StrideGroups(lines[size..], size)[j - 1]
  {
    var gs' := StrideGroups(lines[size..], size);
    assert StrideGroups(lines, size) == [lines[..size]] + gs';
    assert ([lines[..size]] + gs')[j] == gs'[j - 1];
  }

  /** A clamped slice of the suffix `s[d..]` is the shifted clamped slice of `s`. */
  lemma ClampedSliceOfSuffix<T>(s: seq<T>, d: nat, a: nat, w: nat)
    requires d <= |s| && a <= |s| - d
    ensures s[d..][a..Min(a + w, |s| - d)] == s[a + d..Min(a + d + w, |s|)]
  {
  }

  /** The step of `StrideGroupAt` with the product `(j - 1) * size` named `before`. */
  lemma StrideGroupAtCore(lines: seq<string>, size: nat, j: nat, before: nat)
    requires size >= 1 && j >= 1 && before + size < |lines|
    requires var gs' := StrideGroups(lines[size..], size);
      j - 1 < |gs'| && gs'[j - 1] == lines[size..][before..Min(before + size, |lines| - size)]
    ensures StrideGroups(lines, size)[j] == lines[before + size..Min(before + size + size, |lines|)]
  {
    StrideIndexShift(lines, size, j);
    ClampedSliceOfSuffix(lines, size, before, size);
  }

  /** The first `m` strides hold the first `m * size` lines (all of them when there are fewer). */
  lemma {:induction false} StrideGroupsPrefix(lines: seq<string>, size: nat, m: nat)
    requires size >= 1
    ensures var gs := StrideGroups(lines, size);
      Flatten(gs[..Min(m, |gs|)]) == lines[..Min(m * size, |lines|)]
    decreases |lines|
  {
    var gs := StrideGroups(lines, size);
    if lines == [] || m == 0 {
      assert gs[..Min(m, |gs|)] == [];
    } else {
      MulStep(m, size);
      var before := (m - 1) * size;
      if |lines| <= size {
        assert Min(m * size, |lines|) == |lines|;
        assert gs[..Min(m, |gs|)] == [lines];
        assert Flatten([lines]) == lines;
      } else {
        StrideGroupsPrefixStep(lines, size, m);
      }
    }
  }

  lemma {:induction false} StrideGroupsPrefixStep(lines: seq<string>, size: nat, m: nat)
    requires size >= 1 && m >= 1 && |lines| > size
    ensures var gs := StrideGroups(lines, size);
      Flatten(gs[..Min(m, |gs|)]) == lines[..Min(m * size, |lines|)]
    decreases |lines|, 0
  {
    var rest := lines[size..];
    StrideGroupsPrefix(rest, size, m - 1);
    MulStep(m, size);
    StrideGroupsPrefixCore(lines, size, m, (m - 1) * size);
  }

  lemma FlattenCons<T>(xs: seq<T>, yss: seq<seq<T>>)
    ensures Flatten([xs] + yss) == xs + Flatten(yss)
  {
    assert ([xs] + yss)[1..] == yss;
  }

  /** The first `m` strides: the first stride, then `m - 1` strides of the rest. */
  lemma StridePrefixCons(lines: seq<string>, size: nat, m: nat)
    requires size >= 1 && m >= 1 && |lines| > size
    ensures var gs, gs' := StrideGroups(lines, size), StrideGroups(lines[size..], size);
      gs[..Min(m, |gs|)] == [lines[..size]] + gs'[..Min(m - 1, |gs'|)]
  {
  }

  lemma SlicePrefix<T>(s: seq<T>, a: nat, k: nat)
    requires a + k <= |s|
    ensures s[..a + k] == s[..a] + s[a..][..k]
  {
  }

  /** The step of `StrideGroupsPrefix` with the product `(m - 1) * size` named `before`. */
  lemma StrideGroupsPrefixCore(lines: seq<string>, size: nat, m: nat, before: nat)
    requires size >= 1 && m >= 1 && |lines| > size
    requires var gs' := StrideGroups(lines[size..], size);
      Flatten(gs'[..Min(m - 1, |gs'|)]) == lines[size..][..Min(before, |lines| - size)]
    ensures var gs := StrideGroups(lines, size);
      Flatten(gs[..Min(m, |gs|)]) == lines[..Min(before + size, |lines|)]
  {
    var gs, gs' := StrideGroups(lines, size), StrideGroups(lines[size..], size);
    var first, others := lines[..size], gs'[..Min(m - 1, |gs'|)];
    var k := Min(before, |lines| - size);
    StridePrefixCons(lines, size, m);
    FlattenCons(first, others);
    SlicePrefix(lines, size, k);
    calc {
      Flatten(gs[..Min(m, |gs|)]);
      Flatten([first] + others);
      first + Flatten(others);
      first + lines[size..][..k];
      lines[..size + k];
    }
  }

  /** Padding with empty chunks adds no line. */
  lemma FlattenFit(gs: seq<seq<string>>, n: nat)
    ensures Flatten(Fit(gs, n, [])) == Flatten(gs[..Min(n, |gs|)])
  {
    if |gs| < n {
      FlattenAppend(gs, seq(n - |gs|, _ => []));
      FlattenEmpties<string>(n - |gs|);
      assert gs[..|gs|] == gs;
    }
  }

  /** Chunk `j` is made of the lines `j * size` up to `j * size + size`, cut at the end of the
      text: a chunk that starts past the end has no line and is the empty string. */
  lemma GroupAt(lines: seq<string>, n: nat, j: nat)
    requires n >= 1 && j < n
    ensures var size, L := ChunkSize(|lines|, n), |lines|;
      Groups(lines, n)[j] == lines[Min(j * size, L)..Min(j * size + size, L)]
  {
    var size, L := ChunkSize(|lines|, n), |lines|;
    StrideGroupsCount(lines, size, j);
    if j * size < L {
      StrideGroupAt(lines, size, j);
    }
  }

  /** Chunk `j` is `"\n".join(lines[j * size : j * size + size])`, with Python's clamped
      slice. */
  lemma ChunkAt(lines: seq<string>, n: nat, j: nat)
    requires n >= 1 && j < n
    ensures var size, L := ChunkSize(|lines|, n), |lines|;
      Chunks(lines, n)[j] == Join(lines[Min(j * size, L)..Min(j * size + size, L)])
  {
    GroupAt(lines, n, j);
  }

  /** The chunks hold, in order, exactly the first `Kept` lines. */
  lemma KeptLines(lines: seq<string>, n: nat)
    requires n >= 1
    ensures Flatten(Groups(lines, n)) == lines[..Kept(|lines|, n)]
  {
    var size := ChunkSize(|lines|, n);
    var gs := StrideGroups(lines, size);
    FlattenFit(gs, n);
    StrideGroupsPrefix(lines, size, n);
  }

  /** With no more lines than chunks, every line is its own chunk, followed by empty chunks;
      an empty text gives `n` empty chunks. */
  lemma FewLines(lines: seq<string>, n: nat)
    requires n >= 1 && |lines| <= n
    ensures Chunks(lines, n) == lines + Blanks(n - |lines|)
    ensures Kept(|lines|, n) == |lines|
  {
    var expected := lines + Blanks(n - |lines|);
    forall j | 0 <= j < n
      ensures Chunks(lines, n)[j] == expected[j]
    {
      ChunkAt(lines, n, j);
      if j < |lines| {
        assert lines[j..j + 1] == [lines[j]];
      }
    }
  }

  /** With at least as many lines as chunks, the stride is `|lines| / n` and the chunks hold
      the first `n * size` lines: all but the last `|lines| % n`. */
  lemma KeptWhenManyLines(lineCount: nat, n: nat)
    requires n >= 1 && lineCount >= n
    ensures ChunkSize(lineCount, n) == lineCount / n
    ensures Kept(lineCount, n) == n * ChunkSize(lineCount, n) == lineCount - lineCount % n
  {
  }

  /** With at least as many lines as chunks, every chunk holds exactly `size = |lines| / n`
      consecutive lines: chunk `j` holds the lines `j * size` up to `j * size + size`. */
  lemma ManyLines(lines: seq<string>, n: nat, j: nat)
    requires n >= 1 && |lines| >= n && j < n
    ensures var size := ChunkSize(|lines|, n);
      && size == |lines| / n
      && j * size + size <= |lines|
      && Groups(lines, n)[j] == lines[j * size..j * size + size]
  {
    var size := ChunkSize(|lines|, n);
    KeptWhenManyLines(|lines|, n);
    MulStep(j + 1, size);
    MulMonotone(j + 1, n, size);
    assert size * n <= |lines|;
    assert j * size + size <= |lines|;
    GroupAt(lines, n, j);
    assert Min(j * size, |lines|) == j * size;
    assert Min(j * size + size, |lines|) == j * size + size;
  }

  /** When there are no more lines than chunks, or the number of chunks divides the number of
      lines, the chunks hold every line exactly once, in order. */
  lemma NoLineLost(lines: seq<string>, n: nat)
    requires n >= 1 && (|lines| <= n || |lines| % n == 0)
    ensures Flatten(Groups(lines, n)) == lines
  {
    KeptLines(lines, n);
    if |lines| <= n {
      FewLines(lines, n);
    } else {
      KeptWhenManyLines(|lines|, n);
    }
  }

  /** With more lines than chunks and a remainder, the last `|lines| % n` lines are lost. */
  lemma TrailingLinesLost(lines: seq<string>, n: nat)
    requires n >= 1 && |lines| > n && |lines| % n != 0
    ensures Flatten(Groups(lines, n)) == lines[..|lines| - |lines| % n]
    ensures |Flatten(Groups(lines, n))| < |lines|
  {
    KeptLines(lines, n);
    KeptWhenManyLines(|lines|, n);
  }

  /** One step of the stride loop: the stride that starts at line `i`, then the strides of the
      lines after it. */
  lemma StrideLoopStep(lines: seq<string>, size: nat, i: nat)
    requires size >= 1 && i < |lines|
    ensures Strides(lines[Min(i, |lines|)..], size) ==
      [Join(lines[i..Min(i + size, |lines|)])] + Strides(lines[Min(i + size, |lines|)..], size)
  {
    var rest := lines[i..];
    assert lines[Min(i, |lines|)..] == rest;
    StrideGroupsStep(rest, size);
    assert rest[..Min(size, |rest|)] == lines[i..Min(i + size, |lines|)];
    assert rest[Min(size, |rest|)..] == lines[Min(i + size, |lines|)..];
  }

  lemma AppendAssociates<T>(a: seq<T>, b: seq<T>, c: seq<T>)
    ensures a + (b + c) == (a + b) + c
  {
  }

  /** One more "" at the end of the padding. */
  lemma PadStep(strides: seq<string>, k: nat)
    ensures strides + Blanks(k) + [""] == strides + Blanks(k + 1)
  {
  }

  /** Padding with "" up to at least `n` chunks and then cutting to `n` is `Fit`. */
  lemma PadThenCut(strides: seq<string>, padded: seq<string>, n: nat)
    requires |padded| >= n && |padded| >= |strides|
    requires |padded| <= n || |padded| == |strides|
    requires padded == strides + Blanks(|padded| - |strides|)
    ensures padded[..n] == Fit(strides, n, "")
  {
  }

  /** Chunks joined from groups and padded with "" are the joined padded groups. */
  lemma FitJoinEach(gs: seq<seq<string>>, n: nat)
    ensures Fit(JoinEach(gs), n, "") == JoinEach(Fit(gs, n, []))
  {
  }

  /** The joined strides of the lines, a stride of `size` lines at a time. */
  function Strides(lines: seq<string>, size: nat): seq<string>
    requires size >= 1
  {
    JoinEach(StrideGroups(lines, size))
  }

  /** The chunks are the joined strides, padded with "" or cut to `n`. */
  lemma ChunksFromStrides(lines: seq<string>, n: nat)
    requires n >= 1
    ensures Chunks(lines, n) == Fit(Strides(lines, ChunkSize(|lines|, n)), n, "")
  {
    FitJoinEach(StrideGroups(lines, ChunkSize(|lines|, n)), n);
  }

  /** After the stride loop has passed the end of the lines, no stride is left. */
  lemma StridesDone(lines: seq<string>, size: nat, i: nat)
    requires size >= 1 && i >= |lines|
    ensures Strides(lines[Min(i, |lines|)..], size) == []
  {
    assert lines[Min(i, |lines|)..] == [];
  }

  /** `for i in range(0, len(lines), chunk_size)`, appending `"\n".join(lines[i:i + chunk_size])`
      each time: the joined strides, in order. */
  method JoinStrides(lines: seq<string>, size: nat) returns (chunks: seq<string>)
    requires size >= 1
    ensures chunks == Strides(lines, size)
  {
    chunks := [];
    var i := 0;
    while i < |lines|
      invariant Strides(lines, size) == chunks + Strides(lines[Min(i, |lines|)..], size)
      decreases |lines| - i
    {
      var chunk := Join(lines[i..Min(i + size, |lines|)]);
      StrideLoopStep(lines, size, i);
      AppendAssociates(chunks, [chunk], Strides(lines[Min(i + size, |lines|)..], size));
      chunks := chunks + [chunk];
      i := i + size;
    }
    StridesDone(lines, size, i);
  }

  /** `while len(chunks) < n_chunks: chunks.append("")`. */
  method PadWithBlanks(chunks: seq<string>, n: nat) returns (padded: seq<string>)
    ensures padded == chunks + Blanks(if |chunks| < n then n - |chunks| else 0)
  {
    padded := chunks;
    while |padded| < n
      invariant |chunks| <= |padded| && (|padded| <= n || |padded| == |chunks|)
      invariant padded == chunks + Blanks(|padded| - |chunks|)
      decreases n - |padded|
    {
      PadStep(chunks, |padded| - |chunks|);
      padded := padded + [""];
    }
  }

  /** `split_text_into_chunks` of the multithreading, multiprocessing and REST variants, for
      `n_chunks >= 1`: the joined strides, padded with "" up to `n_chunks`, then cut to
      `n_chunks`. */
  method SplitTextIntoChunks(text: string, n: nat) returns (chunks: seq<string>)
    requires n >= 1
    ensures chunks == Chunks(SplitLines(text), n)
  {
    var lines := SplitLines(text);
    var size := ChunkSize(|lines|, n);
    var strides := JoinStrides(lines, size);
    chunks := PadWithBlanks(strides, n);
    PadThenCut(strides, chunks, n);
    chunks := chunks[..n];
    ChunksFromStrides(lines, n);
  }
}
