/**
 * The worker-side count, `Counter(re.findall(r"\w+", chunk.lower()))`, shared by
 * `count_words_in_chunk` of the two single-machine variants and by the gRPC and REST
 * workers, and how counts of several pieces of text combine.
 */
module Counting {
  import opened Text
  import opened Tables

  /** The tokens counted in a chunk: the maximal word-character runs of the lower-cased chunk. */
  function Words(chunk: string): seq<string> {
    Tokens(LowerStr(chunk))
  }

  /** `count_words_in_chunk(chunk)`: each token of the lower-cased chunk with its number of
      occurrences; an empty chunk gives an empty table and no count is 0. */
  function CountWords(chunk: string): (counts: Table)
    ensures forall w :: w in counts <==> w in Words(chunk)
    ensures forall w :: Get(counts, w) == multiset(Words(chunk))[w]
    ensures forall w :: w in counts ==> counts[w] >= 1
    ensures chunk == "" ==> counts == map[]
  {
    assert chunk == "" ==> Words(chunk) == [];
    var counts := Tally(Words(chunk));
    assert forall w :: w in counts ==> w in multiset(Words(chunk));
    counts
  }

  /** The keys of a count are exactly the maximal word-character runs of the lower-cased chunk. */
  lemma CountKeysAreMaximalRuns(chunk: string, w: string)
    ensures w in CountWords(chunk) <==>
      exists i, j :: IsMaximalRun(LowerStr(chunk), i, j) && w == LowerStr(chunk)[i..j]
  {
    var s := LowerStr(chunk);
    if w in CountWords(chunk) {
      TokensAreMaximalRuns(s, w);
    }
    if exists i, j :: IsMaximalRun(s, i, j) && w == s[i..j] {
      var i, j :| IsMaximalRun(s, i, j) && w == s[i..j];
      MaximalRunsAreTokens(s, i, j);
    }
  }

  /** The count of a word is the number of maximal runs of word characters equal to it in the
      lower-cased chunk. */
  lemma CountIsRunCount(chunk: string, w: string)
    ensures Get(CountWords(chunk), w) == RunCount(LowerStr(chunk), w)
  {
    TokenMultiplicity(LowerStr(chunk), w);
  }

  /** The counts of a chunk add up to the number of tokens found in it. */
  lemma CountTotal(chunk: string)
    ensures Total(CountWords(chunk)) == |Words(chunk)|
  {
    TotalTally(Words(chunk));
  }

  /** Counting is case-insensitive: a chunk and its lower-cased form count the same. */
  lemma CountIgnoresCase(chunk: string)
    ensures CountWords(LowerStr(chunk)) == CountWords(chunk)
  {
    LowerStrIdempotent(chunk);
  }

  /** A word on its own is a single token. */
  lemma SingleWord(word: string)
    requires word != [] && AllWordChars(LowerStr(word))
    ensures Words(word) == [LowerStr(word)]
  {
    var s := LowerStr(word);
    assert IsWordChar(s[0]);
    assert WordPrefixLength(s) == |s|;
    assert s[..|s|] == s && s[|s|..] == [];
    assert Tokens(s) == [s[..|s|]] + Tokens(s[|s|..]);
  }

  lemma WordsOfTheTheThe()
    ensures Words("The the THE") == ["the", "the", "the"]
  {
    assert LowerStr("The") == "the" && LowerStr("the") == "the" && LowerStr("THE") == "the";
    SingleWord("The");
    SingleWord("the");
    SingleWord("THE");
    assert "The the THE" == "The" + [' '] + ("the" + [' '] + "THE");
    WordsAround("the", ' ', "THE");
    WordsAround("The", ' ', "the" + [' '] + "THE");
  }

  /** Mixed-case occurrences of a word are counted under one lower-case key. */
  lemma CountTheTheThe()
    ensures CountWords("The the THE") == map["the" := 3]
  {
    WordsOfTheTheThe();
    var counts := CountWords("The the THE");
    assert multiset(["the", "the", "the"])["the"] == 3;
    assert counts.Keys == {"the"};
    TableExtensionality(counts, map["the" := 3]);
  }

  /** A character that is not a word character once lower-cased separates the tokens. */
  lemma WordsAround(x: string, c: char, y: string)
    requires !IsWordChar(Lower(c))
    ensures Words(x + [c] + y) == Words(x) + Words(y)
  {
    LowerStrAppend(x + [c], y);
    LowerStrAppend(x, [c]);
    assert LowerStr([c]) == [Lower(c)];
    TokensAround(LowerStr(x), Lower(c), LowerStr(y));
  }

  /** The count of two pieces of text joined by "\n" is the merge of their counts. */
  lemma CountAcrossNewline(a: string, b: string)
    ensures CountWords(a + "\n" + b) == Merge(CountWords(a), CountWords(b))
  {
    assert a + "\n" + b == a + ['\n'] + b;
    WordsAround(a, '\n', b);
    TallyAppend(Words(a), Words(b));
  }

  /** The tokens of several chunks, chunk after chunk. */
  function AllWords(chunks: seq<string>): seq<string> {
    if chunks == [] then [] else Words(chunks[0]) + AllWords(chunks[1..])
  }

  lemma {:induction false} AllWordsAppend(xs: seq<string>, ys: seq<string>)
    ensures AllWords(xs + ys) == AllWords(xs) + AllWords(ys)
  {
    if xs == [] {
      assert xs + ys == ys;
    } else {
      assert (xs + ys)[1..] == xs[1..] + ys;
      AllWordsAppend(xs[1..], ys);
    }
  }

  /** Joining lines with "\n" neither creates nor loses a token. */
  lemma {:induction false} WordsOfJoin(lines: seq<string>)
    ensures Words(Join(lines)) == AllWords(lines)
  {
    if |lines| == 1 {
      assert lines[1..] == [];
    } else if |lines| > 1 {
      WordsAround(lines[0], '\n', Join(lines[1..]));
      WordsOfJoin(lines[1..]);
    }
  }

  /** A line boundary stays a non-word character when lower-cased. */
  lemma BoundaryIsNotWord(c: char)
    requires IsLineBoundary(c)
    ensures !IsWordChar(Lower(c))
  {
  }

  /** The tokens of a text are those before its first line boundary followed by those after. */
  lemma WordsAroundBoundary(s: string, k: nat)
    requires k < |s| && IsLineBoundary(s[k])
    ensures Words(s) == Words(s[..k]) + Words(s[k + BoundaryLength(s, k)..])
  {
    var rest := s[k + BoundaryLength(s, k)..];
    BoundaryIsNotWord(s[k]);
    if BoundaryLength(s, k) == 1 {
      assert s == s[..k] + [s[k]] + rest;
      WordsAround(s[..k], s[k], rest);
    } else {
      assert s == s[..k] + [s[k]] + ([s[k + 1]] + rest);
      WordsAround(s[..k], s[k], [s[k + 1]] + rest);
      BoundaryIsNotWord(s[k + 1]);
      assert [s[k + 1]] + rest == [] + [s[k + 1]] + rest;
      WordsAround([], s[k + 1], rest);
    }
  }

  /** Line boundaries are not word characters, so a text has the tokens of its lines. */
  lemma {:induction false} WordsOfLines(s: string)
    ensures Words(s) == AllWords(SplitLines(s))
    decreases |s|
  {
    if s != [] {
      var k := FirstBoundary(s);
      if k == |s| {
        assert SplitLines(s) == [s];
        assert SplitLines(s)[1..] == [];
      } else {
        var rest := s[k + BoundaryLength(s, k)..];
        WordsOfLines(rest);
        assert SplitLines(s) == [s[..k]] + SplitLines(rest);
        WordsAroundBoundary(s, k);
      }
    }
  }

  /** `[count_words_in_chunk(c) for c in chunks]`, in chunk order. */
  function Partials(chunks: seq<string>): (partials: seq<Table>)
    ensures |partials| == |chunks|
  {
    seq(|chunks|, i requires 0 <= i < |chunks| => CountWords(chunks[i]))
  }

  /** Merging the counts of several chunks counts the tokens of all of them together. */
  lemma {:induction false} MergePartials(chunks: seq<string>)
    ensures MergeAll(Partials(chunks)) == Tally(AllWords(chunks))
  {
    if chunks != [] {
      var prefix, last := chunks[..|chunks| - 1], chunks[|chunks| - 1];
      assert Partials(chunks)[..|chunks| - 1] == Partials(prefix);
      MergePartials(prefix);
      assert chunks == prefix + [last];
      AllWordsAppend(prefix, [last]);
      assert AllWords([last]) == Words(last);
      TallyAppend(AllWords(prefix), Words(last));
    }
  }

  /** The merged counts of several chunks add up to the number of tokens in all of them. */
  lemma MergedTotal(chunks: seq<string>)
    ensures Total(MergeAll(Partials(chunks))) == |AllWords(chunks)|
  {
    MergePartials(chunks);
    TotalTally(AllWords(chunks));
  }
}
