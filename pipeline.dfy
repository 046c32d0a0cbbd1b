/**
 * What a whole run computes: counting each chunk and merging the counts is counting the
 * lines the chunker kept, which is counting the whole text unless the chunker dropped its
 * trailing lines.
 */
module Pipeline {
  import opened Text
  import opened Tables
  import opened Counting
  import opened Chunker

  /** The tokens of joined groups are the tokens of all their lines; an empty group joins to
      "" and has no token. */
  lemma {:induction false} AllWordsOfJoinEach(gs: seq<seq<string>>)
    ensures AllWords(JoinEach(gs)) == AllWords(Flatten(gs))
  {
    if gs != [] {
      assert JoinEach(gs)[1..] == JoinEach(gs[1..]);
      AllWordsOfJoinEach(gs[1..]);
      WordsOfJoin(gs[0]);
      AllWordsAppend(gs[0], Flatten(gs[1..]));
    }
  }

  /** The tokens of all chunks are the tokens of the lines the chunker kept. */
  lemma WordsOfChunks(lines: seq<string>, n: nat)
    requires n >= 1
    ensures AllWords(Chunks(lines, n)) == Words(Join(lines[..Kept(|lines|, n)]))
  {
    AllWordsOfJoinEach(Groups(lines, n));
    KeptLines(lines, n);
    WordsOfJoin(lines[..Kept(|lines|, n)]);
  }

  /** Merging the per-chunk counts of `n` chunks counts the words of the first `Kept` lines of
      the text. */
  lemma MergedCountOfChunks(text: string, n: nat)
    requires n >= 1
    ensures var lines := SplitLines(text);
      MergeAll(Partials(Chunks(lines, n))) == CountWords(Join(lines[..Kept(|lines|, n)]))
  {
    var lines := SplitLines(text);
    MergePartials(Chunks(lines, n));
    WordsOfChunks(lines, n);
  }

  /** The merged counts of the chunks add up to the number of tokens in the kept lines. */
  lemma MergedTotalOfChunks(text: string, n: nat)
    requires n >= 1
    ensures var lines := SplitLines(text);
      Total(MergeAll(Partials(Chunks(lines, n)))) == |Words(Join(lines[..Kept(|lines|, n)]))|
  {
    var lines := SplitLines(text);
    MergedTotal(Chunks(lines, n));
    WordsOfChunks(lines, n);
  }

  /** When no line is dropped, the merged counts are the counts of the whole text. */
  lemma MergedCountIsTextCount(text: string, n: nat)
    requires n >= 1
    requires |SplitLines(text)| <= n || |SplitLines(text)| % n == 0
    ensures MergeAll(Partials(Chunks(SplitLines(text), n))) == CountWords(text)
  {
    var lines := SplitLines(text);
    MergePartials(Chunks(lines, n));
    AllWordsOfJoinEach(Groups(lines, n));
    NoLineLost(lines, n);
    WordsOfLines(text);
  }

  /** Two words separated by one space. */
  lemma WordsOfPair(a: string, b: string)
    requires a != [] && AllWordChars(a) && LowerStr(a) == a
    requires b != [] && AllWordChars(b) && LowerStr(b) == b
    ensures Words(a + " " + b) == [a, b]
  {
    SingleWord(a);
    SingleWord(b);
    assert a + " " + b == a + [' '] + b;
    WordsAround(a, ' ', b);
  }

  lemma ExampleLines()
    ensures SplitLines("one two\ntwo three\nthree three") == ["one two", "two three", "three three"]
  {
    var lines := ["one two", "two three", "three three"];
    assert Join(lines) == "one two\ntwo three\nthree three";
    SplitJoin(lines);
  }

  lemma ExampleChunks()
    ensures Chunks(["one two", "two three", "three three"], 2) == ["one two", "two three"]
  {
    var lines := ["one two", "two three", "three three"];
    ManyLines(lines, 2, 0);
    ManyLines(lines, 2, 1);
    var chunks := Chunks(lines, 2);
    assert chunks[0] == Join(lines[0..1]) && lines[0..1] == ["one two"];
    assert chunks[1] == Join(lines[1..2]) && lines[1..2] == ["two three"];
  }

  /** The words of the example are lower-case words, and each chunk is two of them separated by
      one space. */
  lemma ExampleSpelling()
    ensures "one" + " " + "two" == "one two" && "two" + " " + "three" == "two three"
    ensures LowerStr("one") == "one" && LowerStr("two") == "two" && LowerStr("three") == "three"
  {
  }

  /** Each example chunk holds two tokens. */
  lemma ExampleChunkWords()
    ensures Words("one two") == ["one", "two"] && Words("two three") == ["two", "three"]
  {
    ExampleSpelling();
    WordsOfPair("one", "two");
    WordsOfPair("two", "three");
  }

  lemma AllWordsOfTwo(a: string, b: string)
    ensures AllWords([a, b]) == Words(a) + Words(b)
  {
    assert [a, b][1..] == [b] && [b][1..] == [];
    assert AllWords([b]) == Words(b) + [];
  }

  lemma ExampleWords()
    ensures AllWords(["one two", "two three"]) == ["one", "two", "two", "three"]
  {
    ExampleChunkWords();
    AllWordsOfTwo("one two", "two three");
  }

  lemma ExampleTally()
    ensures Tally(["one", "two", "two", "three"]) == map["one" := 1, "two" := 2, "three" := 1]
  {
    var merged := Tally(["one", "two", "two", "three"]);
    var expected := map["one" := 1, "two" := 2, "three" := 1];
    assert merged.Keys == expected.Keys;
    TableExtensionality(merged, expected);
  }

  lemma ExampleCount()
    ensures MergeAll(Partials(["one two", "two three"])) == map["one" := 1, "two" := 2, "three" := 1]
  {
    ExampleWords();
    MergePartials(["one two", "two three"]);
    ExampleTally();
  }

  /** Three lines over two chunks: the stride is one line, the third stride is cut off, and
      the words of the last line are not counted. */
  lemma ThreeLinesTwoChunks()
    ensures var lines := SplitLines("one two\ntwo three\nthree three");
      && lines == ["one two", "two three", "three three"]
      && Chunks(lines, 2) == ["one two", "two three"]
      && MergeAll(Partials(Chunks(lines, 2))) == map["one" := 1, "two" := 2, "three" := 1]
  {
    ExampleLines();
    ExampleChunks();
    ExampleCount();
  }
}
