/**
 * Character classes and the string operations of Python's standard library that the
 * word count relies on: `str.splitlines`, `"\n".join`, `str.lower` and
 * `re.findall(r"\w+", ...)`.
 *
 * Character classification is exact for code points up to U+00FF (ASCII and Latin-1);
 * above that, characters are treated as non-word characters and lower-case to themselves.
 */
module Text {

  /** The line boundaries recognised by Python's `str.splitlines`. */
  predicate IsLineBoundary(c: char) {
    c == '\n' || c == '\r' || c == '\U{0B}' || c == '\U{0C}' ||
    c == '\U{1C}' || c == '\U{1D}' || c == '\U{1E}' || c == '\U{85}' ||
    c == '\U{2028}' || c == '\U{2029}'
  }

  /** Characters matched by the regular-expression class `\w` (letters, digits and numeric
      characters, and `_`), for code points up to U+00FF. */
  predicate IsWordChar(c: char) {
    ('0' <= c <= '9') || ('A' <= c <= 'Z') || ('a' <= c <= 'z') || c == '_' ||
    c == '\U{AA}' || c == '\U{B2}' || c == '\U{B3}' || c == '\U{B5}' ||
    c == '\U{B9}' || c == '\U{BA}' || ('\U{BC}' <= c <= '\U{BE}') ||
    ('\U{C0}' <= c <= '\U{D6}') || ('\U{D8}' <= c <= '\U{F6}') || ('\U{F8}' <= c <= '\U{FF}')
  }

  /** Python's `str.lower` on one character, for code points up to U+00FF. */
  function Lower(c: char): (r: char)
    ensures IsWordChar(r) <==> IsWordChar(c)
    ensures IsLineBoundary(r) <==> IsLineBoundary(c)
  {
    if ('A' <= c <= 'Z') || ('\U{C0}' <= c <= '\U{DE}' && c != '\U{D7}') then
      (c as int + 32) as char
    else
      c
  }

  /** `s.lower()`, character by character. */
  function LowerStr(s: string): (r: string)
    ensures |r| == |s|
  {
    seq(|s|, i requires 0 <= i < |s| => Lower(s[i]))
  }

  predicate NoBoundary(line: string) {
    forall i :: 0 <= i < |line| ==> !IsLineBoundary(line[i])
  }

  predicate AllWordChars(s: string) {
    forall i :: 0 <= i < |s| ==> IsWordChar(s[i])
  }

  /** The index of the first line boundary in `s`, or `|s|` when there is none. */
  function FirstBoundary(s: string): (k: nat)
    ensures k <= |s|
    ensures forall i :: 0 <= i < k ==> !IsLineBoundary(s[i])
    ensures k < |s| ==> IsLineBoundary(s[k])
  {
    if s == [] || IsLineBoundary(s[0]) then 0 else 1 + FirstBoundary(s[1..])
  }

  /** The length of the boundary that starts at `s[k]`: "\r\n" is one boundary of two characters. */
  function BoundaryLength(s: string, k: nat): nat
    requires k < |s|
  {
    if s[k] == '\r' && k + 1 < |s| && s[k + 1] == '\n' then 2 else 1
  }

  /** `s.splitlines()`: the lines of `s` without their terminators; the empty string has no
      lines and a terminator at the very end does not start a further line. */
  function SplitLines(s: string): (lines: seq<string>)
    ensures forall i :: 0 <= i < |lines| ==> NoBoundary(lines[i])
    ensures lines == [] <==> s == []
    ensures s != [] && NoBoundary(s) ==> lines == [s]
    decreases |s|
  {
    if s == [] then []
    else
      var k := FirstBoundary(s);
      if k == |s| then [s]
      else [s[..k]] + SplitLines(s[k + BoundaryLength(s, k)..])
  }

  /** `"\n".join(lines)`. */
  function Join(lines: seq<string>): string {
    if lines == [] then ""
    else if |lines| == 1 then lines[0]
    else lines[0] + "\n" + Join(lines[1..])
  }

  /** The number of word characters at the start of `s`. */
  function WordPrefixLength(s: string): (k: nat)
    ensures k <= |s|
    ensures forall i :: 0 <= i < k ==> IsWordChar(s[i])
    ensures k < |s| ==> !IsWordChar(s[k])
  {
    if s == [] || !IsWordChar(s[0]) then 0 else 1 + WordPrefixLength(s[1..])
  }

  /** `re.findall(r"\w+", s)`: the maximal runs of word characters of `s`, left to right. */
  function Tokens(s: string): (tokens: seq<string>)
    ensures forall i :: 0 <= i < |tokens| ==> tokens[i] != [] && AllWordChars(tokens[i])
    decreases |s|
  {
    if s == [] then []
    else if !IsWordChar(s[0]) then Tokens(s[1..])
    else
      var k := WordPrefixLength(s);
      [s[..k]] + Tokens(s[k..])
  }

  /** `s[i..j]` is a maximal run of word characters: it cannot be extended on either side. */
  predicate IsMaximalRun(s: string, i: int, j: int) {
    && 0 <= i < j <= |s|
    && (forall k :: i <= k < j ==> IsWordChar(s[k]))
    && (i == 0 || !IsWordChar(s[i - 1]))
    && (j == |s| || !IsWordChar(s[j]))
  }

  /** `lower` acts on each character separately, so it distributes over concatenation. */
  lemma LowerStrAppend(a: string, b: string)
    ensures LowerStr(a + b) == LowerStr(a) + LowerStr(b)
  {
  }

  /** Lower-casing twice is lower-casing once. */
  lemma LowerStrIdempotent(s: string)
    ensures LowerStr(LowerStr(s)) == LowerStr(s)
  {
  }

  lemma WordPrefixLengthAppend(x: string, z: string)
    requires WordPrefixLength(x) < |x| || (z != [] && !IsWordChar(z[0]))
    ensures WordPrefixLength(x + z) == WordPrefixLength(x)
  {
    var kx := WordPrefixLength(x);
    assert forall i :: 0 <= i < kx ==> (x + z)[i] == x[i];
    assert kx < |x + z| && !IsWordChar((x + z)[kx]);
  }

  /** A non-word character splits the token list: no token spans it. */
  lemma {:induction false} TokensAround(x: string, c: char, y: string)
    requires !IsWordChar(c)
    ensures Tokens(x + [c] + y) == Tokens(x) + Tokens(y)
    decreases |x|, 1
  {
    var s := x + [c] + y;
    if x == [] {
      assert s[1..] == y;
    } else if !IsWordChar(x[0]) {
      assert s[1..] == x[1..] + [c] + y;
      TokensAround(x[1..], c, y);
    } else {
      TokensAroundWord(x, c, y);
    }
  }

  lemma {:induction false} TokensAroundWord(x: string, c: char, y: string)
    requires !IsWordChar(c) && x != [] && IsWordChar(x[0])
    ensures Tokens(x + [c] + y) == Tokens(x) + Tokens(y)
    decreases |x|, 0
  {
    var s := x + [c] + y;
    WordPrefixLengthAppend(x, [c] + y);
    assert s == x + ([c] + y);
    var k := WordPrefixLength(x);
    assert s[..k] == x[..k];
    assert s[k..] == x[k..] + [c] + y;
    TokensAround(x[k..], c, y);
  }

  /** A maximal run of a suffix `s[d..]` is a maximal run of `s`, unless it starts the suffix
      right after a word character. */
  lemma RunShift(s: string, d: nat, i: int, j: int)
    requires d <= |s| && IsMaximalRun(s[d..], i, j)
    requires i > 0 || d == 0 || !IsWordChar(s[d - 1])
    ensures IsMaximalRun(s, i + d, j + d) && s[d..][i..j] == s[i + d..j + d]
  {
    assert forall k :: 0 <= k < |s| - d ==> s[d..][k] == s[k + d];
  }

  /** Every token of `s` is a maximal run of word characters of `s`. */
  lemma {:induction false} TokensAreMaximalRuns(s: string, t: string)
    requires t in Tokens(s)
    ensures exists i, j :: IsMaximalRun(s, i, j) && t == s[i..j]
    decreases |s|
  {
    if !IsWordChar(s[0]) {
      TokensAreMaximalRuns(s[1..], t);
      var i, j :| IsMaximalRun(s[1..], i, j) && t == s[1..][i..j];
      RunShift(s, 1, i, j);
    } else {
      var k := WordPrefixLength(s);
      if t == s[..k] {
        assert IsMaximalRun(s, 0, k);
      } else {
        TokensAreMaximalRuns(s[k..], t);
        var i, j :| IsMaximalRun(s[k..], i, j) && t == s[k..][i..j];
        RunShift(s, k, i, j);
      }
    }
  }

  /** A maximal run of `s` that starts at or after `d` is a maximal run of the suffix `s[d..]`. */
  lemma RunUnshift(s: string, d: nat, i: int, j: int)
    requires IsMaximalRun(s, i, j) && d <= i
    ensures IsMaximalRun(s[d..], i - d, j - d) && s[d..][i - d..j - d] == s[i..j]
  {
    assert forall k :: 0 <= k < |s| - d ==> s[d..][k] == s[k + d];
  }

  /** A maximal run of a text that starts with a word character is either its leading run of
      word characters or lies after it. */
  lemma RunAgainstPrefix(s: string, i: int, j: int)
    requires IsMaximalRun(s, i, j) && IsWordChar(s[0])
    ensures var k := WordPrefixLength(s);
      if i == 0 then j == k else k < i
  {
    if i > 0 {
      assert !IsWordChar(s[i - 1]);
    }
  }

  /** Every maximal run of word characters of `s` is one of its tokens. */
  lemma {:induction false} MaximalRunsAreTokens(s: string, i: int, j: int)
    requires IsMaximalRun(s, i, j)
    ensures s[i..j] in Tokens(s)
    decreases |s|, 1
  {
    if !IsWordChar(s[0]) {
      RunPastNonWord(s, i, j);
    } else {
      RunPastWord(s, i, j);
    }
  }

  lemma {:induction false} RunPastNonWord(s: string, i: int, j: int)
    requires IsMaximalRun(s, i, j) && !IsWordChar(s[0])
    ensures s[i..j] in Tokens(s)
    decreases |s|, 0
  {
    assert Tokens(s) == Tokens(s[1..]);
    RunUnshift(s, 1, i, j);
    MaximalRunsAreTokens(s[1..], i - 1, j - 1);
  }

  lemma {:induction false} RunPastWord(s: string, i: int, j: int)
    requires IsMaximalRun(s, i, j) && IsWordChar(s[0])
    ensures s[i..j] in Tokens(s)
    decreases |s|, 0
  {
    var k := WordPrefixLength(s);
    assert Tokens(s) == [s[..k]] + Tokens(s[k..]);
    RunAgainstPrefix(s, i, j);
    if i == 0 {
      assert s[i..j] == s[..k];
    } else {
      RunUnshift(s, k, i, j);
      MaximalRunsAreTokens(s[k..], i - k, j - k);
    }
  }

  /** A maximal run of word characters equal to `w` starts at position `i` of `s`. */
  predicate StartsRun(s: string, i: nat, w: string) {
    i + |w| <= |s| && IsMaximalRun(s, i, i + |w|) && s[i..i + |w|] == w
  }

  /** The number of positions from `i` on at which a maximal run equal to `w` starts. */
  function RunsFrom(s: string, w: string, i: nat): nat
    decreases |s| - i
  {
    if i >= |s| then 0
    else (if StartsRun(s, i, w) then 1 else 0) + RunsFrom(s, w, i + 1)
  }

  /** The number of maximal runs of word characters of `s` that are equal to `w`. */
  function RunCount(s: string, w: string): nat {
    RunsFrom(s, w, 0)
  }

  /** Position `d` does not cut a run of word characters in two. */
  predicate AtRunBoundary(s: string, d: nat)
    requires d <= |s|
  {
    d == 0 || d == |s| || !IsWordChar(s[d - 1]) || !IsWordChar(s[d])
  }

  /** No run starts inside a run of word characters, after its first character. */
  lemma {:induction false} NoRunStartsInside(s: string, w: string, d: nat, e: nat, i: nat)
    requires d < i <= e <= |s|
    requires forall k :: d <= k < e ==> IsWordChar(s[k])
    ensures RunsFrom(s, w, i) == RunsFrom(s, w, e)
    decreases e - i
  {
    if i < e {
      assert IsWordChar(s[i - 1]);
      assert !StartsRun(s, i, w);
      NoRunStartsInside(s, w, d, e, i + 1);
    }
  }

  /** At a boundary followed by a word character, the run that starts there is the leading run
      of word characters of the suffix. */
  lemma StartsRunAtWord(s: string, w: string, d: nat)
    requires d < |s| && AtRunBoundary(s, d) && IsWordChar(s[d])
    ensures var k := WordPrefixLength(s[d..]);
      d + k <= |s| && (StartsRun(s, d, w) <==> w == s[d..d + k])
  {
    var k := WordPrefixLength(s[d..]);
    TokensOfSuffixAtWord(s, d);
    if w == s[d..d + k] {
      assert d + k == |s| || !IsWordChar(s[d + k]);
      assert IsMaximalRun(s, d, d + k);
    }
    if StartsRun(s, d, w) {
      RunUnshift(s, d, d, d + |w|);
      assert s[d..][0] == s[d];
      RunAgainstPrefix(s[d..], 0, |w|);
    }
  }

  /** From a run boundary on, `Tokens` lists each maximal run once: the number of times `w`
      occurs among the tokens of the suffix is the number of runs equal to `w` that start in it. */
  lemma {:induction false} TokenCountFrom(s: string, w: string, d: nat)
    requires d <= |s| && AtRunBoundary(s, d)
    ensures multiset(Tokens(s[d..]))[w] == RunsFrom(s, w, d)
    decreases |s| - d
  {
    if d < |s| {
      if !IsWordChar(s[d]) {
        assert s[d..][1..] == s[d + 1..];
        assert !StartsRun(s, d, w);
        TokenCountFrom(s, w, d + 1);
      } else {
        TokenCountAtWord(s, w, d);
      }
    }
  }

  lemma {:induction false} TokenCountAtWord(s: string, w: string, d: nat)
    requires d < |s| && AtRunBoundary(s, d) && IsWordChar(s[d])
    ensures multiset(Tokens(s[d..]))[w] == RunsFrom(s, w, d)
    decreases |s| - d, 0
  {
    var k := WordPrefixLength(s[d..]);
    TokensOfSuffixAtWord(s, d);
    TokensPastRun(s, w, d);
    RunsPastRun(s, w, d);
    TokenCountFrom(s, w, d + k);
  }

  /** Counting `w` among the tokens of a suffix that starts with a word character: the leading
      run, then the tokens after it. */
  lemma TokensPastRun(s: string, w: string, d: nat)
    requires d < |s| && IsWordChar(s[d])
    ensures var k := WordPrefixLength(s[d..]);
      d + k <= |s| &&
      multiset(Tokens(s[d..]))[w] == (if s[d..d + k] == w then 1 else 0) + multiset(Tokens(s[d + k..]))[w]
  {
    var k := WordPrefixLength(s[d..]);
    TokensOfSuffixAtWord(s, d);
    ConsCount(s[d..d + k], Tokens(s[d + k..]), w);
  }

  /** Counting the runs equal to `w` from a boundary followed by a word character: the run that
      starts there, then none until its end. */
  lemma RunsPastRun(s: string, w: string, d: nat)
    requires d < |s| && AtRunBoundary(s, d) && IsWordChar(s[d])
    ensures var k := WordPrefixLength(s[d..]);
      d + k <= |s| &&
      RunsFrom(s, w, d) == (if s[d..d + k] == w then 1 else 0) + RunsFrom(s, w, d + k)
  {
    var k := WordPrefixLength(s[d..]);
    TokensOfSuffixAtWord(s, d);
    StartsRunAtWord(s, w, d);
    RunsFromStep(s, w, d);
    NoRunStartsInside(s, w, d, d + k, d + 1);
  }

  lemma RunsFromStep(s: string, w: string, d: nat)
    requires d < |s|
    ensures RunsFrom(s, w, d) == (if StartsRun(s, d, w) then 1 else 0) + RunsFrom(s, w, d + 1)
  {
  }

  lemma ConsCount<T>(x: T, rest: seq<T>, w: T)
    ensures multiset([x] + rest)[w] == (if x == w then 1 else 0) + multiset(rest)[w]
  {
    assert multiset([x] + rest) == multiset{x} + multiset(rest);
  }

  /** The tokens of a suffix that starts with a word character: its leading run, then the
      tokens after it, which start at a run boundary. */
  lemma TokensOfSuffixAtWord(s: string, d: nat)
    requires d < |s| && IsWordChar(s[d])
    ensures var k := WordPrefixLength(s[d..]);
      && 1 <= k && d + k <= |s|
      && (forall m :: d <= m < d + k ==> IsWordChar(s[m]))
      && AtRunBoundary(s, d + k)
      && Tokens(s[d..]) == [s[d..d + k]] + Tokens(s[d + k..])
  {
    var k := WordPrefixLength(s[d..]);
    assert forall m :: 0 <= m < |s| - d ==> s[d..][m] == s[d + m];
    assert s[d..][..k] == s[d..d + k] && s[d..][k..] == s[d + k..];
  }

  /** `re.findall(r"\w+", s)` lists every maximal run of word characters once: a string occurs
      among the tokens as many times as it occurs as a maximal run. */
  lemma TokenMultiplicity(s: string, w: string)
    ensures multiset(Tokens(s))[w] == RunCount(s, w)
  {
    assert s[0..] == s;
    TokenCountFrom(s, w, 0);
  }

  lemma FirstBoundaryAfterLine(line: string, rest: string)
    requires NoBoundary(line)
    ensures FirstBoundary(line + "\n" + rest) == |line|
    ensures FirstBoundary(line) == |line|
  {
    var s := line + "\n" + rest;
    assert forall i :: 0 <= i < |line| ==> s[i] == line[i];
    assert IsLineBoundary(s[|line|]);
  }

  /** Splitting a join gives the lines back, when no line holds a boundary and the last line is
      not empty (a trailing empty line would read as a terminator). */
  lemma {:induction false} SplitJoin(lines: seq<string>)
    requires forall i :: 0 <= i < |lines| ==> NoBoundary(lines[i])
    requires lines == [] || lines[|lines| - 1] != ""
    ensures SplitLines(Join(lines)) == lines
  {
    if |lines| == 1 {
      FirstBoundaryAfterLine(lines[0], "");
    } else if |lines| > 1 {
      var s := Join(lines);
      FirstBoundaryAfterLine(lines[0], Join(lines[1..]));
      assert s[|lines[0]|] == '\n';
      assert s[..|lines[0]|] == lines[0];
      assert s[|lines[0]| + 1..] == Join(lines[1..]);
      SplitJoin(lines[1..]);
    }
  }

  /** A single terminator, either one boundary character or the pair "\r\n". A lone "\r" counts
      only when the text after it does not start with "\n", which would make the pair. */
  predicate IsTerminator(t: string, rest: string) {
    || t == "\r\n"
    || (|t| == 1 && IsLineBoundary(t[0]) && !(t[0] == '\r' && rest != [] && rest[0] == '\n'))
  }

  /** A line followed by one terminator is split off as the first line, whatever follows; with
      `rest` empty this says that a final terminator does not start a further, empty line. */
  lemma SplitLinesAtBoundary(line: string, t: string, rest: string)
    requires NoBoundary(line)
    requires IsTerminator(t, rest)
    ensures SplitLines(line + t + rest) == [line] + SplitLines(rest)
  {
    var s := line + t + rest;
    var k := |line|;
    assert forall i :: 0 <= i < k ==> s[i] == line[i];
    assert s[k] == t[0] && IsLineBoundary(s[k]);
    assert FirstBoundary(s) == k;
    assert BoundaryLength(s, k) == |t|;
    assert s[..k] == line;
    assert s[k + |t|..] == rest;
  }

  /** "\r\n" is one boundary and a final "\n" ends the last line: "a\r\nb\n" has two lines. */
  lemma SplitLinesExample()
    ensures SplitLines("a\r\nb\n") == ["a", "b"]
  {
    var last, text := ['b', '\n'], ['a', '\r', '\n', 'b', '\n'];
    assert last == "b" + "\n" + "";
    assert text == "a" + "\r\n" + last;
    SplitLinesAtBoundary("b", "\n", "");
    SplitLinesAtBoundary("a", "\r\n", last);
  }

  /** The text consists of lines separated by single "\n" characters and no other boundary,
      and it does not end with a terminator. */
  predicate NewlineSeparated(s: string) {
    && (forall i :: 0 <= i < |s| && IsLineBoundary(s[i]) ==> s[i] == '\n')
    && (s == [] || s[|s| - 1] != '\n')
  }

  /** Joining the lines of such a text rebuilds it exactly. */
  lemma {:induction false} JoinSplit(s: string)
    requires NewlineSeparated(s)
    ensures Join(SplitLines(s)) == s
    decreases |s|
  {
    if s != [] {
      var k := FirstBoundary(s);
      if k < |s| {
        var line, rest := s[..k], s[k + 1..];
        assert s[k] == '\n' && k + 1 < |s|;
        assert s == line + "\n" + rest;
        SplitLinesAtBoundary(line, "\n", rest);
        assert rest != [] && NewlineSeparated(rest);
        JoinSplit(rest);
      }
    }
  }
}
