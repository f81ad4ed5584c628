/** The fixed regular expressions of the chunker and the preprocessor, each
    written out as the left-to-right scan Python's `re` performs for it. */
module Patterns {
  import opened Text

  /** `[.!?]`: a sentence-ending character. */
  predicate IsTerminator(c: char) { c == '.' || c == '!' || c == '?' }

  predicate NotTerminator(c: char) { !IsTerminator(c) }

  /** `[\.\-\=\*]`: a character the quality filter counts as special. */
  predicate IsSpecial(c: char) { c == '.' || c == '-' || c == '=' || c == '*' }

  /** A word the `[a-zA-Z]{3,}` class accepts. */
  predicate IsAlphaWord(w: string) { |w| >= 3 && forall c :: c in w ==> IsAsciiLetter(c) }

  /** `re.findall(r'\b[a-zA-Z]{3,}\b', s)`. Both word boundaries force the
      match to be a whole maximal run of word characters, so the matches are
      the maximal `\w` runs that are made of three or more ASCII letters. */
  function AlphaWords(s: string): (words: seq<string>)
    ensures forall w :: w in words ==> IsAlphaWord(w)
  {
    AlphaWordsFrom(s, 0)
  }

  function AlphaWordsFrom(s: string, i: nat): (words: seq<string>)
    requires i <= |s|
    ensures forall w :: w in words ==> IsAlphaWord(w)
    decreases |s| - i
  {
    if i == |s| then []
    else if !IsWordChar(s[i]) then AlphaWordsFrom(s, i + 1)
    else
      var k := RunEnd(s, i, IsWordChar);
      var here := if k - i >= 3 && RunEnd(s, i, IsAsciiLetter) == k then [s[i..k]] else [];
      here + AlphaWordsFrom(s, k)
  }

  /** `re.findall(r'[^.!?]+[.!?]', s)`: each maximal run of non-terminators
      that a terminator follows, together with that terminator. */
  function SentenceMatches(s: string): (ms: seq<string>)
    ensures forall m :: m in ms ==> |m| >= 2 && IsTerminator(m[|m| - 1])
  {
    SentenceMatchesFrom(s, 0)
  }

  function SentenceMatchesFrom(s: string, i: nat): (ms: seq<string>)
    requires i <= |s|
    ensures forall m :: m in ms ==> |m| >= 2 && IsTerminator(m[|m| - 1])
    decreases |s| - i
  {
    if i == |s| then []
    else if IsTerminator(s[i]) then SentenceMatchesFrom(s, i + 1)
    else
      var k := RunEnd(s, i, NotTerminator);
      if k == |s| then [] else [s[i..k + 1]] + SentenceMatchesFrom(s, k + 1)
  }

  /** `re.findall(r'[.!?]+', s)`: the maximal runs of terminators. */
  function PunctRuns(s: string): (runs: seq<string>)
    ensures forall r :: r in runs ==> r != [] && forall c :: c in r ==> IsTerminator(c)
  {
    PunctRunsFrom(s, 0)
  }

  function PunctRunsFrom(s: string, i: nat): (runs: seq<string>)
    requires i <= |s|
    ensures forall r :: r in runs ==> r != [] && forall c :: c in r ==> IsTerminator(c)
    decreases |s| - i
  {
    if i == |s| then []
    else if !IsTerminator(s[i]) then PunctRunsFrom(s, i + 1)
    else
      var k := RunEnd(s, i, IsTerminator);
      [s[i..k]] + PunctRunsFrom(s, k)
  }

  /** `sum(len(m) for m in ms)`. */
  function TotalLength(ms: seq<string>): nat
  {
    if ms == [] then 0 else |ms[0]| + TotalLength(ms[1..])
  }

  /** If no element reaches `bound` characters, the total stays below
      `bound` times the count. */
  lemma {:induction false} TotalLengthBelow(ms: seq<string>, bound: nat)
    requires forall m :: m in ms ==> |m| < bound
    ensures ms != [] ==> TotalLength(ms) < bound * |ms|
    ensures TotalLength(ms) <= bound * |ms|
    decreases |ms|
  {
    if ms != [] {
      assert ms[0] in ms;
      assert forall m :: m in ms[1..] ==> m in ms;
      TotalLengthBelow(ms[1..], bound);
      assert bound * (|ms[1..]| + 1) == bound * |ms[1..]| + bound;
    }
  }

  /** End offsets of the matches of `re.finditer(r'[.!?]\s+', s)`. A match
      starts at a terminator directly followed by whitespace and takes the
      whole whitespace run. */
  function SentenceBreakEnds(s: string): (ends: seq<nat>)
    ensures forall e :: e in ends ==> 2 <= e <= |s|
  {
    BreakEndsFrom(s, 0)
  }

  function BreakEndsFrom(s: string, i: nat): (ends: seq<nat>)
    requires i <= |s|
    ensures forall e :: e in ends ==> i + 2 <= e <= |s|
    decreases |s| - i
  {
    if i + 1 >= |s| then []
    else if IsTerminator(s[i]) && IsSpace(s[i + 1]) then
      var k := RunEnd(s, i + 1, IsSpace);
      [k] + BreakEndsFrom(s, k)
    else BreakEndsFrom(s, i + 1)
  }

  /** The last index in `[lo, hi)` holding a newline, or -1. */
  function LastNewline(s: string, lo: nat, hi: nat): (j: int)
    requires lo <= hi <= |s|
    ensures j == -1 || (lo <= j < hi && s[j] == '\n')
    ensures forall m :: lo <= m < hi && j < m ==> s[m] != '\n'
    decreases hi
  {
    if hi <= lo then -1
    else if s[hi - 1] == '\n' then hi - 1
    else LastNewline(s, lo, hi - 1)
  }

  /** End offsets of the matches of `re.finditer(r'\n\s*\n', s)`. From a
      newline, the greedy `\s*` backs off to the last newline of the
      whitespace run that follows, so a match ends just after it. */
  function ParagraphBreakEnds(s: string): (ends: seq<nat>)
    ensures forall e :: e in ends ==> 2 <= e <= |s|
  {
    ParaEndsFrom(s, 0)
  }

  function ParaEndsFrom(s: string, i: nat): (ends: seq<nat>)
    requires i <= |s|
    ensures forall e :: e in ends ==> i + 2 <= e <= |s|
    decreases |s| - i
  {
    if i == |s| then []
    else if s[i] == '\n' then
      var k := RunEnd(s, i + 1, IsSpace);
      var j := LastNewline(s, i + 1, k);
      if j >= 0 then [j + 1] + ParaEndsFrom(s, j + 1) else ParaEndsFrom(s, i + 1)
    else ParaEndsFrom(s, i + 1)
  }

  /** `re.compile(r'[.!?]+[\s\n]+').split(s)`: the pieces between the
      matches, where a match is a maximal run of terminators followed by a
      run of whitespace. A terminator run with no whitespace after it does
      not match anywhere inside it, so the scan moves past the whole run. */
  function SentencePieces(s: string): (pieces: seq<string>)
    ensures |pieces| >= 1
  {
    PiecesFrom(s, 0, 0)
  }

  function PiecesFrom(s: string, start: nat, i: nat): (pieces: seq<string>)
    requires start <= i <= |s|
    ensures |pieces| >= 1
    decreases |s| - i
  {
    if i == |s| then [s[start..]]
    else if IsTerminator(s[i]) then
      var j := RunEnd(s, i, IsTerminator);
      if j < |s| && IsSpace(s[j]) then
        var k := RunEnd(s, j, IsSpace);
        [s[start..i]] + PiecesFrom(s, k, k)
      else PiecesFrom(s, start, j)
    else PiecesFrom(s, start, i + 1)
  }

  /** Text without a sentence terminator is not split at all. */
  lemma {:induction false} NoTerminatorOnePiece(s: string, start: nat, i: nat)
    requires start <= i <= |s|
    requires forall c :: c in s ==> !IsTerminator(c)
    ensures PiecesFrom(s, start, i) == [s[start..]]
    decreases |s| - i
  {
    if i < |s| {
      assert s[i] in s;
      NoTerminatorOnePiece(s, start, i + 1);
    }
  }
}
