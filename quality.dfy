/** The content classifier and the quality evaluator of `DocumentChunker`:
    `classify_content_type`, `is_quality_chunk` and `calculate_quality_score`.
    Every ratio threshold of the source is stated exactly, by cross-multiplying
    integers or with `real`. */
module Quality {
  import opened Text
  import opened Patterns

  datatype ContentType = FrontMatter | Toc | Header | Repetitive | MainContent

  /** The label the source stores under `content_type`. */
  function TypeName(t: ContentType): string
  {
    match t
    case FrontMatter => "front_matter"
    case Toc => "toc"
    case Header => "header"
    case Repetitive => "repetitive"
    case MainContent => "main_content"
  }

  const FrontMatterIndicators: seq<string> :=
    ["published by", "copyright", "all rights reserved", "isbn",
     "first edition", "printed in", "distributed by"]

  const TocIndicators: seq<string> := ["contents", "chapters", "page"]

  /** A table-of-contents word, under 800 characters, and "page" twice or a
      dotted leader. */
  predicate LooksLikeToc(text: string)
  {
    var lower := Lower(text);
    && ContainsAny(lower, TocIndicators)
    && |text| < 800
    && (Occurrences(lower, "page") > 1 || Contains(text, "......"))
  }

  /** At most three `\n`-separated lines, each shorter than 100 characters. */
  predicate LooksLikeHeader(text: string)
  {
    var lines := Split(text, "\n");
    |lines| <= 3 && forall line :: line in lines ==> |line| < 100
  }

  /** More than ten whitespace-separated words, fewer than 30% distinct. */
  predicate LooksRepetitive(text: string)
  {
    var words := SplitWs(text);
    |words| > 10 && 10 * Distinct(words) < 3 * |words|
  }

  /** `classify_content_type`: the first of the five tests that holds. */
  function Classify(text: string): (c: ContentType)
    ensures c == FrontMatter <==> ContainsAny(Lower(text), FrontMatterIndicators)
    ensures c == Toc <==> !ContainsAny(Lower(text), FrontMatterIndicators) && LooksLikeToc(text)
    ensures c == Header <==>
      !ContainsAny(Lower(text), FrontMatterIndicators) && !LooksLikeToc(text) && LooksLikeHeader(text)
    ensures c == Repetitive <==>
      && !ContainsAny(Lower(text), FrontMatterIndicators) && !LooksLikeToc(text)
      && !LooksLikeHeader(text) && LooksRepetitive(text)
    ensures c == MainContent <==>
      && !ContainsAny(Lower(text), FrontMatterIndicators) && !LooksLikeToc(text)
      && !LooksLikeHeader(text) && !LooksRepetitive(text)
  {
    if ContainsAny(Lower(text), FrontMatterIndicators) then FrontMatter
    else if LooksLikeToc(text) then Toc
    else if LooksLikeHeader(text) then Header
    else if LooksRepetitive(text) then Repetitive
    else MainContent
  }

  /** The empty string is a header: it is one line of length 0. */
  lemma ClassifyEmpty()
    ensures Classify([]) == Header
  {
    forall x | x in FrontMatterIndicators ensures !Contains([], x) {
      ContainsNonEmptyInEmpty(x);
    }
    forall x | x in TocIndicators ensures !Contains([], x) {
      ContainsNonEmptyInEmpty(x);
    }
    assert Lower([]) == [];
    assert Split([], "\n") == [[]];
  }

  lemma {:induction false} JoinShortLines(lines: seq<string>)
    requires lines != []
    requires forall line :: line in lines ==> |line| < 100
    ensures |Join("\n", lines)| < 100 * |lines|
    decreases |lines|
  {
    assert lines[0] in lines;
    if |lines| > 1 {
      assert forall line :: line in lines[1..] ==> line in lines;
      JoinShortLines(lines[1..]);
    }
  }

  /** The header rule read forwards: text that is neither front matter nor
      a table of contents and has at most three lines, each shorter than 100
      characters, is a header, whatever its words. */
  lemma ClassifyHeader(text: string)
    requires !ContainsAny(Lower(text), FrontMatterIndicators) && !LooksLikeToc(text)
    requires |Split(text, "\n")| <= 3
    requires forall k :: 0 <= k < |Split(text, "\n")| ==> |Split(text, "\n")[k]| < 100
    ensures Classify(text) == Header
  {
    var lines := Split(text, "\n");
    forall line | line in lines ensures |line| < 100 {
      var k :| 0 <= k < |lines| && lines[k] == line;
    }
  }

  /** The repetition rule read forwards, with the source's real-valued ratio:
      text that is neither front matter, a table of contents nor a header,
      with more than ten whitespace-separated words of which fewer than 30%
      are distinct, is repetitive. */
  lemma ClassifyRepetitive(text: string)
    requires !ContainsAny(Lower(text), FrontMatterIndicators) && !LooksLikeToc(text)
    requires !LooksLikeHeader(text)
    requires |SplitWs(text)| > 10
    requires (Distinct(SplitWs(text)) as real) / (|SplitWs(text)| as real) < 0.3
    ensures Classify(text) == Repetitive
  {
    var words := SplitWs(text);
    QuotientBounds(Distinct(words) as real, |words| as real, 0.3);
  }

  /** A header is under 300 characters: three lines of at most 99 characters
      and two newlines. */
  lemma HeaderIsShort(text: string)
    requires Classify(text) == Header
    ensures |text| < 300
  {
    var lines := Split(text, "\n");
    JoinSplit(text, "\n");
    JoinShortLines(lines);
  }

  /** Front-matter detection ignores letter case. */
  lemma FrontMatterIgnoresCase(text: string)
    ensures Classify(text) == FrontMatter <==> Classify(Lower(text)) == FrontMatter
  {
    LowerIdempotent(text);
  }

  /** `is_quality_chunk`: the strict filter, applied to the stripped chunk. */
  function IsQualityChunk(chunk: string, chunkSize: int): (accepted: bool)
    ensures accepted ==> 80 <= |Strip(chunk)| && 2 * |Strip(chunk)| <= 3 * chunkSize
    ensures accepted ==> chunkSize >= 54
    ensures accepted ==> Classify(Strip(chunk)) == Repetitive || Classify(Strip(chunk)) == MainContent
    ensures accepted ==> |AlphaWords(Strip(chunk))| >= 8
    ensures accepted && |AlphaWords(Strip(chunk))| > 15 ==>
      2 * Distinct(AlphaWords(Strip(chunk))) >= |AlphaWords(Strip(chunk))|
    ensures accepted && |SentenceMatches(Strip(chunk))| >= 2 ==>
      25 * |SentenceMatches(Strip(chunk))| <= TotalLength(SentenceMatches(Strip(chunk)))
                                           <= 300 * |SentenceMatches(Strip(chunk))|
    ensures accepted ==> 5 * CountIf(Strip(chunk), IsSpecial) <= |Strip(chunk)|
    ensures accepted ==> 5 * CountIf(Strip(chunk), IsVisible) >= 3 * |Strip(chunk)|
    ensures
      (&& 80 <= |Strip(chunk)| && 2 * |Strip(chunk)| <= 3 * chunkSize
       && Classify(Strip(chunk)) !in {FrontMatter, Toc, Header}
       && |AlphaWords(Strip(chunk))| >= 8
       && (|AlphaWords(Strip(chunk))| > 15 ==>
             2 * Distinct(AlphaWords(Strip(chunk))) >= |AlphaWords(Strip(chunk))|)
       && (|SentenceMatches(Strip(chunk))| >= 2 ==>
             25 * |SentenceMatches(Strip(chunk))| <= TotalLength(SentenceMatches(Strip(chunk)))
                                                  <= 300 * |SentenceMatches(Strip(chunk))|)
       && 5 * CountIf(Strip(chunk), IsSpecial) <= |Strip(chunk)|
       && 5 * CountIf(Strip(chunk), IsVisible) >= 3 * |Strip(chunk)|)
      ==> accepted
  {
    var content := Strip(chunk);
    var n := |content|;
    if n < 80 || 2 * n > 3 * chunkSize then false
    else if Classify(content) in {FrontMatter, Toc, Header} then false
    else
      var words := AlphaWords(content);
      if |words| < 8 then false
      else if 2 * Distinct(words) < |words| && |words| > 15 then false
      else
        var sentences := SentenceMatches(content);
        if |sentences| >= 2
           && (TotalLength(sentences) < 25 * |sentences| || TotalLength(sentences) > 300 * |sentences|)
        then false
        else if 5 * CountIf(content, IsSpecial) > n then false
        else if 5 * CountIf(content, IsVisible) < 3 * n then false
        else true
  }

  /** Accepting anything takes a chunk size of at least 54, as 80 characters
      must not exceed 1.5 times it. */
  lemma QualityNeedsChunkSize(chunk: string, chunkSize: int)
    requires IsQualityChunk(chunk, chunkSize)
    ensures chunkSize >= 54
  {
  }

  /** A character `content.replace(' ', '').replace('\n', '')` keeps. */
  predicate IsVisible(c: char) { c != ' ' && c != '\n' }

  /** The filter strips first, so surrounding whitespace never changes its verdict. */
  lemma QualityIgnoresSurroundingSpace(chunk: string, chunkSize: int)
    ensures IsQualityChunk(Strip(chunk), chunkSize) == IsQualityChunk(chunk, chunkSize)
  {
    StripIdempotent(chunk);
  }

  /** Front matter is rejected whatever its length. */
  lemma FrontMatterRejected(chunk: string, chunkSize: int)
    requires ContainsAny(Lower(Strip(chunk)), FrontMatterIndicators)
    ensures !IsQualityChunk(chunk, chunkSize)
  {
  }

  /** Comparing a quotient with a constant is comparing the dividend with
      the constant times the (positive) divisor. */
  lemma QuotientBounds(x: real, y: real, q: real)
    requires y > 0.0
    ensures q <= x / y <==> q * y <= x
    ensures x / y <= q <==> x <= q * y
  {
    var r := x / y;
    assert r * y == x;
    if q <= r { assert q * y <= r * y; }
    if q * y <= x { assert q <= r; }
    if r <= q { assert r * y <= q * y; }
    if x <= q * y { assert r <= q; }
  }

  /** The length term: 0.4 when `len / chunk_size` is in [0.7, 1.0], else 0.2
      when it is in [0.5, 1.2]. */
  function LengthTerm(length: nat, chunkSize: int): (term: real)
    requires chunkSize != 0
    ensures term == 0.0 || term == 0.2 || term == 0.4
    ensures chunkSize > 0 ==> (term == 0.4 <==> 7 * chunkSize <= 10 * length <= 10 * chunkSize)
    ensures chunkSize > 0 ==>
      (term == 0.2 <==> 5 * chunkSize <= 10 * length <= 12 * chunkSize && !(7 * chunkSize <= 10 * length <= 10 * chunkSize))
    ensures chunkSize < 0 && length > 0 ==> term == 0.0
  {
    var ratio := length as real / chunkSize as real;
    if chunkSize > 0 then
      QuotientBounds(length as real, chunkSize as real, 0.7);
      QuotientBounds(length as real, chunkSize as real, 1.0);
      QuotientBounds(length as real, chunkSize as real, 0.5);
      QuotientBounds(length as real, chunkSize as real, 1.2);
      if 0.7 <= ratio <= 1.0 then 0.4
      else if 0.5 <= ratio <= 1.2 then 0.2
      else 0.0
    else
      QuotientBounds(-(length as real), -(chunkSize as real), 0.0);
      assert -(length as real) / -(chunkSize as real) == ratio;
      if 0.7 <= ratio <= 1.0 then 0.4
      else if 0.5 <= ratio <= 1.2 then 0.2
      else 0.0
  }

  /** The diversity term: `unique_ratio * 0.3`, only with eight or more words. */
  function DiversityTerm(words: seq<string>): (term: real)
    ensures 0.0 <= term <= 0.3
    ensures |words| < 8 <==> term == 0.0
  {
    if |words| >= 8 then
      DistinctAtMostLength(words);
      DistinctAtLeastOne(words);
      (Distinct(words) as real / |words| as real) * 0.3
    else 0.0
  }

  /** The structure term: 0.3 when there are at least two matches and their
      mean length is in [40, 200]. The matches are runs of `[.!?]+`. */
  function StructureTerm(runs: seq<string>): (term: real)
    ensures term == 0.0 || term == 0.3
  {
    if |runs| >= 2 then
      var mean := TotalLength(runs) as real / |runs| as real;
      if 40.0 <= mean <= 200.0 then 0.3 else 0.0
    else 0.0
  }

  /** `calculate_quality_score`, capped at 1.0. */
  function QualityScore(text: string, chunkSize: int): (score: real)
    requires chunkSize != 0
    ensures 0.0 <= score <= 1.0
    ensures score == LengthTerm(|text|, chunkSize) + DiversityTerm(AlphaWords(text)) + StructureTerm(PunctRuns(text))
  {
    var sum := LengthTerm(|text|, chunkSize) + DiversityTerm(AlphaWords(text)) + StructureTerm(PunctRuns(text));
    if sum <= 1.0 then sum else 1.0
  }

  /** The empty string scores 0. */
  lemma ScoreOfEmpty(chunkSize: int)
    requires chunkSize != 0
    ensures QualityScore([], chunkSize) == 0.0
  {
    assert AlphaWords([]) == [];
    assert PunctRuns([]) == [];
  }

  /** The "sentence" bonus averages the lengths of punctuation runs, so it is
      only paid when some run of `.`, `!` and `?` is 40 characters long. */
  lemma StructureBonusNeedsLongPunctuationRun(text: string)
    requires StructureTerm(PunctRuns(text)) > 0.0
    ensures exists run :: run in PunctRuns(text) && |run| >= 40
  {
    var runs := PunctRuns(text);
    if forall run :: run in runs ==> |run| < 40 {
      TotalLengthBelow(runs, 40);
      QuotientBounds(TotalLength(runs) as real, |runs| as real, 40.0);
      assert false;
    }
  }
}
