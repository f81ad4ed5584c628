/** `TextPreprocessor` of `preprocessor.py`: the eight-step `clean_text`
    chain, `normalize_whitespace`, the counts of `detect_language_patterns`
    and the bookkeeping of `preprocess_document`. Each pattern of lines
    13-21 is written out as the left-to-right scan `re.sub` performs: at
    each position it tries a match, replaces it and resumes after it, or
    keeps the character and moves on. */
module Preprocessor {
  import opened Text
  import opened Patterns
  import opened Documents

  /** Length of the `https?://` at offset `i`, or 0. */
  function UrlScheme(s: string, i: nat): nat
    requires i <= |s|
  {
    if "https://" <= s[i..] then 8 else if "http://" <= s[i..] then 7 else 0
  }

  /** Step 1, `https?://\S+` replaced by a space. */
  function RemoveUrlsFrom(s: string, i: nat): (r: string)
    requires i <= |s|
    ensures |r| <= |s| - i
    ensures forall c :: c in r ==> c in s || c == ' '
    decreases |s| - i
  {
    if i == |s| then []
    else
      var p := UrlScheme(s, i);
      if p > 0 && i + p < |s| && !IsSpace(s[i + p]) then [' '] + RemoveUrlsFrom(s, RunEnd(s, i + p, NotSpace))
      else [s[i]] + RemoveUrlsFrom(s, i + 1)
  }

  /** Step 1, `\S+@\S+` replaced by a space. From a non-space character the
      pattern matches when the rest of its non-space run has an `@` with a
      non-space character on each side, and the greedy `\S+` then takes the
      match to the end of the run. */
  function RemoveEmailsFrom(s: string, i: nat): (r: string)
    requires i <= |s|
    ensures |r| <= |s| - i
    ensures forall c :: c in r ==> c in s || c == ' '
    decreases |s| - i
  {
    if i == |s| then []
    else if IsSpace(s[i]) then [s[i]] + RemoveEmailsFrom(s, i + 1)
    else
      var q := RunEnd(s, i, NotSpace);
      if q - i >= 3 && '@' in s[i + 1..q - 1] then [' '] + RemoveEmailsFrom(s, q)
      else [s[i]] + RemoveEmailsFrom(s, i + 1)
  }

  /** Python's `s.replace(pat, rep)`: non-overlapping occurrences, left to right. */
  function Replace(s: string, pat: string, rep: string): (r: string)
    requires pat != [] && |rep| <= |pat|
    ensures |r| <= |s|
    ensures forall c :: c in r ==> c in s || c in rep
    ensures |pat| == 1 && pat[0] !in rep ==> pat[0] !in r
    decreases |s|
  {
    if |s| < |pat| then s
    else if pat <= s then rep + Replace(s[|pat|..], pat, rep)
    else
      assert |pat| == 1 ==> s[0] != pat[0];
      [s[0]] + Replace(s[1..], pat, rep)
  }

  /** Step 2: `\r\n` and then every remaining `\r` become `\n`. */
  function NormalizeLineEndings(s: string): (r: string)
    ensures |r| <= |s|
    ensures forall c :: c in r ==> c in s || c == '\n'
    ensures '\r' !in r
  {
    Replace(Replace(s, "\r\n", "\n"), "\r", "\n")
  }

  /** Step 3, `\n\s*\n\s*\n+` replaced by a blank line. From a newline the
      pattern needs two more newlines in the same whitespace run; the greedy
      `\s*` makes the match end just after the run's last newline. */
  function SqueezeBlankLinesFrom(s: string, i: nat): (r: string)
    requires i <= |s|
    ensures |r| <= |s| - i
    ensures forall c :: c in r ==> c in s || c == '\n'
    decreases |s| - i
  {
    if i == |s| then []
    else if s[i] == '\n' then
      var q := RunEnd(s, i, IsSpace);
      var last := LastNewline(s, i + 1, q);
      if last >= 0 && LastNewline(s, i + 1, last) >= 0 then "\n\n" + SqueezeBlankLinesFrom(s, last + 1)
      else [s[i]] + SqueezeBlankLinesFrom(s, i + 1)
    else [s[i]] + SqueezeBlankLinesFrom(s, i + 1)
  }

  predicate IsBlank(c: char) { c == ' ' || c == '\t' }

  /** Step 4, `[ \t]+` replaced by one space. */
  function SqueezeBlanksFrom(s: string, i: nat): (r: string)
    requires i <= |s|
    ensures |r| <= |s| - i
    ensures forall c :: c in r ==> c in s || c == ' '
    ensures '\t' !in r
    decreases |s| - i
  {
    if i == |s| then []
    else if IsBlank(s[i]) then [' '] + SqueezeBlanksFrom(s, RunEnd(s, i, IsBlank))
    else [s[i]] + SqueezeBlanksFrom(s, i + 1)
  }

  /** The characters `[^\w\s.,!?;:()\-@\']` does not match. */
  predicate KeptChar(c: char) { IsWordChar(c) || IsSpace(c) || c in ".,!?;:()-@'" }

  /** Step 5: every other character becomes a space. */
  function ReplaceSpecial(s: string): (r: string)
    ensures |r| == |s|
    ensures forall i :: 0 <= i < |s| ==> r[i] == (if KeptChar(s[i]) then s[i] else ' ')
  {
    seq(|s|, i requires 0 <= i < |s| => if KeptChar(s[i]) then s[i] else ' ')
  }

  /** Number of dots `s` starts with. */
  function LeadingDots(s: string): (n: nat)
    ensures n <= |s|
  {
    if s != [] && s[0] == '.' then 1 + LeadingDots(s[1..]) else 0
  }

  /** The dots end where a character other than a dot begins. */
  lemma {:induction false} LeadingDotsEnd(s: string)
    ensures LeadingDots(s) < |s| ==> s[LeadingDots(s)] != '.'
    decreases |s|
  {
    if s != [] && s[0] == '.' {
      LeadingDotsEnd(s[1..]);
    }
  }

  /** Step 6, `\.{4,}` replaced by three dots. */
  function CollapseDotsFrom(s: string, i: nat): (r: string)
    requires i <= |s|
    ensures |r| <= |s| - i
    ensures forall c :: c in r ==> c in s || c == '.'
    decreases |s| - i
  {
    if i == |s| then []
    else if s[i] == '.' && LeadingDots(s[i..]) >= 4 then "..." + CollapseDotsFrom(s, i + LeadingDots(s[i..]))
    else [s[i]] + CollapseDotsFrom(s, i + 1)
  }

  /** Step 7, `\s+[a-zA-Z]\s+`, matches at `i`. Whitespace runs are
      maximal, so a match starts at a run and needs a letter right after it
      followed by more whitespace. */
  predicate IsolatedAt(s: string, i: nat)
    requires i < |s|
  {
    var q := RunEnd(s, i, IsSpace);
    IsSpace(s[i]) && q + 1 < |s| && IsAsciiLetter(s[q]) && IsSpace(s[q + 1])
  }

  /** The match takes all of the whitespace after the letter. */
  function IsolatedEnd(s: string, i: nat): (e: nat)
    requires i < |s| && IsolatedAt(s, i)
    ensures i < e <= |s|
  {
    RunEnd(s, RunEnd(s, i, IsSpace) + 1, IsSpace)
  }

  /** Step 7: each match replaced by a space. */
  function DropIsolatedFrom(s: string, i: nat): (r: string)
    requires i <= |s|
    ensures |r| <= |s| - i
    ensures forall c :: c in r ==> c in s || c == ' '
    decreases |s| - i
  {
    if i == |s| then []
    else if IsolatedAt(s, i) then [' '] + DropIsolatedFrom(s, IsolatedEnd(s, i))
    else [s[i]] + DropIsolatedFrom(s, i + 1)
  }

  /** `clean_text` (lines 23-53): the eight steps in order. It maps the
      empty text to itself, never makes the text longer, and leaves no
      whitespace at either end. */
  function CleanText(text: string): (r: string)
    ensures text == [] ==> r == []
    ensures |r| <= |text|
    ensures r != [] ==> IsTrimmed(r)
  {
    if text == [] then []
    else
      var noUrls := RemoveUrlsFrom(text, 0);
      var noEmails := RemoveEmailsFrom(noUrls, 0);
      var lines := NormalizeLineEndings(noEmails);
      var paragraphs := SqueezeBlankLinesFrom(lines, 0);
      var spaced := SqueezeBlanksFrom(paragraphs, 0);
      var plain := ReplaceSpecial(spaced);
      var dotted := CollapseDotsFrom(plain, 0);
      var compact := DropIsolatedFrom(dotted, 0);
      assert |compact| <= |dotted| <= |plain| == |spaced| <= |paragraphs| <= |lines| <= |noEmails| <= |noUrls| <= |text|;
      Strip(compact)
  }

  /** A string whose first `k` characters are dots starts with at least
      `k` dots, and the other way round. */
  lemma {:induction false} DotsPrefix(s: string, k: nat)
    requires k <= |s| && forall j :: 0 <= j < k ==> s[j] == '.'
    ensures LeadingDots(s) >= k
    decreases k
  {
    if k > 0 {
      DotsPrefix(s[1..], k - 1);
    }
  }

  lemma {:induction false} LeadingDotsAll(s: string, k: nat)
    requires k <= LeadingDots(s)
    ensures forall j :: 0 <= j < k ==> s[j] == '.'
    decreases k
  {
    if k > 0 {
      LeadingDotsAll(s[1..], k - 1);
      assert forall j :: 1 <= j < k ==> s[j] == s[1..][j - 1];
    }
  }

  /** A run of `k` dots starts `s` exactly when `s` starts with `k` or more dots. */
  lemma DotsStart(s: string, k: nat)
    ensures Dots(k) <= s <==> LeadingDots(s) >= k
  {
    if Dots(k) <= s {
      assert forall j :: 0 <= j < k ==> s[j] == Dots(k)[j];
      DotsPrefix(s, k);
    }
    if LeadingDots(s) >= k {
      LeadingDotsAll(s, k);
      assert s[..k] == Dots(k);
    }
  }

  function Dots(k: nat): (r: string)
    ensures |r| == k && forall j :: 0 <= j < k ==> r[j] == '.'
  {
    seq(k, _ => '.')
  }

  /** Putting a character in front of a string without four dots in a row
      keeps it so, unless it is a dot and the string starts with three. */
  lemma DotCons(c: char, t: string)
    requires !Contains(t, "....")
    requires c == '.' ==> LeadingDots(t) <= 2
    ensures !Contains([c] + t, "....")
    ensures LeadingDots([c] + t) == if c == '.' then 1 + LeadingDots(t) else 0
  {
    var u := [c] + t;
    assert u[1..] == t;
    assert Dots(4) == "...." && Dots(3) == "...";
    DotsStart(t, 3);
    assert "...." <= u <==> (c == '.' && "..." <= t) by {
      if |t| >= 3 {
        assert u[..4] == [c] + t[..3];
      }
    }
  }

  /** Three dots in front of a string that starts with no dot. */
  lemma ThreeDots(t: string)
    requires !Contains(t, "....") && LeadingDots(t) == 0
    ensures !Contains("..." + t, "....")
    ensures LeadingDots("..." + t) == 3
  {
    DotCons('.', t);
    DotCons('.', ['.'] + t);
    DotCons('.', ['.', '.'] + t);
    assert "..." + t == ['.'] + (['.', '.'] + t);
    assert ['.', '.'] + t == ['.'] + (['.'] + t);
  }

  /** A suffix of a string without `sub` has no `sub`. */
  lemma {:induction false} NoContainsSuffix(s: string, sub: string, i: nat, e: nat)
    requires i <= e <= |s| && !Contains(s[i..], sub)
    ensures !Contains(s[e..], sub)
    decreases e - i
  {
    if i < e {
      assert s[i..][1..] == s[i + 1..];
      NoContainsSuffix(s, sub, i + 1, e);
    }
  }

  /** After step 6 no four dots are left in a row, and the output starts
      with as many dots as the input, but at most three. */
  lemma {:induction false} CollapseDotsLeavesNoFourDots(s: string, i: nat)
    requires i <= |s|
    ensures !Contains(CollapseDotsFrom(s, i), "....")
    ensures LeadingDots(CollapseDotsFrom(s, i)) == Min(LeadingDots(s[i..]), 3)
    decreases |s| - i
  {
    if i < |s| {
      var n := LeadingDots(s[i..]);
      assert n == (if s[i] == '.' then 1 + LeadingDots(s[i + 1..]) else 0) by {
        assert s[i..][1..] == s[i + 1..];
      }
      if s[i] == '.' && n >= 4 {
        var e := i + n;
        CollapseDotsLeavesNoFourDots(s, e);
        LeadingDotsEnd(s[i..]);
        assert e < |s| ==> s[e] == s[i..][n];
        ThreeDots(CollapseDotsFrom(s, e));
      } else {
        CollapseDotsLeavesNoFourDots(s, i + 1);
        DotCons(s[i], CollapseDotsFrom(s, i + 1));
      }
    }
  }

  /** Dropping the first character of a string without four dots in a
      row: a leading dot is followed by at most two more. */
  lemma NoFourDotsStep(s: string, i: nat)
    requires i < |s| && !Contains(s[i..], "....")
    ensures !Contains(s[i + 1..], "....")
    ensures LeadingDots(s[i..]) == if s[i] == '.' then 1 + LeadingDots(s[i + 1..]) else 0
    ensures s[i] == '.' ==> LeadingDots(s[i + 1..]) <= 2
  {
    assert s[i..][1..] == s[i + 1..];
    DotsStart(s[i..], 4);
    assert Dots(4) == "....";
  }

  /** Step 7 puts a single space where it removes something, so it cannot
      join two runs of dots. */
  lemma {:induction false} DropIsolatedKeepsNoFourDots(s: string, i: nat)
    requires i <= |s| && !Contains(s[i..], "....")
    ensures !Contains(DropIsolatedFrom(s, i), "....")
    ensures LeadingDots(DropIsolatedFrom(s, i)) == LeadingDots(s[i..])
    decreases |s| - i
  {
    if i < |s| {
      NoFourDotsStep(s, i);
      if IsolatedAt(s, i) {
        var e := IsolatedEnd(s, i);
        NoContainsSuffix(s, "....", i, e);
        DropIsolatedKeepsNoFourDots(s, e);
        DropIsolatedMatch(s, i);
      } else {
        DropIsolatedKeepsNoFourDots(s, i + 1);
        DropIsolatedKeep(s, i);
      }
    }
  }

  /** A match at `i` leaves one space before the rest. */
  lemma DropIsolatedMatch(s: string, i: nat)
    requires i < |s| && IsolatedAt(s, i)
    requires !Contains(DropIsolatedFrom(s, IsolatedEnd(s, i)), "....")
    ensures !Contains(DropIsolatedFrom(s, i), "....")
    ensures LeadingDots(DropIsolatedFrom(s, i)) == 0
    ensures LeadingDots(s[i..]) == 0
  {
    assert DropIsolatedFrom(s, i) == [' '] + DropIsolatedFrom(s, IsolatedEnd(s, i));
    DotCons(' ', DropIsolatedFrom(s, IsolatedEnd(s, i)));
    assert s[i..][0] == s[i];
  }

  /** A character step 7 keeps stays in front of the rest. */
  lemma DropIsolatedKeep(s: string, i: nat)
    requires i < |s| && !IsolatedAt(s, i)
    requires !Contains(DropIsolatedFrom(s, i + 1), "....")
    requires s[i] == '.' ==> LeadingDots(DropIsolatedFrom(s, i + 1)) <= 2
    ensures !Contains(DropIsolatedFrom(s, i), "....")
    ensures LeadingDots(DropIsolatedFrom(s, i)) == if s[i] == '.' then 1 + LeadingDots(DropIsolatedFrom(s, i + 1)) else 0
  {
    assert DropIsolatedFrom(s, i) == [s[i]] + DropIsolatedFrom(s, i + 1);
    DotCons(s[i], DropIsolatedFrom(s, i + 1));
  }

  /** Steps 2-8 bring in no carriage return or tab: step 2 removes every
      `\r`, step 4 every tab, and later steps insert only spaces, newlines
      and dots. */
  lemma CleanTextNoControl(text: string)
    ensures '\r' !in CleanText(text) && '\t' !in CleanText(text)
  {
    if text != [] {
      var noUrls := RemoveUrlsFrom(text, 0);
      var noEmails := RemoveEmailsFrom(noUrls, 0);
      var lines := NormalizeLineEndings(noEmails);
      var paragraphs := SqueezeBlankLinesFrom(lines, 0);
      var spaced := SqueezeBlanksFrom(paragraphs, 0);
      var plain := ReplaceSpecial(spaced);
      var dotted := CollapseDotsFrom(plain, 0);
      var compact := DropIsolatedFrom(dotted, 0);
      assert '\r' !in paragraphs && '\r' !in spaced;
      assert '\r' !in plain && '\t' !in plain by {
        forall i | 0 <= i < |plain| ensures plain[i] != '\r' && plain[i] != '\t' {
          assert spaced[i] in spaced;
        }
      }
      assert '\r' !in compact && '\t' !in compact;
      StripChars(compact);
    }
  }

  /** No four dots in a row survive `clean_text`. */
  lemma CleanTextNoFourDots(text: string)
    ensures !Contains(CleanText(text), "....")
  {
    if text != [] {
      var noUrls := RemoveUrlsFrom(text, 0);
      var noEmails := RemoveEmailsFrom(noUrls, 0);
      var lines := NormalizeLineEndings(noEmails);
      var paragraphs := SqueezeBlankLinesFrom(lines, 0);
      var spaced := SqueezeBlanksFrom(paragraphs, 0);
      var plain := ReplaceSpecial(spaced);
      var dotted := CollapseDotsFrom(plain, 0);
      var compact := DropIsolatedFrom(dotted, 0);
      CollapseDotsLeavesNoFourDots(plain, 0);
      assert dotted[0..] == dotted;
      DropIsolatedKeepsNoFourDots(dotted, 0);
      StripKeepsAbsent(compact, "....");
      assert CleanText(text) == Strip(compact);
    }
  }

  /** `normalize_whitespace` (lines 55-57). */
  function NormalizeWhitespace(text: string): string
  {
    Join(" ", SplitWs(text))
  }

  /** The normalised text has the same words, separated by single spaces,
      with nothing around them; normalising it again changes nothing. */
  lemma NormalizeWhitespaceFacts(text: string)
    ensures SplitWs(NormalizeWhitespace(text)) == SplitWs(text)
    ensures SingleSpaced(NormalizeWhitespace(text))
    ensures NormalizeWhitespace(text) != [] ==> IsTrimmed(NormalizeWhitespace(text))
    ensures NormalizeWhitespace(NormalizeWhitespace(text)) == NormalizeWhitespace(text)
  {
    var words := SplitWs(text);
    SplitWsTokens(text);
    forall k | 0 <= k < |words| ensures IsTrimmed(words[k]) && SingleSpaced(words[k]) {
      assert words[k] in words;
      assert words[k][0] in words[k];
      assert words[k][|words[k]| - 1] in words[k];
      assert forall i :: 0 <= i < |words[k]| ==> words[k][i] in words[k];
    }
    JoinSingleSpaced(words);
    SplitWsJoin(words);
  }

  /** `[؀-ۿ]`: a character of the Arabic block. */
  predicate IsArabic(c: char) { '\U{600}' <= c <= '\U{6FF}' }

  /** The dictionary `detect_language_patterns` returns. */
  datatype LanguagePatterns = LanguagePatterns(
    arabicRatio: real, englishRatio: real,
    sentenceCount: nat, paragraphCount: nat, wordCount: nat)

  /** `n / total if total > 0 else 0`. */
  function Ratio(n: nat, total: nat): (r: real)
    requires n <= total
    ensures 0.0 <= r <= 1.0
    ensures total == 0 ==> r == 0.0
  {
    if total > 0 then
      assert (n as real) / (total as real) <= (total as real) / (total as real);
      (n as real) / (total as real)
    else 0.0
  }

  lemma {:induction false} DisjointCounts(s: string)
    ensures CountIf(s, IsArabic) + CountIf(s, IsAsciiLetter) <= |s|
    decreases |s|
  {
    if s != [] {
      DisjointCounts(s[1..]);
    }
  }

  /** `detect_language_patterns` (lines 59-72). */
  function DetectLanguagePatterns(text: string): (p: LanguagePatterns)
  {
    LanguagePatterns(
      Ratio(CountIf(text, IsArabic), |text|),
      Ratio(CountIf(text, IsAsciiLetter), |text|),
      |PunctRuns(text)|,
      |Split(text, "\n\n")|,
      |AlphaWords(text)|)
  }

  /** The ratios are 0 for the empty text and otherwise fractions, and no
      character is both Arabic and an ASCII letter, so the two counts the
      ratios divide add up to at most the text's length;
      there is one more paragraph than there are blank-line separators. */
  lemma DetectLanguagePatternsFacts(text: string)
    ensures var p := DetectLanguagePatterns(text);
      && (text == [] ==> p.arabicRatio == 0.0 && p.englishRatio == 0.0)
      && 0.0 <= p.arabicRatio <= 1.0 && 0.0 <= p.englishRatio <= 1.0
      && CountIf(text, IsArabic) + CountIf(text, IsAsciiLetter) <= |text|
      && p.paragraphCount == Occurrences(text, "\n\n") + 1
  {
    DisjointCounts(text);
    SplitCount(text, "\n\n");
  }

  /** A ratio as the source stores it: the integer 0 for an empty text. */
  function RatioValue(n: nat, total: nat): Value
    requires n <= total
  {
    if total > 0 then RealV(Ratio(n, total)) else IntV(0)
  }

  /** The `preprocessing` metadata entry of lines 83-89. */
  function PreprocessingInfo(original: string, cleaned: string): Value
  {
    var p := DetectLanguagePatterns(cleaned);
    MapV(map[
      "original_length" := IntV(|original|),
      "cleaned_length" := IntV(|cleaned|),
      "reduction_percent" :=
        (if original != [] then RealV((1.0 - (|cleaned| as real) / (|original| as real)) * 100.0) else IntV(0)),
      "language_patterns" := MapV(map[
        "arabic_ratio" := RatioValue(CountIf(cleaned, IsArabic), |cleaned|),
        "english_ratio" := RatioValue(CountIf(cleaned, IsAsciiLetter), |cleaned|),
        "sentence_count" := IntV(p.sentenceCount),
        "paragraph_count" := IntV(p.paragraphCount),
        "word_count" := IntV(p.wordCount)])])
  }

  /** `preprocess_document` (lines 74-95): the content is replaced by its
      cleaned text, which is no longer than before, and the metadata gains
      the `preprocessing` entry; every other key is left as it was. */
  method PreprocessDocument(document: Document) returns (result: Document)
    modifies document
    ensures result == document
    ensures document.content == CleanText(old(document.content))
    ensures |document.content| <= |old(document.content)|
    ensures document.metadata == old(document.metadata)["preprocessing" := PreprocessingInfo(old(document.content), document.content)]
  {
    var originalContent := document.content;
    var cleanedContent := CleanText(originalContent);
    document.metadata := document.metadata["preprocessing" := PreprocessingInfo(originalContent, cleanedContent)];
    document.content := cleanedContent;
    result := document;
  }
}
