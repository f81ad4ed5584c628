/** The format loaders of `loader.py`: the noise predicates and the line
    filters applied to the text that PDF, Word and plain-text files yield,
    the suffix checks, and the dispatch of `DocumentLoader`. The text the
    PDF, Word and encoding libraries extract comes in as parameters. */
module Loader {
  import opened Text
  import opened Documents

  predicate IsDot(c: char) { c == '.' }
  predicate IsDash(c: char) { c == '-' }
  predicate IsEquals(c: char) { c == '=' }
  predicate IsRule(c: char) { c == '-' || c == '=' }

  /** `str.isdigit()`: non-empty and made of digits only. */
  predicate IsDigitString(s: string) { s != [] && forall c :: c in s ==> IsAsciiDigit(c) }

  /** `re.match(r'^\s*page\s*\d+\s*$', s, re.IGNORECASE)`. Whitespace and
      digits are disjoint, so each greedy run ends where the next one starts. */
  predicate PageNumberLine(s: string)
  {
    var a := RunEnd(s, 0, IsSpace);
    a + 4 <= |s| && Lower(s[a..a + 4]) == "page" &&
    (var b := RunEnd(s, a + 4, IsSpace);
     var c := RunEnd(s, b, IsAsciiDigit);
     b < c && RunEnd(s, c, IsSpace) == |s|)
  }

  /** `^\s*\d+\s*$`: a bare number. */
  predicate BareNumberLine(s: string)
  {
    var a := RunEnd(s, 0, IsSpace);
    var c := RunEnd(s, a, IsAsciiDigit);
    a < c && RunEnd(s, c, IsSpace) == |s|
  }

  /** `^\.{10,}$`: ten or more dots, where `$` also accepts one final newline. */
  predicate DottedLine(s: string)
  {
    var d := RunEnd(s, 0, IsDot);
    d >= 10 && (d == |s| || (d == |s| - 1 && s[d] == '\n'))
  }

  /** `^[\-\=]+\s*$`: a rule of dashes or equals signs. */
  predicate RuleLine(s: string)
  {
    var d := RunEnd(s, 0, IsRule);
    d > 0 && RunEnd(s, d, IsSpace) == |s|
  }

  /** The four compiled `noise_patterns` of `PDFLoader` (lines 29-34). */
  predicate PdfPatternLine(s: string)
  {
    PageNumberLine(s) || BareNumberLine(s) || DottedLine(s) || RuleLine(s)
  }

  /** The header and footer indicators of lines 52-56. */
  const PdfNoiseIndicators: seq<string> :=
    ["copyright", "all rights reserved", "published by", "chapter", "section",
     "table of contents", "contents", "......", "---------",
     "\U{2013}\U{2013}\U{2013}\U{2013}\U{2013}\U{2013}", "page", "isbn"]

  /** `PDFLoader.is_noise_line` (lines 36-63). */
  predicate PdfNoiseLine(line: string)
  {
    var s := Strip(line);
    || |s| < 3
    || IsDigitString(s)
    || PdfPatternLine(s)
    || (ContainsAny(Lower(s), PdfNoiseIndicators) && |s| < 100)
  }

  /** The predicate strips first, so surrounding whitespace does not matter;
      short lines, numbers and pattern lines are noise, and an indicator
      word makes a line noise only below 100 characters. */
  lemma PdfNoiseLineFacts(line: string)
    ensures PdfNoiseLine(Strip(line)) == PdfNoiseLine(line)
    ensures |Strip(line)| < 3 ==> PdfNoiseLine(line)
    ensures IsDigitString(Strip(line)) || PdfPatternLine(Strip(line)) ==> PdfNoiseLine(line)
    ensures |Strip(line)| < 100 && ContainsAny(Lower(Strip(line)), PdfNoiseIndicators) ==> PdfNoiseLine(line)
    ensures |Strip(line)| >= 100 ==>
      (PdfNoiseLine(line) <==> IsDigitString(Strip(line)) || PdfPatternLine(Strip(line)))
  {
    StripIdempotent(line);
  }

  /** Lines 76-80 for one line: kept, with its whitespace runs collapsed,
      when it is not empty after stripping and not noise. */
  function PdfLine(line: string): seq<string>
  {
    var c := Strip(line);
    if c != [] && !PdfNoiseLine(c) then [CollapseSpace(c)] else []
  }

  /** The `clean_lines` list built from `lines`. */
  function PdfCleanLines(lines: seq<string>): seq<string>
  {
    if lines == [] then []
    else PdfCleanLines(lines[..|lines| - 1]) + PdfLine(lines[|lines| - 1])
  }

  /** What `extract_clean_text` returns for the page text `text` (lines 65-82). */
  function PdfCleanText(text: string): string
  {
    if text == [] then [] else Join(" ", PdfCleanLines(Split(text, "\n")))
  }

  /** `PDFLoader.extract_clean_text` on the text `page.extract_text()` returned
      (an absent text is the empty string). */
  method ExtractCleanText(text: string) returns (cleanText: string)
    ensures cleanText == PdfCleanText(text)
  {
    if text == [] {
      return [];
    }
    var lines := Split(text, "\n");
    var cleanLines: seq<string> := [];
    for i := 0 to |lines|
      invariant cleanLines == PdfCleanLines(lines[..i])
    {
      assert lines[..i + 1][..i] == lines[..i];
      var cleanLine := Strip(lines[i]);
      if cleanLine != [] && !PdfNoiseLine(cleanLine) {
        cleanLine := CollapseSpace(cleanLine);
        cleanLines := cleanLines + [cleanLine];
      }
    }
    assert lines[..|lines|] == lines;
    cleanText := Join(" ", cleanLines);
  }

  /** Every kept line is trimmed and single-spaced. */
  lemma {:induction false} PdfCleanLinesShape(lines: seq<string>)
    ensures forall k :: 0 <= k < |PdfCleanLines(lines)| ==>
      IsTrimmed(PdfCleanLines(lines)[k]) && SingleSpaced(PdfCleanLines(lines)[k])
    decreases |lines|
  {
    if lines != [] {
      PdfCleanLinesShape(lines[..|lines| - 1]);
      var c := Strip(lines[|lines| - 1]);
      if c != [] && !PdfNoiseLine(c) {
        CollapseSpaceSingleSpaced(c);
      }
    }
  }

  /** The cleaned page text is trimmed and single-spaced, so it holds no
      newline: the page's lines are run together with single spaces. */
  lemma PdfCleanTextShape(text: string)
    ensures SingleSpaced(PdfCleanText(text))
    ensures PdfCleanText(text) != [] ==> IsTrimmed(PdfCleanText(text))
    ensures '\n' !in PdfCleanText(text)
  {
    if text != [] {
      PdfCleanLinesShape(Split(text, "\n"));
      JoinSingleSpaced(PdfCleanLines(Split(text, "\n")));
    }
    var r := PdfCleanText(text);
    assert forall i :: 0 <= i < |r| ==> r[i] != '\n' by {
      forall i | 0 <= i < |r| ensures r[i] != '\n' {
        assert IsSpace('\n');
      }
    }
  }

  /** Line 101: a page counts when its cleaned text is longer than 50 characters. */
  function MeaningfulPage(page: string): seq<string>
  {
    var t := PdfCleanText(page);
    if t != [] && |t| > 50 then [t] else []
  }

  /** The cleaned texts of the pages that count, in page order. */
  function MeaningfulPages(pages: seq<string>): seq<string>
  {
    if pages == [] then []
    else MeaningfulPages(pages[..|pages| - 1]) + MeaningfulPage(pages[|pages| - 1])
  }

  /** Each page text followed by a blank line, as line 102 accumulates them. */
  function Blocks(texts: seq<string>): string
  {
    if texts == [] then [] else Blocks(texts[..|texts| - 1]) + texts[|texts| - 1] + "\n\n"
  }

  lemma {:induction false} BlocksJoin(texts: seq<string>)
    requires texts != []
    ensures Blocks(texts) == Join("\n\n", texts) + "\n\n"
    decreases |texts|
  {
    var init := texts[..|texts| - 1];
    if init == [] {
      assert texts == [texts[0]];
    } else {
      BlocksJoin(init);
      JoinSnoc("\n\n", init, texts[|texts| - 1]);
      assert init + [texts[|texts| - 1]] == texts;
    }
  }

  lemma BlankLineIsSpace()
    ensures forall m :: 0 <= m < |"\n\n"| ==> IsSpace("\n\n"[m])
  {
    assert IsSpace('\n');
  }

  /** Trimmed page texts joined by blank lines are trimmed. */
  lemma JoinTrimmed(texts: seq<string>)
    requires texts != []
    requires forall k :: 0 <= k < |texts| ==> IsTrimmed(texts[k])
    ensures IsTrimmed(Join("\n\n", texts))
  {
    var first, last := texts[0], texts[|texts| - 1];
    assert IsTrimmed(first) && IsTrimmed(last);
    JoinEnds("\n\n", texts);
  }

  /** Stripping the accumulated blocks leaves the trimmed page texts joined
      by blank lines. */
  lemma StripBlocks(texts: seq<string>)
    requires forall k :: 0 <= k < |texts| ==> IsTrimmed(texts[k])
    ensures Strip(Blocks(texts)) == Join("\n\n", texts)
  {
    if texts != [] {
      var joined := Join("\n\n", texts);
      BlocksJoin(texts);
      JoinTrimmed(texts);
      BlankLineIsSpace();
      StripTrailingSpace(joined, "\n\n");
    }
  }

  lemma {:induction false} MeaningfulPagesTrimmed(pages: seq<string>)
    ensures forall k :: 0 <= k < |MeaningfulPages(pages)| ==>
      IsTrimmed(MeaningfulPages(pages)[k]) && |MeaningfulPages(pages)[k]| > 50
    decreases |pages|
  {
    if pages != [] {
      MeaningfulPagesTrimmed(pages[..|pages| - 1]);
      PdfCleanTextShape(pages[|pages| - 1]);
    }
  }

  /** The page loop of `PDFLoader.load` (lines 98-110) over the texts the
      pages yield: the content is the cleaned text of every page longer
      than 50 characters, in order, separated by blank lines, and
      `meaningful_pages` counts those pages. */
  method AssemblePdfContent(pages: seq<string>) returns (content: string, meaningfulPages: nat)
    ensures content == Join("\n\n", MeaningfulPages(pages))
    ensures meaningfulPages == |MeaningfulPages(pages)|
  {
    content := [];
    meaningfulPages := 0;
    for i := 0 to |pages|
      invariant content == Blocks(MeaningfulPages(pages[..i]))
      invariant meaningfulPages == |MeaningfulPages(pages[..i])|
    {
      var pageText := ExtractCleanText(pages[i]);
      PageStep(pages, i, pageText, content);
      if pageText != [] && |pageText| > 50 {
        content := content + pageText + "\n\n";
        meaningfulPages := meaningfulPages + 1;
      }
    }
    assert pages[..|pages|] == pages;
    MeaningfulPagesTrimmed(pages);
    StripAllPages(pages, content);
    content := Strip(content);
  }

  /** One turn of the page loop. */
  lemma PageStep(pages: seq<string>, i: nat, pageText: string, content: string)
    requires i < |pages| && pageText == PdfCleanText(pages[i])
    requires content == Blocks(MeaningfulPages(pages[..i]))
    ensures pageText != [] && |pageText| > 50 ==>
      && content + pageText + "\n\n" == Blocks(MeaningfulPages(pages[..i + 1]))
      && |MeaningfulPages(pages[..i + 1])| == |MeaningfulPages(pages[..i])| + 1
    ensures !(pageText != [] && |pageText| > 50) ==>
      && content == Blocks(MeaningfulPages(pages[..i + 1]))
      && |MeaningfulPages(pages[..i + 1])| == |MeaningfulPages(pages[..i])|
  {
    var before := MeaningfulPages(pages[..i]);
    assert pages[..i + 1][..i] == pages[..i];
    if pageText != [] && |pageText| > 50 {
      BlocksSnoc(before, pageText);
    } else {
      assert MeaningfulPages(pages[..i + 1]) == before + [];
      assert before + [] == before;
    }
  }

  lemma BlocksSnoc(texts: seq<string>, t: string)
    ensures Blocks(texts + [t]) == Blocks(texts) + t + "\n\n"
  {
    assert (texts + [t])[..|texts|] == texts;
  }

  lemma StripAllPages(pages: seq<string>, content: string)
    requires forall k :: 0 <= k < |MeaningfulPages(pages)| ==> IsTrimmed(MeaningfulPages(pages)[k])
    requires content == Blocks(MeaningfulPages(pages[..|pages|]))
    ensures Strip(content) == Join("\n\n", MeaningfulPages(pages))
  {
    assert pages[..|pages|] == pages;
    StripBlocks(MeaningfulPages(pages));
  }

  /** The indicator words of `DOCXLoader.is_noise_text` (lines 175-178). */
  const DocxNoiseIndicators: seq<string> :=
    ["page", "chapter", "section", "copyright", "confidential", "draft", "header", "footer"]

  /** `DOCXLoader.is_noise_text` (lines 172-179). */
  predicate DocxNoiseText(text: string)
  {
    ContainsAny(Lower(text), DocxNoiseIndicators)
  }

  /** The check lower-cases first, so it ignores case. */
  lemma DocxNoiseIgnoresCase(text: string)
    ensures DocxNoiseText(Lower(text)) == DocxNoiseText(text)
  {
    LowerIdempotent(text);
  }

  /** `TXTLoader.is_noise_line` (lines 227-237): short, or mostly dashes,
      equals signs or dots. */
  predicate TxtNoiseLine(line: string)
  {
    || |line| < 3
    || 10 * CountIf(line, IsDash) > 7 * |line|
    || 10 * CountIf(line, IsEquals) > 7 * |line|
    || 2 * CountIf(line, IsDot) > |line|
  }

  lemma {:induction false} CountIfAll(s: string, p: char -> bool)
    requires forall i :: 0 <= i < |s| ==> p(s[i])
    ensures CountIf(s, p) == |s|
    decreases |s|
  {
    if s != [] {
      CountIfAll(s[1..], p);
    }
  }

  lemma {:induction false} CountIfNone(s: string, p: char -> bool)
    requires forall i :: 0 <= i < |s| ==> !p(s[i])
    ensures CountIf(s, p) == 0
    decreases |s|
  {
    if s != [] {
      CountIfNone(s[1..], p);
    }
  }

  /** A rule of three or more dashes or equals signs is noise; a line of
      three or more characters with no dash, equals sign or dot is not. */
  lemma TxtNoiseLineFacts(line: string)
    ensures |line| >= 3 && (forall i :: 0 <= i < |line| ==> line[i] == '-') ==> TxtNoiseLine(line)
    ensures |line| >= 3 && (forall i :: 0 <= i < |line| ==> line[i] == '=') ==> TxtNoiseLine(line)
    ensures |line| >= 3 && (forall i :: 0 <= i < |line| ==> line[i] !in "-=.") ==> !TxtNoiseLine(line)
  {
    if forall i :: 0 <= i < |line| ==> line[i] == '-' {
      CountIfAll(line, IsDash);
    }
    if forall i :: 0 <= i < |line| ==> line[i] == '=' {
      CountIfAll(line, IsEquals);
    }
    if forall i :: 0 <= i < |line| ==> line[i] !in "-=." {
      CountIfNone(line, IsDash);
      CountIfNone(line, IsEquals);
      CountIfNone(line, IsDot);
    }
  }

  /** Lines 204-206 for one line: kept stripped when not empty and not noise. */
  function TxtLine(line: string): seq<string>
  {
    var c := Strip(line);
    if c != [] && !TxtNoiseLine(c) then [c] else []
  }

  /** The `clean_lines` list built from `lines`. */
  function TxtCleanLines(lines: seq<string>): seq<string>
  {
    if lines == [] then []
    else TxtCleanLines(lines[..|lines| - 1]) + TxtLine(lines[|lines| - 1])
  }

  /** The cleaning loop of `TXTLoader.load` (lines 200-215) on the decoded
      file text: the kept lines joined by newlines, and `line_count`. */
  method CleanTxtContent(content: string) returns (cleanContent: string, lineCount: nat)
    ensures cleanContent == Join("\n", TxtCleanLines(Split(content, "\n")))
    ensures lineCount == |TxtCleanLines(Split(content, "\n"))|
  {
    var lines := Split(content, "\n");
    var cleanLines: seq<string> := [];
    for i := 0 to |lines|
      invariant cleanLines == TxtCleanLines(lines[..i])
    {
      assert lines[..i + 1][..i] == lines[..i];
      var cleanLine := Strip(lines[i]);
      if cleanLine != [] && !TxtNoiseLine(cleanLine) {
        cleanLines := cleanLines + [cleanLine];
      }
    }
    assert lines[..|lines|] == lines;
    cleanContent := Join("\n", cleanLines);
    lineCount := |cleanLines|;
  }

  lemma {:induction false} TxtCleanLinesShape(lines: seq<string>)
    requires forall p :: p in lines ==> '\n' !in p
    ensures forall k :: 0 <= k < |TxtCleanLines(lines)| ==>
      && IsTrimmed(TxtCleanLines(lines)[k])
      && !TxtNoiseLine(TxtCleanLines(lines)[k])
      && '\n' !in TxtCleanLines(lines)[k]
    decreases |lines|
  {
    if lines != [] {
      var last := lines[|lines| - 1];
      assert last in lines;
      assert forall p :: p in lines[..|lines| - 1] ==> p in lines;
      TxtCleanLinesShape(lines[..|lines| - 1]);
      StripChars(last);
      var c := Strip(last);
      if c != [] {
        assert IsTrimmed(c);
      }
    }
  }

  /** The cleaned text file reads back line by line as the kept lines: each
      is stripped, non-empty and not noise, and `line_count` is the number
      of lines of the cleaned content. */
  lemma TxtCleanContentLines(content: string)
    ensures var kept := TxtCleanLines(Split(content, "\n"));
      && (forall k :: 0 <= k < |kept| ==> IsTrimmed(kept[k]) && !TxtNoiseLine(kept[k]))
      && (kept != [] ==> Split(Join("\n", kept), "\n") == kept)
  {
    var kept := TxtCleanLines(Split(content, "\n"));
    SplitPiecesAvoidSeparator(content, "\n");
    TxtCleanLinesShape(Split(content, "\n"));
    if kept != [] {
      assert forall p :: p in kept ==> "\n"[0] !in p;
      SplitJoin(kept, "\n");
    }
  }

  /** `supports_format` of the three loaders (lines 116-117, 181-182, 239-240). */
  predicate SupportsPdf(path: string) { EndsWith(Lower(path), ".pdf") }
  predicate SupportsDocx(path: string) { EndsWith(Lower(path), ".docx") || EndsWith(Lower(path), ".doc") }
  predicate SupportsTxt(path: string) { EndsWith(Lower(path), ".txt") }

  lemma EndsWithLast(s: string, suffix: string)
    requires suffix != [] && EndsWith(s, suffix)
    ensures s[|s| - 1] == suffix[|suffix| - 1]
  {
    assert s[|s| - 1] == s[|s| - |suffix|..][|suffix| - 1];
  }

  /** The suffix checks ignore case, and no path is claimed by two loaders:
      the suffixes end in different letters. */
  lemma SupportedFormatsDisjoint(path: string)
    ensures SupportsPdf(Lower(path)) == SupportsPdf(path)
    ensures SupportsDocx(Lower(path)) == SupportsDocx(path)
    ensures SupportsTxt(Lower(path)) == SupportsTxt(path)
    ensures !(SupportsPdf(path) && SupportsDocx(path))
    ensures !(SupportsPdf(path) && SupportsTxt(path))
    ensures !(SupportsDocx(path) && SupportsTxt(path))
  {
    LowerIdempotent(path);
    var l := Lower(path);
    if EndsWith(l, ".pdf") { EndsWithLast(l, ".pdf"); }
    if EndsWith(l, ".docx") { EndsWithLast(l, ".docx"); }
    if EndsWith(l, ".doc") { EndsWithLast(l, ".doc"); }
    if EndsWith(l, ".txt") { EndsWithLast(l, ".txt"); }
  }

  /** The loader classes `DocumentLoader` holds. */
  datatype LoaderKind = PdfLoader | DocxLoader | TxtLoader

  predicate Supports(kind: LoaderKind, path: string)
  {
    match kind
    case PdfLoader => SupportsPdf(path)
    case DocxLoader => SupportsDocx(path)
    case TxtLoader => SupportsTxt(path)
  }

  /** The label `get_supported_formats` lists for each loader (lines 270-275). */
  function FormatName(kind: LoaderKind): string
  {
    match kind
    case PdfLoader => "PDF (.pdf)"
    case DocxLoader => "Word (.docx, .doc)"
    case TxtLoader => "Text (.txt)"
  }

  /** The `FileNotFoundError` and the `ValueError` of `load_document`. */
  datatype LoadError = FileNotFound(path: string) | UnsupportedFormat(path: string)

  /** In the default order a path is claimed by at most one loader, so the
      first match is the only match. */
  lemma DefaultLoaderUnique(path: string, k: nat, j: nat)
    requires k < 3 && j < 3
    requires Supports([PdfLoader, DocxLoader, TxtLoader][k], path)
    requires Supports([PdfLoader, DocxLoader, TxtLoader][j], path)
    ensures k == j
  {
    SupportedFormatsDisjoint(path);
  }

  /** `loaders[k]` is `kind`, supports `path`, and no loader before it does. */
  predicate FirstSupporting(loaders: seq<LoaderKind>, k: int, kind: LoaderKind, path: string)
  {
    && 0 <= k < |loaders| && loaders[k] == kind && Supports(kind, path)
    && forall j :: 0 <= j < k ==> !Supports(loaders[j], path)
  }

  class DocumentLoader {
    /** The loaders in the order they are tried. */
    const loaders: seq<LoaderKind>

    constructor ()
      ensures loaders == [PdfLoader, DocxLoader, TxtLoader]
    {
      loaders := [PdfLoader, DocxLoader, TxtLoader];
    }

    /** `load_document` (lines 253-264): the loader whose `load` runs on an
        existing file is the first one that supports its suffix. Whether
        the file exists is the parameter `fileExists`. */
    method LoadDocument(filePath: string, fileExists: bool) returns (r: Result<LoaderKind, LoadError>)
      ensures !fileExists ==> r == Err(FileNotFound(filePath))
      ensures r.Err? ==> r == Err(FileNotFound(filePath)) || r == Err(UnsupportedFormat(filePath))
      ensures fileExists ==>
        (r == Err(UnsupportedFormat(filePath)) <==> forall k :: 0 <= k < |loaders| ==> !Supports(loaders[k], filePath))
      ensures r.Ok? ==> fileExists && exists k :: FirstSupporting(loaders, k, r.value, filePath)
      ensures fileExists && (exists k :: 0 <= k < |loaders| && Supports(loaders[k], filePath)) ==> r.Ok?
    {
      if !fileExists {
        return Err(FileNotFound(filePath));
      }
      var i := 0;
      while i < |loaders| && !Supports(loaders[i], filePath)
        invariant 0 <= i <= |loaders|
        invariant forall j :: 0 <= j < i ==> !Supports(loaders[j], filePath)
      {
        i := i + 1;
      }
      if i == |loaders| {
        return Err(UnsupportedFormat(filePath));
      }
      assert FirstSupporting(loaders, i, loaders[i], filePath);
      r := Ok(loaders[i]);
    }

    /** `get_supported_formats` (lines 266-276): one label per loader, in order. */
    method GetSupportedFormats() returns (formats: seq<string>)
      ensures |formats| == |loaders|
      ensures forall k :: 0 <= k < |loaders| ==> formats[k] == FormatName(loaders[k])
    {
      formats := [];
      for i := 0 to |loaders|
        invariant |formats| == i
        invariant forall k :: 0 <= k < i ==> formats[k] == FormatName(loaders[k])
      {
        formats := formats + [FormatName(loaders[i])];
      }
    }
  }
}
