# Document processing: loader, preprocessor and chunker

This project models the document-processing stage of DockDuck in Dafny and proves properties of the model. The stage has three parts.

- **`DocumentLoader`** turns a PDF, Word or text file into a `{content, metadata}` document. It picks the first loader whose suffix check accepts the path. That loader then drops header, footer and page-number noise line by line.
- **`TextPreprocessor`** cleans the content. In order, it:
  1. removes URLs and e-mail addresses;
  2. normalises line endings;
  3. squeezes blank lines and blanks;
  4. blanks out special characters;
  5. collapses runs of dots;
  6. drops isolated letters;
  7. strips the result.

  It then records a `preprocessing` entry in the metadata: lengths, a reduction percentage and language statistics.
- **`DocumentChunker`** cuts the cleaned content into `TextChunk`s in one of two ways:
  - a *fixed-size* cursor loop, whose windows are cut back to a sentence, paragraph or word break;
  - a *sentence* buffer loop, which packs sentence fragments up to the chunk size and can keep the last few fragments as overlap.

  Every chunk must pass a strict quality filter (`is_quality_chunk`). `chunk_document` then filters the chunks a second time and copies the document's metadata into each of them.

## How the model is organised

Each Dafny module corresponds to one part of the system.

| module | file | models |
|---|---|---|
| `Text` | `text.dfy` | Python's `str` operations as functions with contracts: `strip`, `split`, `join`, `lower`, `count`, `endswith`, `rfind` and `' '.join(s.split())`. Also the character classes `\s`, `\w` and `\d`. |
| `Patterns` | `patterns.dfy` | The fixed regular expressions of the chunker, as matchers that scan left to right. |
| `Documents` | `documents.dfy` | The metadata values and the mutable document (a `class`). |
| `Chunks` | `chunks.dfy` | Filtering and numbering of sequences. |
| `Quality` | `quality.dfy` | `classify_content_type`, `is_quality_chunk` and `calculate_quality_score`. |
| `FixedSize` | `fixed_size.dfy` | The fixed-size strategy as functions of the text. |
| `Sentences` | `sentences.dfy` | The sentence strategy as functions of the fragment list. |
| `Chunker` | `chunker.dfy` | The class `DocumentChunker`, with both splitters as loops proved equal to those functions, and `chunk_document`. |
| `Loader` | `loader.dfy` | The three loaders' noise filters and line loops, the suffix checks, and `DocumentLoader`. |
| `Preprocessor` | `preprocessor.dfy` | `clean_text` step by step, `normalize_whitespace`, `detect_language_patterns` and `preprocess_document`. |

The main results:

- Both chunk loops compute exactly their specification functions (`ChunkByFixedSize`, `ChunkFragments`).
- Every fixed-size chunk is a quality-passing, stripped slice of the text. The chunks are numbered 0, 1, … and their spans are disjoint and in order (`FixedSizeChunksFacts`).
- With no overlap, the sentence groups partition the fragments. With overlap, each group restarts `OverlapCount` fragments before the previous group's end (`GroupsPartition`, `GroupsOverlap`).
- The second quality pass of `chunk_document` removes nothing (`SecondFilterKeepsAll`).
- `chunk_document` fails exactly on the missing keys and unknown strategies the source raises on (`ChunkDocumentOutcome`).
- Cleaned text never contains four dots in a row, a carriage return or a tab (`CleanTextNoFourDots`, `CleanTextNoControl`).
- `normalize_whitespace` keeps the words, leaves single spaces and is idempotent (`NormalizeWhitespaceFacts`).

The model follows the code as written, including in these details:

- `classify_content_type("")` is `header` (`ClassifyEmpty`), because the empty string is one line shorter than 100 characters.
- The fixed-size splitter looks for break offsets in the *stripped* window but adds them to the *unstripped* cursor (lines 155, 162 and 168 of `chunker.py`). `SnapWindow` does the same.
- In the sentence splitter, the trailing space added with the overlap at line 235 is overwritten at line 241 before it is read. The buffer text is therefore always the fragments joined by single spaces.
- `chunk_document` reads `base_metadata['file_path']` while logging (line 264), before it checks the strategy. A missing `file_path` therefore wins over an unknown strategy.

## Model

| member | source | states |
|---|---|---|
| Quality.Classify | src/document_processing/chunker.py:28-58 | the tests are tried in order, each label holding exactly when its own rule holds and no earlier rule does: front matter when the lower-cased text contains a front-matter indicator; a table of contents when it contains a table-of-contents word, is under 800 characters and has "page" twice or a `......` leader; a header when it has at most three lines, each under 100 characters; repetitive when it has more than ten whitespace-separated words, under 30% of them distinct; main content otherwise |
| Quality.ClassifyRepetitive | src/document_processing/chunker.py:51-56 | text that is neither front matter, a table of contents nor a header, with more than ten words whose distinct-to-total ratio, taken as a real quotient, is below 0.3, is repetitive |
| Quality.ClassifyHeader | src/document_processing/chunker.py:46-49 | text that is neither front matter nor a table of contents and has at most three lines, each under 100 characters, is a header |
| Quality.ClassifyEmpty | src/document_processing/chunker.py:46-49 | the empty text is classified as a header, since it is one line shorter than 100 characters |
| Quality.HeaderIsShort | src/document_processing/chunker.py:46-49 | a text classified as a header has fewer than 300 characters (three lines under 100 characters and two newlines) |
| Quality.FrontMatterIgnoresCase | src/document_processing/chunker.py:30-38 | front-matter detection lower-cases first, so a text and its lower-cased form are front matter together |
| Quality.IsQualityChunk | src/document_processing/chunker.py:60-100 | a chunk is accepted exactly when, stripped, it is between 80 characters and 1.5 times the chunk size, is neither front matter, a table of contents nor a header, has at least 8 words of three or more ASCII letters, has distinct words for at least half of them when there are more than 15, has sentence matches averaging 25 to 300 characters when there are two or more, has at most 20% of `.`, `-`, `=` and `*`, and has at least 60% characters other than spaces and newlines |
| Quality.QualityNeedsChunkSize | src/document_processing/chunker.py:65-66 | nothing passes the filter unless the chunk size is at least 54 (80 must not exceed 1.5 times it) |
| Quality.QualityIgnoresSurroundingSpace | src/document_processing/chunker.py:62 | the filter strips first, so a chunk and its stripped form get the same verdict |
| Quality.FrontMatterRejected | src/document_processing/chunker.py:68-71 | a chunk containing a front-matter indicator is rejected whatever its length |
| Quality.LengthTerm | src/document_processing/chunker.py:106-111 | the length term is 0.4 exactly when the length is within [0.7, 1.0] of the chunk size, 0.2 exactly when it is within [0.5, 1.2] but not the former, and 0 otherwise; for a negative chunk size it is 0 |
| Quality.DiversityTerm | src/document_processing/chunker.py:113-117 | the diversity term lies in [0, 0.3] and is 0 exactly when there are fewer than 8 words |
| Quality.StructureTerm | src/document_processing/chunker.py:119-124 | the structure term is 0 or 0.3 |
| Quality.QualityScore | src/document_processing/chunker.py:102-126 | the score lies in [0, 1] and is the sum of the length, diversity and structure terms, the cap at 1.0 never taking effect |
| Quality.ScoreOfEmpty | src/document_processing/chunker.py:102-126 | the empty text scores 0 |
| Quality.StructureBonusNeedsLongPunctuationRun | src/document_processing/chunker.py:119-124 | the structure bonus averages the lengths of `[.!?]+` runs, so it is only paid when some run of terminators is at least 40 characters long |
| Patterns.AlphaWords | src/document_processing/chunker.py:74 | every match of `\b[a-zA-Z]{3,}\b` is three or more ASCII letters |
| Patterns.SentenceMatches | src/document_processing/chunker.py:84 | every match of `[^.!?]+[.!?]` is at least two characters and ends in a terminator |
| Patterns.PunctRuns | src/document_processing/chunker.py:120 | every match of `[.!?]+` is a non-empty run of terminators |
| Patterns.SentenceBreakEnds | src/document_processing/chunker.py:151 | every end offset of a `[.!?]\s+` match lies within the window, after at least two characters |
| Patterns.ParagraphBreakEnds | src/document_processing/chunker.py:159 | every end offset of a `\n\s*\n` match lies within the window, after at least two characters |
| Patterns.SentencePieces | src/document_processing/chunker.py:204 | splitting on `[.!?]+[\s\n]+` yields at least one piece |
| Patterns.NoTerminatorOnePiece | src/document_processing/chunker.py:204 | text without a terminator is split into a single piece, itself |
| Patterns.TotalLengthBelow | src/document_processing/chunker.py:86 | when every match is shorter than a bound, their total length is below the bound times their number |
| FixedSize.WindowEnd | src/document_processing/chunker.py:140 | the raw window ends after the cursor, within the text, at most the chunk size past the cursor |
| FixedSize.SnapLength | src/document_processing/chunker.py:149-169 | a window that stops short of the end is either kept at its raw length or cut to a non-empty prefix of the stripped window |
| FixedSize.SnapWindow | src/document_processing/chunker.py:140-169 | one pass yields a non-empty span from the cursor to at most the raw end, whose content is that slice of the text stripped |
| FixedSize.SnapWindowEnd | src/document_processing/chunker.py:149-169 | the window is cut back to a break exactly when its raw end is before the end of the text, and otherwise it ends at the end of the text |
| FixedSize.NextStart | src/document_processing/chunker.py:187-195 | the next cursor is the snapped end when the overlap is not positive or at least 10, and the end minus the overlap for an overlap of 1 to 9 |
| FixedSize.SmallOverlapCanStall | src/document_processing/chunker.py:187-195 | with an overlap of 1 to 9 the cursor can move back to where it started, so the loop does not terminate: on `"a. b. cd"` with chunk size 7 and overlap 6 the next cursor is 0 again |
| FixedSize.WindowsShape | src/document_processing/chunker.py:138-195 | the windows the loop visits tile the text from the first cursor: each is the snapped window at its own cursor, which is inside the text and not blank, and the next one starts at its end; after the last window (or at once, when there is none) the cursor is at the end of the text or at a blank window |
| FixedSize.WindowsOrdered | src/document_processing/chunker.py:138-195 | tiled windows are pairwise disjoint and in text order |
| FixedSize.KeptWindowsNeedChunkSize | src/document_processing/chunker.py:172 | some window is kept only when the chunk size is at least 54 |
| FixedSize.WindowChunksSnoc | src/document_processing/chunker.py:171-185 | visiting one more window appends its chunk, numbered by the count so far, exactly when its content passes the filter |
| FixedSize.FixedChunkFields | src/document_processing/chunker.py:173-184 | a chunk records the window's start and end positions and its content length |
| FixedSize.FixedChunkOfWindow | src/document_processing/chunker.py:171-184 | a kept window's chunk is a quality-passing stripped slice of the text between its recorded positions |
| FixedSize.FixedSizeChunksFacts | src/document_processing/chunker.py:128-197 | the chunks are numbered 0, 1, … in order; each is a quality-passing stripped slice of the text between its recorded positions, at most the chunk size long; their spans are disjoint and in text order |
| Sentences.KeepFragments | src/document_processing/chunker.py:205 | the kept fragments are no more than the pieces, each stripped and longer than 20 characters |
| Sentences.FragmentsComeFromPieces | src/document_processing/chunker.py:205 | every kept fragment is the stripped form of some piece |
| Sentences.LongPiecesAreKept | src/document_processing/chunker.py:205 | every piece whose stripped form is longer than 20 characters is kept |
| Sentences.OverlapCount | src/document_processing/chunker.py:233 | the number of fragments carried over is between 1 and 3 and at most the buffer's size |
| Sentences.Reopen | src/document_processing/chunker.py:231-238 | the reopened buffer starts inside the span of the buffer just closed |
| Sentences.GroupsStep | src/document_processing/chunker.py:212-241 | at the end of the fragments the open buffer is the last group; a full buffer closes as the next group and reopens; otherwise the fragment joins the buffer |
| Sentences.GroupsShape | src/document_processing/chunker.py:212-241 | the groups are non-empty spans within the fragments, the first starting at the open buffer and the last ending at the last fragment; each next group starts where `Reopen` places it and ends strictly later |
| Sentences.GroupsCloseWhenFull | src/document_processing/chunker.py:214 | every group except the last was closed because the next fragment would have pushed it past the chunk size |
| Sentences.GroupsPartition | src/document_processing/chunker.py:236-238 | without overlap the groups are non-empty and concatenate to exactly the fragment list |
| Sentences.GroupsOverlap | src/document_processing/chunker.py:231-235 | with overlap each group is non-empty, the next one starts `OverlapCount` fragments before its end, and the ends strictly increase |
| Sentences.GroupSizeBound | src/document_processing/chunker.py:214 | without overlap every group of two or more fragments joins to at most the chunk size plus one character |
| Sentences.JoinOfTrimmed | src/document_processing/chunker.py:218 | stripping the buffer text leaves it unchanged, since it joins stripped fragments |
| Sentences.KeptGroupNeedsChunkSize | src/document_processing/chunker.py:216 | a group is emitted only when the chunk size is at least 54 |
| Sentences.ClosedChunksSnoc | src/document_processing/chunker.py:216-228 | closing one more group appends its chunk, numbered by the count so far, exactly when its text passes the filter |
| Sentences.SentenceChunkOfGroup | src/document_processing/chunker.py:217-227 | a group's chunk holds the group's fragments joined by spaces and records how many fragments it has |
| Sentences.SentenceChunksFacts | src/document_processing/chunker.py:199-257 | the chunks correspond one to one, in order, to the groups that pass the filter; they are numbered 0, 1, …; each holds its group's fragments joined by spaces, records its fragment count, and passes the filter |
| Sentences.SentenceChunkFields | src/document_processing/chunker.py:219-225 | a chunk records its fragment count and the length of its text |
| Chunker.OriginalMetadata | src/document_processing/chunker.py:283-284 | the copied metadata has the document's keys except `file_path` and `file_type`, with the same values |
| Chunker.EnrichedMetadata | src/document_processing/chunker.py:280-285 | enrichment keeps a chunk's text and id, adds `source_file`, `file_type` and `original_metadata` with the document's values, and leaves every other key as it was |
| Chunker.EnrichAll | src/document_processing/chunker.py:279-285 | every chunk is enriched, in order, and none is added or lost |
| Chunker.SecondFilterKeepsAll | src/document_processing/chunker.py:274-276 | both splitters emit only chunks that pass the filter, so the second pass keeps every chunk |
| Chunker.ChunkDocumentOutcome | src/document_processing/chunker.py:259-298 | a missing `file_path` raises a `KeyError`; with `file_path`, an unknown strategy raises a `ValueError`; with a known strategy, no chunks give an empty list even without `file_type`, chunks without `file_type` raise a `KeyError`, and with `file_type` every chunk of the chosen splitter is returned, in order, enriched |
| Chunker.DocumentChunker.constructor | src/document_processing/chunker.py:20-22 | the chunker stores the given chunk size and overlap |
| Chunker.DocumentChunker.SetChunkingStrategy | src/document_processing/chunker.py:300-303 | both parameters are replaced |
| Chunker.DocumentChunker.SnapToBreak | src/document_processing/chunker.py:149-169 | the snapped end lies between the cursor and the raw end and is given by `SnapLength`; the content is the stripped slice up to it, and together they are the window's snapped form |
| Chunker.DocumentChunker.SnapWindowAt | src/document_processing/chunker.py:147-169 | the loop's break search produces exactly the specification's snapped window |
| Chunker.DocumentChunker.EmitWindow | src/document_processing/chunker.py:171-185 | the chunk list grows exactly as the specification's chunk list does for one more window, and the id counter stays equal to its length |
| Chunker.DocumentChunker.ChunkByFixedSize | src/document_processing/chunker.py:128-197 | the cursor loop returns exactly the chunks of the fixed-size specification |
| Chunker.DocumentChunker.EmitBuffer | src/document_processing/chunker.py:216-228 | closing the buffer appends its chunk exactly as the specification does for one more closed group |
| Chunker.DocumentChunker.CloseBuffer | src/document_processing/chunker.py:213-238 | a full buffer is closed as the next group and reopened with its last `OverlapCount` fragments (or emptied without overlap); the remaining groups of the specification still follow |
| Chunker.DocumentChunker.AddSentence | src/document_processing/chunker.py:212-241 | one turn of the loop keeps the buffer as a slice of the fragments joined by spaces and keeps the chunks equal to those of the groups closed so far |
| Chunker.DocumentChunker.ChunkBySentences | src/document_processing/chunker.py:199-257 | the sentence splitter returns exactly the chunks of the sentence specification |
| Chunker.DocumentChunker.ChunkFragments | src/document_processing/chunker.py:207-257 | the buffer loop over the fragments returns exactly the chunks of the groups that pass the filter |
| Chunker.DocumentChunker.EmitFinalBuffer | src/document_processing/chunker.py:243-255 | the last buffer becomes the last group's chunk when it passes the filter |
| Chunker.DocumentChunker.ChunkDocument | src/document_processing/chunker.py:259-298 | the method returns exactly `ChunkDocumentResult`, whose outcomes `ChunkDocumentOutcome` characterises |
| Chunker.DocumentChunker.FilterQuality | src/document_processing/chunker.py:276 | the kept chunks are exactly those that pass the filter, in order |
| Chunker.DocumentChunker.EnrichChunks | src/document_processing/chunker.py:278-286 | with no chunks nothing is looked up; with chunks and no `file_type` the first update raises a `KeyError`; otherwise every chunk is enriched in order |
| Chunker.FinalBufferIsTrimmed | src/document_processing/chunker.py:244 | a non-empty final buffer is non-blank and already stripped |
| Loader.PdfNoiseLineFacts | src/document_processing/loader.py:36-63 | a line's verdict is its stripped form's; lines under 3 characters, digit strings and pattern lines are noise; an indicator word makes a line noise exactly when it is under 100 characters |
| Loader.ExtractCleanText | src/document_processing/loader.py:65-82 | the line loop returns the non-noise lines, stripped and with whitespace runs collapsed, joined by spaces |
| Loader.PdfCleanLinesShape | src/document_processing/loader.py:75-80 | every kept PDF line is stripped and single-spaced |
| Loader.PdfCleanTextShape | src/document_processing/loader.py:65-82 | a page's cleaned text is stripped, single-spaced and has no newline |
| Loader.MeaningfulPagesTrimmed | src/document_processing/loader.py:99-103 | every page that counts is stripped and longer than 50 characters |
| Loader.StripBlocks | src/document_processing/loader.py:102-109 | stripping the accumulated page blocks leaves the page texts joined by blank lines |
| Loader.AssemblePdfContent | src/document_processing/loader.py:98-110 | the content is the cleaned text of every page longer than 50 characters, in page order, separated by blank lines; `meaningful_pages` counts those pages |
| Loader.DocxNoiseIgnoresCase | src/document_processing/loader.py:172-179 | the Word noise check lower-cases first, so it ignores case |
| Loader.TxtNoiseLineFacts | src/document_processing/loader.py:227-237 | a rule of three or more dashes or equals signs is noise; a line of three or more characters with no dash, equals sign or dot is not |
| Loader.CleanTxtContent | src/document_processing/loader.py:200-215 | the cleaned text is the kept lines joined by newlines, and `line_count` is their number |
| Loader.TxtCleanLinesShape | src/document_processing/loader.py:203-206 | every kept text line is stripped, not noise and has no newline |
| Loader.TxtCleanContentLines | src/document_processing/loader.py:200-215 | the cleaned text splits back into exactly the kept lines |
| Loader.SupportedFormatsDisjoint | src/document_processing/loader.py:181-182 | the suffix checks ignore case, and no path is claimed by two of the PDF, Word and text loaders |
| Loader.DefaultLoaderUnique | src/document_processing/loader.py:246-251 | with the default loader order, a path is supported by at most one loader |
| Loader.DocumentLoader.constructor | src/document_processing/loader.py:246-251 | the loaders are PDF, Word and text, in that order |
| Loader.DocumentLoader.LoadDocument | src/document_processing/loader.py:253-264 | a missing file raises `FileNotFoundError`; an existing file that no loader supports raises `ValueError`; an existing file that some loader supports is loaded, by the first loader that supports its path |
| Loader.DocumentLoader.GetSupportedFormats | src/document_processing/loader.py:266-276 | one label per loader, in loader order |
| Preprocessor.RemoveUrlsFrom | src/document_processing/preprocessor.py:29 | removing URLs does not lengthen the text and introduces no character except a space |
| Preprocessor.RemoveEmailsFrom | src/document_processing/preprocessor.py:30 | removing e-mail addresses does not lengthen the text and introduces no character except a space |
| Preprocessor.NormalizeLineEndings | src/document_processing/preprocessor.py:33 | after normalising line endings no carriage return is left, the text is no longer, and only newlines are introduced |
| Preprocessor.SqueezeBlankLinesFrom | src/document_processing/preprocessor.py:36 | squeezing blank lines does not lengthen the text and introduces only newlines |
| Preprocessor.SqueezeBlanksFrom | src/document_processing/preprocessor.py:39 | after squeezing blanks no tab is left, the text is no longer, and only spaces are introduced |
| Preprocessor.ReplaceSpecial | src/document_processing/preprocessor.py:42 | each character is kept when it is a word character, whitespace or allowed punctuation, and is a space otherwise |
| Preprocessor.CollapseDotsLeavesNoFourDots | src/document_processing/preprocessor.py:45 | after collapsing, no four dots are left in a row, and a leading run keeps at most three dots |
| Preprocessor.DropIsolatedKeepsNoFourDots | src/document_processing/preprocessor.py:48 | dropping isolated letters creates no run of four dots and keeps the leading dots |
| Preprocessor.CleanText | src/document_processing/preprocessor.py:23-53 | the empty text cleans to the empty text; cleaning never lengthens a text; a non-empty result is stripped |
| Preprocessor.CleanTextNoControl | src/document_processing/preprocessor.py:23-53 | cleaned text contains no carriage return and no tab |
| Preprocessor.CleanTextNoFourDots | src/document_processing/preprocessor.py:44-51 | cleaned text never contains four dots in a row |
| Preprocessor.NormalizeWhitespaceFacts | src/document_processing/preprocessor.py:55-57 | normalising keeps exactly the words; the result is single-spaced, stripped and left unchanged by normalising again |
| Preprocessor.Ratio | src/document_processing/preprocessor.py:67-68 | a ratio lies in [0, 1] and is 0 for the empty text |
| Preprocessor.DetectLanguagePatternsFacts | src/document_processing/preprocessor.py:59-72 | both ratios are 0 for the empty text and lie in [0, 1]; the Arabic and ASCII-letter counts add up to at most the length; there is one more paragraph than blank-line separators |
| Preprocessor.PreprocessDocument | src/document_processing/preprocessor.py:74-95 | the same document is returned, its content replaced by the cleaned text (never longer), and its metadata gains the `preprocessing` entry with every other key unchanged |
| Chunks.FilterKeepsAll | src/document_processing/chunker.py:276 | filtering a list whose elements all pass returns the list unchanged |

## Left out

- The libraries that read files are not modelled: PyPDF2, python-docx, chardet and `os`. The text a PDF page yields and the decoded content of a text file are parameters (`ExtractCleanText`, `AssemblePdfContent`, `CleanTxtContent`).
- The metadata assembly of the loaders is not modelled: `file_size`, PDF author and title, encoding and the DOCX paragraph and table counts all come from those libraries.
- `DOCXLoader.load` is not modelled beyond its noise check and suffix check, because its paragraph, heading-style and table walk reads the python-docx object model.
- Loader.DocumentLoader.LoadDocument: returns the chosen loader instead of that loader's document, and whether the file exists is the parameter `fileExists`, because both depend on the file system.
- Logging and the chunk-size statistics of `chunk_document` (lines 287-296 of `chunker.py`) are left out; they only write to the log.
- Floating point is modelled exactly. Thresholds such as `chunk_size * 1.5`, `chunk_size * 0.6`, `len(line) * 0.7` and the ratio comparisons are compared exactly in integers or in Dafny's `real`. A double-rounding difference at an exact boundary is not captured.
- Preprocessor.PreprocessDocument: `reduction_percent` is the exact value, without `round(…, 2)`.
- Preprocessor.DetectLanguagePatternsFacts: states that the two counts add up to at most the length instead of stating that the two ratios add up to at most 1.
- Unicode is approximated:
  - `\s` and `strip()` use Python's exact whitespace set;
  - `\w` covers ASCII, Latin-1, Latin Extended and the Arabic letters and digits;
  - `lower()`, `isdigit()` and `\d` act on ASCII only.
- Chunker.DocumentChunker.ChunkByFixedSize: requires a chunk size that is not negative, because Python's negative slicing is not modelled.
- Chunker.DocumentChunker.ChunkByFixedSize: requires an overlap that is not positive or is at least 10. With an overlap of 1 to 9 the source's loop need not terminate (`SmallOverlapCanStall` gives such an input). With the default overlap of 50 the progress check cancels the overlap.
- `TextChunk` metadata is rebuilt rather than updated in place, so aliasing between a chunk and a caller's copy is not modelled.
- `chunk_document` raises `KeyError` on a missing `content` or `metadata` field of the document. The `Document` class always has both, so that error is not modelled.
