/** `DocumentChunker`: its two parameters, the two splitters as loops over
    the text, and `chunk_document`, which dispatches on the strategy, runs
    the quality filter a second time and adds the document's metadata to
    every chunk. */
module Chunker {
  import opened Text
  import opened Patterns
  import opened Quality
  import opened Documents
  import opened Chunks
  import opened FixedSize
  import opened Sentences

  /** The exceptions `chunk_document` raises: a `KeyError` for a missing
      metadata key and a `ValueError` for an unknown strategy. */
  datatype ChunkError = MissingKey(key: string) | UnknownStrategy(strategy: string)

  /** The document metadata without `file_path` and `file_type` (lines 283-284). */
  function OriginalMetadata(meta: Metadata): (orig: Metadata)
    ensures orig.Keys == meta.Keys - {"file_path", "file_type"}
    ensures forall k :: k in orig ==> orig[k] == meta[k]
  {
    map k | k in meta && k != "file_path" && k != "file_type" :: meta[k]
  }

  /** Lines 280-285: `chunk.metadata.update(...)` with the source file, the
      file type and the rest of the document metadata. */
  function Enriched(c: TextChunk, meta: Metadata): TextChunk
    requires "file_path" in meta && "file_type" in meta
  {
    c.(metadata := c.metadata + map["source_file" := meta["file_path"],
                                    "file_type" := meta["file_type"],
                                    "original_metadata" := MapV(OriginalMetadata(meta))])
  }

  /** Enrichment keeps the text and the id, adds the three keys and leaves
      every other key as it was. */
  lemma EnrichedMetadata(c: TextChunk, meta: Metadata)
    requires "file_path" in meta && "file_type" in meta
    ensures Enriched(c, meta).content == c.content && Enriched(c, meta).chunkId == c.chunkId
    ensures Enriched(c, meta).metadata.Keys == c.metadata.Keys + {"source_file", "file_type", "original_metadata"}
    ensures Enriched(c, meta).metadata["source_file"] == meta["file_path"]
    ensures Enriched(c, meta).metadata["file_type"] == meta["file_type"]
    ensures Enriched(c, meta).metadata["original_metadata"] == MapV(OriginalMetadata(meta))
    ensures forall k :: k in c.metadata && k !in {"source_file", "file_type", "original_metadata"} ==>
      Enriched(c, meta).metadata[k] == c.metadata[k]
  {
  }

  /** Lines 279-286: every chunk enriched, in order. */
  function EnrichAll(chunks: seq<TextChunk>, meta: Metadata): (r: seq<TextChunk>)
    requires "file_path" in meta && "file_type" in meta
    ensures |r| == |chunks|
    ensures forall k :: 0 <= k < |r| ==> r[k] == Enriched(chunks[k], meta)
  {
    seq(|chunks|, k requires 0 <= k < |chunks| => Enriched(chunks[k], meta))
  }

  predicate KnownStrategy(strategy: string) { strategy == "fixed_size" || strategy == "sentence" }

  /** What the fixed-size splitter needs: a chunk size that is not negative
      and an overlap the progress check cancels. */
  predicate FixedSizeUsable(chunkSize: int, overlap: int)
  {
    chunkSize >= 0 && (overlap <= 0 || overlap >= 10)
  }

  /** Lines 267-272: the chunks of the chosen splitter. */
  function StrategyChunks(text: string, chunkSize: int, overlap: int, strategy: string): seq<TextChunk>
    requires KnownStrategy(strategy)
    requires strategy == "fixed_size" ==> FixedSizeUsable(chunkSize, overlap)
  {
    if strategy == "fixed_size" then FixedSizeChunks(text, chunkSize, overlap)
    else SentenceChunks(text, chunkSize, overlap)
  }

  /** Line 276: the second filter pass. */
  function QualityOf(chunkSize: int): TextChunk -> bool
  {
    (c: TextChunk) => IsQualityChunk(c.content, chunkSize)
  }

  /** `chunk_document` on a document's text and metadata. */
  function ChunkDocumentResult(text: string, meta: Metadata, chunkSize: int, overlap: int, strategy: string)
    : Result<seq<TextChunk>, ChunkError>
    requires strategy == "fixed_size" ==> FixedSizeUsable(chunkSize, overlap)
  {
    if "file_path" !in meta then Err(MissingKey("file_path"))
    else if !KnownStrategy(strategy) then Err(UnknownStrategy(strategy))
    else
      var chunks := Filter(StrategyChunks(text, chunkSize, overlap, strategy), QualityOf(chunkSize));
      if chunks == [] then Ok([])
      else if "file_type" !in meta then Err(MissingKey("file_type"))
      else Ok(EnrichAll(chunks, meta))
  }

  /** Both splitters emit only chunks that pass the filter, and the filter
      ignores surrounding whitespace, so the second pass removes nothing. */
  lemma SecondFilterKeepsAll(text: string, chunkSize: int, overlap: int, strategy: string)
    requires KnownStrategy(strategy)
    requires strategy == "fixed_size" ==> FixedSizeUsable(chunkSize, overlap)
    ensures Filter(StrategyChunks(text, chunkSize, overlap, strategy), QualityOf(chunkSize))
         == StrategyChunks(text, chunkSize, overlap, strategy)
  {
    var chunks := StrategyChunks(text, chunkSize, overlap, strategy);
    if strategy == "fixed_size" {
      FixedSizeChunksFacts(text, chunkSize, overlap, chunks);
      forall k | 0 <= k < |chunks| ensures QualityOf(chunkSize)(chunks[k]) {
        assert IsFixedChunkOf(text, chunkSize, chunks[k]);
      }
    } else {
      SentenceChunksFacts(text, chunkSize, overlap, chunks);
    }
    FilterKeepsAll(chunks, QualityOf(chunkSize));
  }

  /** `chunk_document` fails exactly when the metadata has no `file_path`,
      when the strategy is unknown, or when there are chunks and no
      `file_type`; otherwise it returns every chunk of the splitter, in
      order, enriched with the document metadata. */
  lemma ChunkDocumentOutcome(text: string, meta: Metadata, chunkSize: int, overlap: int, strategy: string)
    requires strategy == "fixed_size" ==> FixedSizeUsable(chunkSize, overlap)
    ensures "file_path" !in meta ==> ChunkDocumentResult(text, meta, chunkSize, overlap, strategy) == Err(MissingKey("file_path"))
    ensures "file_path" in meta && !KnownStrategy(strategy) ==>
      ChunkDocumentResult(text, meta, chunkSize, overlap, strategy) == Err(UnknownStrategy(strategy))
    ensures "file_path" in meta && KnownStrategy(strategy) ==>
      var chunks := StrategyChunks(text, chunkSize, overlap, strategy);
      && (chunks == [] ==> ChunkDocumentResult(text, meta, chunkSize, overlap, strategy) == Ok([]))
      && (chunks != [] && "file_type" !in meta ==>
            ChunkDocumentResult(text, meta, chunkSize, overlap, strategy) == Err(MissingKey("file_type")))
      && ("file_type" in meta ==>
            ChunkDocumentResult(text, meta, chunkSize, overlap, strategy)
              == Ok(EnrichAll(chunks, meta)))
  {
    if "file_path" in meta && KnownStrategy(strategy) {
      SecondFilterKeepsAll(text, chunkSize, overlap, strategy);
    }
  }

  class DocumentChunker {
    var chunkSize: int
    var chunkOverlap: int

    /** `DocumentChunker(chunk_size=500, chunk_overlap=50)`. With the default
        overlap of 50 the progress check cancels every overlap. */
    constructor (chunkSize: int := 500, chunkOverlap: int := 50)
      ensures this.chunkSize == chunkSize && this.chunkOverlap == chunkOverlap
    {
      this.chunkSize := chunkSize;
      this.chunkOverlap := chunkOverlap;
    }

    /** `set_chunking_strategy`. */
    method SetChunkingStrategy(chunkSize: int, chunkOverlap: int)
      modifies this
      ensures this.chunkSize == chunkSize && this.chunkOverlap == chunkOverlap
    {
      this.chunkSize := chunkSize;
      this.chunkOverlap := chunkOverlap;
    }

    /** Lines 149-169: a window that stops short of the end of the text is
        cut back to the last of two or more sentence breaks, else to the last
        paragraph break, else to the last space beyond 60% of the chunk size.
        The offsets are found in the stripped window and counted from the
        unstripped cursor. */
    method SnapToBreak(content: string, start: nat, end: nat, chunkContent: string)
      returns (snappedEnd: nat, snappedContent: string)
      requires chunkSize >= 0
      requires start <= end < |content| && chunkContent == Strip(content[start..end])
      ensures start <= snappedEnd <= end
      ensures snappedEnd == start + SnapLength(chunkContent, end - start, chunkSize)
      ensures snappedContent == Strip(content[start..snappedEnd])
      ensures end == WindowEnd(content, chunkSize, start) && chunkContent != [] ==>
        Window(start, snappedEnd, snappedContent) == SnapWindow(content, chunkSize, start)
    {
      ghost var e := SnapLength(chunkContent, end - start, chunkSize);
      snappedEnd, snappedContent := end, chunkContent;
      var sentenceBreaks := SentenceBreakEnds(chunkContent);
      if |sentenceBreaks| > 1 {
        var lastBreak := sentenceBreaks[|sentenceBreaks| - 1];
        assert lastBreak in sentenceBreaks && lastBreak == e;
        snappedEnd := start + lastBreak;
        snappedContent := Strip(content[start..snappedEnd]);
      } else {
        var paragraphBreaks := ParagraphBreakEnds(chunkContent);
        if |paragraphBreaks| > 0 {
          var lastBreak := paragraphBreaks[|paragraphBreaks| - 1];
          assert lastBreak in paragraphBreaks && lastBreak == e;
          snappedEnd := start + lastBreak;
          snappedContent := Strip(content[start..snappedEnd]);
        } else {
          var lastSpace := RFind(chunkContent, ' ');
          if 5 * lastSpace > 3 * chunkSize {
            assert lastSpace == e;
            snappedEnd := start + lastSpace;
            snappedContent := Strip(content[start..snappedEnd]);
          } else {
            assert end - start == e;
          }
        }
      }
      if end == WindowEnd(content, chunkSize, start) && chunkContent != [] {
        SnapWindowIs(content, chunkSize, start, snappedEnd);
      }
    }

    /** Lines 147-169: the window is cut back to a break unless it reaches
        the end of the text. */
    method SnapWindowAt(content: string, start: nat, end: nat, chunkContent: string)
      returns (snappedEnd: nat, snappedContent: string)
      requires chunkSize >= 0
      requires start < |content| && end == WindowEnd(content, chunkSize, start)
      requires chunkContent == Strip(content[start..end]) && chunkContent != []
      ensures Window(start, snappedEnd, snappedContent) == SnapWindow(content, chunkSize, start)
    {
      if end < |content| {
        snappedEnd, snappedContent := SnapToBreak(content, start, end, chunkContent);
      } else {
        SnapWindowEnd(content, chunkSize, start);
        snappedEnd, snappedContent := end, chunkContent;
      }
    }

    /** Lines 171-184: the window becomes the next chunk when its text is
        non-empty and passes the quality filter. */
    method EmitWindow(ghost visited: seq<Window>, start: nat, end: nat, chunkContent: string,
                      chunks: seq<TextChunk>, chunkId: int)
      returns (newChunks: seq<TextChunk>, newChunkId: int)
      requires chunks == WindowChunks(visited, chunkSize) && chunkId == |chunks|
      ensures newChunks == WindowChunks(visited + [Window(start, end, chunkContent)], chunkSize)
      ensures newChunkId == |newChunks|
    {
      WindowChunksSnoc(visited, Window(start, end, chunkContent), chunkSize);
      newChunks, newChunkId := chunks, chunkId;
      if chunkContent != [] && IsQualityChunk(chunkContent, chunkSize) {
        newChunks := chunks + [FixedChunk(Window(start, end, chunkContent), chunkSize, chunkId)];
        newChunkId := chunkId + 1;
      }
    }

    /** `chunk_by_fixed_size`: the cursor loop of lines 138-195. */
    method ChunkByFixedSize(document: Document) returns (chunks: seq<TextChunk>)
      requires FixedSizeUsable(chunkSize, chunkOverlap)
      ensures chunks == FixedSizeChunks(document.content, chunkSize, chunkOverlap)
    {
      var content := document.content;
      var size: nat := chunkSize;
      var overlap := chunkOverlap;
      chunks := [];
      var chunkId := 0;
      var start: int := 0;
      var contentLength := |content|;
      ghost var visited: seq<Window> := [];
      while start < contentLength
        invariant 0 <= start
        invariant visited + Windows(content, size, overlap, start) == Windows(content, size, overlap, 0)
        invariant chunks == WindowChunks(visited, size)
        invariant chunkId == |chunks|
        decreases contentLength - start
      {
        var end := Min(start + size, contentLength);
        var chunkContent := Strip(content[start..end]);
        assert end == WindowEnd(content, size, start);
        if chunkContent == [] {
          WindowsStep(content, size, overlap, start);
          break;
        }
        end, chunkContent := SnapWindowAt(content, start, end, chunkContent);
        ghost var w := Window(start, end, chunkContent);
        WindowsAdvance(content, size, overlap, start, visited);
        chunks, chunkId := EmitWindow(visited, start, end, chunkContent, chunks, chunkId);
        visited := visited + [w];
        if overlap > 0 {
          start := end - overlap;
        } else {
          start := end;
        }
        if start <= end - 10 {
          start := end;
        }
      }
      if start >= contentLength {
        WindowsStep(content, size, overlap, start);
      }
      assert visited + [] == visited;
    }

    /** Lines 216-228 and 241-253: the buffer `sentences[lo..hi]` becomes
        the next chunk when it passes the quality filter. */
    method EmitBuffer(sentences: seq<string>, ghost lo: nat, ghost hi: nat, ghost closed: seq<Span>,
                      currentSentences: seq<string>, currentChunk: string,
                      chunks: seq<TextChunk>, chunkId: int)
      returns (newChunks: seq<TextChunk>, newChunkId: int)
      requires lo <= hi <= |sentences| && currentSentences == sentences[lo..hi]
      requires currentChunk == Join(" ", currentSentences)
      requires chunks == ClosedChunks(chunkSize, sentences, closed) && chunkId == |chunks|
      ensures newChunks == ClosedChunks(chunkSize, sentences, closed + [Span(lo, hi)])
      ensures newChunkId == |newChunks|
    {
      ClosedChunksSnoc(chunkSize, sentences, closed, lo, hi);
      assert currentChunk == Current(sentences, lo, hi);
      newChunks, newChunkId := chunks, chunkId;
      if IsQualityChunk(currentChunk, chunkSize) {
        newChunks := chunks + [SentenceChunk(chunkSize, currentSentences, chunkId)];
        newChunkId := chunkId + 1;
      }
    }

    /** Lines 214-238: the buffer `sentences[lo..i]` is full. It becomes a
        chunk when it passes the filter, and the next buffer keeps its last
        `OverlapCount` sentences when the overlap is positive. */
    method CloseBuffer(sentences: seq<string>, ghost lo: nat, i: nat, ghost closed: seq<Span>,
                       currentSentences: seq<string>, currentChunk: string,
                       chunks: seq<TextChunk>, chunkId: int)
      returns (ghost nextLo: nat, ghost nextClosed: seq<Span>, nextSentences: seq<string>, nextChunk: string,
               nextChunks: seq<TextChunk>, nextChunkId: int)
      requires lo <= i < |sentences| && Closes(chunkSize, sentences, lo, i)
      requires currentSentences == sentences[lo..i] && currentChunk == Join(" ", currentSentences)
      requires closed + GroupsFrom(chunkSize, chunkOverlap, sentences, lo, i) == Groups(chunkSize, chunkOverlap, sentences)
      requires chunks == ClosedChunks(chunkSize, sentences, closed) && chunkId == |chunks|
      ensures nextLo == Reopen(chunkOverlap, lo, i) && nextClosed == closed + [Span(lo, i)]
      ensures nextSentences == sentences[nextLo..i]
      ensures nextChunk == if chunkOverlap > 0 then Join(" ", nextSentences) + " " else ""
      ensures nextClosed + GroupsFrom(chunkSize, chunkOverlap, sentences, nextLo, i + 1) == Groups(chunkSize, chunkOverlap, sentences)
      ensures nextChunks == ClosedChunks(chunkSize, sentences, nextClosed) && nextChunkId == |nextChunks|
    {
      GroupsAdvanceClose(chunkSize, chunkOverlap, sentences, lo, i, closed);
      nextChunks, nextChunkId := EmitBuffer(sentences, lo, i, closed, currentSentences, currentChunk, chunks, chunkId);
      nextClosed := closed + [Span(lo, i)];
      nextLo := Reopen(chunkOverlap, lo, i);
      if chunkOverlap > 0 && currentSentences != [] {
        var overlapCount := OverlapCount(|currentSentences|);
        BufferSuffix(sentences, lo, i, overlapCount, currentSentences);
        nextSentences := currentSentences[|currentSentences| - overlapCount..];
        nextChunk := Join(" ", nextSentences) + " ";
      } else {
        BufferEmpty(sentences, i);
        nextSentences := [];
        nextChunk := "";
      }
    }

    /** One turn of the buffer loop (lines 199-238): the buffer is closed
        first when fragment `i` would overflow it, then `i` joins it. */
    method AddSentence(sentences: seq<string>, ghost lo: nat, i: nat, ghost closed: seq<Span>,
                       currentSentences: seq<string>, currentChunk: string,
                       chunks: seq<TextChunk>, chunkId: int)
      returns (ghost nextLo: nat, ghost nextClosed: seq<Span>, nextSentences: seq<string>, nextChunk: string,
               nextChunks: seq<TextChunk>, nextChunkId: int)
      requires lo <= i < |sentences|
      requires currentSentences == sentences[lo..i] && currentChunk == Join(" ", currentSentences)
      requires closed + GroupsFrom(chunkSize, chunkOverlap, sentences, lo, i) == Groups(chunkSize, chunkOverlap, sentences)
      requires chunks == ClosedChunks(chunkSize, sentences, closed) && chunkId == |chunks|
      ensures nextLo <= i + 1 && nextSentences == sentences[nextLo..i + 1]
      ensures nextChunk == Join(" ", nextSentences)
      ensures nextClosed + GroupsFrom(chunkSize, chunkOverlap, sentences, nextLo, i + 1) == Groups(chunkSize, chunkOverlap, sentences)
      ensures nextChunks == ClosedChunks(chunkSize, sentences, nextClosed) && nextChunkId == |nextChunks|
    {
      var sentence := sentences[i];
      nextLo, nextClosed, nextSentences, nextChunk, nextChunks, nextChunkId :=
        lo, closed, currentSentences, currentChunk, chunks, chunkId;
      if |currentChunk| + |sentence| > chunkSize && currentChunk != [] {
        assert Closes(chunkSize, sentences, lo, i);
        nextLo, nextClosed, nextSentences, nextChunk, nextChunks, nextChunkId :=
          CloseBuffer(sentences, lo, i, closed, currentSentences, currentChunk, chunks, chunkId);
      } else {
        assert !Closes(chunkSize, sentences, lo, i);
        GroupsAdvanceKeep(chunkSize, chunkOverlap, sentences, lo, i, closed);
      }
      BufferSnoc(sentences, nextLo, i, nextSentences);
      nextSentences := nextSentences + [sentence];
      nextChunk := Join(" ", nextSentences);
    }

    /** `chunk_by_sentences_enhanced` (lines 197-255): the fragments of the
        content go through the buffer loop. */
    method ChunkBySentences(document: Document) returns (chunks: seq<TextChunk>)
      ensures chunks == SentenceChunks(document.content, chunkSize, chunkOverlap)
    {
      var sentences := KeepFragments(SentencePieces(document.content));
      chunks := ChunkFragments(sentences);
    }

    /** The buffer loop of lines 198-255 over the kept fragments. */
    method ChunkFragments(sentences: seq<string>) returns (chunks: seq<TextChunk>)
      requires forall k :: 0 <= k < |sentences| ==> IsTrimmed(sentences[k])
      ensures chunks == ClosedChunks(chunkSize, sentences, Groups(chunkSize, chunkOverlap, sentences))
    {
      chunks := [];
      var currentChunk: string := "";
      var currentSentences: seq<string> := [];
      var chunkId := 0;
      ghost var lo: nat := 0;
      ghost var closed: seq<Span> := [];
      for i := 0 to |sentences|
        invariant lo <= i
        invariant currentSentences == sentences[lo..i]
        invariant currentChunk == Join(" ", currentSentences)
        invariant closed + GroupsFrom(chunkSize, chunkOverlap, sentences, lo, i) == Groups(chunkSize, chunkOverlap, sentences)
        invariant chunks == ClosedChunks(chunkSize, sentences, closed)
        invariant chunkId == |chunks|
      {
        lo, closed, currentSentences, currentChunk, chunks, chunkId :=
          AddSentence(sentences, lo, i, closed, currentSentences, currentChunk, chunks, chunkId);
      }
      assert currentSentences == sentences[lo..];
      chunks := EmitFinalBuffer(sentences, lo, closed, currentSentences, currentChunk, chunks, chunkId);
    }

    /** Lines 240-253: the last buffer becomes a chunk when it is not blank
        and passes the filter. */
    method EmitFinalBuffer(sentences: seq<string>, ghost lo: nat, ghost closed: seq<Span>,
                           currentSentences: seq<string>, currentChunk: string,
                           chunks: seq<TextChunk>, chunkId: int)
      returns (allChunks: seq<TextChunk>)
      requires forall k :: 0 <= k < |sentences| ==> IsTrimmed(sentences[k])
      requires lo <= |sentences| && currentSentences == sentences[lo..]
      requires currentChunk == Join(" ", currentSentences)
      requires closed + GroupsFrom(chunkSize, chunkOverlap, sentences, lo, |sentences|) == Groups(chunkSize, chunkOverlap, sentences)
      requires chunks == ClosedChunks(chunkSize, sentences, closed) && chunkId == |chunks|
      ensures allChunks == ClosedChunks(chunkSize, sentences, Groups(chunkSize, chunkOverlap, sentences))
    {
      GroupsLast(chunkSize, chunkOverlap, sentences, lo, closed);
      if lo < |sentences| {
        FinalBufferIsTrimmed(sentences, lo);
      }
      allChunks := chunks;
      if Strip(currentChunk) != [] {
        var nextId;
        allChunks, nextId := EmitBuffer(sentences, lo, |sentences|, closed, currentSentences, currentChunk, chunks, chunkId);
      }
    }

    /** `chunk_document` (lines 259-298). */
    method ChunkDocument(document: Document, strategy: string := "fixed_size")
      returns (result: Result<seq<TextChunk>, ChunkError>)
      requires strategy == "fixed_size" ==> FixedSizeUsable(chunkSize, chunkOverlap)
      ensures result == ChunkDocumentResult(document.content, document.metadata, chunkSize, chunkOverlap, strategy)
    {
      var baseMetadata := document.metadata;
      if "file_path" !in baseMetadata {
        return Err(MissingKey("file_path"));
      }
      var chunks: seq<TextChunk>;
      if strategy == "fixed_size" {
        chunks := ChunkByFixedSize(document);
      } else if strategy == "sentence" {
        chunks := ChunkBySentences(document);
      } else {
        return Err(UnknownStrategy(strategy));
      }
      var qualityChunks := FilterQuality(chunks);
      result := EnrichChunks(qualityChunks, baseMetadata);
    }

    /** Line 276: the chunks that pass the quality filter, in order. */
    method FilterQuality(chunks: seq<TextChunk>) returns (qualityChunks: seq<TextChunk>)
      ensures qualityChunks == Filter(chunks, QualityOf(chunkSize))
    {
      qualityChunks := [];
      for i := 0 to |chunks|
        invariant qualityChunks == Filter(chunks[..i], QualityOf(chunkSize))
      {
        FilterPrefixStep(chunks, i, QualityOf(chunkSize));
        if QualityOf(chunkSize)(chunks[i]) {
          qualityChunks := qualityChunks + [chunks[i]];
        }
      }
      assert chunks[..|chunks|] == chunks;
    }

    /** Lines 278-288: the metadata update of every chunk; the first chunk
        raises the `KeyError` when the metadata has no `file_type`. */
    method EnrichChunks(qualityChunks: seq<TextChunk>, baseMetadata: Metadata)
      returns (result: Result<seq<TextChunk>, ChunkError>)
      requires "file_path" in baseMetadata
      ensures qualityChunks == [] ==> result == Ok([])
      ensures qualityChunks != [] && "file_type" !in baseMetadata ==> result == Err(MissingKey("file_type"))
      ensures "file_type" in baseMetadata ==> result == Ok(EnrichAll(qualityChunks, baseMetadata))
    {
      var enriched: seq<TextChunk> := [];
      for i := 0 to |qualityChunks|
        invariant i > 0 ==> "file_type" in baseMetadata
        invariant |enriched| == i
        invariant forall k :: 0 <= k < i ==> "file_type" in baseMetadata && enriched[k] == Enriched(qualityChunks[k], baseMetadata)
      {
        if "file_type" !in baseMetadata {
          return Err(MissingKey("file_type"));
        }
        var chunk := qualityChunks[i];
        enriched := enriched + [chunk.(metadata := chunk.metadata + map["source_file" := baseMetadata["file_path"],
                                                                        "file_type" := baseMetadata["file_type"],
                                                                        "original_metadata" := MapV(OriginalMetadata(baseMetadata))])];
      }
      if "file_type" in baseMetadata {
        assert enriched == EnrichAll(qualityChunks, baseMetadata);
      }
      result := Ok(enriched);
    }
  }

  /** The last `m` fragments of the buffer `frags[lo..i]`. */
  lemma BufferSuffix(frags: seq<string>, lo: nat, i: nat, m: nat, buffer: seq<string>)
    requires lo <= i <= |frags| && m <= i - lo && buffer == frags[lo..i]
    ensures buffer[|buffer| - m..] == frags[i - m..i]
  {
  }

  /** The emptied buffer. */
  lemma BufferEmpty(frags: seq<string>, i: nat)
    requires i <= |frags|
    ensures [] == frags[i..i]
  {
  }

  /** Appending fragment `i` to the buffer `frags[lo..i]`. */
  lemma BufferSnoc(frags: seq<string>, lo: nat, i: nat, buffer: seq<string>)
    requires lo <= i < |frags| && buffer == frags[lo..i]
    ensures buffer + [frags[i]] == frags[lo..i + 1]
  {
  }

  /** The final buffer joins trimmed fragments, so it is non-empty and stripping leaves it alone. */
  lemma FinalBufferIsTrimmed(frags: seq<string>, lo: nat)
    requires lo < |frags|
    requires forall k :: 0 <= k < |frags| ==> IsTrimmed(frags[k])
    ensures Strip(Join(" ", frags[lo..])) == Join(" ", frags[lo..]) != []
  {
    var group := frags[lo..];
    forall m | 0 <= m < |group| ensures IsTrimmed(group[m]) {
      assert group[m] == frags[lo + m];
    }
    JoinOfTrimmed(group);
    JoinEnds(" ", group);
  }
}
