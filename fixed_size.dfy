/** The fixed-size strategy of `DocumentChunker.chunk_by_fixed_size`, as
    functions of the text: the window at a cursor, how its end is snapped to
    a break, how the cursor moves, and the chunks that come out. */
module FixedSize {
  import opened Text
  import opened Patterns
  import opened Quality
  import opened Documents
  import opened Chunks

  /** `min(start + chunk_size, len(text))`. */
  function WindowEnd(text: string, chunkSize: nat, start: nat): (end: nat)
    requires start <= |text|
    ensures start <= end <= |text|
    ensures end - start <= chunkSize
  {
    Min(start + chunkSize, |text|)
  }

  /** The raw window at `start` holds nothing but whitespace, which ends the loop. */
  predicate BlankWindow(text: string, chunkSize: nat, start: nat)
    requires start <= |text|
  {
    Strip(text[start..WindowEnd(text, chunkSize, start)]) == []
  }

  /** Where one pass of the loop settles: the cursor, the snapped end and
      the stripped text between them. */
  datatype Window = Window(start: nat, end: nat, content: string)

  /** The snapped length of a window that stops short of the end of the
      text (lines 149-169): the end of the last of two or more sentence
      breaks, else of the last paragraph break, else the last space when it
      lies beyond 60% of the chunk size, else the raw length. The offsets are
      found in the stripped `window`. */
  function SnapLength(window: string, rawLength: nat, chunkSize: nat): (e: nat)
    requires |window| <= rawLength
    ensures e == rawLength || 0 < e <= |window|
  {
    var sentenceBreaks := SentenceBreakEnds(window);
    if |sentenceBreaks| > 1 then
      var e := sentenceBreaks[|sentenceBreaks| - 1];
      assert e in sentenceBreaks;
      e
    else
      var paragraphBreaks := ParagraphBreakEnds(window);
      if |paragraphBreaks| > 0 then
        var e := paragraphBreaks[|paragraphBreaks| - 1];
        assert e in paragraphBreaks;
        e
      else
        var lastSpace := RFind(window, ' ');
        if 5 * lastSpace > 3 * chunkSize then lastSpace else rawLength
  }

  /** One pass of the loop up to the quality check (lines 140-169). The
      snapped offset is counted from the unstripped cursor. */
  function SnapWindow(text: string, chunkSize: nat, start: nat): (w: Window)
    requires start < |text| && !BlankWindow(text, chunkSize, start)
    ensures w.start == start < w.end <= WindowEnd(text, chunkSize, start)
    ensures w.content == Strip(text[start..w.end])
  {
    var end := WindowEnd(text, chunkSize, start);
    var window := Strip(text[start..end]);
    assert window != [] && |window| <= |text[start..end]| == end - start;
    var e := if end < |text| then SnapLength(window, end - start, chunkSize) else end - start;
    var snapped := start + e;
    assert start < snapped <= end;
    Window(start, snapped, Strip(text[start..snapped]))
  }

  /** Where the snapped window ends, in terms of the raw window. */
  lemma SnapWindowEnd(text: string, chunkSize: nat, start: nat)
    requires start < |text| && !BlankWindow(text, chunkSize, start)
    ensures WindowEnd(text, chunkSize, start) < |text| ==>
      SnapWindow(text, chunkSize, start).end
        == start + SnapLength(Strip(text[start..WindowEnd(text, chunkSize, start)]), WindowEnd(text, chunkSize, start) - start, chunkSize)
    ensures WindowEnd(text, chunkSize, start) == |text| ==> SnapWindow(text, chunkSize, start).end == |text|
  {
  }

  /** The snapped window of a raw window that stops short of the end of the
      text, given its snapped end. */
  lemma SnapWindowIs(text: string, chunkSize: nat, start: nat, snapped: nat)
    requires start < |text| && !BlankWindow(text, chunkSize, start)
    requires WindowEnd(text, chunkSize, start) < |text|
    requires snapped == start + SnapLength(Strip(text[start..WindowEnd(text, chunkSize, start)]),
                                           WindowEnd(text, chunkSize, start) - start, chunkSize)
    ensures snapped <= |text|
    ensures SnapWindow(text, chunkSize, start) == Window(start, snapped, Strip(text[start..snapped]))
  {
    SnapWindowEnd(text, chunkSize, start);
  }

  /** Lines 188-195: the cursor backs off by the overlap, but the progress
      check sends it to `end` whenever it would land ten or more characters
      before `end`. Only an overlap of 1 to 9 survives. */
  function NextStart(end: int, overlap: int): (next: int)
    ensures overlap <= 0 || overlap >= 10 ==> next == end
    ensures 1 <= overlap <= 9 ==> next == end - overlap
  {
    var start := if overlap > 0 then end - overlap else end;
    if start <= end - 10 then end else start
  }

  /** The cursor loop can stall: with chunk size 7 and overlap 6 on
      "a. b. cd", the window [0, 7) snaps back to the second sentence break
      at 6 and the cursor returns to 0, so the same window recurs forever. */
  lemma SmallOverlapCanStall()
    ensures !BlankWindow("a. b. cd", 7, 0)
    ensures SnapWindow("a. b. cd", 7, 0).end == 6
    ensures NextStart(SnapWindow("a. b. cd", 7, 0).end, 6) == 0
  {
    var text := "a. b. cd";
    var window := text[0..7];
    assert window == "a. b. c";
    assert !IsSpace(window[0]) && !IsSpace(window[6]);
    StripTrimmed(window);
    assert IsSpace(window[2]) && !IsSpace(window[3]);
    assert RunEnd(window, 2, IsSpace) == 3;
    assert IsSpace(window[5]) && !IsSpace(window[6]);
    assert RunEnd(window, 5, IsSpace) == 6;
    assert BreakEndsFrom(window, 6) == [];
    assert BreakEndsFrom(window, 5) == [];
    assert BreakEndsFrom(window, 4) == [6];
    assert BreakEndsFrom(window, 3) == [6];
    assert BreakEndsFrom(window, 2) == [6];
    assert BreakEndsFrom(window, 1) == [3, 6];
    assert SentenceBreakEnds(window) == [3, 6];
  }

  /** The chunk's metadata (lines 175-182). */
  function FixedMetadata(content: string, chunkSize: int, start: int, end: int): Metadata
    requires chunkSize != 0
  {
    map["chunking_strategy" := StrV("fixed_size"),
        "quality_score" := RealV(QualityScore(content, chunkSize)),
        "content_type" := StrV(TypeName(Classify(content))),
        "start_pos" := IntV(start),
        "end_pos" := IntV(end),
        "chunk_size" := IntV(|content|)]
  }

  /** A snapped window of the text: a non-empty span no longer than the
      chunk size, with its stripped text. */
  predicate IsWindowOf(text: string, chunkSize: nat, w: Window)
  {
    && w.start < w.end <= |text|
    && w.end - w.start <= chunkSize
    && w.content == Strip(text[w.start..w.end])
  }

  /** The windows the loop visits from cursor `start` on, for an overlap the
      progress check turns into none. The loop stops at the end of the text
      or at the first window that holds only whitespace. */
  function Windows(text: string, chunkSize: nat, overlap: int, start: nat): (ws: seq<Window>)
    requires overlap <= 0 || overlap >= 10
    decreases |text| - start
  {
    if start >= |text| || BlankWindow(text, chunkSize, start) then []
    else
      var w := SnapWindow(text, chunkSize, start);
      [w] + Windows(text, chunkSize, overlap, NextStart(w.end, overlap))
  }

  /** Snapped windows of the text from cursor `start` on, each starting
      where the one before it ends. */
  predicate Tiled(text: string, chunkSize: nat, start: nat, ws: seq<Window>)
  {
    && (forall k :: 0 <= k < |ws| ==> IsWindowOf(text, chunkSize, ws[k]) && start <= ws[k].start)
    && (forall k :: 0 <= k < |ws| - 1 ==> ws[k].end == ws[k + 1].start)
    && (ws != [] ==> ws[0].start == start)
  }

  /** The cursor loop ends at `at`: the end of the text or a window that
      holds only whitespace (lines 138 and 145-146). */
  predicate Stops(text: string, chunkSize: nat, at: nat)
  {
    at >= |text| || BlankWindow(text, chunkSize, at)
  }

  /** Each window is the one a pass of the loop produces at its own cursor,
      and the loop stops right after the last one (or at `start` when there
      is none). */
  predicate Snapped(text: string, chunkSize: nat, start: nat, ws: seq<Window>)
  {
    && (forall k :: 0 <= k < |ws| ==>
          ws[k].start < |text| && !BlankWindow(text, chunkSize, ws[k].start)
          && ws[k] == SnapWindow(text, chunkSize, ws[k].start))
    && (ws == [] ==> Stops(text, chunkSize, start))
    && (ws != [] ==> Stops(text, chunkSize, ws[|ws| - 1].end))
  }

  /** The visited windows tile the text from the first cursor on, each is the
      snapped window at its cursor, and after the last one the loop has
      reached the end of the text or a blank window. */
  lemma {:induction false} WindowsShape(text: string, chunkSize: nat, overlap: int, start: nat)
    requires overlap <= 0 || overlap >= 10
    ensures Tiled(text, chunkSize, start, Windows(text, chunkSize, overlap, start))
    ensures Snapped(text, chunkSize, start, Windows(text, chunkSize, overlap, start))
    decreases |text| - start
  {
    WindowsStep(text, chunkSize, overlap, start);
    if start < |text| && !BlankWindow(text, chunkSize, start) {
      var w := SnapWindow(text, chunkSize, start);
      WindowsShape(text, chunkSize, overlap, w.end);
      TiledCons(text, chunkSize, w, Windows(text, chunkSize, overlap, w.end));
      SnappedCons(text, chunkSize, w, Windows(text, chunkSize, overlap, w.end));
    }
  }

  /** A snapped window followed by the windows from its end. */
  lemma SnappedCons(text: string, chunkSize: nat, w: Window, rest: seq<Window>)
    requires w.start < |text| && !BlankWindow(text, chunkSize, w.start)
    requires w == SnapWindow(text, chunkSize, w.start)
    requires Snapped(text, chunkSize, w.end, rest)
    ensures Snapped(text, chunkSize, w.start, [w] + rest)
  {
    var ws := [w] + rest;
    forall k | 0 <= k < |ws|
      ensures ws[k].start < |text| && !BlankWindow(text, chunkSize, ws[k].start)
              && ws[k] == SnapWindow(text, chunkSize, ws[k].start)
    {
      if k > 0 { assert ws[k] == rest[k - 1]; }
    }
    if rest != [] {
      assert ws[|ws| - 1] == rest[|rest| - 1];
    }
  }

  /** A window followed by windows tiling from its end tiles from its start. */
  lemma TiledCons(text: string, chunkSize: nat, w: Window, rest: seq<Window>)
    requires IsWindowOf(text, chunkSize, w)
    requires Tiled(text, chunkSize, w.end, rest)
    ensures Tiled(text, chunkSize, w.start, [w] + rest)
  {
    var ws := [w] + rest;
    forall k | 0 <= k < |ws| ensures IsWindowOf(text, chunkSize, ws[k]) && w.start <= ws[k].start {
      if k > 0 { assert ws[k] == rest[k - 1]; }
    }
    forall k | 0 <= k < |ws| - 1 ensures ws[k].end == ws[k + 1].start {
      if k > 0 {
        assert ws[k] == rest[k - 1] && ws[k + 1] == rest[k];
      } else {
        assert ws[1] == rest[0];
      }
    }
  }

  /** One pass of the cursor loop: it stops at the end of the text or at a
      blank window, and otherwise visits the snapped window and goes on from
      its end. */
  lemma WindowsStep(text: string, chunkSize: nat, overlap: int, start: nat)
    requires overlap <= 0 || overlap >= 10
    ensures start >= |text| ==> Windows(text, chunkSize, overlap, start) == []
    ensures start < |text| && BlankWindow(text, chunkSize, start) ==> Windows(text, chunkSize, overlap, start) == []
    ensures start < |text| && !BlankWindow(text, chunkSize, start) ==>
      Windows(text, chunkSize, overlap, start)
        == [SnapWindow(text, chunkSize, start)] + Windows(text, chunkSize, overlap, SnapWindow(text, chunkSize, start).end)
  {
  }

  /** The loop's bookkeeping: the windows visited so far followed by those
      still to come are all the windows of the text. */
  lemma WindowsAdvance(text: string, chunkSize: nat, overlap: int, start: nat, visited: seq<Window>)
    requires overlap <= 0 || overlap >= 10
    requires start < |text| && !BlankWindow(text, chunkSize, start)
    requires visited + Windows(text, chunkSize, overlap, start) == Windows(text, chunkSize, overlap, 0)
    ensures (visited + [SnapWindow(text, chunkSize, start)]) + Windows(text, chunkSize, overlap, SnapWindow(text, chunkSize, start).end)
         == Windows(text, chunkSize, overlap, 0)
  {
    var w := SnapWindow(text, chunkSize, start);
    WindowsStep(text, chunkSize, overlap, start);
    AppendAssoc(visited, [w], Windows(text, chunkSize, overlap, w.end));
  }

  lemma {:induction false} WindowsOrdered(ws: seq<Window>)
    requires forall k :: 0 <= k < |ws| ==> ws[k].start < ws[k].end
    requires forall k :: 0 <= k < |ws| - 1 ==> ws[k].end == ws[k + 1].start
    ensures forall k, l :: 0 <= k < l < |ws| ==> ws[k].end <= ws[l].start
    decreases |ws|
  {
    if |ws| > 1 {
      WindowsOrdered(ws[1..]);
      forall l | 1 <= l < |ws| ensures ws[0].end <= ws[l].start {
        assert ws[1..][0] == ws[1];
        assert ws[1..][l - 1] == ws[l];
        if l > 1 {
          assert ws[1..][0].end <= ws[1..][l - 1].start;
        }
      }
    }
  }

  /** Line 172: a window becomes a chunk when its text is non-empty and
      passes the quality filter. */
  function Keep(chunkSize: int): Window -> bool
  {
    (w: Window) => w.content != [] && IsQualityChunk(w.content, chunkSize)
  }

  /** Each window ends at or before the start of every later one. */
  predicate Ordered(ws: seq<Window>)
  {
    forall k, l :: 0 <= k < l < |ws| ==> ws[k].end <= ws[l].start
  }

  /** Filtering keeps the order: windows in order stay in order. */
  lemma {:induction false} FilterOrdered(ws: seq<Window>, keep: Window -> bool)
    requires Ordered(ws)
    ensures Ordered(Filter(ws, keep))
    decreases |ws|
  {
    if ws != [] {
      OrderedTail(ws);
      FilterOrdered(ws[1..], keep);
      if keep(ws[0]) {
        OrderedCons(ws[0], Filter(ws[1..], keep));
      }
    }
  }

  /** The tail of ordered windows is ordered and starts after the head ends. */
  lemma OrderedTail(ws: seq<Window>)
    requires ws != [] && Ordered(ws)
    ensures Ordered(ws[1..])
    ensures forall x :: x in ws[1..] ==> ws[0].end <= x.start
  {
    var rest := ws[1..];
    forall k, l | 0 <= k < l < |rest| ensures rest[k].end <= rest[l].start {
      assert rest[k] == ws[k + 1] && rest[l] == ws[l + 1];
    }
    forall x | x in rest ensures ws[0].end <= x.start {
      var j :| 0 <= j < |rest| && rest[j] == x;
      assert ws[j + 1] == x;
    }
  }

  /** A window that ends before every window of an ordered list starts
      extends it to an ordered list. */
  lemma OrderedCons(w: Window, ws: seq<Window>)
    requires Ordered(ws)
    requires forall x :: x in ws ==> w.end <= x.start
    ensures Ordered([w] + ws)
  {
    var all := [w] + ws;
    forall k, l | 0 <= k < l < |all| ensures all[k].end <= all[l].start {
      assert all[l] == ws[l - 1];
      if k == 0 {
        assert ws[l - 1] in ws;
      } else {
        assert all[k] == ws[k - 1];
      }
    }
  }

  /** The chunk made of a kept window, with its metadata (lines 173-184). */
  function FixedChunk(w: Window, chunkSize: int, id: int): TextChunk
    requires chunkSize != 0
  {
    TextChunk(w.content, FixedMetadata(w.content, chunkSize, w.start, w.end), id)
  }

  /** The kept windows as chunks, numbered from 0. */
  function Numbered(kept: seq<Window>, chunkSize: int): (chunks: seq<TextChunk>)
    requires kept == [] || chunkSize != 0
  {
    NumberedBy(kept, (w: Window, id: int) requires chunkSize != 0 => FixedChunk(w, chunkSize, id))
  }

  /** Numbering one more window appends its chunk. */
  lemma NumberedSnoc(kept: seq<Window>, w: Window, chunkSize: int)
    requires chunkSize != 0
    ensures Numbered(kept + [w], chunkSize) == Numbered(kept, chunkSize) + [FixedChunk(w, chunkSize, |kept|)]
  {
    NumberedBySnoc(kept, w, (w: Window, id: int) requires chunkSize != 0 => FixedChunk(w, chunkSize, id));
  }

  /** A window is only kept under a chunk size of at least 54. */
  lemma KeptWindowsNeedChunkSize(ws: seq<Window>, chunkSize: int)
    ensures Filter(ws, Keep(chunkSize)) == [] || chunkSize >= 54
  {
    var kept := Filter(ws, Keep(chunkSize));
    if kept != [] {
      assert kept[0] in kept;
      QualityNeedsChunkSize(kept[0].content, chunkSize);
    }
  }

  /** The chunks of the kept windows among `ws`, numbered from 0. */
  function WindowChunks(ws: seq<Window>, chunkSize: int): seq<TextChunk>
  {
    KeptWindowsNeedChunkSize(ws, chunkSize);
    Numbered(Filter(ws, Keep(chunkSize)), chunkSize)
  }

  /** Visiting one more window appends its chunk, numbered next, when the
      window is kept, and nothing otherwise. */
  lemma WindowChunksSnoc(ws: seq<Window>, w: Window, chunkSize: int)
    ensures WindowChunks(ws + [w], chunkSize)
         == WindowChunks(ws, chunkSize) + (if Keep(chunkSize)(w) then [FixedChunk(w, chunkSize, |WindowChunks(ws, chunkSize)|)] else [])
  {
    FilterAppend(ws, w, Keep(chunkSize));
    KeptWindowsNeedChunkSize(ws, chunkSize);
    if Keep(chunkSize)(w) {
      QualityNeedsChunkSize(w.content, chunkSize);
      NumberedSnoc(Filter(ws, Keep(chunkSize)), w, chunkSize);
    }
  }

  /** `chunk_by_fixed_size` on a text. */
  function FixedSizeChunks(text: string, chunkSize: nat, overlap: int): seq<TextChunk>
    requires overlap <= 0 || overlap >= 10
  {
    WindowChunks(Windows(text, chunkSize, overlap, 0), chunkSize)
  }

  function StartPos(c: TextChunk): int { IntAt(c.metadata, "start_pos") }

  function EndPos(c: TextChunk): int { IntAt(c.metadata, "end_pos") }

  /** What every emitted chunk satisfies: it is the non-empty stripped text
      between its recorded positions, which are at most the chunk size
      apart; it passes the quality filter; and its metadata records its own
      length, score, class and span. */
  predicate IsFixedChunkOf(text: string, chunkSize: int, c: TextChunk)
  {
    var s := StartPos(c);
    var e := EndPos(c);
    && 0 <= s < e <= |text|
    && e - s <= chunkSize
    && c.content == Strip(text[s..e]) != []
    && IsQualityChunk(c.content, chunkSize)
    && IntAt(c.metadata, "chunk_size") == |c.content|
    && c.metadata == FixedMetadata(c.content, chunkSize, s, e)
  }

  lemma FixedChunkFields(w: Window, chunkSize: int, id: int)
    requires chunkSize != 0
    ensures StartPos(FixedChunk(w, chunkSize, id)) == w.start
    ensures EndPos(FixedChunk(w, chunkSize, id)) == w.end
    ensures IntAt(FixedChunk(w, chunkSize, id).metadata, "chunk_size") == |w.content|
  {
    var m := FixedMetadata(w.content, chunkSize, w.start, w.end);
    assert m["start_pos"] == IntV(w.start);
    assert m["end_pos"] == IntV(w.end);
    assert m["chunk_size"] == IntV(|w.content|);
  }

  lemma FixedChunkOfWindow(text: string, chunkSize: nat, w: Window, id: int)
    requires IsWindowOf(text, chunkSize, w) && Keep(chunkSize)(w)
    ensures IsFixedChunkOf(text, chunkSize, FixedChunk(w, chunkSize, id))
    ensures StartPos(FixedChunk(w, chunkSize, id)) == w.start
    ensures EndPos(FixedChunk(w, chunkSize, id)) == w.end
  {
    FixedChunkFields(w, chunkSize, id);
  }

  /** Every emitted chunk satisfies `IsFixedChunkOf`, chunk ids run 0, 1,
      2, ..., and the spans are disjoint and in order. */
  lemma FixedSizeChunksFacts(text: string, chunkSize: nat, overlap: int, chunks: seq<TextChunk>)
    requires overlap <= 0 || overlap >= 10
    requires chunks == FixedSizeChunks(text, chunkSize, overlap)
    ensures forall k :: 0 <= k < |chunks| ==> chunks[k].chunkId == k && IsFixedChunkOf(text, chunkSize, chunks[k])
    ensures forall k, l :: 0 <= k < l < |chunks| ==> EndPos(chunks[k]) <= StartPos(chunks[l])
  {
    var ws := Windows(text, chunkSize, overlap, 0);
    var kept := Filter(ws, Keep(chunkSize));
    WindowsShape(text, chunkSize, overlap, 0);
    WindowsOrdered(ws);
    FilterOrdered(ws, Keep(chunkSize));
    KeptWindowsNeedChunkSize(ws, chunkSize);
    forall w | w in kept ensures IsWindowOf(text, chunkSize, w) && Keep(chunkSize)(w) {
      var j :| 0 <= j < |ws| && ws[j] == w;
    }
    KeptWindowChunks(text, chunkSize, kept, chunks);
  }

  /** The numbered chunks of kept windows of the text. */
  lemma KeptWindowChunks(text: string, chunkSize: nat, kept: seq<Window>, chunks: seq<TextChunk>)
    requires forall w :: w in kept ==> IsWindowOf(text, chunkSize, w) && Keep(chunkSize)(w)
    requires Ordered(kept)
    requires kept == [] || chunkSize != 0
    requires chunks == Numbered(kept, chunkSize)
    ensures forall k :: 0 <= k < |chunks| ==> chunks[k].chunkId == k && IsFixedChunkOf(text, chunkSize, chunks[k])
    ensures forall k, l :: 0 <= k < l < |chunks| ==> EndPos(chunks[k]) <= StartPos(chunks[l])
  {
    forall k | 0 <= k < |chunks|
      ensures chunks[k].chunkId == k && IsFixedChunkOf(text, chunkSize, chunks[k])
      ensures StartPos(chunks[k]) == kept[k].start && EndPos(chunks[k]) == kept[k].end
    {
      assert kept[k] in kept;
      assert chunks[k] == FixedChunk(kept[k], chunkSize, k);
      FixedChunkOfWindow(text, chunkSize, kept[k], k);
    }
  }
}
