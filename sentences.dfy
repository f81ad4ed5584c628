/** The sentence strategy of `DocumentChunker.chunk_by_sentences_enhanced`,
    as functions of the text: the fragments it keeps, how the loop groups
    them into buffers, and the chunks that come out.

    The buffer is always a run `frags[lo..i]` of consecutive fragments, so a
    group is written as the span `Span(lo, hi)`. */
module Sentences {
  import opened Text
  import opened Patterns
  import opened Quality
  import opened Documents
  import opened Chunks

  /** Line 205: each piece stripped, kept when longer than 20 characters. */
  function KeepFragments(pieces: seq<string>): (frags: seq<string>)
    ensures |frags| <= |pieces|
    ensures forall k :: 0 <= k < |frags| ==> |frags[k]| > 20 && IsTrimmed(frags[k])
  {
    if pieces == [] then []
    else
      var s := Strip(pieces[0]);
      if |s| > 20 then [s] + KeepFragments(pieces[1..]) else KeepFragments(pieces[1..])
  }

  /** The fragments are exactly the stripped pieces longer than 20 characters. */
  lemma {:induction false} FragmentsComeFromPieces(pieces: seq<string>)
    ensures forall f :: f in KeepFragments(pieces) ==> exists p :: p in pieces && f == Strip(p)
    decreases |pieces|
  {
    if pieces != [] {
      FragmentsComeFromPieces(pieces[1..]);
      assert forall p :: p in pieces[1..] ==> p in pieces;
    }
  }

  lemma {:induction false} LongPiecesAreKept(pieces: seq<string>)
    ensures forall p :: p in pieces && |Strip(p)| > 20 ==> Strip(p) in KeepFragments(pieces)
    decreases |pieces|
  {
    if pieces != [] {
      LongPiecesAreKept(pieces[1..]);
      assert forall p :: p in pieces ==> p == pieces[0] || p in pieces[1..];
    }
  }

  /** Lines 204-205: the fragments of a text. */
  function Fragments(text: string): seq<string>
  {
    KeepFragments(SentencePieces(text))
  }

  datatype Span = Span(lo: nat, hi: nat)

  /** Line 233: `max(1, min(3, n // 3))`, the number of sentences kept. */
  function OverlapCount(n: nat): (m: nat)
    requires n >= 1
    ensures 1 <= m <= 3 && m <= n
  {
    Max(1, Min(3, n / 3))
  }

  /** The buffer `frags[lo..i]` as the loop holds it: `' '.join(current_sentences)`. */
  function Current(frags: seq<string>, lo: nat, i: nat): string
    requires lo <= i <= |frags|
  {
    Join(" ", frags[lo..i])
  }

  /** Line 214: the loop closes the buffer before appending fragment `i`
      when the buffer is non-empty and its length plus the fragment's
      exceeds the chunk size. The joining space is not counted. */
  predicate Closes(chunkSize: int, frags: seq<string>, lo: nat, i: nat)
    requires lo <= i < |frags|
  {
    |Current(frags, lo, i)| + |frags[i]| > chunkSize && Current(frags, lo, i) != []
  }

  /** Lines 231-238: after closing `frags[lo..i]`, the buffer restarts with
      its last `OverlapCount` fragments when the overlap is positive, and
      empty otherwise. */
  function Reopen(overlap: int, lo: nat, i: nat): (next: nat)
    requires lo < i
    ensures lo <= next <= i
  {
    if overlap > 0 then i - OverlapCount(i - lo) else i
  }

  /** The buffers the loop closes from state `frags[lo..i]` on, the final
      buffer last when it is non-empty. */
  function GroupsFrom(chunkSize: int, overlap: int, frags: seq<string>, lo: nat, i: nat): (gs: seq<Span>)
    requires lo <= i <= |frags|
    decreases |frags| - i
  {
    if i == |frags| then
      if lo < i then [Span(lo, i)] else []
    else if Closes(chunkSize, frags, lo, i) then
      var rest := GroupsFrom(chunkSize, overlap, frags, Reopen(overlap, lo, i), i + 1);
      [Span(lo, i)] + rest
    else GroupsFrom(chunkSize, overlap, frags, lo, i + 1)
  }

  /** One step of the loop: at the end the non-empty buffer is the last
      group; a buffer that closes is a group followed by those of the reopened
      buffer; otherwise the fragment joins the buffer. */
  lemma GroupsStep(chunkSize: int, overlap: int, frags: seq<string>, lo: nat, i: nat)
    requires lo <= i <= |frags|
    ensures i == |frags| ==> GroupsFrom(chunkSize, overlap, frags, lo, i) == (if lo < i then [Span(lo, i)] else [])
    ensures i < |frags| && Closes(chunkSize, frags, lo, i) ==>
      lo < i && GroupsFrom(chunkSize, overlap, frags, lo, i)
        == [Span(lo, i)] + GroupsFrom(chunkSize, overlap, frags, Reopen(overlap, lo, i), i + 1)
    ensures i < |frags| && !Closes(chunkSize, frags, lo, i) ==>
      GroupsFrom(chunkSize, overlap, frags, lo, i) == GroupsFrom(chunkSize, overlap, frags, lo, i + 1)
  {
  }

  /** The loop's bookkeeping when the buffer closes: the closed buffers
      followed by those still to come are all the groups. */
  lemma GroupsAdvanceClose(chunkSize: int, overlap: int, frags: seq<string>, lo: nat, i: nat, closed: seq<Span>)
    requires lo <= i < |frags| && Closes(chunkSize, frags, lo, i)
    requires closed + GroupsFrom(chunkSize, overlap, frags, lo, i) == Groups(chunkSize, overlap, frags)
    ensures lo < i
    ensures (closed + [Span(lo, i)]) + GroupsFrom(chunkSize, overlap, frags, Reopen(overlap, lo, i), i + 1)
         == Groups(chunkSize, overlap, frags)
  {
    GroupsStep(chunkSize, overlap, frags, lo, i);
    var rest := GroupsFrom(chunkSize, overlap, frags, Reopen(overlap, lo, i), i + 1);
    assert (closed + [Span(lo, i)]) + rest == closed + ([Span(lo, i)] + rest);
  }

  /** The loop's bookkeeping when the fragment joins the buffer. */
  lemma GroupsAdvanceKeep(chunkSize: int, overlap: int, frags: seq<string>, lo: nat, i: nat, closed: seq<Span>)
    requires lo <= i < |frags| && !Closes(chunkSize, frags, lo, i)
    requires closed + GroupsFrom(chunkSize, overlap, frags, lo, i) == Groups(chunkSize, overlap, frags)
    ensures closed + GroupsFrom(chunkSize, overlap, frags, lo, i + 1) == Groups(chunkSize, overlap, frags)
  {
    GroupsStep(chunkSize, overlap, frags, lo, i);
  }

  /** The loop's bookkeeping at the end of the list: the final buffer, when
      non-empty, is the last group. */
  lemma GroupsLast(chunkSize: int, overlap: int, frags: seq<string>, lo: nat, closed: seq<Span>)
    requires lo <= |frags|
    requires closed + GroupsFrom(chunkSize, overlap, frags, lo, |frags|) == Groups(chunkSize, overlap, frags)
    ensures lo < |frags| ==> closed + [Span(lo, |frags|)] == Groups(chunkSize, overlap, frags)
    ensures lo == |frags| ==> closed == Groups(chunkSize, overlap, frags)
  {
    GroupsStep(chunkSize, overlap, frags, lo, |frags|);
    assert closed + [] == closed;
  }

  /** The groups are non-empty spans inside the fragment list, from the
      current buffer to the end; each one but the last stops before the end
      and the next one reopens it. */
  predicate WellGrouped(overlap: int, frags: seq<string>, lo: nat, i: nat, gs: seq<Span>)
  {
    && (forall k :: 0 <= k < |gs| ==> lo <= gs[k].lo < gs[k].hi <= |frags| && i <= gs[k].hi)
    && (gs != [] <==> lo < |frags|)
    && (gs != [] ==> gs[0].lo == lo && gs[|gs| - 1].hi == |frags|)
    && (forall k :: 0 <= k < |gs| - 1 ==>
          && gs[k].hi < |frags|
          && gs[k + 1].lo == Reopen(overlap, gs[k].lo, gs[k].hi)
          && gs[k].hi < gs[k + 1].hi)
  }

  lemma {:induction false} GroupsShape(chunkSize: int, overlap: int, frags: seq<string>, lo: nat, i: nat)
    requires lo <= i <= |frags|
    ensures WellGrouped(overlap, frags, lo, i, GroupsFrom(chunkSize, overlap, frags, lo, i))
    decreases |frags| - i
  {
    if i == |frags| {
      GroupsStep(chunkSize, overlap, frags, lo, i);
      WellGroupedLast(overlap, frags, lo);
    } else if Closes(chunkSize, frags, lo, i) {
      GroupsShape(chunkSize, overlap, frags, Reopen(overlap, lo, i), i + 1);
      GroupsShapeClose(chunkSize, overlap, frags, lo, i);
    } else {
      GroupsShape(chunkSize, overlap, frags, lo, i + 1);
      GroupsShapeKeep(chunkSize, overlap, frags, lo, i);
    }
  }

  /** The step of `GroupsShape` where the buffer closes at `i`. */
  lemma GroupsShapeClose(chunkSize: int, overlap: int, frags: seq<string>, lo: nat, i: nat)
    requires lo <= i < |frags| && Closes(chunkSize, frags, lo, i)
    requires WellGrouped(overlap, frags, Reopen(overlap, lo, i), i + 1,
                         GroupsFrom(chunkSize, overlap, frags, Reopen(overlap, lo, i), i + 1))
    ensures WellGrouped(overlap, frags, lo, i, GroupsFrom(chunkSize, overlap, frags, lo, i))
  {
    GroupsStep(chunkSize, overlap, frags, lo, i);
    WellGroupedCons(overlap, frags, lo, i, GroupsFrom(chunkSize, overlap, frags, Reopen(overlap, lo, i), i + 1));
  }

  /** The step of `GroupsShape` where fragment `i` joins the buffer. */
  lemma GroupsShapeKeep(chunkSize: int, overlap: int, frags: seq<string>, lo: nat, i: nat)
    requires lo <= i < |frags| && !Closes(chunkSize, frags, lo, i)
    requires WellGrouped(overlap, frags, lo, i + 1, GroupsFrom(chunkSize, overlap, frags, lo, i + 1))
    ensures WellGrouped(overlap, frags, lo, i, GroupsFrom(chunkSize, overlap, frags, lo, i))
  {
    GroupsStep(chunkSize, overlap, frags, lo, i);
    WellGroupedWeaken(overlap, frags, lo, i, GroupsFrom(chunkSize, overlap, frags, lo, i + 1));
  }

  /** At the end of the list the final buffer, when non-empty, is the one group. */
  lemma WellGroupedLast(overlap: int, frags: seq<string>, lo: nat)
    requires lo <= |frags|
    ensures WellGrouped(overlap, frags, lo, |frags|, if lo < |frags| then [Span(lo, |frags|)] else [])
  {
  }

  /** Groups that end at or after `i + 1` end at or after `i`. */
  lemma WellGroupedWeaken(overlap: int, frags: seq<string>, lo: nat, i: nat, gs: seq<Span>)
    requires WellGrouped(overlap, frags, lo, i + 1, gs)
    ensures WellGrouped(overlap, frags, lo, i, gs)
  {
  }

  /** Closing `frags[lo..i]` in front of well-formed groups of the reopened
      buffer gives well-formed groups. */
  lemma WellGroupedCons(overlap: int, frags: seq<string>, lo: nat, i: nat, rest: seq<Span>)
    requires lo < i < |frags|
    requires WellGrouped(overlap, frags, Reopen(overlap, lo, i), i + 1, rest)
    ensures WellGrouped(overlap, frags, lo, i, [Span(lo, i)] + rest)
  {
    var gs := [Span(lo, i)] + rest;
    assert rest != [];
    forall k | 0 <= k < |gs| ensures lo <= gs[k].lo < gs[k].hi <= |frags| && i <= gs[k].hi {
      if k > 0 { assert gs[k] == rest[k - 1]; }
    }
    assert gs[|gs| - 1] == rest[|rest| - 1];
    forall k | 0 <= k < |gs| - 1
      ensures gs[k].hi < |frags| && gs[k + 1].lo == Reopen(overlap, gs[k].lo, gs[k].hi) && gs[k].hi < gs[k + 1].hi
    {
      if k > 0 {
        assert gs[k] == rest[k - 1] && gs[k + 1] == rest[k];
      } else {
        assert gs[1] == rest[0];
      }
    }
  }

  /** Every buffer but the last was closed because the next fragment did not fit. */
  predicate ClosedWhenFull(chunkSize: int, frags: seq<string>, gs: seq<Span>)
  {
    forall k :: 0 <= k < |gs| - 1 ==> gs[k].lo <= gs[k].hi < |frags| && Closes(chunkSize, frags, gs[k].lo, gs[k].hi)
  }

  lemma ClosedWhenFullCons(chunkSize: int, frags: seq<string>, g: Span, rest: seq<Span>)
    requires g.lo <= g.hi < |frags| && Closes(chunkSize, frags, g.lo, g.hi)
    requires ClosedWhenFull(chunkSize, frags, rest)
    ensures ClosedWhenFull(chunkSize, frags, [g] + rest)
  {
    var gs := [g] + rest;
    forall k | 0 <= k < |gs| - 1 ensures gs[k].lo <= gs[k].hi < |frags| && Closes(chunkSize, frags, gs[k].lo, gs[k].hi) {
      if k > 0 {
        assert gs[k] == rest[k - 1];
      }
    }
  }

  lemma {:induction false} GroupsCloseWhenFull(chunkSize: int, overlap: int, frags: seq<string>, lo: nat, i: nat)
    requires lo <= i <= |frags|
    ensures ClosedWhenFull(chunkSize, frags, GroupsFrom(chunkSize, overlap, frags, lo, i))
    decreases |frags| - i
  {
    GroupsStep(chunkSize, overlap, frags, lo, i);
    if i < |frags| {
      if Closes(chunkSize, frags, lo, i) {
        var rest := GroupsFrom(chunkSize, overlap, frags, Reopen(overlap, lo, i), i + 1);
        GroupsCloseWhenFull(chunkSize, overlap, frags, Reopen(overlap, lo, i), i + 1);
        ClosedWhenFullCons(chunkSize, frags, Span(lo, i), rest);
      } else {
        GroupsCloseWhenFull(chunkSize, overlap, frags, lo, i + 1);
      }
    }
  }

  /** The buffers the loop forms over the whole fragment list. */
  function Groups(chunkSize: int, overlap: int, frags: seq<string>): seq<Span>
  {
    GroupsFrom(chunkSize, overlap, frags, 0, 0)
  }

  /** The fragments of the groups, one after the other. */
  function Flatten(frags: seq<string>, gs: seq<Span>): seq<string>
    requires forall k :: 0 <= k < |gs| ==> gs[k].lo <= gs[k].hi <= |frags|
  {
    if gs == [] then [] else frags[gs[0].lo..gs[0].hi] + Flatten(frags, gs[1..])
  }

  lemma {:induction false} FlattenTiling(frags: seq<string>, gs: seq<Span>, a: nat)
    requires gs != []
    requires forall k :: 0 <= k < |gs| ==> gs[k].lo <= gs[k].hi <= |frags|
    requires gs[0].lo == a && gs[|gs| - 1].hi == |frags|
    requires forall k :: 0 <= k < |gs| - 1 ==> gs[k + 1].lo == gs[k].hi
    ensures a <= |frags| && Flatten(frags, gs) == frags[a..]
    decreases |gs|
  {
    if |gs| == 1 {
      assert Flatten(frags, gs) == frags[a..|frags|] + Flatten(frags, []);
    } else {
      var rest := gs[1..];
      FlattenTiling(frags, rest, gs[0].hi);
      assert frags[a..gs[0].hi] + frags[gs[0].hi..] == frags[a..];
    }
  }

  /** Without overlap the buffers partition the fragments: read one after
      the other they are exactly the fragment list. */
  lemma GroupsPartition(chunkSize: int, overlap: int, frags: seq<string>, gs: seq<Span>)
    requires overlap <= 0
    requires gs == Groups(chunkSize, overlap, frags)
    ensures forall k :: 0 <= k < |gs| ==> gs[k].lo < gs[k].hi <= |frags|
    ensures Flatten(frags, gs) == frags
  {
    GroupsShape(chunkSize, overlap, frags, 0, 0);
    if gs != [] {
      FlattenTiling(frags, gs, 0);
    }
  }

  /** With a positive overlap, each buffer after a close starts with the
      last `max(1, min(3, n // 3))` fragments of the closed one, then goes on
      with the fragment that did not fit. */
  lemma GroupsOverlap(chunkSize: int, overlap: int, frags: seq<string>, gs: seq<Span>)
    requires overlap > 0
    requires gs == Groups(chunkSize, overlap, frags)
    ensures forall k :: 0 <= k < |gs| - 1 ==>
      && gs[k].lo < gs[k].hi
      && gs[k].lo <= gs[k + 1].lo
      && gs[k + 1].lo == gs[k].hi - OverlapCount(gs[k].hi - gs[k].lo)
      && gs[k].hi < gs[k + 1].hi
  {
    GroupsShape(chunkSize, overlap, frags, 0, 0);
  }

  /** Without overlap a buffer of two or more fragments is at most one
      character longer than the chunk size: the size check ignores the
      space that joins the next fragment on. */
  lemma {:induction false} GroupSizeFrom(chunkSize: int, overlap: int, frags: seq<string>, lo: nat, i: nat)
    requires overlap <= 0
    requires forall k :: 0 <= k < |frags| ==> frags[k] != []
    requires lo <= i <= |frags|
    requires i - lo >= 2 ==> |Current(frags, lo, i)| <= chunkSize + 1
    ensures SizeBounded(chunkSize, frags, GroupsFrom(chunkSize, overlap, frags, lo, i))
    decreases |frags| - i, 1
  {
    GroupsStep(chunkSize, overlap, frags, lo, i);
    if i < |frags| {
      if Closes(chunkSize, frags, lo, i) {
        GroupSizeAfterClose(chunkSize, overlap, frags, lo, i);
      } else {
        if lo < i {
          GrowBuffer(chunkSize, frags, lo, i);
        }
        GroupSizeFrom(chunkSize, overlap, frags, lo, i + 1);
      }
    } else if lo < i {
      var gs := GroupsFrom(chunkSize, overlap, frags, lo, i);
      forall g | g in gs && g.lo <= g.hi <= |frags| && g.hi - g.lo >= 2 ensures |Current(frags, g.lo, g.hi)| <= chunkSize + 1 {
        assert g == Span(lo, i);
      }
    }
  }

  lemma {:induction false} GroupSizeAfterClose(chunkSize: int, overlap: int, frags: seq<string>, lo: nat, i: nat)
    requires overlap <= 0
    requires forall k :: 0 <= k < |frags| ==> frags[k] != []
    requires lo <= i < |frags|
    requires GroupsFrom(chunkSize, overlap, frags, lo, i) == [Span(lo, i)] + GroupsFrom(chunkSize, overlap, frags, i, i + 1)
    requires i - lo >= 2 ==> |Current(frags, lo, i)| <= chunkSize + 1
    ensures SizeBounded(chunkSize, frags, GroupsFrom(chunkSize, overlap, frags, lo, i))
    decreases |frags| - i, 0
  {
    var rest := GroupsFrom(chunkSize, overlap, frags, i, i + 1);
    GroupSizeFrom(chunkSize, overlap, frags, i, i + 1);
    var gs := [Span(lo, i)] + rest;
    forall g | g in gs && g.lo <= g.hi <= |frags| && g.hi - g.lo >= 2 ensures |Current(frags, g.lo, g.hi)| <= chunkSize + 1 {
      if g != Span(lo, i) {
        assert g in rest;
      }
    }
  }

  /** Every buffer of two or more fragments is at most one character longer
      than the chunk size. */
  predicate SizeBounded(chunkSize: int, frags: seq<string>, gs: seq<Span>)
  {
    forall g :: g in gs && g.lo <= g.hi <= |frags| && g.hi - g.lo >= 2 ==> |Current(frags, g.lo, g.hi)| <= chunkSize + 1
  }

  /** A buffer that does not close grows by a space and the next fragment. */
  lemma GrowBuffer(chunkSize: int, frags: seq<string>, lo: nat, i: nat)
    requires forall k :: 0 <= k < |frags| ==> frags[k] != []
    requires lo < i < |frags| && !Closes(chunkSize, frags, lo, i)
    ensures |Current(frags, lo, i + 1)| == |Current(frags, lo, i)| + 1 + |frags[i]| <= chunkSize + 1
  {
    var buffer := frags[lo..i];
    assert forall k :: 0 <= k < |buffer| ==> buffer[k] != [] by {
      forall k | 0 <= k < |buffer| ensures buffer[k] != [] {
        assert buffer[k] == frags[lo + k];
      }
    }
    JoinEnds(" ", buffer);
    assert frags[lo..i + 1] == buffer + [frags[i]];
    JoinSnoc(" ", buffer, frags[i]);
  }

  lemma GroupSizeBound(chunkSize: int, overlap: int, frags: seq<string>, gs: seq<Span>)
    requires overlap <= 0
    requires forall k :: 0 <= k < |frags| ==> frags[k] != []
    requires gs == Groups(chunkSize, overlap, frags)
    ensures forall g :: g in gs && g.hi - g.lo >= 2 ==> g.hi <= |frags| && |Current(frags, g.lo, g.hi)| <= chunkSize + 1
  {
    GroupsShape(chunkSize, overlap, frags, 0, 0);
    GroupSizeFrom(chunkSize, overlap, frags, 0, 0);
  }

  /** Joining trimmed fragments with single spaces gives a trimmed string,
      so the `.strip()` on a closed buffer changes nothing. */
  lemma JoinOfTrimmed(parts: seq<string>)
    requires parts != []
    requires forall k :: 0 <= k < |parts| ==> IsTrimmed(parts[k])
    ensures Strip(Join(" ", parts)) == Join(" ", parts)
  {
    JoinEnds(" ", parts);
    StripTrimmed(Join(" ", parts));
  }

  /** Lines 216 and 244: a buffer becomes a chunk when it passes the filter. */
  function KeepGroup(chunkSize: int, frags: seq<string>): Span -> bool
  {
    (g: Span) => g.lo <= g.hi <= |frags| && IsQualityChunk(Current(frags, g.lo, g.hi), chunkSize)
  }

  /** The chunk of a closed buffer (lines 217-227 and 245-255). Its
      `chunk_size` is the length of the unstripped buffer. */
  function SentenceChunk(chunkSize: int, group: seq<string>, id: int): TextChunk
    requires chunkSize != 0
  {
    var current := Join(" ", group);
    TextChunk(Strip(current),
              map["chunking_strategy" := StrV("sentence_based"),
                  "sentence_count" := IntV(|group|),
                  "quality_score" := RealV(QualityScore(current, chunkSize)),
                  "content_type" := StrV(TypeName(Classify(current))),
                  "chunk_size" := IntV(|current|)],
              id)
  }

  lemma KeptGroupNeedsChunkSize(chunkSize: int, frags: seq<string>, g: Span)
    requires KeepGroup(chunkSize, frags)(g)
    ensures chunkSize >= 54
  {
    QualityNeedsChunkSize(Current(frags, g.lo, g.hi), chunkSize);
  }

  /** The kept buffers as chunks, numbered from 0. */
  function NumberedGroups(chunkSize: int, frags: seq<string>, kept: seq<Span>): seq<TextChunk>
    requires forall k :: 0 <= k < |kept| ==> kept[k].lo <= kept[k].hi <= |frags|
    requires kept == [] || chunkSize != 0
  {
    NumberedBy(kept, GroupChunk(chunkSize, frags))
  }

  function GroupChunk(chunkSize: int, frags: seq<string>): (Span, int) --> TextChunk
  {
    (g: Span, id: int) requires chunkSize != 0 && g.lo <= g.hi <= |frags| => SentenceChunk(chunkSize, frags[g.lo..g.hi], id)
  }

  /** Numbering one more buffer appends its chunk. */
  lemma NumberedGroupsSnoc(chunkSize: int, frags: seq<string>, kept: seq<Span>, g: Span)
    requires forall k :: 0 <= k < |kept| ==> kept[k].lo <= kept[k].hi <= |frags|
    requires g.lo <= g.hi <= |frags| && chunkSize != 0
    ensures NumberedGroups(chunkSize, frags, kept + [g])
         == NumberedGroups(chunkSize, frags, kept) + [SentenceChunk(chunkSize, frags[g.lo..g.hi], |kept|)]
  {
    NumberedBySnoc(kept, g, GroupChunk(chunkSize, frags));
  }

  /** Buffers that pass the filter lie inside the fragment list and need a
      chunk size of at least 54. */
  lemma KeptGroupsWellFormed(chunkSize: int, frags: seq<string>, gs: seq<Span>)
    ensures forall k :: 0 <= k < |Filter(gs, KeepGroup(chunkSize, frags))| ==>
      Filter(gs, KeepGroup(chunkSize, frags))[k].lo <= Filter(gs, KeepGroup(chunkSize, frags))[k].hi <= |frags|
    ensures Filter(gs, KeepGroup(chunkSize, frags)) == [] || chunkSize >= 54
  {
    var kept := Filter(gs, KeepGroup(chunkSize, frags));
    forall k | 0 <= k < |kept| ensures kept[k].lo <= kept[k].hi <= |frags| {
      assert kept[k] in kept;
    }
    if kept != [] {
      assert kept[0] in kept;
      KeptGroupNeedsChunkSize(chunkSize, frags, kept[0]);
    }
  }

  /** The chunks of the closed buffers `gs` that pass the filter, numbered from 0. */
  function ClosedChunks(chunkSize: int, frags: seq<string>, gs: seq<Span>): seq<TextChunk>
  {
    KeptGroupsWellFormed(chunkSize, frags, gs);
    NumberedGroups(chunkSize, frags, Filter(gs, KeepGroup(chunkSize, frags)))
  }

  /** Closing one more buffer appends its chunk, numbered next, when it
      passes the filter, and nothing otherwise. */
  lemma ClosedChunksSnoc(chunkSize: int, frags: seq<string>, gs: seq<Span>, lo: nat, hi: nat)
    requires lo <= hi <= |frags|
    ensures IsQualityChunk(Current(frags, lo, hi), chunkSize) ==> chunkSize >= 54
    ensures ClosedChunks(chunkSize, frags, gs + [Span(lo, hi)])
         == ClosedChunks(chunkSize, frags, gs)
            + (if IsQualityChunk(Current(frags, lo, hi), chunkSize)
               then [SentenceChunk(chunkSize, frags[lo..hi], |ClosedChunks(chunkSize, frags, gs)|)] else [])
  {
    var g := Span(lo, hi);
    FilterAppend(gs, g, KeepGroup(chunkSize, frags));
    KeptGroupsWellFormed(chunkSize, frags, gs);
    KeptGroupsWellFormed(chunkSize, frags, gs + [g]);
    if KeepGroup(chunkSize, frags)(g) {
      KeptGroupNeedsChunkSize(chunkSize, frags, g);
      NumberedGroupsSnoc(chunkSize, frags, Filter(gs, KeepGroup(chunkSize, frags)), g);
    }
  }

  /** `chunk_by_sentences_enhanced` on a text. */
  function SentenceChunks(text: string, chunkSize: int, overlap: int): seq<TextChunk>
  {
    var frags := Fragments(text);
    ClosedChunks(chunkSize, frags, Groups(chunkSize, overlap, frags))
  }

  /** The chunk of a run of trimmed fragments is the run's join, and counts
      the run's fragments. */
  lemma SentenceChunkOfGroup(chunkSize: int, frags: seq<string>, g: Span, id: int)
    requires forall k :: 0 <= k < |frags| ==> IsTrimmed(frags[k])
    requires g.lo < g.hi <= |frags| && chunkSize >= 54
    ensures SentenceChunk(chunkSize, frags[g.lo..g.hi], id).content == Current(frags, g.lo, g.hi)
    ensures IntAt(SentenceChunk(chunkSize, frags[g.lo..g.hi], id).metadata, "sentence_count") == g.hi - g.lo
  {
    var group := frags[g.lo..g.hi];
    forall m | 0 <= m < |group| ensures IsTrimmed(group[m]) {
      assert group[m] == frags[g.lo + m];
    }
    JoinOfTrimmed(group);
    SentenceChunkFields(chunkSize, group, id);
  }

  /** Every emitted chunk is the join of a non-empty run of consecutive
      fragments, unchanged by stripping, that passes the quality filter; its
      `sentence_count` is the length of the run; chunk ids run 0, 1, 2, .... */
  lemma SentenceChunksFacts(text: string, chunkSize: int, overlap: int, chunks: seq<TextChunk>)
    requires chunks == SentenceChunks(text, chunkSize, overlap)
    ensures var frags := Fragments(text);
      var kept := Filter(Groups(chunkSize, overlap, frags), KeepGroup(chunkSize, frags));
      && |chunks| == |kept|
      && forall k :: 0 <= k < |chunks| ==>
        && chunks[k].chunkId == k
        && kept[k].lo < kept[k].hi <= |frags|
        && chunks[k].content == Current(frags, kept[k].lo, kept[k].hi)
        && IntAt(chunks[k].metadata, "sentence_count") == kept[k].hi - kept[k].lo
        && IsQualityChunk(chunks[k].content, chunkSize)
  {
    var frags := Fragments(text);
    var gs := Groups(chunkSize, overlap, frags);
    var kept := Filter(gs, KeepGroup(chunkSize, frags));
    KeptGroupsWellFormed(chunkSize, frags, gs);
    KeptGroupsNonEmpty(chunkSize, overlap, frags, gs);
    KeptChunks(chunkSize, frags, kept, chunks);
  }

  /** The buffers that pass the filter are non-empty. */
  lemma KeptGroupsNonEmpty(chunkSize: int, overlap: int, frags: seq<string>, gs: seq<Span>)
    requires gs == Groups(chunkSize, overlap, frags)
    ensures forall g :: g in Filter(gs, KeepGroup(chunkSize, frags)) ==> g.lo < g.hi && KeepGroup(chunkSize, frags)(g)
  {
    GroupsShape(chunkSize, overlap, frags, 0, 0);
    forall g | g in Filter(gs, KeepGroup(chunkSize, frags)) ensures g.lo < g.hi {
      var j :| 0 <= j < |gs| && gs[j] == g;
    }
  }

  /** The numbered chunks of buffers that passed the filter. */
  lemma KeptChunks(chunkSize: int, frags: seq<string>, kept: seq<Span>, chunks: seq<TextChunk>)
    requires forall m :: 0 <= m < |frags| ==> IsTrimmed(frags[m])
    requires forall g :: g in kept ==> g.lo < g.hi && KeepGroup(chunkSize, frags)(g)
    requires forall m :: 0 <= m < |kept| ==> kept[m].lo <= kept[m].hi <= |frags|
    requires kept == [] || chunkSize >= 54
    requires chunks == NumberedGroups(chunkSize, frags, kept)
    ensures |chunks| == |kept|
    ensures forall k :: 0 <= k < |chunks| ==>
        && chunks[k].chunkId == k
        && kept[k].lo < kept[k].hi <= |frags|
        && chunks[k].content == Current(frags, kept[k].lo, kept[k].hi)
        && IntAt(chunks[k].metadata, "sentence_count") == kept[k].hi - kept[k].lo
        && IsQualityChunk(chunks[k].content, chunkSize)
  {
    forall k | 0 <= k < |chunks|
      ensures chunks[k].chunkId == k
      ensures kept[k].lo < kept[k].hi <= |frags|
      ensures chunks[k].content == Current(frags, kept[k].lo, kept[k].hi)
      ensures IntAt(chunks[k].metadata, "sentence_count") == kept[k].hi - kept[k].lo
      ensures IsQualityChunk(chunks[k].content, chunkSize)
    {
      KeptChunk(chunkSize, frags, kept, chunks, k);
    }
  }

  /** The `k`-th numbered chunk of buffers that passed the filter. */
  lemma KeptChunk(chunkSize: int, frags: seq<string>, kept: seq<Span>, chunks: seq<TextChunk>, k: nat)
    requires forall m :: 0 <= m < |frags| ==> IsTrimmed(frags[m])
    requires forall g :: g in kept ==> g.lo < g.hi && KeepGroup(chunkSize, frags)(g)
    requires forall m :: 0 <= m < |kept| ==> kept[m].lo <= kept[m].hi <= |frags|
    requires chunkSize >= 54
    requires chunks == NumberedGroups(chunkSize, frags, kept)
    requires k < |kept|
    ensures chunks[k].chunkId == k
    ensures kept[k].lo < kept[k].hi <= |frags|
    ensures chunks[k].content == Current(frags, kept[k].lo, kept[k].hi)
    ensures IntAt(chunks[k].metadata, "sentence_count") == kept[k].hi - kept[k].lo
    ensures IsQualityChunk(chunks[k].content, chunkSize)
  {
    var g := kept[k];
    assert g in kept;
    assert chunks[k] == SentenceChunk(chunkSize, frags[g.lo..g.hi], k);
    SentenceChunkOfGroup(chunkSize, frags, g, k);
  }

  lemma SentenceChunkFields(chunkSize: int, group: seq<string>, id: int)
    requires chunkSize != 0
    ensures IntAt(SentenceChunk(chunkSize, group, id).metadata, "sentence_count") == |group|
    ensures IntAt(SentenceChunk(chunkSize, group, id).metadata, "chunk_size") == |Join(" ", group)|
  {
    var m := SentenceChunk(chunkSize, group, id).metadata;
    assert m["sentence_count"] == IntV(|group|);
    assert m["chunk_size"] == IntV(|Join(" ", group)|);
  }
}
