/** The chunk record the splitters produce. */
module Chunks {
  import opened Documents

  /** `TextChunk`: a chunk's text, its metadata and its running number. */
  datatype TextChunk = TextChunk(content: string, metadata: Metadata, chunkId: int)

  /** The integer stored under `key`, or -1 when there is none. */
  function IntAt(m: Metadata, key: string): int
  {
    if key in m && m[key].IntV? then m[key].i else -1
  }

  /** The elements `keep` accepts, in order: a list comprehension with a condition. */
  function Filter<T(!new)>(xs: seq<T>, keep: T -> bool): (kept: seq<T>)
    ensures |kept| <= |xs|
    ensures forall x :: x in kept <==> x in xs && keep(x)
  {
    if xs == [] then []
    else
      var rest := Filter(xs[1..], keep);
      if keep(xs[0]) then [xs[0]] + rest else rest
  }

  lemma {:induction false} FilterAppend<T(!new)>(xs: seq<T>, x: T, keep: T -> bool)
    ensures Filter(xs + [x], keep) == Filter(xs, keep) + (if keep(x) then [x] else [])
    decreases |xs|
  {
    if xs != [] {
      assert (xs + [x])[1..] == xs[1..] + [x];
      FilterAppend(xs[1..], x, keep);
    }
  }

  /** `FilterAppend` on a prefix: filtering one more element of `xs`. */
  lemma FilterPrefixStep<T(!new)>(xs: seq<T>, i: nat, keep: T -> bool)
    requires i < |xs|
    ensures Filter(xs[..i + 1], keep) == Filter(xs[..i], keep) + (if keep(xs[i]) then [xs[i]] else [])
  {
    assert xs[..i + 1] == xs[..i] + [xs[i]];
    FilterAppend(xs[..i], xs[i], keep);
  }

  /** A filter that accepts everything returns its input. */
  lemma {:induction false} FilterKeepsAll<T(!new)>(xs: seq<T>, keep: T -> bool)
    requires forall k :: 0 <= k < |xs| ==> keep(xs[k])
    ensures Filter(xs, keep) == xs
    decreases |xs|
  {
    if xs != [] {
      assert keep(xs[0]);
      FilterKeepsAll(xs[1..], keep);
    }
  }

  /** Concatenation is associative. Stated as a lemma so that callers
      whose context holds many sequence facts do not have to rediscover it. */
  lemma AppendAssoc<T>(a: seq<T>, b: seq<T>, c: seq<T>)
    ensures (a + b) + c == a + (b + c)
  {
  }

  /** The chunks made from `xs` by `make`, numbered from 0 like the source's
      `chunk_id` counter. */
  function NumberedBy<T>(xs: seq<T>, make: (T, int) --> TextChunk): (chunks: seq<TextChunk>)
    requires forall k :: 0 <= k < |xs| ==> make.requires(xs[k], k)
    ensures |chunks| == |xs|
    ensures forall k :: 0 <= k < |xs| ==> chunks[k] == make(xs[k], k)
  {
    seq(|xs|, k requires 0 <= k < |xs| => make(xs[k], k))
  }

  /** Numbering one more element appends its chunk. */
  lemma NumberedBySnoc<T>(xs: seq<T>, x: T, make: (T, int) --> TextChunk)
    requires forall k :: 0 <= k < |xs| ==> make.requires(xs[k], k)
    requires make.requires(x, |xs|)
    ensures forall k :: 0 <= k < |xs + [x]| ==> make.requires((xs + [x])[k], k)
    ensures NumberedBy(xs + [x], make) == NumberedBy(xs, make) + [make(x, |xs|)]
  {
    var ys := xs + [x];
    assert forall k :: 0 <= k < |xs| ==> ys[k] == xs[k];
    assert forall k :: 0 <= k < |ys| ==> make.requires(ys[k], k) by {
      forall k | 0 <= k < |ys| ensures make.requires(ys[k], k) {
        if k < |xs| { assert ys[k] == xs[k]; }
      }
    }
    var a := NumberedBy(ys, make);
    var b := NumberedBy(xs, make) + [make(x, |xs|)];
    assert |a| == |b|;
    forall k | 0 <= k < |a| ensures a[k] == b[k] {
      if k < |xs| { assert ys[k] == xs[k]; }
    }
  }
}
