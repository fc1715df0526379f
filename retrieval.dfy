/** The retrieval index (`TranscriptMemory`): chunks built from caption
    fragments, one embedding per chunk, and the context assembled for a query
    from the best-scoring chunks and their neighbours. Embeddings are opaque
    vectors; the encoder and the query's similarity score are parameters. */
module Retrieval {
  import opened Wrappers
  import opened Text
  import opened Segmenter
  import opened Cleaner
  import opened Timestamp

  /** `TranscriptProcessor`'s default `target_chunk_size`. */
  const TargetChunkSize := 500

  /** An embedding as the encoder returns it. */
  type Vector = seq<int>

  /** `TranscriptChunk`: cleaned text, start and end time in seconds, and the
      embedding once one is assigned. */
  datatype Chunk = Chunk(text: string, startTime: nat, endTime: nat, embedding: Option<Vector>)

  /** The chunk `create_chunks` makes from one merged record: it ends no
      earlier than it starts, its text is cleaned (no whitespace at either end,
      only single spaces inside), and it has no embedding yet. */
  function FromRaw(m: RawChunk): (c: Chunk)
    ensures c.startTime <= c.endTime
    ensures c.text != [] ==> !IsSpace(c.text[0]) && !IsSpace(c.text[|c.text| - 1])
    ensures Collapsed(c.text)
    ensures c.embedding.None?
  {
    Chunk(CleanText(m.text), m.start, m.start + m.duration, None)
  }

  /** The chunks `create_chunks` makes from the merged records, one each. */
  function Cleaned(merged: seq<RawChunk>): (chunks: seq<Chunk>)
    ensures |chunks| == |merged|
    ensures forall j :: 0 <= j < |merged| ==> chunks[j] == FromRaw(merged[j])
  {
    seq(|merged|, j requires 0 <= j < |merged| => FromRaw(merged[j]))
  }

  /** `create_chunks`: merge the fragments, then clean each merged text.
      Chunks whose cleaned text is empty are kept. */
  method CreateChunks(segments: seq<Segment>)
    returns (chunks: seq<Chunk>, merged: seq<RawChunk>, ghost firsts: seq<nat>, ghost kept: nat)
    ensures Merged(segments, TargetChunkSize, merged, firsts, kept)
    ensures chunks == Cleaned(merged)
  {
    merged, firsts, kept := MergeSegments(segments, TargetChunkSize);
    chunks := Cleaned(merged);
  }

  /** Chunk `j` has the cleaned text of its fragments, starts when its first
      fragment starts and ends once all its fragments' durations have run. */
  lemma ChunkSpan(segments: seq<Segment>, merged: seq<RawChunk>, firsts: seq<nat>, kept: nat, j: nat)
    requires Merged(segments, TargetChunkSize, merged, firsts, kept)
    requires j < |merged|
    ensures var stop := Stop(firsts, kept, j);
      var g := segments[firsts[j]..stop];
      var c := Cleaned(merged)[j];
      && g != []
      && c.text == CleanText(GroupText(g))
      && c.startTime == g[0].start
      && c.endTime == g[0].start + SumDuration(g)
      && c.embedding.None?
  {
    var stop := Stop(firsts, kept, j);
    assert merged[j] == Summary(segments[firsts[j]..stop]);
  }

  /** Where Python's slice `a[-k:]` starts in a list of length `n`: the last
      `k` items for positive `k`, all of them for `k == 0` (since `-0 == 0`),
      and all but the first `-k` for negative `k`. */
  function SliceStart(n: nat, k: int): (s: nat)
    ensures s <= n
  {
    if k > 0 then (if k >= n then 0 else n - k)
    else if k == 0 then 0
    else if -k >= n then n else -k
  }

  /** How many indices `np.argsort(scores)[-k:]` keeps. */
  function TopCount(n: nat, k: int): (c: nat)
    ensures c <= n
    ensures k > 0 ==> c <= k
  {
    n - SliceStart(n, k)
  }

  predicate Distinct(s: seq<nat>)
  {
    forall i, j :: 0 <= i < j < |s| ==> s[i] != s[j]
  }

  /** `top` is a valid result of `np.argsort(scores)[-k:][::-1]`: the right
      number of distinct indices, best first, none scoring below an index left
      out. Ties may be broken either way. */
  ghost predicate TopSelection(scores: seq<int>, k: int, top: seq<nat>)
  {
    && |top| == TopCount(|scores|, k)
    && Distinct(top)
    && (forall i :: 0 <= i < |top| ==> top[i] < |scores|)
    && (forall i, j :: 0 <= i < j < |top| ==> scores[top[i]] >= scores[top[j]])
    && (forall i, u :: 0 <= i < |top| && 0 <= u < |scores| && u !in top ==> scores[top[i]] >= scores[u])
  }

  /** The top `k` indices by score, highest first: repeatedly takes the best
      index not yet taken. */
  method TopIndices(scores: seq<int>, k: int) returns (top: seq<nat>)
    ensures TopSelection(scores, k, top)
  {
    var n := |scores|;
    var count := TopCount(n, k);
    top := [];
    while |top| < count
      invariant |top| <= count
      invariant Distinct(top)
      invariant forall i :: 0 <= i < |top| ==> top[i] < n
      invariant forall i, j :: 0 <= i < j < |top| ==> scores[top[i]] >= scores[top[j]]
      invariant forall i, u :: 0 <= i < |top| && 0 <= u < n && u !in top ==> scores[top[i]] >= scores[u]
      decreases count - |top|
    {
      var best := PickBest(scores, top);
      top := top + [best];
    }
  }

  /** The best-scoring index not in `taken`, when `taken` leaves one out. */
  method PickBest(scores: seq<int>, taken: seq<nat>) returns (best: nat)
    requires Distinct(taken)
    requires forall i :: 0 <= i < |taken| ==> taken[i] < |scores|
    requires |taken| < |scores|
    ensures best < |scores| && best !in taken
    ensures forall u :: 0 <= u < |scores| && u !in taken ==> scores[u] <= scores[best]
  {
    Pigeonhole(taken, |scores|);
    var found := false;
    best := 0;
    var u := 0;
    while u < |scores|
      invariant u <= |scores|
      invariant found ==> best < |scores| && best !in taken
      invariant found ==> forall v :: 0 <= v < u && v !in taken ==> scores[v] <= scores[best]
      invariant !found ==> forall v :: 0 <= v < u ==> v in taken
    {
      if u !in taken && (!found || scores[u] > scores[best]) {
        best, found := u, true;
      }
      u := u + 1;
    }
    assert found;
  }

  /** The set of items of `s`. */
  function Elements(s: seq<nat>): (e: set<nat>)
    ensures forall x :: x in e <==> x in s
    ensures |e| <= |s|
    decreases |s|
  {
    if s == [] then {} else Elements(s[..|s| - 1]) + {s[|s| - 1]}
  }

  /** The indices `[0, n)` as a set. */
  function Below(n: nat): (r: set<nat>)
    ensures |r| == n
    ensures forall x: nat :: x in r <==> x < n
  {
    if n == 0 then {} else Below(n - 1) + {n - 1}
  }

  /** A list shorter than `n` misses some index below `n`. */
  lemma Pigeonhole(taken: seq<nat>, n: nat)
    ensures (forall v :: 0 <= v < n ==> v in taken) ==> |taken| >= n
  {
    if forall v :: 0 <= v < n ==> v in taken {
      var e := Elements(taken);
      assert Below(n) <= e;
      SubsetSize(Below(n), e);
    }
  }

  lemma {:induction false} SubsetSize(a: set<nat>, b: set<nat>)
    requires a <= b
    ensures |a| <= |b|
  {
    assert b == a + (b - a);
  }

  /** `j` is within `w` places of the top index `t` and is a chunk index. */
  predicate NearTop(j: nat, t: nat, w: int, n: nat)
  {
    j < n && t - w <= j <= t + w
  }

  /** The chunk indices within `w` places of some index of `top`. */
  ghost function Neighbourhood(top: seq<nat>, w: int, n: nat): set<nat>
  {
    set j | j in Below(n) && exists i :: 0 <= i < |top| && NearTop(j, top[i], w, n)
  }

  /** Python's `range(lo, hi)` as a set of indices. */
  function Range(lo: int, hi: int): (r: set<nat>)
    ensures forall j: nat :: j in r <==> lo <= j < hi
  {
    if hi <= 0 then {} else set j | j in Below(hi) && lo <= j
  }

  /** The loop over the top indices in `get_relevant_context`: each adds the
      indices `range(max(0, idx - w), min(n, idx + w + 1))`. */
  method ExpandWindows(top: seq<nat>, w: int, n: nat) returns (expanded: set<nat>)
    ensures expanded == Neighbourhood(top, w, n)
  {
    expanded := {};
    for i := 0 to |top|
      invariant forall j: nat :: j in expanded <==> exists i' :: 0 <= i' < i && NearTop(j, top[i'], w, n)
    {
      var idx := top[i];
      var lo := if 0 > idx - w then 0 else idx - w;
      var hi := if n < idx + w + 1 then n else idx + w + 1;
      expanded := expanded + Range(lo, hi);
    }
  }

  /** `sorted(s)` for a set of indices below `n`: the members of `s` below
      `n`, each once, in increasing order. */
  function Ascending(s: set<nat>, n: nat): (r: seq<nat>)
    ensures forall i :: 0 <= i < |r| ==> r[i] < n
    ensures forall i, j :: 0 <= i < j < |r| ==> r[i] < r[j]
    ensures forall x: nat :: x in r <==> x in s && x < n
  {
    if n == 0 then [] else Ascending(s, n - 1) + (if n - 1 in s then [n - 1] else [])
  }

  /** One part of the context: a label that reads back as the chunk's start
      and end time, then ": " and the chunk's text. */
  function Part(c: Chunk): (r: string)
    ensures |r| >= |c.text| + 17
    ensures ParseRange(r[..|r| - |c.text| - 2]) == Some((c.startTime, c.endTime))
    ensures r[|r| - |c.text| - 2..] == ": " + c.text
  {
    LabelReadsBack(c.startTime, c.endTime, c.text, TimestampRange(c.startTime, c.endTime) + ": " + c.text);
    TimestampRange(c.startTime, c.endTime) + ": " + c.text
  }

  /** The parts for the chunks at `indices`, in that order. */
  function Parts(chunks: seq<Chunk>, indices: seq<nat>): (ps: seq<string>)
    requires forall i :: 0 <= i < |indices| ==> indices[i] < |chunks|
    ensures |ps| == |indices|
    ensures forall i :: 0 <= i < |indices| ==> ps[i] == Part(chunks[indices[i]])
  {
    seq(|indices|, i requires 0 <= i < |indices| => Part(chunks[indices[i]]))
  }

  /** A label followed by ": " and a text splits back into the two. */
  lemma LabelThenText(range: string, text: string, r: string)
    requires r == range + ": " + text
    ensures |r| == |range| + |text| + 2
    ensures r[..|r| - |text| - 2] == range
    ensures r[|r| - |text| - 2..] == ": " + text
  {
  }

  /** The label in front of a part reads back as the times it shows. */
  lemma LabelReadsBack(start: nat, end: nat, text: string, r: string)
    requires r == TimestampRange(start, end) + ": " + text
    ensures |r| >= |text| + 17
    ensures ParseRange(r[..|r| - |text| - 2]) == Some((start, end))
    ensures r[|r| - |text| - 2..] == ": " + text
  {
    RangeParses(start, end);
    LabelThenText(TimestampRange(start, end), text, r);
  }

  /** The similarity of each stored embedding to the query. */
  function Scores(embeddings: seq<Vector>, score: Vector -> int): (r: seq<int>)
    ensures |r| == |embeddings|
    ensures forall j :: 0 <= j < |embeddings| ==> r[j] == score(embeddings[j])
  {
    seq(|embeddings|, j requires 0 <= j < |embeddings| => score(embeddings[j]))
  }

  /** The embedding the encoder gives each chunk's text. */
  function Encoded(chunks: seq<Chunk>, encode: string -> Vector): (r: seq<Vector>)
    ensures |r| == |chunks|
    ensures forall j :: 0 <= j < |chunks| ==> r[j] == encode(chunks[j].text)
  {
    seq(|chunks|, j requires 0 <= j < |chunks| => encode(chunks[j].text))
  }

  /** `chunks` with embedding `j` attached to chunk `j`. */
  function Embedded(chunks: seq<Chunk>, es: seq<Vector>): (r: seq<Chunk>)
    requires |es| == |chunks|
    ensures |r| == |chunks|
    ensures forall j :: 0 <= j < |chunks| ==> r[j] == chunks[j].(embedding := Some(es[j]))
  {
    seq(|chunks|, j requires 0 <= j < |chunks| => chunks[j].(embedding := Some(es[j])))
  }

  /** Selecting with `k == 0` keeps every index, because `a[-0:]` is the
      whole list. */
  lemma TopZeroSelectsAll(scores: seq<int>, top: seq<nat>)
    requires TopSelection(scores, 0, top)
    ensures forall j :: 0 <= j < |scores| ==> j in top
  {
    DistinctElements(top);
    var e := Elements(top);
    assert e <= Below(|scores|);
    SameSize(e, Below(|scores|));
  }

  lemma {:induction false} DistinctElements(s: seq<nat>)
    requires Distinct(s)
    ensures |Elements(s)| == |s|
    decreases |s|
  {
    if s != [] {
      var p := s[..|s| - 1];
      assert Distinct(p);
      DistinctElements(p);
      assert s[|s| - 1] !in p;
      assert s[|s| - 1] !in Elements(p);
    }
  }

  lemma SameSize(a: set<nat>, b: set<nat>)
    requires a <= b && |a| == |b|
    ensures a == b
  {
    assert b == a + (b - a);
    assert |b - a| == 0;
  }

  /** With a non-negative window every selected index, and every chunk within
      the window of one, is in the context; every index in the context is a
      chunk index near some selected index. */
  lemma WindowCovers(top: seq<nat>, w: int, n: nat, i: nat, j: nat)
    requires i < |top| && top[i] < n
    requires w >= 0
    ensures top[i] in Ascending(Neighbourhood(top, w, n), n)
    ensures (j < n && top[i] - w <= j <= top[i] + w) ==> j in Ascending(Neighbourhood(top, w, n), n)
    ensures forall x :: x in Ascending(Neighbourhood(top, w, n), n) ==>
      x < n && exists i' :: 0 <= i' < |top| && NearTop(x, top[i'], w, n)
  {
    assert NearTop(top[i], top[i], w, n);
    if j < n && top[i] - w <= j <= top[i] + w {
      assert NearTop(j, top[i], w, n);
    }
  }

  /** When the slice keeps no index (`k <= -n`), the context is empty. */
  lemma NothingSelected(chunks: seq<Chunk>, scores: seq<int>, k: int, top: seq<nat>, w: int)
    requires TopSelection(scores, k, top)
    requires k <= -|scores|
    ensures Join("\n\n", Parts(chunks, Ascending(Neighbourhood(top, w, |chunks|), |chunks|))) == ""
  {
    assert top == [];
    assert Neighbourhood(top, w, |chunks|) == {};
    AscendingEmpty(|chunks|);
  }

  lemma {:induction false} AscendingEmpty(n: nat)
    ensures Ascending({}, n) == []
  {
    if n > 0 {
      AscendingEmpty(n - 1);
    }
  }

  lemma ClockNoNewline(t: nat)
    ensures '\n' !in Clock(t)
  {
    var m, sec := Pad2(t / 60), Pad2(t % 60);
    DigitsNoNewline(m);
    DigitsNoNewline(sec);
    assert Clock(t) == m + ":" + sec;
  }

  lemma DigitsNoNewline(s: string)
    requires AllDigits(s)
    ensures '\n' !in s
  {
  }

  /** A timestamp label is one line. */
  lemma RangeNoNewline(start: nat, end: nat)
    ensures '\n' !in TimestampRange(start, end)
  {
    ClockNoNewline(start);
    ClockNoNewline(end);
    var a, b := Clock(start), Clock(end);
    assert TimestampRange(start, end) == "[" + a + " - " + b + "]";
  }

  /** A rendered part is one line when its chunk's text is. */
  lemma PartNoNewline(c: Chunk)
    requires '\n' !in c.text
    ensures '\n' !in Part(c)
  {
    RangeNoNewline(c.startTime, c.endTime);
    var r := TimestampRange(c.startTime, c.endTime);
    assert Part(c) == r + ": " + c.text;
  }

  /** Cleaned chunk texts are single lines. */
  lemma CleanedNoNewline(merged: seq<RawChunk>)
    ensures forall j :: 0 <= j < |merged| ==> '\n' !in Cleaned(merged)[j].text
  {
  }

  /** The context splits at its blank lines into exactly one part per chunk
      shown, when the chunk texts are single lines. */
  lemma ContextSplits(chunks: seq<Chunk>, indices: seq<nat>)
    requires indices != []
    requires forall i :: 0 <= i < |indices| ==> indices[i] < |chunks|
    requires forall j :: 0 <= j < |chunks| ==> '\n' !in chunks[j].text
    ensures Split(Join("\n\n", Parts(chunks, indices)), "\n\n") == Parts(chunks, indices)
  {
    var ps := Parts(chunks, indices);
    forall k | 0 <= k < |ps|
      ensures '\n' !in ps[k]
    {
      PartNoNewline(chunks[indices[k]]);
    }
    JoinSplit("\n\n", ps);
  }

  class TranscriptMemory {
    var chunks: seq<Chunk>
    var embeddings: Option<seq<Vector>>
    const chunkWindowSize: int

    /** No embeddings before the first transcript; afterwards one per chunk,
        attached to that chunk. */
    ghost predicate Valid()
      reads this
    {
      && (embeddings.None? ==> chunks == [])
      && (embeddings.Some? ==>
            && |embeddings.value| == |chunks|
            && forall j :: 0 <= j < |chunks| ==> chunks[j].embedding == Some(embeddings.value[j]))
    }

    constructor (chunkWindowSize: int)
      ensures Valid()
      ensures chunks == [] && embeddings.None? && this.chunkWindowSize == chunkWindowSize
    {
      this.chunks := [];
      this.embeddings := None;
      this.chunkWindowSize := chunkWindowSize;
    }

    /** `add_transcript`: rejects an empty fragment list before touching
        anything; otherwise replaces the chunks and the embeddings wholesale
        and attaches each chunk's embedding to it. */
    method AddTranscript(segments: seq<Segment>, encode: string -> Vector)
      returns (outcome: Outcome, ghost merged: seq<RawChunk>, ghost firsts: seq<nat>, ghost kept: nat)
      requires Valid()
      modifies this
      ensures Valid()
      ensures segments == [] ==>
        outcome == Fail("No segments provided") && chunks == old(chunks) && embeddings == old(embeddings)
      ensures segments != [] ==>
        && outcome == Pass
        && Merged(segments, TargetChunkSize, merged, firsts, kept)
        && embeddings == Some(Encoded(Cleaned(merged), encode))
        && chunks == Embedded(Cleaned(merged), embeddings.value)
    {
      if segments == [] {
        return Fail("No segments provided"), [], [], 0;
      }
      var created, m;
      created, m, firsts, kept := CreateChunks(segments);
      merged := m;
      chunks := created;
      var es := Encoded(created, encode);
      embeddings := Some(es);
      AttachEmbeddings(es);
      outcome := Pass;
    }

    /** The loop over `zip(self.chunks, self.embeddings)` that stores each
        embedding in its chunk. */
    method AttachEmbeddings(es: seq<Vector>)
      requires |es| == |chunks|
      modifies this
      ensures chunks == Embedded(old(chunks), es)
      ensures embeddings == old(embeddings)
    {
      var j := 0;
      while j < |chunks|
        invariant |chunks| == |old(chunks)| && j <= |chunks|
        invariant embeddings == old(embeddings)
        invariant forall i :: 0 <= i < j ==> chunks[i] == old(chunks)[i].(embedding := Some(es[i]))
        invariant forall i :: j <= i < |chunks| ==> chunks[i] == old(chunks)[i]
      {
        chunks := chunks[j := chunks[j].(embedding := Some(es[j]))];
        j := j + 1;
      }
    }

    /** `get_relevant_context`: nothing before a transcript is loaded;
        otherwise the best `topK` chunks by score, widened by
        `chunkWindowSize` on each side, in chunk order, each rendered with its
        time range and separated by a blank line. */
    method GetRelevantContext(score: Vector -> int, topK: int) returns (context: string, ghost top: seq<nat>)
      requires Valid()
      ensures chunks == [] || embeddings.None? ==> context == ""
      ensures chunks != [] && embeddings.Some? ==>
        && TopSelection(Scores(embeddings.value, score), topK, top)
        && context == Join("\n\n", Parts(chunks, Ascending(Neighbourhood(top, chunkWindowSize, |chunks|), |chunks|)))
    {
      if chunks == [] || embeddings.None? {
        return "", [];
      }
      var scores := Scores(embeddings.value, score);
      var best := TopIndices(scores, topK);
      top := best;
      var expanded := ExpandWindows(best, chunkWindowSize, |chunks|);
      var order := Ascending(expanded, |chunks|);
      context := Join("\n\n", Parts(chunks, order));
    }
  }
}
