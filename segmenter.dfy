/** The greedy merger that packs caption fragments into chunks near a target
    character length (`TranscriptProcessor.merge_segments`). Times are whole
    seconds. */
module Segmenter {
  import opened Text

  /** One caption fragment as the caption source delivers it. */
  datatype Segment = Segment(text: string, start: nat, duration: nat)

  /** A merged chunk before cleaning: the `current_chunk` record of the merger. */
  datatype RawChunk = RawChunk(text: string, start: nat, duration: nat)

  /** `TranscriptSegment.end`: when the fragment stops being spoken. */
  function End(s: Segment): (e: nat)
    ensures e >= s.start
  {
    s.start + s.duration
  }

  /** How the merger adds a fragment's text to the running chunk: a space goes
      in between only when the running text is not empty. */
  function Append(acc: string, t: string): string
  {
    if acc == "" then t else acc + " " + t
  }

  /** The text of a chunk made of the fragments `g`, added one by one. */
  function GroupText(g: seq<Segment>): string
    decreases |g|
  {
    if g == [] then "" else Append(GroupText(g[..|g| - 1]), g[|g| - 1].text)
  }

  /** The summed durations of the fragments `g`. */
  function SumDuration(g: seq<Segment>): nat
    decreases |g|
  {
    if g == [] then 0 else SumDuration(g[..|g| - 1]) + g[|g| - 1].duration
  }

  /** The chunk the merger emits for the fragments `g`. */
  function Summary(g: seq<Segment>): RawChunk
    requires g != []
  {
    RawChunk(GroupText(g), g[0].start, SumDuration(g))
  }

  /** The merger's size check: the running chunk `acc` is closed before
      the fragment text `t` is added. */
  predicate Closes(acc: string, t: string, target: int)
  {
    |acc| + |t| > target && acc != ""
  }

  /** Chunk `j` is made of the fragments with indices in
      `[firsts[j], Stop(firsts, kept, j))`. */
  function Stop(firsts: seq<nat>, kept: nat, j: nat): nat
  {
    if j + 1 < |firsts| then firsts[j + 1] else kept
  }

  /** `firsts` are the indices at which chunks begin, in increasing order,
      starting at 0; the chunks together cover the fragments `[0, kept)`. */
  ghost predicate Cuts(n: nat, firsts: seq<nat>, kept: nat)
  {
    && kept <= n
    && (firsts == [] ==> kept == 0)
    && (firsts != [] ==> firsts[0] == 0)
    && (forall j: nat {:trigger Stop(firsts, kept, j)} ::
          0 <= j < |firsts| ==> firsts[j] < Stop(firsts, kept, j) <= kept)
  }

  /** No fragment inside the group `[f, s)` triggered a close when it was added. */
  ghost predicate GroupGreedy(segments: seq<Segment>, f: nat, s: nat, target: int)
    requires f <= s <= |segments|
  {
    forall k {:trigger GroupText(segments[f..k])} ::
      f < k < s ==> !Closes(GroupText(segments[f..k]), segments[k].text, target)
  }

  /** Chunk `j` of `merged` summarises the fragments from `firsts[j]` up to
      the next cut, and every chunk has text. */
  ghost predicate Covers(segments: seq<Segment>, merged: seq<RawChunk>, firsts: seq<nat>, kept: nat)
  {
    && Cuts(|segments|, firsts, kept)
    && |merged| == |firsts|
    && (forall j: nat {:trigger merged[j]} :: 0 <= j < |merged| ==>
          var stop := Stop(firsts, kept, j);
          merged[j] == Summary(segments[firsts[j]..stop]) && merged[j].text != "")
  }

  /** `merged` summarises the fragments before `kept` the way the merger
      does: the chunks cover them, no fragment inside a chunk would have
      closed it, and the fragment after each chunk did. */
  ghost predicate Closed(segments: seq<Segment>, target: int, merged: seq<RawChunk>,
                         firsts: seq<nat>, kept: nat)
  {
    && Covers(segments, merged, firsts, kept)
    && (forall j: nat {:trigger merged[j]} :: 0 <= j < |merged| ==>
          GroupGreedy(segments, firsts[j], Stop(firsts, kept, j), target))
    && (forall j: nat {:trigger merged[j]} :: 0 <= j < |merged| && Stop(firsts, kept, j) < |segments| ==>
          Closes(merged[j].text, segments[Stop(firsts, kept, j)].text, target))
  }

  /** `merged` is what the merger emits for `segments`: the chunks summarise
      the fragments before `kept`, and the fragments from `kept` on, which are
      in no chunk, all have empty text. */
  ghost predicate Merged(segments: seq<Segment>, target: int, merged: seq<RawChunk>,
                         firsts: seq<nat>, kept: nat)
  {
    && Closed(segments, target, merged, firsts, kept)
    && (forall k :: kept <= k < |segments| ==> segments[k].text == "")
  }

  /** Closing the running chunk `[c, i)` when fragment `i` does not fit. */
  lemma CloseChunk(segments: seq<Segment>, target: int, merged: seq<RawChunk>,
                   firsts: seq<nat>, c: nat, i: nat)
    requires Closed(segments, target, merged, firsts, c)
    requires c < i < |segments|
    requires GroupGreedy(segments, c, i, target)
    requires Closes(GroupText(segments[c..i]), segments[i].text, target)
    ensures Closed(segments, target, merged + [Summary(segments[c..i])], firsts + [c], i)
  {
    var merged', firsts' := merged + [Summary(segments[c..i])], firsts + [c];
    assert forall j: nat :: j < |firsts| ==> Stop(firsts', i, j) == Stop(firsts, c, j);
    assert Stop(firsts', i, |firsts|) == i;
    forall j: nat | j < |merged'|
      ensures var stop := Stop(firsts', i, j);
        merged'[j] == Summary(segments[firsts'[j]..stop]) && merged'[j].text != ""
      ensures GroupGreedy(segments, firsts'[j], Stop(firsts', i, j), target)
      ensures Closes(merged'[j].text, segments[Stop(firsts', i, j)].text, target)
    {
      if j < |merged| {
        assert merged'[j] == merged[j];
      } else {
        GroupTextEmpty(segments[c..i]);
      }
    }
  }

  /** Flushing the last running chunk `[c, n)` when it has text. */
  lemma CloseLast(segments: seq<Segment>, target: int, merged: seq<RawChunk>,
                  firsts: seq<nat>, c: nat)
    requires Closed(segments, target, merged, firsts, c)
    requires c < |segments|
    requires GroupGreedy(segments, c, |segments|, target)
    requires GroupText(segments[c..]) != ""
    ensures Merged(segments, target, merged + [Summary(segments[c..])], firsts + [c], |segments|)
  {
    var n := |segments|;
    var merged', firsts' := merged + [Summary(segments[c..])], firsts + [c];
    assert segments[c..n] == segments[c..];
    assert forall j: nat :: j < |firsts| ==> Stop(firsts', n, j) == Stop(firsts, c, j);
    assert Stop(firsts', n, |firsts|) == n;
    forall j: nat | j < |merged'|
      ensures var stop := Stop(firsts', n, j);
        merged'[j] == Summary(segments[firsts'[j]..stop]) && merged'[j].text != ""
      ensures GroupGreedy(segments, firsts'[j], Stop(firsts', n, j), target)
      ensures Stop(firsts', n, j) < n ==> Closes(merged'[j].text, segments[Stop(firsts', n, j)].text, target)
    {
      if j < |merged| {
        assert merged'[j] == merged[j];
      }
    }
  }

  /** Dropping the last running chunk `[c, n)` when it has no text. */
  lemma DropSilentTail(segments: seq<Segment>, target: int, merged: seq<RawChunk>,
                       firsts: seq<nat>, c: nat)
    requires Closed(segments, target, merged, firsts, c)
    requires c <= |segments|
    requires GroupText(segments[c..]) == ""
    ensures Merged(segments, target, merged, firsts, c)
  {
    GroupTextEmpty(segments[c..]);
    assert forall k :: c <= k < |segments| ==> segments[c..][k - c] == segments[k];
  }

  /** Adding fragment `i` to the running chunk `[c, i)`. */
  lemma ExtendChunk(segments: seq<Segment>, target: int, c: nat, i: nat)
    requires c <= i < |segments|
    requires GroupGreedy(segments, c, i, target)
    requires c < i ==> !Closes(GroupText(segments[c..i]), segments[i].text, target)
    ensures GroupGreedy(segments, c, i + 1, target)
    ensures GroupText(segments[c..i + 1]) == Append(GroupText(segments[c..i]), segments[i].text)
    ensures SumDuration(segments[c..i + 1]) == SumDuration(segments[c..i]) + segments[i].duration
  {
    assert segments[c..i + 1][..i - c] == segments[c..i];
    forall k | c < k < i + 1
      ensures !Closes(GroupText(segments[c..k]), segments[k].text, target)
    {
      if k < i {
        assert GroupGreedy(segments, c, i, target);
      }
    }
  }

  /** A chunk has empty text exactly when all its fragments do. */
  lemma {:induction false} GroupTextEmpty(g: seq<Segment>)
    ensures GroupText(g) == "" <==> forall k :: 0 <= k < |g| ==> g[k].text == ""
    decreases |g|
  {
    if g != [] {
      var g' := g[..|g| - 1];
      GroupTextEmpty(g');
      assert forall k :: 0 <= k < |g'| ==> g'[k] == g[k];
    }
  }

  /** `TranscriptProcessor.merge_segments`. Besides the chunks it returns, as
      ghost results, the index of each chunk's first fragment and how many
      fragments the chunks cover. */
  method MergeSegments(segments: seq<Segment>, target: int)
    returns (merged: seq<RawChunk>, ghost firsts: seq<nat>, ghost kept: nat)
    ensures segments == [] ==> merged == []
    ensures Merged(segments, target, merged, firsts, kept)
  {
    merged, firsts, kept := [], [], 0;
    if |segments| == 0 {
      return;
    }
    var cur := RawChunk("", segments[0].start, 0);
    ghost var c: nat := 0;
    var i := 0;
    assert segments[c..i] == [];
    while i < |segments|
      invariant c < |segments| && c <= i <= |segments|
      invariant Closed(segments, target, merged, firsts, c)
      invariant cur.text == GroupText(segments[c..i])
      invariant cur.start == segments[c].start
      invariant cur.duration == SumDuration(segments[c..i])
      invariant GroupGreedy(segments, c, i, target)
    {
      var segment := segments[i];
      if |cur.text| + |segment.text| > target && cur.text != "" {
        CloseChunk(segments, target, merged, firsts, c, i);
        merged := merged + [cur];
        firsts := firsts + [c];
        cur := RawChunk("", segment.start, 0);
        c := i;
        assert segments[c..i] == [];
      }
      assert cur.text == GroupText(segments[c..i]);
      assert cur.duration == SumDuration(segments[c..i]);
      var text := cur.text;
      if text != "" {
        text := text + " ";
      }
      text := text + segment.text;
      assert text == Append(cur.text, segment.text);
      cur := cur.(text := text, duration := cur.duration + segment.duration);
      ExtendChunk(segments, target, c, i);
      assert cur.text == GroupText(segments[c..i + 1]);
      assert cur.duration == SumDuration(segments[c..i + 1]);
      i := i + 1;
    }
    assert segments[c..i] == segments[c..];
    if cur.text != "" {
      CloseLast(segments, target, merged, firsts, c);
      merged := merged + [cur];
      firsts := firsts + [c];
      kept := |segments|;
    } else {
      DropSilentTail(segments, target, merged, firsts, c);
      kept := c;
    }
  }

  /** The texts of the fragments `g`, in order. */
  function Texts(g: seq<Segment>): (ts: seq<string>)
    ensures |ts| == |g| && forall k :: 0 <= k < |g| ==> ts[k] == g[k].text
  {
    seq(|g|, k requires 0 <= k < |g| => g[k].text)
  }

  /** The texts of the chunks, in order. */
  function ChunkTexts(chunks: seq<RawChunk>): (ts: seq<string>)
    ensures |ts| == |chunks| && forall j :: 0 <= j < |chunks| ==> ts[j] == chunks[j].text
  {
    seq(|chunks|, j requires 0 <= j < |chunks| => chunks[j].text)
  }

  /** The summed durations of the chunks. */
  function TotalDuration(chunks: seq<RawChunk>): nat
    decreases |chunks|
  {
    if chunks == [] then 0 else TotalDuration(chunks[..|chunks| - 1]) + chunks[|chunks| - 1].duration
  }

  /** Where chunk `m` begins, or `kept` once past the last chunk. */
  function Boundary(firsts: seq<nat>, kept: nat, m: nat): nat
  {
    if m < |firsts| then firsts[m] else kept
  }

  lemma {:induction false} SumDurationAppend(a: seq<Segment>, b: seq<Segment>)
    ensures SumDuration(a + b) == SumDuration(a) + SumDuration(b)
    decreases |b|
  {
    if b != [] {
      var ab := a + b;
      assert ab[..|ab| - 1] == a + b[..|b| - 1];
      assert ab[|ab| - 1] == b[|b| - 1];
      SumDurationAppend(a, b[..|b| - 1]);
    } else {
      assert a + b == a;
    }
  }

  /** When every fragment has text, every fragment is in some chunk. */
  lemma AllKept(segments: seq<Segment>, target: int, merged: seq<RawChunk>,
                firsts: seq<nat>, kept: nat)
    requires Merged(segments, target, merged, firsts, kept)
    requires forall k :: 0 <= k < |segments| ==> segments[k].text != ""
    ensures kept == |segments|
  {
    TailSilentAt(segments, target, merged, firsts, kept);
  }

  lemma TailSilentAt(segments: seq<Segment>, target: int, merged: seq<RawChunk>,
                     firsts: seq<nat>, kept: nat)
    requires Merged(segments, target, merged, firsts, kept)
    ensures kept < |segments| ==> segments[kept].text == ""
  {
  }

  /** The boundaries split the covered fragments into the chunks' groups. */
  lemma BoundaryStep(segments: seq<Segment>, merged: seq<RawChunk>,
                     firsts: seq<nat>, kept: nat, m: nat)
    requires Covers(segments, merged, firsts, kept)
    requires m < |merged|
    ensures Boundary(firsts, kept, m) == firsts[m]
    ensures Boundary(firsts, kept, m + 1) == Stop(firsts, kept, m)
    ensures firsts[m] < Stop(firsts, kept, m) <= kept <= |segments|
    ensures merged[m] == Summary(segments[firsts[m]..Stop(firsts, kept, m)])
  {
    assert firsts[m] < Stop(firsts, kept, m) <= kept;
    assert merged[m] == merged[m];
  }

  /** The chunks' durations add up to those of the fragments they cover. */
  lemma {:induction false} DurationCovered(segments: seq<Segment>, merged: seq<RawChunk>,
                                           firsts: seq<nat>, kept: nat)
    requires Covers(segments, merged, firsts, kept)
    ensures TotalDuration(merged) == SumDuration(segments[..kept])
  {
    var m := 0;
    assert Boundary(firsts, kept, 0) == 0;
    while m < |merged|
      invariant m <= |merged|
      invariant Boundary(firsts, kept, m) <= kept
      invariant TotalDuration(merged[..m]) == SumDuration(segments[..Boundary(firsts, kept, m)])
    {
      BoundaryStep(segments, merged, firsts, kept, m);
      var lo, hi := Boundary(firsts, kept, m), Boundary(firsts, kept, m + 1);
      assert merged[..m + 1][..m] == merged[..m];
      assert segments[..hi] == segments[..lo] + segments[lo..hi];
      SumDurationAppend(segments[..lo], segments[lo..hi]);
      m := m + 1;
    }
    assert merged[..m] == merged;
  }

  /** Every second of the input is in exactly one chunk, except the durations
      of a trailing run of fragments with empty text, which the merger drops
      together with their (empty) final chunk; when every fragment has text,
      the chunks' durations add up to the fragments' durations. */
  lemma DurationConserved(segments: seq<Segment>, target: int, merged: seq<RawChunk>,
                          firsts: seq<nat>, kept: nat)
    requires Merged(segments, target, merged, firsts, kept)
    ensures TotalDuration(merged) + SumDuration(segments[kept..]) == SumDuration(segments)
    ensures (forall k :: 0 <= k < |segments| ==> segments[k].text != "") ==>
              TotalDuration(merged) == SumDuration(segments)
  {
    DurationCovered(segments, merged, firsts, kept);
    assert segments == segments[..kept] + segments[kept..];
    SumDurationAppend(segments[..kept], segments[kept..]);
    if forall k :: 0 <= k < |segments| ==> segments[k].text != "" {
      AllKept(segments, target, merged, firsts, kept);
    }
  }

  /** When every fragment has text, a chunk's text is its fragments' texts
      joined with single spaces. */
  lemma {:induction false} GroupTextIsJoin(g: seq<Segment>)
    requires forall k :: 0 <= k < |g| ==> g[k].text != ""
    ensures GroupText(g) == Join(" ", Texts(g))
    decreases |g|
  {
    if |g| > 1 {
      var g' := g[..|g| - 1];
      GroupTextIsJoin(g');
      assert Texts(g)[..|g| - 1] == Texts(g');
      GroupTextEmpty(g');
      assert g'[0] == g[0];
    }
  }

  lemma TextsAppend(a: seq<Segment>, b: seq<Segment>)
    ensures Texts(a + b) == Texts(a) + Texts(b)
  {
  }

  lemma JoinStep(done: seq<string>, x: string, before: seq<Segment>, group: seq<Segment>)
    requires done != [] && before != [] && group != []
    requires forall k :: 0 <= k < |group| ==> group[k].text != ""
    requires Join(" ", done) == Join(" ", Texts(before))
    requires x == GroupText(group)
    ensures Join(" ", done + [x]) == Join(" ", Texts(before + group))
  {
    GroupTextIsJoin(group);
    JoinAppend(" ", done, [x]);
    TextsAppend(before, group);
    JoinAppend(" ", Texts(before), Texts(group));
  }

  lemma TextStep(segments: seq<Segment>, merged: seq<RawChunk>, m: nat, lo: nat, hi: nat)
    requires forall k :: 0 <= k < |segments| ==> segments[k].text != ""
    requires 1 <= m < |merged| && 0 < lo < hi <= |segments|
    requires merged[m].text == GroupText(segments[lo..hi])
    requires Join(" ", ChunkTexts(merged[..m])) == Join(" ", Texts(segments[..lo]))
    ensures Join(" ", ChunkTexts(merged[..m + 1])) == Join(" ", Texts(segments[..hi]))
  {
    var group := segments[lo..hi];
    assert ChunkTexts(merged[..m + 1]) == ChunkTexts(merged[..m]) + [merged[m].text];
    assert segments[..hi] == segments[..lo] + group;
    JoinStep(ChunkTexts(merged[..m]), merged[m].text, segments[..lo], group);
  }

  lemma TextFirst(segments: seq<Segment>, merged: seq<RawChunk>, firsts: seq<nat>, kept: nat)
    requires Covers(segments, merged, firsts, kept) && merged != []
    requires forall k :: 0 <= k < |segments| ==> segments[k].text != ""
    ensures PrefixAgrees(segments, merged, firsts, kept, 1)
  {
    BoundaryStep(segments, merged, firsts, kept, 0);
    var g := segments[..Boundary(firsts, kept, 1)];
    assert g == segments[firsts[0]..Stop(firsts, kept, 0)];
    GroupTextIsJoin(g);
    assert ChunkTexts(merged[..1]) == [merged[0].text];
  }

  /** The first `m` chunks' texts, joined with spaces, are the texts of the
      fragments before the `m`-th boundary, joined with spaces. */
  ghost predicate PrefixAgrees(segments: seq<Segment>, merged: seq<RawChunk>, firsts: seq<nat>, kept: nat, m: nat)
    requires m <= |merged|
  {
    0 < Boundary(firsts, kept, m) <= kept <= |segments|
    && Join(" ", ChunkTexts(merged[..m])) == Join(" ", Texts(segments[..Boundary(firsts, kept, m)]))
  }

  lemma TextNext(segments: seq<Segment>, merged: seq<RawChunk>, firsts: seq<nat>, kept: nat, m: nat)
    requires Covers(segments, merged, firsts, kept) && 1 <= m < |merged|
    requires forall k :: 0 <= k < |segments| ==> segments[k].text != ""
    requires PrefixAgrees(segments, merged, firsts, kept, m)
    ensures PrefixAgrees(segments, merged, firsts, kept, m + 1)
  {
    BoundaryStep(segments, merged, firsts, kept, m);
    TextStep(segments, merged, m, Boundary(firsts, kept, m), Boundary(firsts, kept, m + 1));
  }

  /** The first `m` chunks' texts joined with spaces are the texts of the
      fragments they cover joined with spaces. */
  lemma {:induction false} TextPrefix(segments: seq<Segment>, merged: seq<RawChunk>,
                                      firsts: seq<nat>, kept: nat, m: nat)
    requires Covers(segments, merged, firsts, kept) && 1 <= m <= |merged|
    requires forall k :: 0 <= k < |segments| ==> segments[k].text != ""
    ensures PrefixAgrees(segments, merged, firsts, kept, m)
  {
    if m == 1 {
      TextFirst(segments, merged, firsts, kept);
    } else {
      TextPrefix(segments, merged, firsts, kept, m - 1);
      TextNext(segments, merged, firsts, kept, m - 1);
    }
  }

  /** When every fragment has text, the chunks' texts joined with spaces are
      the covered fragments' texts joined with spaces. */
  lemma TextCovered(segments: seq<Segment>, merged: seq<RawChunk>,
                    firsts: seq<nat>, kept: nat)
    requires Covers(segments, merged, firsts, kept) && merged != []
    requires forall k :: 0 <= k < |segments| ==> segments[k].text != ""
    ensures Join(" ", ChunkTexts(merged)) == Join(" ", Texts(segments[..kept]))
  {
    TextPrefix(segments, merged, firsts, kept, |merged|);
    assert Boundary(firsts, kept, |merged|) == kept;
    assert merged[..|merged|] == merged;
  }

  /** When every fragment has text, no text is lost, duplicated or reordered:
      the chunks' texts joined with spaces are the fragments' texts joined
      with spaces. */
  lemma TextConserved(segments: seq<Segment>, target: int, merged: seq<RawChunk>,
                      firsts: seq<nat>, kept: nat)
    requires Merged(segments, target, merged, firsts, kept)
    requires forall k :: 0 <= k < |segments| ==> segments[k].text != ""
    ensures Join(" ", ChunkTexts(merged)) == Join(" ", Texts(segments))
  {
    AllKept(segments, target, merged, firsts, kept);
    if merged == [] {
      assert kept == 0;
    } else {
      TextCovered(segments, merged, firsts, kept);
      assert segments[..kept] == segments;
    }
  }

  /** The last fragment's text is never shorter than the chunk text it ends. */
  lemma GroupTextCovers(g: seq<Segment>)
    requires g != []
    ensures |GroupText(g)| >= |g[|g| - 1].text|
    ensures g[|g| - 1].text != "" ==> GroupText(g) != ""
  {
  }

  /** Adding a fragment to a chunk that already has text keeps it within one
      character of the target (the size check does not count the joining
      space); a longer chunk is a single fragment's text, which the merger
      never splits. */
  lemma SizeBound(segments: seq<Segment>, target: int, merged: seq<RawChunk>,
                  firsts: seq<nat>, kept: nat, j: nat)
    requires Merged(segments, target, merged, firsts, kept)
    requires j < |merged|
    ensures var last := Stop(firsts, kept, j) - 1;
      0 <= last < |segments| &&
      (|merged[j].text| <= target + 1 || merged[j].text == segments[last].text)
  {
    BoundaryStep(segments, merged, firsts, kept, j);
    var f, s := firsts[j], Stop(firsts, kept, j);
    var g := segments[f..s];
    var k := s - 1;
    assert g[..|g| - 1] == segments[f..k];
    assert g[|g| - 1] == segments[k];
    var acc := GroupText(segments[f..k]);
    assert merged[j].text == Append(acc, segments[k].text);
    if f < k {
      assert GroupGreedy(segments, f, s, target);
      assert !Closes(acc, segments[k].text, target);
    } else {
      assert acc == "";
    }
  }

  /** The chunk holding fragment `i` begins at a cut at or before `i`. */
  lemma FindChunk(segments: seq<Segment>, target: int, merged: seq<RawChunk>,
                  firsts: seq<nat>, kept: nat, i: nat) returns (j: nat)
    requires Merged(segments, target, merged, firsts, kept)
    requires i < kept
    ensures j < |merged| && firsts[j] <= i < Stop(firsts, kept, j)
  {
    j := 0;
    while j + 1 < |firsts| && firsts[j + 1] <= i
      invariant j < |firsts| && firsts[j] <= i
    {
      assert firsts[j] < Stop(firsts, kept, j);
      j := j + 1;
    }
  }

  /** Inside one chunk `[f, s)`, a fragment longer than the target is the
      chunk's whole text and its last fragment. */
  lemma OversizedInGroup(segments: seq<Segment>, target: int, f: nat, s: nat, i: nat)
    requires f <= i < s <= |segments|
    requires GroupGreedy(segments, f, s, target)
    requires segments[i].text != "" && |segments[i].text| > target
    ensures i + 1 == s && GroupText(segments[f..s]) == segments[i].text
  {
    if i + 1 < s {
      var k := i + 1;
      assert segments[f..k][..|segments[f..k]| - 1] == segments[f..i];
      GroupTextCovers(segments[f..k]);
      assert false;
    }
    var g := segments[f..s];
    assert g[..|g| - 1] == segments[f..i];
    if f < i {
      assert !Closes(GroupText(segments[f..i]), segments[i].text, target);
    }
  }

  /** A fragment with text longer than the target is never split: its chunk's
      text is exactly that fragment's text, and the fragment is the chunk's last. */
  lemma OversizedAlone(segments: seq<Segment>, target: int, merged: seq<RawChunk>,
                       firsts: seq<nat>, kept: nat, i: nat)
    requires Merged(segments, target, merged, firsts, kept)
    requires i < |segments| && segments[i].text != "" && |segments[i].text| > target
    ensures exists j :: 0 <= j < |merged| && firsts[j] <= i && i + 1 == Stop(firsts, kept, j) &&
                        merged[j].text == segments[i].text
  {
    assert i < kept;
    var j := FindChunk(segments, target, merged, firsts, kept, i);
    BoundaryStep(segments, merged, firsts, kept, j);
    OversizedInGroup(segments, target, firsts[j], Stop(firsts, kept, j), i);
  }

  lemma FirstsIncrease(n: nat, firsts: seq<nat>, kept: nat)
    requires Cuts(n, firsts, kept)
    ensures forall a, b :: 0 <= a < b < |firsts| ==> firsts[a] < firsts[b]
  {
    forall a, b | 0 <= a < b < |firsts|
      ensures firsts[a] < firsts[b]
    {
      var c := a;
      while c < b
        invariant a <= c <= b && firsts[a] <= firsts[c]
        invariant c > a ==> firsts[a] < firsts[c]
      {
        assert firsts[c] < Stop(firsts, kept, c);
        c := c + 1;
      }
    }
  }

  /** Chunks come out in input order: each starts where its first fragment
      does, so when the fragments are ordered by start time, so are the chunks. */
  lemma {:induction false} StartsOrdered(segments: seq<Segment>, target: int, merged: seq<RawChunk>,
                                         firsts: seq<nat>, kept: nat)
    requires Merged(segments, target, merged, firsts, kept)
    requires forall a, b :: 0 <= a <= b < |segments| ==> segments[a].start <= segments[b].start
    ensures forall a, b :: 0 <= a <= b < |merged| ==> merged[a].start <= merged[b].start
  {
    FirstsIncrease(|segments|, firsts, kept);
    forall a, b | 0 <= a <= b < |merged|
      ensures merged[a].start <= merged[b].start
    {
      BoundaryStep(segments, merged, firsts, kept, a);
      BoundaryStep(segments, merged, firsts, kept, b);
    }
  }

  /** For fragments that follow one another without overlapping, a run of them
      ends no later than its last fragment. */
  lemma {:induction false} RunEnd(g: seq<Segment>)
    requires g != []
    requires forall k :: 0 <= k < |g| - 1 ==> End(g[k]) <= g[k + 1].start
    ensures g[0].start + SumDuration(g) <= End(g[|g| - 1])
    decreases |g|
  {
    if |g| > 1 {
      var g' := g[..|g| - 1];
      RunEnd(g');
    }
  }

  /** When the fragments do not overlap, neither do the chunks: a chunk (which
      ends at its start plus its summed durations) ends no later than the next
      chunk starts. */
  lemma {:induction false} ChunksDoNotOverlap(segments: seq<Segment>, target: int, merged: seq<RawChunk>,
                                              firsts: seq<nat>, kept: nat)
    requires Merged(segments, target, merged, firsts, kept)
    requires forall k :: 0 <= k < |segments| - 1 ==> End(segments[k]) <= segments[k + 1].start
    ensures forall j :: 0 <= j < |merged| - 1 ==> merged[j].start + merged[j].duration <= merged[j + 1].start
  {
    forall j | 0 <= j < |merged| - 1
      ensures merged[j].start + merged[j].duration <= merged[j + 1].start
    {
      BoundaryStep(segments, merged, firsts, kept, j);
      BoundaryStep(segments, merged, firsts, kept, j + 1);
      var f, s := firsts[j], firsts[j + 1];
      var g := segments[f..s];
      RunEnd(g);
      assert g[|g| - 1] == segments[s - 1];
    }
  }
}
