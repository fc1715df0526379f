/** The string handling of the batch summariser's `PodcastTranscriptProcessor`:
    reading a video id out of a URL by splitting, the markdown transcript, and
    the text handed to the summariser. */
module Summariser {
  import opened Wrappers
  import opened Text
  import opened Segmenter

  const InvalidUrl := "Invalid YouTube URL format"

  /** `extract_video_id`: a short link gives what follows its last `/`; a
      long link with a `v=` parameter gives what lies between the first `v=`
      and the next `&`; anything else is rejected. The short-link test comes
      first. */
  function ExtractVideoId(url: string): (r: Result<string>)
    ensures r.Failure? <==> !Contains(url, "youtu.be") && !(Contains(url, "youtube.com") && Contains(url, "v="))
    ensures r.Failure? ==> r.message == InvalidUrl
  {
    if Contains(url, "youtu.be") then
      var parts := Split(url, "/");
      Success(parts[|parts| - 1])
    else if Contains(url, "youtube.com") && Contains(url, "v=") then
      SplitSecond(url, "v=");
      Success(Split(Split(url, "v=")[1], "&")[0])
    else Failure(InvalidUrl)
  }

  /** A short link's id is the URL's tail after its last `/`: it holds no
      `/`, and it is either the whole URL or comes right after a `/`. */
  lemma ShortLinkId(url: string)
    requires Contains(url, "youtu.be")
    ensures var id := ExtractVideoId(url).value;
      && |id| <= |url| && url[|url| - |id|..] == id
      && !Contains(id, "/")
      && (|id| == |url| || url[|url| - |id| - 1] == '/')
  {
    ShortLinkValue(url);
    SplitLastChar(url, "/");
  }

  /** The short-link branch is the last `/`-piece of the URL. */
  lemma ShortLinkValue(url: string)
    requires Contains(url, "youtu.be")
    ensures ExtractVideoId(url).value == Split(url, "/")[|Split(url, "/")| - 1]
  {
  }


  /** A long link's id is the start of the text after the first `v=`: it
      holds no `&` and no `v=`, so it ends where that text ends, at the first
      `&`, or at the first further `v=`. */
  lemma LongLinkId(url: string)
    requires !Contains(url, "youtu.be") && Contains(url, "youtube.com") && Contains(url, "v=")
    ensures var after := url[IndexOf(url, "v=").value + 2..];
      var id := ExtractVideoId(url).value;
      && |id| <= |after| && after[..|id|] == id
      && !Contains(id, "&") && !Contains(id, "v=")
      && (|id| == |after| || after[|id|] == '&' || OccursAt(after, "v=", |id|))
  {
    var after := url[IndexOf(url, "v=").value + 2..];
    var id := Split(Split(after, "v=")[0], "&")[0];
    LongLinkValue(url);
    FirstOfFirst(after, "v=", "&");
    if |id| < |after| && OccursAt(after, "&", |id|) {
      OccursChar(after, '&', |id|);
    }
  }

  /** The long-link branch is the first `&`-piece of the first `v=`-piece of
      the text after the first `v=`. */
  lemma LongLinkValue(url: string)
    requires !Contains(url, "youtu.be") && Contains(url, "youtube.com") && Contains(url, "v=")
    ensures var after := url[IndexOf(url, "v=").value + 2..];
      ExtractVideoId(url).value == Split(Split(after, "v=")[0], "&")[0]
  {
    SplitSecond(url, "v=");
  }



  /** The text `process_video` hands to the summariser: the fragment texts
      joined by spaces; it begins with the first fragment's text, and it is
      empty when there are no fragments. */
  function FullText(segments: seq<Segment>): (r: string)
    ensures segments == [] ==> r == ""
    ensures segments != [] ==> |segments[0].text| <= |r| && r[..|segments[0].text|] == segments[0].text
  {
    Join(" ", Texts(segments))
  }

  /** That text is also what the chunks of the retrieval index hold, in
      order, when every fragment has text. */
  lemma FullTextIsChunkText(segments: seq<Segment>, target: int, merged: seq<RawChunk>,
                            firsts: seq<nat>, kept: nat)
    requires Merged(segments, target, merged, firsts, kept)
    requires forall k :: 0 <= k < |segments| ==> segments[k].text != ""
    ensures FullText(segments) == Join(" ", ChunkTexts(merged))
  {
    TextConserved(segments, target, merged, firsts, kept);
  }

  /** The two header lines of the markdown transcript; `generatedOn` is the
      formatted clock reading. The header names the video and ends with a
      blank line, so the body starts on a line of its own. */
  function Header(videoId: string, generatedOn: string): (r: string)
    ensures Contains(r, videoId)
    ensures |r| >= 2 && r[|r| - 2..] == "\n\n"
  {
    var title := "# Transcript for YouTube Video: ";
    var r := title + videoId + "\n\n" + "Generated on: " + generatedOn + "\n\n";
    assert r[|title|..|title| + |videoId|] == videoId;
    OccursContains(r, videoId, |title|);
    r
  }

  /** `create_markdown` as it is written: the loop assigns instead of
      appending, so a non-empty transcript yields only its last fragment's
      text and the header is lost. */
  method CreateMarkdownAsWritten(segments: seq<Segment>, videoId: string, generatedOn: string)
    returns (content: string)
    ensures segments == [] ==> content == Header(videoId, generatedOn)
    ensures segments != [] ==> content == segments[|segments| - 1].text + "\n\n"
  {
    content := Header(videoId, generatedOn);
    for i := 0 to |segments|
      invariant i == 0 ==> content == Header(videoId, generatedOn)
      invariant i > 0 ==> content == segments[i - 1].text + "\n\n"
    {
      content := segments[i].text + "\n\n";
    }
  }

  /** What the loop above leaves: a fragment's text that is longer than the
      last one's by more than the blank line cannot appear in it, so
      `[Segment("first part", 0, 1), Segment("end", 1, 1)]` comes out as
      `end` and a blank line. */
  lemma AsWrittenLosesText(segments: seq<Segment>, k: nat, content: string)
    requires k < |segments|
    requires content == segments[|segments| - 1].text + "\n\n"
    requires |segments[k].text| > |segments[|segments| - 1].text| + 2
    ensures !Contains(content, segments[k].text)
  {
  }

  /** The body the markdown transcript evidently should have: every
      fragment's text followed by a blank line, in order. */
  function Body(segments: seq<Segment>): string
    decreases |segments|
  {
    if segments == [] then "" else Body(segments[..|segments| - 1]) + segments[|segments| - 1].text + "\n\n"
  }

  /** `create_markdown` with the loop appending to the content. */
  method CreateMarkdown(segments: seq<Segment>, videoId: string, generatedOn: string)
    returns (content: string)
    ensures content == Header(videoId, generatedOn) + Body(segments)
  {
    content := Header(videoId, generatedOn);
    for i := 0 to |segments|
      invariant content == Header(videoId, generatedOn) + Body(segments[..i])
    {
      assert segments[..i + 1][..i] == segments[..i];
      content := content + segments[i].text + "\n\n";
    }
    assert segments[..|segments|] == segments;
  }

  /** Where fragment `k`'s text starts in the body. */
  function Offset(segments: seq<Segment>, k: nat): nat
    requires k <= |segments|
  {
    |Body(segments[..k])|
  }

  /** In the appending version every fragment's text appears, at its own
      offset, followed by a blank line, and the offsets increase with the
      fragment index. */
  lemma {:induction false} BodyKeepsText(segments: seq<Segment>, k: nat)
    requires k < |segments|
    ensures OccursAt(Body(segments), segments[k].text + "\n\n", Offset(segments, k))
    ensures Offset(segments, k + 1) == Offset(segments, k) + |segments[k].text| + 2
    decreases |segments|
  {
    var n := |segments|;
    var prefix := segments[..n - 1];
    if k < n - 1 {
      BodyKeepsText(prefix, k);
      assert prefix[..k] == segments[..k];
      assert prefix[..k + 1] == segments[..k + 1];
      var b := Body(prefix);
      assert Body(segments) == b + segments[n - 1].text + "\n\n";
      var o := Offset(segments, k);
      var t := segments[k].text + "\n\n";
      assert Body(segments)[o..o + |t|] == b[o..o + |t|];
    } else {
      assert segments[..k] == prefix;
      assert segments[..k + 1] == segments;
      var t := segments[k].text + "\n\n";
      var o := |Body(prefix)|;
      assert Body(segments)[o..o + |t|] == t;
    }
  }

  /** Every fragment's text is in whatever precedes the body followed by it. */
  lemma BodyContains(h: string, segments: seq<Segment>, k: nat)
    requires k < |segments|
    ensures Contains(h + Body(segments), segments[k].text)
  {
    BodyKeepsText(segments, k);
    ContainsShifted(h, Body(segments), segments[k].text, "\n\n", Offset(segments, k));
  }

  /** Every fragment's text is in the appended markdown transcript. */
  lemma MarkdownKeepsText(segments: seq<Segment>, videoId: string, generatedOn: string, k: nat)
    requires k < |segments|
    ensures Contains(Header(videoId, generatedOn) + Body(segments), segments[k].text)
  {
    BodyContains(Header(videoId, generatedOn), segments, k);
  }
}
