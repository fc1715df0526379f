/** The load state of `PodcastTranscriptProcessor`: which video's transcript
    the retrieval index holds, and the status line shown for a load request.
    Reading a video id from the URL and fetching the caption fragments are
    parameters. */
module Session {
  import opened Wrappers
  import opened Segmenter
  import opened Retrieval

  /** `TranscriptMemory`'s default `chunk_window_size`. */
  const DefaultWindow := 3

  /** The status for a load that raised `message`. */
  function ErrorStatus(message: string): (r: string)
    ensures |r| > |message| && r[|r| - |message|..] == message
  {
    "Error processing video: " + message
  }

  function LoadedStatus(id: string): (r: string)
    ensures |r| > |id| && r[|r| - |id| - 1..|r| - 1] == id && r[|r| - 1] == '!'
  {
    "Successfully loaded transcript for video " + id + "!"
  }

  const AlreadyLoaded := "This video is already loaded."
  const InvalidUrl := "Invalid YouTube URL format"

  class PodcastTranscriptProcessor {
    const memory: TranscriptMemory
    var currentVideoId: Option<string>

    ghost predicate Valid()
      reads this, memory
    {
      memory.Valid()
    }

    constructor ()
      ensures Valid() && fresh(memory)
      ensures currentVideoId.None? && memory.chunks == [] && memory.embeddings.None?
      ensures memory.chunkWindowSize == DefaultWindow
    {
      memory := new TranscriptMemory(DefaultWindow);
      currentVideoId := None;
    }

    /** `process_video_url`: a URL naming the loaded video changes nothing;
        any failure (no id in the URL, no transcript, no fragments) changes
        nothing and reports the error; otherwise the index is rebuilt from the
        new fragments and only then is the video recorded as loaded. */
    method ProcessVideoUrl(url: string, extractId: string -> Option<string>,
                           fetch: string -> Result<seq<Segment>>, encode: string -> Vector)
      returns (status: string, ghost merged: seq<RawChunk>, ghost firsts: seq<nat>, ghost kept: nat)
      requires Valid()
      modifies this, memory
      ensures Valid()
      ensures
        var loaded :=
          && extractId(url).Some?
          && Some(extractId(url).value) != old(currentVideoId)
          && fetch(extractId(url).value).Success?
          && fetch(extractId(url).value).value != [];
        && (!loaded ==>
              && currentVideoId == old(currentVideoId)
              && memory.chunks == old(memory.chunks)
              && memory.embeddings == old(memory.embeddings))
        && (extractId(url).None? ==> status == ErrorStatus(InvalidUrl))
        && (extractId(url).Some? ==>
              var id := extractId(url).value;
              if Some(id) == old(currentVideoId) then status == AlreadyLoaded
              else match fetch(id)
                case Failure(e) => status == ErrorStatus(e)
                case Success(segments) =>
                  if segments == [] then status == ErrorStatus("No segments provided")
                  else
                    && status == LoadedStatus(id)
                    && currentVideoId == Some(id)
                    && Merged(segments, TargetChunkSize, merged, firsts, kept)
                    && memory.embeddings == Some(Encoded(Cleaned(merged), encode))
                    && memory.chunks == Embedded(Cleaned(merged), memory.embeddings.value))
    {
      merged, firsts, kept := [], [], 0;
      var found := extractId(url);
      if found.None? {
        return ErrorStatus(InvalidUrl), merged, firsts, kept;
      }
      var id := found.value;
      if Some(id) == currentVideoId {
        return AlreadyLoaded, merged, firsts, kept;
      }
      var fetched := fetch(id);
      if fetched.Failure? {
        return ErrorStatus(fetched.message), merged, firsts, kept;
      }
      var outcome;
      outcome, merged, firsts, kept := memory.AddTranscript(fetched.value, encode);
      if outcome.Fail? {
        return ErrorStatus(outcome.message), merged, firsts, kept;
      }
      currentVideoId := Some(id);
      status := LoadedStatus(id);
    }
  }
}
