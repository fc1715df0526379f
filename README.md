# Podcast transcript retrieval core, in Dafny

This project models the transcript-handling core of the `podcast_youtube_analyzer`
programs and proves properties of that model.

- `main2.py` is the chat variant. It turns a video's caption fragments into chunks
  of roughly 500 characters with the greedy merger `merge_segments`. It cleans each
  chunk's text with `clean_text` and stores the chunks with one embedding each in
  `TranscriptMemory`. Given a query, it builds a context from the best-scoring
  chunks and their neighbours. Each chunk in the context carries an
  `[MM:SS - MM:SS]` label. `process_video_url` keeps track of which video is
  loaded.
- `main.py` is the batch variant. It reads the video id out of the URL by
  splitting. It builds a markdown transcript and joins the fragment texts with
  spaces for the summariser.

Modules, one per concern:

- `Wrappers`: the `Option`, `Result` and `Outcome` types. A Python exception
  becomes a `Failure`/`Fail` value carrying its message.
- `Text`: Python's `sep.join(parts)`, `s.split(sep)` and `t in s` over strings.
  It also proves that split and join undo each other.
- `Segmenter`: `merge_segments`, an imperative method with loop invariants. It
  returns the cut indices as ghost results. The `Merged` predicate describes the
  result, and the lemmas derive the promised properties from `Merged`.
- `Cleaner`: `clean_text`. Its three regular expressions and `strip` are
  written as recursive functions over the string.
- `Timestamp`: `get_timestamp_range`, with a parser that reads a label back as
  its partner.
- `Retrieval`: `create_chunks` and the `TranscriptMemory` class, with fields
  `chunks` and `embeddings`. Top-k selection and window expansion are loops
  proved against independent specification functions (`TopSelection`,
  `Neighbourhood`). The context text is rendered by the functions `Parts` and
  `Join`, and `ContextSplits` shows it splits back into its parts.
- `Session`: `PodcastTranscriptProcessor.process_video_url` as a class that
  holds the memory and `currentVideoId`.
- `Summariser`: `main.py`'s `extract_video_id`, `create_markdown` (as written
  and corrected), and the space-joined text.

Times are whole seconds (`nat`), so `//` and `%` are exact. Three things are
function parameters, not computed by the model:

- the sentence encoder is `encode: string -> Vector`;
- the query's similarity to a stored embedding is `score: Vector -> int`;
- fetching captions and extracting an id with a regular expression are
  parameters of `ProcessVideoUrl`.

Behaviour of the code a reader might not expect (the model follows it):

- `create_chunks` keeps chunks whose cleaned text is empty. It does not drop
  them (`main2.py:110-117`).
- Durations are conserved whenever every fragment has text. The merger
  drops the durations of the empty-text fragments after its last close: an
  all-empty input, or empty fragments that follow a chunk already longer
  than the target (`main2.py:69-74`, `main2.py:82-84`; see
  `Segmenter.DurationConserved`). An empty-text fragment after a chunk
  within the target joins that chunk, duration included
  (`main2.py:77-80`).
- `top_k == 0` selects every chunk, because `a[-0:]` is the whole array.
  A negative `top_k` drops that many of the worst chunks (`main2.py:143`).
- `np.argsort` is not stable, so no tie order is promised (`main2.py:143`).

## Model

| member | source | states |
|---|---|---|
| Segmenter.End | podcast_youtube_analyzer/main2.py:32-35 | a fragment ends no earlier than it starts |
| Segmenter.MergeSegments | podcast_youtube_analyzer/main2.py:59-86 | no fragments give no chunks; otherwise the result satisfies `Merged`. That means: each chunk summarises consecutive fragments (text added with one space only after non-empty text, the first fragment's start, summed durations); each chunk has text; no fragment inside a chunk would have closed it; the fragment after each chunk did; only empty-text fragments follow the last chunk |
| Segmenter.CloseChunk | podcast_youtube_analyzer/main2.py:69-74 | closing the running chunk when the next fragment does not fit keeps the merger's invariant |
| Segmenter.ExtendChunk | podcast_youtube_analyzer/main2.py:76-80 | adding a fragment to the running chunk appends its text with the joining rule and adds its duration |
| Segmenter.CloseLast | podcast_youtube_analyzer/main2.py:82-84 | a final running chunk with text is emitted and covers every fragment |
| Segmenter.DropSilentTail | podcast_youtube_analyzer/main2.py:82-84 | a final running chunk without text is not emitted, and its fragments all have empty text |
| Segmenter.GroupTextEmpty | podcast_youtube_analyzer/main2.py:77-79 | a chunk's text is empty exactly when all its fragments' texts are |
| Segmenter.TextConserved | podcast_youtube_analyzer/main2.py:65-84 | when every fragment has text, the chunk texts joined by spaces equal the fragment texts joined by spaces: no text is lost, duplicated or reordered |
| Segmenter.DurationConserved | podcast_youtube_analyzer/main2.py:65-84 | the chunk durations plus those of the dropped empty tail equal the total duration; with no empty fragments the totals are equal |
| Segmenter.SizeBound | podcast_youtube_analyzer/main2.py:69-79 | a chunk is at most one character over the target (the size check ignores the joining space), unless its text is a single fragment's text |
| Segmenter.OversizedAlone | podcast_youtube_analyzer/main2.py:69-79 | a fragment longer than the target is never split: its chunk's text is exactly that fragment's text and the fragment ends the chunk |
| Segmenter.StartsOrdered | podcast_youtube_analyzer/main2.py:65-74 | chunks come in input order: ordered fragment starts give ordered chunk starts |
| Segmenter.ChunksDoNotOverlap | podcast_youtube_analyzer/main2.py:65-80 | when the fragments do not overlap, each chunk ends no later than the next begins |
| Cleaner.SpaceKinds | podcast_youtube_analyzer/main2.py:93-94 | `IsSpace` (the `\s` class and `str.isspace`) holds for space, tab, newline and carriage return, and never for digits, letters or the bracket characters |
| Cleaner.FirstClose | podcast_youtube_analyzer/main2.py:91-92 | the lazy `.*?` match ends at the first closing bracket before any newline: no closing bracket and no newline comes before it; when there is none, every closing bracket has a newline before it |
| Cleaner.RemoveSpans | podcast_youtube_analyzer/main2.py:91-92 | removing annotations never lengthens the text; what it removes and keeps is stated by the `RemoveOneSpan`, `RemoveSpansSpanFree`, `SpanFreeUnchanged`, `RemoveSpansIdempotent` and `RemoveSpansKeepsNewlines` rows |
| Cleaner.RemoveSpansIdempotent | podcast_youtube_analyzer/main2.py:91-92 | removing `[...]`/`(...)` annotations a second time changes nothing |
| Cleaner.RemoveSpansSpanFree | podcast_youtube_analyzer/main2.py:91-92 | after removal no opening bracket is followed on its line by a closing one |
| Cleaner.SpanFreeUnchanged | podcast_youtube_analyzer/main2.py:91-92 | text without an annotation is left as it is |
| Cleaner.RemoveOneSpan | podcast_youtube_analyzer/main2.py:91-92 | one same-line annotation is removed with its brackets, and the text around it is kept |
| Cleaner.RemoveSpansKeepsNewlines | podcast_youtube_analyzer/main2.py:91-92 | removal never deletes a newline, because `.` does not match one |
| Cleaner.TrimStart | podcast_youtube_analyzer/main2.py:94 | the result is the suffix left after the leading whitespace, and does not start with whitespace |
| Cleaner.TrimEnd | podcast_youtube_analyzer/main2.py:94 | the result is the prefix left before the trailing whitespace, and does not end with whitespace |
| Cleaner.CollapseRun | podcast_youtube_analyzer/main2.py:93 | `Collapse` (`re.sub(r"\s+", " ", s)`) turns a whole whitespace run before a non-space character, or before the end, into exactly one space |
| Cleaner.CollapsePlain | podcast_youtube_analyzer/main2.py:93 | `Collapse` copies text without whitespace unchanged; with `CollapseRun` this fixes its result on any string split into words and runs |
| Cleaner.CollapseIsCollapsed | podcast_youtube_analyzer/main2.py:93 | after `\s+` → space, every whitespace character is a plain space and no two are adjacent |
| Cleaner.NonSpaceCollapse | podcast_youtube_analyzer/main2.py:93 | collapsing changes no non-whitespace character |
| Cleaner.Strip | podcast_youtube_analyzer/main2.py:94 | `strip` never lengthens the text and leaves no whitespace at either end |
| Cleaner.StripSlice | podcast_youtube_analyzer/main2.py:94 | what `strip` keeps is one contiguous slice of the text, with only whitespace before and after it, so whitespace between words is never deleted |
| Cleaner.StripKeeps | podcast_youtube_analyzer/main2.py:94 | `strip` leaves no whitespace at either end, keeps a collapsed string collapsed and drops no other character |
| Cleaner.CleanText | podcast_youtube_analyzer/main2.py:89-94 | the cleaned text has no whitespace at either end; its only whitespace is single spaces; its other characters are exactly those left once annotations are removed, in order |
| Cleaner.Words | podcast_youtube_analyzer/main2.py:93-94 | reference definition of Python's `s.split()`: the maximal runs of non-whitespace characters, in order |
| Cleaner.WordsUnspaced | podcast_youtube_analyzer/main2.py:93-94 | every word of `split()` is nonempty and has no whitespace |
| Cleaner.CollapseWords | podcast_youtube_analyzer/main2.py:93 | `re.sub(r"\s+", " ", t)` on text without leading whitespace is its words joined by one space, plus one space exactly when the text ends with whitespace (`TrailingSpace`) |
| Cleaner.StripCollapseWords | podcast_youtube_analyzer/main2.py:93-94 | collapsing then stripping equals `" ".join(s.split())` for every string |
| Cleaner.CleanTextWords | podcast_youtube_analyzer/main2.py:89-94 | `clean_text` equals `" ".join(bare.split())`, where `bare` is the text with the `[...]` and then the `(...)` annotations removed |
| Cleaner.CleanTextDropsNotes | podcast_youtube_analyzer/main2.py:89-94 | `a [note] b (note')` cleans to `a b` for any words `a` and `b`, so the space between words is kept, e.g. `hello [laughs] world (pause)` to `hello world` |
| Timestamp.Decimal | podcast_youtube_analyzer/main2.py:48-49 | `str(n)` is a non-empty digit string, one digit exactly for `n < 10`, with no leading zero unless `n == 0` |
| Timestamp.ValueOfDecimal | podcast_youtube_analyzer/main2.py:48-49 | reading back what `str` wrote gives the number |
| Timestamp.DecimalOfValue | podcast_youtube_analyzer/main2.py:48-49 | writing the value of a canonical digit string gives the string |
| Timestamp.Pad2 | podcast_youtube_analyzer/main2.py:48-49 | `:02d` gives at least two digits, and exactly two below 100 |
| Timestamp.Pad2Padded | podcast_youtube_analyzer/main2.py:48-49 | a padded number is a padded digit string whose value is the number |
| Timestamp.Clock | podcast_youtube_analyzer/main2.py:48-49 | `MM:SS` has its colon three characters from the end and is five characters exactly below 100 minutes; that the parts are the padded minutes and seconds is stated by `ClockRoundTrip` |
| Timestamp.TimestampRange | podcast_youtube_analyzer/main2.py:46-50 | the label is bracketed and at least 15 characters long |
| Timestamp.ClockRoundTrip | podcast_youtube_analyzer/main2.py:48-49 | clock strings and times correspond one to one: parsing gives `t` exactly when the string is `Clock(t)` |
| Timestamp.RangeRoundTrip | podcast_youtube_analyzer/main2.py:46-50 | labels and pairs of times correspond one to one |
| Timestamp.RangeExample | podcast_youtube_analyzer/main2.py:46-50 | 63 s and 125 s give `[01:03 - 02:05]` |
| Timestamp.UncappedExample | podcast_youtube_analyzer/main2.py:48 | minutes are not capped: 6000 s gives `100:00` |
| Retrieval.FromRaw | podcast_youtube_analyzer/main2.py:111-115 | a chunk built from a merged record ends no earlier than it starts, has cleaned text (no whitespace at either end, single spaces inside) and no embedding yet |
| Retrieval.CreateChunks | podcast_youtube_analyzer/main2.py:107-117 | the merged records satisfy `Merged`, and the chunks are `Cleaned` of them: one `FromRaw` chunk per merged record, in order, none dropped |
| Retrieval.ChunkSpan | podcast_youtube_analyzer/main2.py:110-117 | chunk `j` has the cleaned text of its fragments, starts with its first fragment and ends after their summed durations |
| Retrieval.SliceStart | podcast_youtube_analyzer/main2.py:143 | Python's `a[-k:]` starts within the array |
| Retrieval.TopCount | podcast_youtube_analyzer/main2.py:143 | at most `len` indices are kept, and at most `k` for positive `k` |
| Retrieval.TopIndices | podcast_youtube_analyzer/main2.py:142-143 | the selected indices are distinct chunk indices, as many as the slice keeps, best first, and none scores below an index left out |
| Retrieval.PickBest | podcast_youtube_analyzer/main2.py:143 | the index picked is not yet taken and scores at least as high as every index not taken |
| Retrieval.TopZeroSelectsAll | podcast_youtube_analyzer/main2.py:143 | with `top_k == 0` every chunk is selected |
| Retrieval.ExpandWindows | podcast_youtube_analyzer/main2.py:146-150 | the union of the clamped windows is the set of chunk indices within `chunk_window_size` of a selected index |
| Retrieval.Range | podcast_youtube_analyzer/main2.py:150 | `range(lo, hi)` holds exactly the indices from `lo` up to `hi` |
| Retrieval.Ascending | podcast_youtube_analyzer/main2.py:155 | `sorted` gives each member below the chunk count exactly once, strictly increasing |
| Retrieval.WindowCovers | podcast_youtube_analyzer/main2.py:145-155 | every selected index and every chunk within the window of one is in the context order |
| Retrieval.NothingSelected | podcast_youtube_analyzer/main2.py:143-158 | when the slice keeps nothing, the context is empty |
| Retrieval.Part | podcast_youtube_analyzer/main2.py:154 | a context part is a label that reads back (`ParseRange`) as the chunk's start and end time, then `: ` and the chunk's text |
| Retrieval.PartNoNewline | podcast_youtube_analyzer/main2.py:154 | a part is one line when its chunk's text is |
| Retrieval.ContextSplits | podcast_youtube_analyzer/main2.py:153-158 | when at least one chunk is shown and every chunk text is a single line (cleaned texts are, by `Retrieval.CleanedNoNewline`), splitting the context at its blank lines gives back exactly the parts |
| Retrieval.TranscriptMemory.constructor | podcast_youtube_analyzer/main2.py:100-105 | a new memory has no chunks, no embeddings and the given window size |
| Retrieval.TranscriptMemory.AddTranscript | podcast_youtube_analyzer/main2.py:119-132 | empty input fails with "No segments provided" and changes nothing; otherwise the chunks are replaced by `CreateChunks`' result, the embeddings by `Encoded` (the encoder applied to each chunk text, in order), and each chunk holds its own embedding |
| Retrieval.TranscriptMemory.AttachEmbeddings | podcast_youtube_analyzer/main2.py:131-132 | the loop stores embedding `j` in chunk `j` and changes nothing else: the chunks become `Embedded`, each chunk with the embedding at its own index and otherwise unchanged |
| Retrieval.TranscriptMemory.GetRelevantContext | podcast_youtube_analyzer/main2.py:134-158 | "" without chunks or embeddings; otherwise a valid top-k selection over `Scores` (one similarity per stored embedding), widened by the window, in ascending order, rendered as `Parts` (one `Part` per index, in that order) and joined by blank lines |
| Session.ErrorStatus | podcast_youtube_analyzer/main2.py:224-226 | the error status ends with the exception's message |
| Session.LoadedStatus | podcast_youtube_analyzer/main2.py:223 | the success status names the video id before its final `!` |
| Session.PodcastTranscriptProcessor.constructor | podcast_youtube_analyzer/main2.py:164-170 | no video is loaded and the memory is empty, with window 3 |
| Session.PodcastTranscriptProcessor.ProcessVideoUrl | podcast_youtube_analyzer/main2.py:213-226 | a bad URL, the loaded id again, a failed fetch or empty fragments each give their status and change nothing; otherwise the memory is rebuilt from the fragments and only then is the id recorded |
| Text.Join | podcast_youtube_analyzer/main2.py:158 | `sep.join(parts)` begins with the first part; `JoinAppend`, `SplitJoin` and `JoinSplit` state how joins compose and undo splits |
| Text.Split | podcast_youtube_analyzer/main.py:49-52 | `s.split(sep)` gives at least one piece; `SplitJoin`, `SplitPiecesFree`, `SplitFirst` and `SplitLast` state what the pieces are |
| Text.ContainsOccurs | podcast_youtube_analyzer/main.py:48-51 | `t in s` (`Contains`) holds exactly when `t` occurs somewhere in `s` |
| Text.IndexOf | podcast_youtube_analyzer/main.py:48-52 | the first occurrence of a substring, or none at all |
| Text.SplitJoin | podcast_youtube_analyzer/main.py:49-52 | joining the pieces of `s.split(sep)` with `sep` gives `s` |
| Text.SplitPiecesFree | podcast_youtube_analyzer/main.py:49-52 | no piece of a split contains the separator |
| Text.JoinSplit | podcast_youtube_analyzer/main2.py:158 | splitting a blank-line join of newline-free parts gives the parts back |
| Summariser.ExtractVideoId | podcast_youtube_analyzer/main.py:38-53 | the URL is rejected with "Invalid YouTube URL format" exactly when it has neither "youtu.be" nor both "youtube.com" and "v=" |
| Summariser.ShortLinkId | podcast_youtube_analyzer/main.py:48-49 | a "youtu.be" link gives a tail of the URL that holds no `/` and is either the whole URL (no `/` in it) or starts right after a `/`, so it is exactly the text after the last `/` |
| Summariser.LongLinkId | podcast_youtube_analyzer/main.py:50-52 | a "youtube.com" link gives the text after the first "v=" up to the first `&`, the first further "v=" or the end: a prefix of that text, holding neither `&` nor "v=", that stops at the end or at one of them |
| Summariser.FullText | podcast_youtube_analyzer/main.py:168 | the space-joined text is empty for no fragments and otherwise begins with the first fragment's text |
| Summariser.FullTextIsChunkText | podcast_youtube_analyzer/main.py:167-169 | the text handed to the summariser equals the space-joined chunk texts of the merger when every fragment has text |
| Summariser.Header | podcast_youtube_analyzer/main.py:90-91 | the header names the video id and ends with a blank line |
| Summariser.CreateMarkdownAsWritten | podcast_youtube_analyzer/main.py:79-97 | as written: the header alone for no fragments, otherwise only the last fragment's text and a blank line |
| Summariser.AsWrittenLosesText | podcast_youtube_analyzer/main.py:93-95 | as written, an earlier fragment longer than the last one plus the blank line is missing from the result |
| Summariser.CreateMarkdown | podcast_youtube_analyzer/main.py:79-97 | corrected: the header followed by every fragment's text and a blank line, in order |
| Summariser.BodyKeepsText | podcast_youtube_analyzer/main.py:93-95 | in the corrected body every fragment's text sits at its own offset followed by a blank line, and the offsets increase with the index |
| Summariser.MarkdownKeepsText | podcast_youtube_analyzer/main.py:90-97 | every fragment's text appears in the corrected markdown |

## Left out

- Floating-point times: starts and durations are whole seconds, so `int(t // 60)` and `int(t % 60)` are exact.
- The sentence encoder and `np.dot` are foreign numeric code. They are the parameters `encode` and `score`. The encoder is applied per chunk text, so a batch result with fewer rows than chunks, which `zip` would truncate, is not modelled.
- The regular-expression `extract_video_id` of `main2.py` is the parameter `extractId` of `ProcessVideoUrl`. The 11-character id pattern it enforces is not modelled.
- Caption fetching (`get_transcript` in both files) is a network call. It is the parameter `fetch`, whose failure message stands for the raised exception's text.
- `chat_with_transcript` and `summarize_transcript` call a language model, and `chat_history` only feeds the chat, so they are left out.
- The Gradio interface, `main()`, `save_outputs` (file writes), logging and the `async` wrappers are left out.
- `datetime.now()` in the markdown header is the parameter `generatedOn`.
- Exceptions raised by the encoder inside `add_transcript` are not modelled. Such a failure would leave new chunks without new embeddings; the encoder here is total.
- `TranscriptSegment.embedding`, `model_name` and `output_dir` are never used by the modelled operations.
- Text.Split: requires a non-empty separator; Python raises for an empty one, and the code only splits on non-empty literals.
- The `top_k = 5` default of `get_relevant_context` (`main2.py:134`): the model takes `topK` as an explicit argument, and the only caller relying on the default, the chat, is left out.
- Retrieval.TopIndices: promises no order among equal scores, because `np.argsort` is not stable.

## Findings

| source | as written | input that shows it | evidently intended | confidence | as-written member | corrected member |
|---|---|---|---|---|---|---|
| podcast_youtube_analyzer/main.py:93-95 | the loop assigns `markdown_content = f"{segment.text}\n\n"`, so each fragment replaces the header and every earlier fragment | `[Segment("first part", 0, 1), Segment("end", 1, 1)]` gives `"end\n\n"`, without the header or "first part" | append with `+=`, keeping the header and every fragment's text in order | not executed | Summariser.CreateMarkdownAsWritten, Summariser.AsWrittenLosesText | Summariser.CreateMarkdown, Summariser.MarkdownKeepsText |
