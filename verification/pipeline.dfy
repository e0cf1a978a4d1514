/**
 * `generate_audio_for_file` (lines 42-100) end to end: normalise the text,
 * segment it, speak every chunk with the voice its label calls for, measure
 * each chunk's audio, fold the chunks into chapters and lay the chapters out
 * for the tag (lines 24-35).
 *
 * The speech service and the duration measured on the file it produces are
 * one parameter, `speak`, from a request to the length of its audio in
 * seconds. Reading the input file, writing and concatenating the audio
 * files and saving the tag are not modelled.
 */
module Pipeline {
  import opened PyStr
  import opened Normalize
  import opened Separators
  import opened Titles
  import opened Synthesis
  import opened Chapters

  /** What one run produces: the chunks, the request and temporary file for
      each, their labels and durations, and the chapter table. */
  datatype Outcome =
    | Failed(message: string)
    | Produced(chunks: seq<string>, requests: seq<Request>, tempPaths: seq<string>,
               labels: seq<string>, durations: seq<real>,
               titles: seq<string>, times: seq<real>,
               frames: seq<ChapterFrame>, childIds: seq<string>)

  /** Lines 42-100. The run fails, with the segmenter's message, exactly when
      the normalised text cannot be cut into chunks of at most `MAX_SIZE`
      characters. Otherwise every chunk gets its own request (label or text,
      with the voice its label calls for) and its own temporary file, its
      duration is that of its audio, and the chapters are the merge of the
      labels and durations, framed one after the other. */
  method GenerateAudioForFile(text: string, outPath: string, speak: Request -> real) returns (r: Outcome)
    ensures r.Failed? <==> Segmented(Translate(text)).TooLong?
    ensures r.Failed? ==> r.message == TooLongMessage()
    ensures r.Produced? ==>
      && Segmented(Translate(text)) == Chunks(r.chunks)
      && r.tempPaths == TempPaths(outPath, |r.chunks|)
      && r.labels == Map(Label, r.chunks)
      && r.requests == Map(RequestFor, r.chunks)
      && r.durations == Map(speak, r.requests)
      && IsChapterMerge(r.durations, r.labels, |r.chunks|, r.titles, r.times)
      && |r.frames| == |r.titles| && |r.childIds| == |r.frames|
      && (forall k :: 0 <= k < |r.childIds| ==> r.childIds[k] == ElementId(k))
      && (forall k :: 0 <= k < |r.frames| ==> r.frames[k] == Frame(r.titles, r.times, k))
  {
    var normalised := Translate(text);
    var segmentation := Segment(normalised);
    if segmentation.TooLong? {
      return Failed(segmentation.message);
    }
    var chunks := segmentation.chunks;
    var tempPaths := TempPaths(outPath, |chunks|);

    var labels, requests := LabelChunks(chunks);
    var durations := MeasureChunks(requests, speak);
    var titles, times := MergeChapters(durations, labels);
    var frames, childIds := ChapterFrames(titles, times);
    return Produced(chunks, requests, tempPaths, labels, durations, titles, times, frames, childIds);
  }

  /** Lines 68-73: each chunk's label and the request it is spoken with, in
      chunk order. */
  method LabelChunks(chunks: seq<string>) returns (labels: seq<string>, requests: seq<Request>)
    ensures labels == Map(Label, chunks)
    ensures requests == Map(RequestFor, chunks)
  {
    labels, requests := [], [];
    for i := 0 to |chunks|
      invariant labels == Map(Label, chunks[..i])
      invariant requests == Map(RequestFor, chunks[..i])
    {
      assert chunks[..i + 1] == chunks[..i] + [chunks[i]];
      MapSnoc(Label, chunks[..i], chunks[i]);
      MapSnoc(RequestFor, chunks[..i], chunks[i]);
      labels := labels + [Label(chunks[i])];
      requests := requests + [RequestFor(chunks[i])];
    }
    assert chunks[..|chunks|] == chunks;
  }

  /** Lines 78-80: the duration of each chunk's audio, in chunk order. */
  method MeasureChunks(requests: seq<Request>, speak: Request -> real) returns (durations: seq<real>)
    ensures durations == Map(speak, requests)
  {
    durations := [];
    for i := 0 to |requests|
      invariant durations == Map(speak, requests[..i])
    {
      assert requests[..i + 1] == requests[..i] + [requests[i]];
      MapSnoc(speak, requests[..i], requests[i]);
      durations := durations + [speak(requests[i])];
    }
    assert requests[..|requests|] == requests;
  }
}
