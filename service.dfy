/** One request through the service: validate the identifier, fetch the transcript, aggregate it,
    and turn every failure into a classified error. */
module Service {
  import opened Wrappers
  import opened Text
  import opened VideoId
  import opened Whitespace
  import opened Captions
  import opened Errors

  /** What `YouTubeTranscriptApi.get_transcript(video_id)` does: return the segments, or raise. */
  datatype Fetch = Transcript(segments: seq<Segment>) | FetchFailed(message: string)

  /** The body of a successful answer. */
  datatype CaptionResponse = CaptionResponse(videoId: string, captions: string, language: string, totalDuration: real)

  /** The answer to one request: the captions, a classified error raised by the handler, or the
      validation error that rejects the request before the handler runs (status 422). */
  datatype Response = Success(body: CaptionResponse) | Failed(error: ErrorResponse) | Rejected(detail: string)

  /** `str(e)` for the KeyError that `segment["text"]` raises on a segment without a text. */
  const MissingTextMessage: string := "'text'"

  /** What the handler answers for an already validated identifier and the collaborator's outcome. */
  function Respond(videoId: string, fetched: Fetch): Response {
    match fetched
    case FetchFailed(_) => Failed(NoTranscript(videoId))
    case Transcript(segs) =>
      if AllHaveText(segs) then
        Success(CaptionResponse(videoId, Clean(Join(Texts(segs))), Language(segs), MaxEnd(segs)))
      else
        Failed(Classify(MissingTextMessage, videoId))
  }

  /** `get_captions` after validation: pick the language, run the segment loop, join and clean the
      texts, or classify the failure. */
  method GetCaptions(videoId: string, fetched: Fetch) returns (r: Response)
    ensures r == Respond(videoId, fetched)
  {
    match fetched {
      case FetchFailed(_) =>
        return Failed(NoTranscript(videoId));
      case Transcript(transcript) =>
        var language := Language(transcript);
        var collected := CollectSegments(transcript);
        match collected {
          case MissingText =>
            return Failed(Classify(MissingTextMessage, videoId));
          case Collected(textSegments, totalDuration) =>
            var captionsText := Clean(Join(textSegments));
            return Success(CaptionResponse(videoId, captionsText, language, totalDuration));
        }
    }
  }

  /** A request as the framework runs it: the `video_id` validator first, then the handler, which
      asks the collaborator `fetch` about the normalised identifier. */
  method HandleRequest(raw: string, fetch: string -> Fetch) returns (r: Response)
    ensures ValidateVideoId(raw).Err? ==> r == Rejected(InvalidFormat)
    ensures ValidateVideoId(raw).Ok? ==>
              var id := ValidateVideoId(raw).value; r == Respond(id, fetch(id))
  {
    var validated := ValidateVideoId(raw);
    match validated {
      case Err(message) =>
        return Rejected(message);
      case Ok(videoId) =>
        r := GetCaptions(videoId, fetch(videoId));
    }
  }

  // ---------------------------------------------------------------------------------------------
  // Properties of the pipeline

  /** Any failure of the upstream fetch is NO_TRANSCRIPT_AVAILABLE with 404, whatever it says. */
  lemma FetchFailureIsNoTranscript(videoId: string, message: string)
    ensures Respond(videoId, FetchFailed(message)) ==
            Failed(ErrorResponse(404, NoTranscriptMessage, NoTranscriptAvailable, videoId))
  {
  }

  /** A segment without a text raises KeyError('text'), whose message holds none of the keyword
      phrases: the answer is PROCESSING_ERROR with 500, quoting "'text'". */
  lemma MissingTextIsProcessingError(videoId: string, segs: seq<Segment>)
    requires !AllHaveText(segs)
    ensures Respond(videoId, Transcript(segs)) ==
            Failed(ErrorResponse(500, ProcessingPrefix + MissingTextMessage, ProcessingError, videoId))
  {
    assert Lower(MissingTextMessage) == MissingTextMessage;
  }

  /** Every answer of the handler echoes the identifier it was given, and every error carries the
      status of its code. */
  lemma ResponseEchoesId(videoId: string, fetched: Fetch)
    ensures !Respond(videoId, fetched).Rejected?
    ensures Respond(videoId, fetched).Success? ==> Respond(videoId, fetched).body.videoId == videoId
    ensures Respond(videoId, fetched).Failed? ==>
              Respond(videoId, fetched).error.videoId == videoId &&
              Respond(videoId, fetched).error.statusCode == Respond(videoId, fetched).error.errorCode.Status()
  {
    if fetched.Transcript? && !AllHaveText(fetched.segments) {
      ClassifyWellFormed(MissingTextMessage, videoId);
    }
  }

  /** Upstream errors all reach the inner handler, and the outer one only ever sees the KeyError
      of a missing text: the keyword branches of the classifier are never taken by this handler. */
  lemma ReachableErrorCodes(videoId: string, fetched: Fetch)
    ensures Respond(videoId, fetched).Failed? ==>
              Respond(videoId, fetched).error.errorCode in {NoTranscriptAvailable, ProcessingError}
  {
    if fetched.Transcript? && !AllHaveText(fetched.segments) {
      MissingTextIsProcessingError(videoId, fetched.segments);
    }
  }

  /** A transcript whose segments all have a text is answered with clean captions holding exactly
      the segments' visible characters in order, the largest segment end (at least 0) as the
      total duration, and the first segment's language or "en". */
  lemma SuccessShape(videoId: string, segs: seq<Segment>)
    requires AllHaveText(segs)
    ensures Respond(videoId, Transcript(segs)).Success?
    ensures var body := Respond(videoId, Transcript(segs)).body;
      && body.videoId == videoId
      && IsClean(body.captions)
      && NonSpace(body.captions) == NonSpaceAll(Texts(segs))
      && body.totalDuration >= 0.0
      && (forall i :: 0 <= i < |segs| ==> End(segs[i]) <= body.totalDuration)
      && (body.totalDuration == 0.0 || exists i :: 0 <= i < |segs| && body.totalDuration == End(segs[i]))
      && body.language == (if |segs| > 0 && segs[0].language.Some? then segs[0].language.value else DefaultLanguage)
  {
    var joined := Join(Texts(segs));
    CleanShape(joined);
    JoinKeepsText(Texts(segs));
    MaxEndBounds(segs);
  }

  /** An empty transcript is not an error: empty captions, "en" and a total duration of 0. */
  lemma EmptyTranscript(videoId: string)
    ensures Respond(videoId, Transcript([])) == Success(CaptionResponse(videoId, "", DefaultLanguage, 0.0))
  {
    assert Texts([]) == [];
  }

  /** Two segments "hello" (0.0 + 1.0) and "world" (1.0 + 2.0) give "hello world" and 3.0. */
  lemma HelloWorldExample(videoId: string)
    ensures var segs := [Segment(Some("hello"), Some(0.0), Some(1.0), None),
                         Segment(Some("world"), Some(1.0), Some(2.0), None)];
      Respond(videoId, Transcript(segs)) == Success(CaptionResponse(videoId, "hello world", "en", 3.0))
  {
    HelloWorldSegmentsExample();
    HelloWorldCleanExample();
  }
}
