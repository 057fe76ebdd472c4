/** The error taxonomy of `get_captions` and the classifier that maps a failure's message to it. */
module Errors {
  import opened Text

  /** The `error_code` values the service reports. */
  datatype ErrorCode = NoTranscriptAvailable | VideoNotFound | VideoPrivate | CaptionsDisabled | ProcessingError {
    /** The string sent as `error_code`. */
    function Name(): string {
      match this
      case NoTranscriptAvailable => "NO_TRANSCRIPT_AVAILABLE"
      case VideoNotFound => "VIDEO_NOT_FOUND"
      case VideoPrivate => "VIDEO_PRIVATE"
      case CaptionsDisabled => "CAPTIONS_DISABLED"
      case ProcessingError => "PROCESSING_ERROR"
    }

    /** The HTTP status the service pairs with the code. */
    function Status(): int {
      match this
      case NoTranscriptAvailable => 404
      case VideoNotFound => 404
      case VideoPrivate => 403
      case CaptionsDisabled => 400
      case ProcessingError => 500
    }
  }

  /** A raised `HTTPException`: its status and its `detail` dict (`error`, `error_code`, `video_id`). */
  datatype ErrorResponse = ErrorResponse(statusCode: int, error: string, errorCode: ErrorCode, videoId: string)

  const NoTranscriptMessage: string := "No captions/transcripts available for this video"
  const NotFoundMessage: string := "Video not found or is unavailable"
  const PrivateMessage: string := "Video is private and captions cannot be accessed"
  const DisabledMessage: string := "Captions are disabled for this video"
  const ProcessingPrefix: string := "Error processing video: "

  /** The lower-cased phrases the classifier looks for. */
  const Unavailable: string := "video unavailable"
  const DoesNotExist: string := "video does not exist"
  const Private: string := "private"
  const Disabled: string := "disabled"

  /** The error raised when the upstream fetch (or the language pick beside it) fails. */
  function NoTranscript(videoId: string): ErrorResponse {
    ErrorResponse(NoTranscriptAvailable.Status(), NoTranscriptMessage, NoTranscriptAvailable, videoId)
  }

  /** The outer `except Exception` handler: test the lower-cased message for the keyword phrases in
      a fixed order; the catch-all quotes the original message. */
  function Classify(message: string, videoId: string): ErrorResponse {
    var m := Lower(message);
    if Contains(m, Unavailable) || Contains(m, DoesNotExist) then
      ErrorResponse(VideoNotFound.Status(), NotFoundMessage, VideoNotFound, videoId)
    else if Contains(m, Private) then
      ErrorResponse(VideoPrivate.Status(), PrivateMessage, VideoPrivate, videoId)
    else if Contains(m, Disabled) then
      ErrorResponse(CaptionsDisabled.Status(), DisabledMessage, CaptionsDisabled, videoId)
    else
      ErrorResponse(ProcessingError.Status(), ProcessingPrefix + message, ProcessingError, videoId)
  }

  // ---------------------------------------------------------------------------------------------
  // Properties of the classifier

  /** A message mentioning an unavailable or non-existent video is VIDEO_NOT_FOUND with 404,
      whatever else it mentions; failing that, "private" gives VIDEO_PRIVATE with 403; failing
      that, "disabled" gives CAPTIONS_DISABLED with 400; everything else is PROCESSING_ERROR with
      500, and its text quotes the original, not the lower-cased, message. */
  lemma ClassifyPriority(message: string, videoId: string)
    ensures var m, e := Lower(message), Classify(message, videoId);
      (Contains(m, Unavailable) || Contains(m, DoesNotExist) ==>
         e.errorCode == VideoNotFound && e.statusCode == 404 && e.error == NotFoundMessage) &&
      (!Contains(m, Unavailable) && !Contains(m, DoesNotExist) && Contains(m, Private) ==>
         e.errorCode == VideoPrivate && e.statusCode == 403 && e.error == PrivateMessage) &&
      (!Contains(m, Unavailable) && !Contains(m, DoesNotExist) && !Contains(m, Private) && Contains(m, Disabled) ==>
         e.errorCode == CaptionsDisabled && e.statusCode == 400 && e.error == DisabledMessage) &&
      (!Contains(m, Unavailable) && !Contains(m, DoesNotExist) && !Contains(m, Private) && !Contains(m, Disabled) ==>
         e.errorCode == ProcessingError && e.statusCode == 500 && e.error == ProcessingPrefix + message)
  {
  }

  /** Every classified error echoes the identifier, carries the status of its code, and is never
      NO_TRANSCRIPT_AVAILABLE, which only a failed fetch produces. */
  lemma ClassifyWellFormed(message: string, videoId: string)
    ensures Classify(message, videoId).videoId == videoId
    ensures Classify(message, videoId).statusCode == Classify(message, videoId).errorCode.Status()
    ensures Classify(message, videoId).errorCode != NoTranscriptAvailable
  {
  }

  /** The classification ignores case: two messages equal up to lower-casing get the same code
      and status, and a message is classified like its lower-cased form. */
  lemma ClassifyIgnoresCase(m1: string, m2: string, videoId: string)
    requires Lower(m1) == Lower(m2)
    ensures Classify(m1, videoId).errorCode == Classify(m2, videoId).errorCode
    ensures Classify(m1, videoId).statusCode == Classify(m2, videoId).statusCode
    ensures Classify(m1, videoId).errorCode == Classify(Lower(m1), videoId).errorCode
  {
    LowerIdempotent(m1);
  }

  /** The message "Video is private" is VIDEO_PRIVATE with status 403. */
  lemma PrivateExample(videoId: string)
    ensures Classify("Video is private", videoId).errorCode == VideoPrivate
    ensures Classify("Video is private", videoId).statusCode == 403
  {
    var m := Lower("Video is private");
    assert m == "video is private";
    assert IsAt(m, Private, 9);
  }

  /** The message "subtitles disabled" is CAPTIONS_DISABLED with status 400. */
  lemma DisabledExample(videoId: string)
    ensures Classify("subtitles disabled", videoId).errorCode == CaptionsDisabled
    ensures Classify("subtitles disabled", videoId).statusCode == 400
  {
    var m := Lower("subtitles disabled");
    assert m == "subtitles disabled";
    MissingCharNoOccurrence(m, Unavailable, 0);
    MissingCharNoOccurrence(m, Private, 0);
    assert IsAt(m, Disabled, 10);
  }

  /** The not-found phrases win over "private" in the same message. */
  lemma NotFoundBeatsPrivateExample(videoId: string)
    ensures Classify("Video unavailable, private", videoId).errorCode == VideoNotFound
  {
    var m := Lower("Video unavailable, private");
    assert m == "video unavailable, private";
    assert IsAt(m, Unavailable, 0);
  }

  /** "not available" is not among the tested phrases: such a message falls through to
      PROCESSING_ERROR. */
  lemma NotAvailableExample(videoId: string)
    ensures Classify("Not available", videoId).errorCode == ProcessingError
  {
    var m := "not available";
    assert Lower("Not available") == m;
    assert !Contains(m, Unavailable) && !Contains(m, DoesNotExist) && !Contains(m, Private) && !Contains(m, Disabled) by {
      MissingCharNoOccurrence(m, Unavailable, 2);
      MissingCharNoOccurrence(m, DoesNotExist, 2);
      MissingCharNoOccurrence(m, Private, 0);
      MissingCharNoOccurrence(m, Disabled, 0);
    }
    ClassifyPriority("Not available", videoId);
  }

  /** Nor is a bare "does not exist": without the word "video" before it the message falls
      through to PROCESSING_ERROR. */
  lemma BareDoesNotExistExample(videoId: string)
    ensures Classify("Does not exist", videoId).errorCode == ProcessingError
  {
    var m := "does not exist";
    assert Lower("Does not exist") == m;
    assert !Contains(m, Unavailable) && !Contains(m, DoesNotExist) && !Contains(m, Private) && !Contains(m, Disabled) by {
      MissingCharNoOccurrence(m, Unavailable, 0);
      MissingCharNoOccurrence(m, DoesNotExist, 0);
      MissingCharNoOccurrence(m, Private, 0);
      MissingCharNoOccurrence(m, Disabled, 3);
    }
    ClassifyPriority("Does not exist", videoId);
  }
}
