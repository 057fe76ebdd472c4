# YouTube caption extractor: a Dafny model of its decision logic

The service answers `POST /get-captions` with the captions of a YouTube video. Each request goes
through three steps, and this project models and proves all three:

1. the `video_id` field validator, which pulls the identifier out of a watch URL or a short URL
   and then requires eleven characters of `[a-zA-Z0-9_-]`;
2. the handler's success path: pick the language, loop over the transcript segments collecting
   their texts and the largest segment end, join the texts with single spaces, and clean up the
   whitespace;
3. the error handling: a failed upstream fetch gives `NO_TRANSCRIPT_AVAILABLE`, and any other
   failure is classified by lower-cased keyword tests.

Modules, one per concern:

- `Wrappers`: `Option` and `Result`.
- `Text`: the character classes `[a-zA-Z0-9_-]` and `\s`, substring search (`t in s`), ASCII
  `str.lower`, and the non-whitespace characters of a string.
- `VideoId`: the validator, with `re.search` (leftmost match, greedy capture) and `re.match` with
  its `$` written out.
- `Whitespace`: `" ".join`, `re.sub(r'\s+', ' ', s)` and `str.strip`. It also has an independent
  reference definition, Python's `" ".join(s.split())` as `Join(Words(s))`, and proves the
  clean-up equal to it.
- `Captions`: the segment record and the `for segment in transcript` loop. The loop is a method
  with invariants, proved equal to two specification functions: `Texts`, a sequence comprehension
  of the segment texts, and `MaxEnd`, the recursive running maximum.
- `Errors`: the error codes, their HTTP statuses and messages, and the classifier.
- `Service`: the handler (`GetCaptions`, specified by the function `Respond`) and the request as
  the framework runs it, validator first (`HandleRequest`).

The upstream client `YouTubeTranscriptApi.get_transcript` is an input. The handler takes its
outcome as a `Fetch` value: either the segments or a failure message. `HandleRequest` takes the
client as a function from identifier to outcome.

Notes on the code:

- The `$` of `^[a-zA-Z0-9_-]{11}$` also matches just before a newline that ends the string.
  Eleven identifier characters followed by `"\n"` are therefore accepted, and the identifier is
  returned with the newline (`VideoId.TrailingNewlineAccepted`).
- The classifier tests only "video unavailable", "video does not exist", "private" and
  "disabled". A message saying "not available" or a bare "does not exist" falls through to
  `PROCESSING_ERROR`. The model follows the code (`Errors.NotAvailableExample`,
  `Errors.BareDoesNotExistExample`).
- The inner `except Exception` around the fetch catches every upstream failure. For segments
  typed as in the model, the only failure that can reach the outer handler is the
  `KeyError('text')` of a segment without a text, and `str(KeyError('text'))` is `'text'` with
  its quotes. So for such segments the classifier always answers `PROCESSING_ERROR`, and
  `VIDEO_NOT_FOUND`, `VIDEO_PRIVATE` and `CAPTIONS_DISABLED` are never produced
  (`Service.ReachableErrorCodes`). With untyped segments other errors can reach it: a
  `"language"` value that is not a string makes the `CaptionResponse` construction at
  main.py:115-120 fail validation, and that error's text, which repeats the value, is then
  classified. The classifier is modelled and proved on arbitrary messages.

## Model

| member | source | states |
|---|---|---|
| Text.Lower | main.py:127 | `str.lower()` keeps the length, and each character is lower-cased (ASCII letters shifted by 32, everything else kept) |
| Text.LowerIdempotent | main.py:127 | lower-casing an already lower-cased message changes nothing |
| Text.MissingCharNoOccurrence | main.py:128 | `t in s` is false when some character of `t` does not occur in `s` |
| Text.NonSpace | main.py:111 | the visible characters of a string, none of them whitespace |
| Text.NonSpaceAppend | main.py:110 | the visible characters of a concatenation are those of the parts, in order |
| VideoId.RunLength | main.py:36 | the length of the maximal run of `[a-zA-Z0-9_-]` at an index: all characters in it qualify and the next does not |
| VideoId.FirstMatch | main.py:36 | `re.search` finds the leftmost index where the pattern is followed by an identifier character; none earlier matches, and "none" means no index matches |
| VideoId.Capture | main.py:36-38 | group 1 is non-empty, made of identifier characters, sits right after the pattern, and is not continued (greedy `+`) |
| VideoId.IdCharsHoldNoMarker | main.py:35-39 | an identifier, with or without a trailing newline, contains neither URL marker |
| VideoId.BareIdUnchanged | main.py:44-48 | a bare eleven-character identifier is returned unchanged |
| VideoId.TrailingNewlineAccepted | main.py:45 | the `$` quirk: an identifier followed by one newline is accepted and returned with the newline |
| VideoId.BareInputValidatedAsIs | main.py:44-48 | input with neither marker is accepted exactly when it is an identifier, or an identifier plus newline; it is then returned as is, and otherwise the error is the format message |
| VideoId.ForeignCharFailsPattern | main.py:45-46 | input containing a character that is neither an identifier character nor a newline fails the final pattern |
| VideoId.WatchUrlBranch | main.py:35-38 | a watch URL yields its `v=` capture if that has eleven characters, and is rejected if the capture has another length or there is no capture |
| VideoId.ShortUrlBranch | main.py:39-42 | without the watch marker, a short URL yields its `youtu.be/` capture under the same length check, and is rejected with no capture |
| VideoId.ValidatedIdIsWellFormed | main.py:33-48 | an accepted value occurs in the input and is an identifier, or is the whole input in the trailing-newline form; the only error is the format message |
| VideoId.RunLengthOfRun | main.py:36 | a run of identifier characters that is not continued is the maximal run |
| VideoId.SearchFindsCapture | main.py:36-40 | in `p + pat + c + rest`, where the first character of `pat` does not occur in `p`, `c` is a non-empty run of identifier characters and `rest` is empty or starts with a non-identifier character, the search captures exactly `c` |
| VideoId.WatchUrlYieldsId | main.py:35-38 | a watch URL `p + "v=" + id + rest` normalises to `id` when `id` is an identifier, `p` holds no `v`, `rest` is empty or starts with a non-identifier character, and the whole contains the watch marker |
| VideoId.ShortUrlYieldsId | main.py:39-42 | a short URL `p + "youtu.be/" + id + rest` normalises to `id` when `id` is an identifier, `p` holds no `y`, `rest` is empty or starts with a non-identifier character, and the whole does not contain the watch marker |
| VideoId.WatchUrlExample | main.py:35-38 | `https://www.youtube.com/watch?v=dQw4w9WgXcQ` gives `dQw4w9WgXcQ` |
| VideoId.ShortUrlExample | main.py:39-42 | `https://youtu.be/dQw4w9WgXcQ` gives `dQw4w9WgXcQ` |
| VideoId.InvalidInputExample | main.py:45-46 | `not-a-valid-id!!` is rejected with the format message |
| Whitespace.JoinKeepsText | main.py:110 | joining with single spaces adds no visible character: the joined text's visible characters are those of the parts, in order |
| Whitespace.DropSpaces | main.py:111 | the left strip is no longer than its input and does not start with whitespace |
| Whitespace.DropSpacesSpec | main.py:111 | the left strip removes a run of whitespace from the front and nothing else |
| Whitespace.TrimEnd | main.py:111 | the right strip is no longer than its input and does not end with whitespace |
| Whitespace.TrimEndSpec | main.py:111 | the right strip removes a run of whitespace from the back and nothing else |
| Whitespace.NonSpaceOfSpaces | main.py:111 | a string of whitespace has no visible character |
| Whitespace.TrimmingKeepsText | main.py:111 | stripping either end keeps every visible character |
| Whitespace.CollapseShape | main.py:111 | `re.sub(r'\s+', ' ', s)` is single-spaced, empty only for empty input, starts with whitespace exactly when the input does, and keeps the visible characters |
| Whitespace.SliceSingleSpaced | main.py:111 | a slice of a single-spaced string is single-spaced |
| Whitespace.StripKeepsSingleSpaced | main.py:111 | `str.strip()` keeps a single-spaced string single-spaced |
| Whitespace.StripEnds | main.py:111 | the result of `str.strip()` is empty or starts and ends with a visible character |
| Whitespace.CleanShape | main.py:111 | the cleaned text has no whitespace at either end, no whitespace other than `' '`, no two adjacent spaces, and exactly the visible characters of its input, in order |
| Whitespace.CollapseFixesSingleSpaced | main.py:111 | collapsing a single-spaced string changes nothing |
| Whitespace.CleanFixesClean | main.py:111 | cleaning a clean string changes nothing |
| Whitespace.CleanIdempotent | main.py:111 | the clean-up is idempotent |
| Whitespace.WordLength | main.py:111 | the first word's length is at most the string's, and positive when the string starts with a visible character |
| Whitespace.WordLengthSpec | main.py:111 | the first word has no whitespace and ends at the end or at whitespace |
| Whitespace.WordsSpec | main.py:111 | `str.split()` gives non-empty words without whitespace |
| Whitespace.DropSpacesSkips | main.py:111 | the left strip of whitespace followed by a visible start is that rest |
| Whitespace.CollapseWord | main.py:111 | collapsing passes a word through unchanged |
| Whitespace.JoinedWordsEnds | main.py:110 | words joined with spaces neither start nor end with whitespace |
| Whitespace.WordsSkipSpaces | main.py:111 | leading whitespace does not change the split |
| Whitespace.WordLengthOfWord | main.py:111 | a word's first word is the whole word |
| Whitespace.WordLengthAppend | main.py:111 | appending after a word boundary does not change the first word |
| Whitespace.WordsAtGap | main.py:111 | a word followed by whitespace splits off as the first word |
| Whitespace.WordsOfPaddedWord | main.py:111 | a word padded with whitespace on both sides splits to that word alone |
| Whitespace.CollapseFromWord | main.py:111 | collapsing a string that starts visibly gives its words joined with spaces, plus one space if it ended in whitespace |
| Whitespace.CollapseAfterWord | main.py:111 | the inductive step of the same fact, after the first word, split into the three cases below |
| Whitespace.CollapseLastWord | main.py:111 | a word with nothing after it collapses to itself |
| Whitespace.CollapseWordThenSpaces | main.py:111 | a word followed only by whitespace collapses to the word and one space |
| Whitespace.CollapseWordThenWords | main.py:111 | a word followed by whitespace and more words collapses to the word, one space and the collapsed rest |
| Whitespace.CollapseLeadingSpace | main.py:111 | a leading whitespace run collapses to one space before the collapsed rest |
| Whitespace.WordsNonEmpty | main.py:111 | a string that starts with a visible character has at least one word |
| Whitespace.JoinCons | main.py:110 | `" ".join` puts one space between a word and the join of a non-empty list of further words |
| Whitespace.SuffixTrailingSpace | main.py:111 | `w + rest` ends in whitespace exactly when the non-empty left strip of `rest` does |
| Whitespace.DropSpacesLast | main.py:111 | the left strip keeps the last character when something is left |
| Whitespace.LeadingSpacesCollapse | main.py:111 | left-stripping commutes with collapsing |
| Whitespace.TrimJoinedWords | main.py:111 | right-stripping joined words, with or without one trailing space, gives the joined words |
| Whitespace.CleanIsJoinedWords | main.py:111 | `re.sub(r'\s+', ' ', s).strip()` equals the reference `" ".join(s.split())` |
| Whitespace.WordsFromWord | main.py:111 | the split of a visibly starting string is its first word followed by the split of the rest |
| Whitespace.SliceAppend | main.py:110 | slicing a concatenation within its first part |
| Whitespace.WordsAppendAtWord | main.py:110 | splitting a concatenation whose first word ends inside the first part |
| Whitespace.WordsAppend | main.py:110 | the split of a concatenation at a whitespace boundary is the concatenation of the splits |
| Whitespace.WordsOfJoin | main.py:110 | splitting the space-joined segments gives the words of every segment, in order |
| Whitespace.CaptionsAreJoinedWords | main.py:110-111 | the captions text is the words of all segment texts joined with single spaces |
| Whitespace.PaddedHelloExample | main.py:111 | `" hello\n\n"` splits to `["hello"]` |
| Whitespace.PaddedWordsJoin | main.py:110-111 | two segment texts that are each one word padded with any whitespace give the two words joined by one space |
| Whitespace.HelloWorldCleanExample | main.py:110-111 | the segments `"hello"` and `"world"` give `"hello world"` |
| Captions.MaxEndBounds | main.py:102-108 | the total duration is at least 0 and at least every segment's `start + duration` (a missing field counts as 0); it is one of those ends when some end is positive, and 0 otherwise |
| Captions.Texts | main.py:105 | the collected texts are the segments' texts, one per segment, in order |
| Captions.CollectSegments | main.py:101-108 | the loop fails with the missing-text error exactly when some segment lacks a text; otherwise it returns the texts in order and the running maximum of the segment ends |
| Captions.HelloWorldSegmentsExample | main.py:88-108 | segments "hello" (0+1) and "world" (1+2) give both texts, a total duration of 3.0 and language "en" |
| Errors.ClassifyPriority | main.py:127-143 | the not-found phrases win over "private", which wins over "disabled"; each gives its code, status and message; the catch-all gives 500 and quotes the original, not lower-cased, message |
| Errors.ClassifyWellFormed | main.py:145-152 | a classified error echoes the identifier, carries its code's status, and is never `NO_TRANSCRIPT_AVAILABLE` |
| Errors.ClassifyIgnoresCase | main.py:127 | messages equal up to case get the same code and status, and a message is classified like its lower-cased form |
| Errors.PrivateExample | main.py:132-135 | "Video is private" gives `VIDEO_PRIVATE` with 403 |
| Errors.DisabledExample | main.py:136-139 | "subtitles disabled" gives `CAPTIONS_DISABLED` with 400 |
| Errors.NotFoundBeatsPrivateExample | main.py:128-135 | "Video unavailable, private" gives `VIDEO_NOT_FOUND` with 404 |
| Errors.NotAvailableExample | main.py:128-143 | "Not available" is not a not-found phrase and falls through to `PROCESSING_ERROR` |
| Errors.BareDoesNotExistExample | main.py:128-143 | "Does not exist" without "video" falls through to `PROCESSING_ERROR` |
| Service.GetCaptions | main.py:82-152 | the handler answers as `Respond` says: `NO_TRANSCRIPT_AVAILABLE` on a failed fetch, the classified missing-text error, or the cleaned captions with language and total duration |
| Service.HandleRequest | main.py:28-48 | a request whose identifier fails validation is rejected with the format message before the handler runs; otherwise the handler answers for the normalised identifier |
| Service.FetchFailureIsNoTranscript | main.py:86-99 | any upstream failure, whatever its message, gives 404 `NO_TRANSCRIPT_AVAILABLE` |
| Service.MissingTextIsProcessingError | main.py:104-152 | a segment without a text gives 500 `PROCESSING_ERROR` with the message `Error processing video: 'text'` |
| Service.ResponseEchoesId | main.py:82-152 | every answer of the handler echoes the identifier, and every error carries its code's status |
| Service.ReachableErrorCodes | main.py:86-152 | the handler's only error codes are `NO_TRANSCRIPT_AVAILABLE` and `PROCESSING_ERROR` |
| Service.SuccessShape | main.py:88-120 | a transcript whose segments all have a text gives clean captions holding exactly the segments' visible characters in order, the bounded maximal segment end, and the first segment's language or "en" |
| Service.EmptyTranscript | main.py:88-120 | an empty transcript gives empty captions, "en" and a total duration of 0 |
| Service.HelloWorldExample | main.py:101-120 | segments "hello" (0+1) and "world" (1+2) give "hello world", "en" and 3.0 |

## Left out

- The FastAPI application, the CORS middleware, the health endpoints and the GET wrapper route (main.py:13-26, 61-76, 154-157), because they are framework plumbing. The GET wrapper runs the same validator and handler.
- Logging (main.py:9-11, 84, 91, 113, 125), because it is output only.
- The network client `YouTubeTranscriptApi.get_transcript`, because it is foreign code. Its outcome is the `Service.Fetch` input.
- Pydantic's model and validator machinery and its 422 response body. A failed validation is `Service.Response.Rejected` with the validator's message.
- Raising and re-raising `HTTPException` as control flow. Errors are `Errors.ErrorResponse` values in the result.
- Starting uvicorn and reading `PORT` (main.py:159-167), because it is process startup.
- Floating-point rounding of `start + duration`, because durations are modelled as `real`.
- Unicode whitespace and Unicode lower-casing. `IsSpace` is space, tab, line feed, carriage return, vertical tab and form feed. Python's `\s`, `str.strip` and `str.split` also treat the ASCII separators `\x1c` to `\x1f` and many non-ASCII characters as whitespace; the model does not. `str.lower` lower-cases ASCII letters only.
- Segments that are not dicts, and `start`, `duration`, `text` or `language` values of the wrong type, because the `Segment` datatype types its fields. As a result, the missing `"text"` key is the only failure the loop can raise, and the response-model validation of `CaptionResponse` at main.py:115-120 never fails; with a non-string `language` it would fail, and its message would go to the classifier.
- A failure of the language pick at main.py:88 on a malformed first segment, because it has the same typing reason. Such a failure would fall into the same `NO_TRANSCRIPT_AVAILABLE` handler as a failed fetch.
