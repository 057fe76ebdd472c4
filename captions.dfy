/** The success path of `get_captions`: the loop over the transcript's segments and the language
    pick. */
module Captions {
  import opened Wrappers
  import opened Text
  import opened Whitespace

  /** One transcript entry as the upstream client hands it over: a dict whose keys may be absent. */
  datatype Segment = Segment(text: Option<string>, start: Option<real>, duration: Option<real>, language: Option<string>)

  const DefaultLanguage: string := "en"

  // ---------------------------------------------------------------------------------------------
  // Durations

  /** `segment.get("start", 0.0) + segment.get("duration", 0.0)`. */
  function End(seg: Segment): real {
    seg.start.GetOr(0.0) + seg.duration.GetOr(0.0)
  }

  /** The running maximum the loop keeps: 0.0 before any segment, replaced by a segment's end only
      when that end is strictly larger. */
  function MaxEnd(segs: seq<Segment>): real
    decreases |segs|
  {
    if segs == [] then 0.0
    else
      var m := MaxEnd(segs[..|segs| - 1]);
      var e := End(segs[|segs| - 1]);
      if e > m then e else m
  }

  /** The total duration is at least 0 and at least every segment's end; it is one of those ends
      when some end is positive, and 0 otherwise (in particular for an empty transcript). */
  lemma {:induction false} MaxEndBounds(segs: seq<Segment>)
    ensures MaxEnd(segs) >= 0.0
    ensures forall i :: 0 <= i < |segs| ==> End(segs[i]) <= MaxEnd(segs)
    ensures (MaxEnd(segs) == 0.0 && forall i :: 0 <= i < |segs| ==> End(segs[i]) <= 0.0) ||
            (exists i :: 0 <= i < |segs| && End(segs[i]) > 0.0 && MaxEnd(segs) == End(segs[i]))
    decreases |segs|
  {
    if segs != [] {
      var init := segs[..|segs| - 1];
      MaxEndBounds(init);
      assert forall i :: 0 <= i < |init| ==> init[i] == segs[i];
      var e := End(segs[|segs| - 1]);
      if e <= MaxEnd(init) && MaxEnd(init) != 0.0 {
        var i :| 0 <= i < |init| && End(init[i]) > 0.0 && MaxEnd(init) == End(init[i]);
        assert End(segs[i]) > 0.0 && MaxEnd(segs) == End(segs[i]);
      }
    }
  }

  // ---------------------------------------------------------------------------------------------
  // Texts and the join

  /** Every segment carries a "text" key, so `segment["text"]` never raises. */
  predicate AllHaveText(segs: seq<Segment>) {
    forall i :: 0 <= i < |segs| ==> segs[i].text.Some?
  }

  /** The list `text_segments` the loop builds: the texts in segment order. */
  function Texts(segs: seq<Segment>): (r: seq<string>)
    requires AllHaveText(segs)
    ensures |r| == |segs|
    ensures forall i :: 0 <= i < |segs| ==> r[i] == segs[i].text.value
  {
    seq(|segs|, i requires 0 <= i < |segs| => segs[i].text.value)
  }

  // ---------------------------------------------------------------------------------------------
  // The segment loop

  /** What the loop leaves behind: the collected texts and the running maximum, or the KeyError
      raised by `segment["text"]` on the first segment without a text. */
  datatype Collected = Collected(texts: seq<string>, totalDuration: real) | MissingText

  /** The `for segment in transcript` loop: append each text to `text_segments` and keep the
      largest segment end seen so far in `total_duration`. */
  method CollectSegments(transcript: seq<Segment>) returns (c: Collected)
    ensures c.MissingText? <==> !AllHaveText(transcript)
    ensures c.Collected? ==> c.texts == Texts(transcript) && c.totalDuration == MaxEnd(transcript)
  {
    var textSegments: seq<string> := [];
    var totalDuration: real := 0.0;
    var i := 0;
    while i < |transcript|
      invariant 0 <= i <= |transcript|
      invariant AllHaveText(transcript[..i])
      invariant textSegments == Texts(transcript[..i])
      invariant totalDuration == MaxEnd(transcript[..i])
    {
      var segment := transcript[i];
      if segment.text.None? {
        return MissingText;
      }
      textSegments := textSegments + [segment.text.value];
      var segmentEnd := segment.start.GetOr(0.0) + segment.duration.GetOr(0.0);
      if segmentEnd > totalDuration {
        totalDuration := segmentEnd;
      }
      assert transcript[..i + 1][..i] == transcript[..i];
      i := i + 1;
    }
    assert transcript[..i] == transcript;
    return Collected(textSegments, totalDuration);
  }

  /** `transcript[0].get("language", "en") if transcript else "en"`. */
  function Language(transcript: seq<Segment>): string {
    if |transcript| > 0 then transcript[0].language.GetOr(DefaultLanguage) else DefaultLanguage
  }

  /** Two segments "hello" (0.0 + 1.0) and "world" (1.0 + 2.0), without languages: both texts in
      order, a total duration of 3.0 and the default language. */
  lemma HelloWorldSegmentsExample()
    ensures var segs := [Segment(Some("hello"), Some(0.0), Some(1.0), None),
                         Segment(Some("world"), Some(1.0), Some(2.0), None)];
      AllHaveText(segs) && Texts(segs) == ["hello", "world"] && MaxEnd(segs) == 3.0 && Language(segs) == "en"
  {
    var segs := [Segment(Some("hello"), Some(0.0), Some(1.0), None),
                 Segment(Some("world"), Some(1.0), Some(2.0), None)];
    assert segs[..1][..0] == [];
  }
}
