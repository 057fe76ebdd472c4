/** The `video_id` field validator of `VideoRequest`: pull the identifier out of a watch URL or a
    short URL, then insist on eleven characters of `[a-zA-Z0-9_-]`. */
module VideoId {
  import opened Wrappers
  import opened Text

  const WatchMarker: string := "youtube.com/watch?v="
  const ShortMarker: string := "youtu.be/"
  /** The literal prefix of the pattern searched for in a watch URL, `v=([a-zA-Z0-9_-]+)`. */
  const QueryKey: string := "v="
  const InvalidFormat: string := "Invalid YouTube video ID format"
  const IdLength: nat := 11

  /** A well-formed identifier: exactly eleven characters of `[a-zA-Z0-9_-]`. */
  predicate IsVideoId(v: string) {
    |v| == IdLength && AllIdChars(v)
  }

  /** Length of the maximal run of identifier characters that starts at index `k`. */
  function RunLength(s: string, k: nat): (n: nat)
    requires k <= |s|
    ensures k + n <= |s|
    ensures forall j :: k <= j < k + n ==> IsIdChar(s[j])
    ensures k + n == |s| || !IsIdChar(s[k + n])
    decreases |s| - k
  {
    if k < |s| && IsIdChar(s[k]) then 1 + RunLength(s, k + 1) else 0
  }

  /** The pattern `pat` followed by `[a-zA-Z0-9_-]+` matches `s` at index `i`. */
  predicate MatchesAt(s: string, pat: string, i: nat) {
    i + |pat| < |s| && IsAt(s, pat, i) && IsIdChar(s[i + |pat|])
  }

  /** The leftmost index at or after `from` where the pattern matches, as `re.search` scans. */
  function FirstMatch(s: string, pat: string, from: nat): (r: Option<nat>)
    requires from <= |s|
    ensures r.Some? ==> from <= r.value && MatchesAt(s, pat, r.value)
    ensures r.Some? ==> forall j :: from <= j < r.value ==> !MatchesAt(s, pat, j)
    ensures r.None? ==> forall j :: from <= j ==> !MatchesAt(s, pat, j)
    decreases |s| - from
  {
    if MatchesAt(s, pat, from) then Some(from)
    else if from < |s| then FirstMatch(s, pat, from + 1)
    else None
  }

  /** Group 1 of a match at index `i`: the greedy run of identifier characters after `pat`. */
  function Capture(s: string, pat: string, i: nat): (c: string)
    requires MatchesAt(s, pat, i)
    ensures |c| > 0 && AllIdChars(c)
    ensures IsAt(s, c, i + |pat|)
    ensures i + |pat| + |c| == |s| || !IsIdChar(s[i + |pat| + |c|])
  {
    s[i + |pat|..i + |pat| + RunLength(s, i + |pat|)]
  }

  /** `re.search(pat + "([a-zA-Z0-9_-]+)", s)`, giving group 1 of the match if there is one. */
  function Search(s: string, pat: string): Option<string> {
    match FirstMatch(s, pat, 0)
    case Some(i) => Some(Capture(s, pat, i))
    case None => None
  }

  /** The working value after the URL clean-up: the capture of the branch taken, or the input
      itself when the branch finds no capture or no branch applies. */
  function Extract(s: string): string {
    if Contains(s, WatchMarker) then
      match Search(s, QueryKey)
      case Some(c) => c
      case None => s
    else if Contains(s, ShortMarker) then
      match Search(s, ShortMarker)
      case Some(c) => c
      case None => s
    else s
  }

  /** `re.match(r'^[a-zA-Z0-9_-]{11}$', v)` succeeds. Python's `$` also matches just before a
      newline that ends the string, so eleven identifier characters followed by one `'\n'` pass. */
  predicate MatchesIdPattern(v: string) {
    IsVideoId(v) || (|v| == IdLength + 1 && IsVideoId(v[..IdLength]) && v[IdLength] == '\n')
  }

  /** `VideoRequest.validate_video_id`: the normalised identifier, or the validation error. */
  function ValidateVideoId(s: string): Result<string, string> {
    var v := Extract(s);
    if MatchesIdPattern(v) then Ok(v) else Err(InvalidFormat)
  }

  // ---------------------------------------------------------------------------------------------
  // Properties of the validator

  /** A string of identifier characters contains neither URL marker (both hold a '.'). */
  lemma IdCharsHoldNoMarker(s: string)
    requires AllIdChars(s) || (|s| > 0 && AllIdChars(s[..|s| - 1]) && s[|s| - 1] == '\n')
    ensures !Contains(s, WatchMarker) && !Contains(s, ShortMarker)
  {
    if '.' in s {
      var i :| 0 <= i < |s| && s[i] == '.';
    }
    MissingCharNoOccurrence(s, WatchMarker, 7);
    MissingCharNoOccurrence(s, ShortMarker, 5);
  }

  /** A bare identifier of eleven characters from the alphabet is returned unchanged. */
  lemma BareIdUnchanged(s: string)
    requires IsVideoId(s)
    ensures ValidateVideoId(s) == Ok(s)
  {
    IdCharsHoldNoMarker(s);
  }

  /** The quirk of `$`: an identifier followed by one newline is accepted and returned with it. */
  lemma TrailingNewlineAccepted(id: string)
    requires IsVideoId(id)
    ensures ValidateVideoId(id + "\n") == Ok(id + "\n")
  {
    var s := id + "\n";
    assert s[..|s| - 1] == id;
    IdCharsHoldNoMarker(s);
    assert s[..IdLength] == id;
  }

  /** Input holding neither marker is validated as it stands: accepted unchanged exactly when it
      is an identifier, or an identifier followed by one newline, and rejected otherwise. */
  lemma BareInputValidatedAsIs(s: string)
    requires !Contains(s, WatchMarker) && !Contains(s, ShortMarker)
    ensures ValidateVideoId(s).Ok? <==> IsVideoId(s) || (|s| == IdLength + 1 && IsVideoId(s[..IdLength]) && s[IdLength] == '\n')
    ensures ValidateVideoId(s).Ok? ==> ValidateVideoId(s).value == s
    ensures ValidateVideoId(s).Err? ==> ValidateVideoId(s).error == InvalidFormat
  {
  }

  /** A string that contains `t`, where `t` holds a character that is neither an identifier
      character nor a newline, never passes the final pattern. */
  lemma ForeignCharFailsPattern(s: string, t: string, k: nat)
    requires Contains(s, t)
    requires k < |t| && !IsIdChar(t[k]) && t[k] != '\n'
    ensures !MatchesIdPattern(s)
  {
    var i :| 0 <= i <= |s| - |t| && IsAt(s, t, i);
    assert s[i..i + |t|][k] == t[k];
    var j := i + k;
    assert s[j] == t[k];
  }

  /** A watch URL yields its `v=` capture when that is eleven characters long and is rejected
      otherwise; the capture and the length check are independent steps. With no capture the
      whole URL is validated, and it always fails, holding ".", "/" and "?". */
  lemma WatchUrlBranch(s: string)
    requires Contains(s, WatchMarker)
    ensures Search(s, QueryKey).Some? && |Search(s, QueryKey).value| == IdLength ==>
              ValidateVideoId(s) == Ok(Search(s, QueryKey).value)
    ensures Search(s, QueryKey).Some? && |Search(s, QueryKey).value| != IdLength ==>
              ValidateVideoId(s) == Err(InvalidFormat)
    ensures Search(s, QueryKey).None? ==> ValidateVideoId(s) == Err(InvalidFormat)
  {
    if Search(s, QueryKey).None? {
      ForeignCharFailsPattern(s, WatchMarker, 7);
    }
  }

  /** The short-URL branch is tried only when the watch marker is absent (`elif`); it yields the
      run after "youtu.be/" under the same independent length check, and with no capture the
      whole URL is validated and fails. */
  lemma ShortUrlBranch(s: string)
    requires !Contains(s, WatchMarker) && Contains(s, ShortMarker)
    ensures Search(s, ShortMarker).Some? && |Search(s, ShortMarker).value| == IdLength ==>
              ValidateVideoId(s) == Ok(Search(s, ShortMarker).value)
    ensures Search(s, ShortMarker).Some? && |Search(s, ShortMarker).value| != IdLength ==>
              ValidateVideoId(s) == Err(InvalidFormat)
    ensures Search(s, ShortMarker).None? ==> ValidateVideoId(s) == Err(InvalidFormat)
  {
    if Search(s, ShortMarker).None? {
      ForeignCharFailsPattern(s, ShortMarker, 5);
    }
  }

  /** What validation accepts is an identifier taken from the input, or the input itself with the
      trailing-newline quirk; the only error is the format message. */
  lemma ValidatedIdIsWellFormed(s: string)
    ensures ValidateVideoId(s).Ok? ==>
              var v := ValidateVideoId(s).value;
              Contains(s, v) &&
              (IsVideoId(v) || (v == s && IsVideoId(s[..IdLength]) && |s| == IdLength + 1 && s[IdLength] == '\n'))
    ensures ValidateVideoId(s).Err? ==> ValidateVideoId(s).error == InvalidFormat
  {
    if ValidateVideoId(s).Ok? {
      var v := ValidateVideoId(s).value;
      if v == s {
        assert IsAt(s, s, 0);
      } else {
        var pat := if Contains(s, WatchMarker) then QueryKey else ShortMarker;
        var i := FirstMatch(s, pat, 0).value;
        assert v == Capture(s, pat, i);
        assert IsAt(s, v, i + |pat|);
      }
    }
  }

  /** A run of identifier characters that is not continued is the maximal run. */
  lemma {:induction false} RunLengthOfRun(s: string, k: nat, m: nat)
    requires k + m <= |s|
    requires AllIdChars(s[k..k + m])
    requires k + m == |s| || !IsIdChar(s[k + m])
    ensures RunLength(s, k) == m
    decreases m
  {
    if m > 0 {
      assert s[k..k + m][0] == s[k];
      assert s[k + 1..k + m] == s[k..k + m][1..];
      RunLengthOfRun(s, k + 1, m - 1);
    }
  }

  /** In `p + pat + c + rest`, where `p` never starts a match, `c` is a run of identifier
      characters and `rest` does not continue it, the search captures exactly `c`. */
  lemma {:induction false} SearchFindsCapture(p: string, pat: string, c: string, rest: string)
    requires |pat| > 0 && pat[0] !in p
    requires |c| > 0 && AllIdChars(c)
    requires rest == [] || !IsIdChar(rest[0])
    ensures Search(p + pat + c + rest, pat) == Some(c)
  {
    var s := p + pat + c + rest;
    var k := |p| + |pat|;
    assert s[|p|..k] == pat;
    assert s[k] == c[0];
    assert MatchesAt(s, pat, |p|);
    var i := FirstMatch(s, pat, 0).value;
    assert i == |p|;
    assert s[k..k + |c|] == c;
    RunLengthOfRun(s, k, |c|);
  }

  /** A watch URL `p + "v=" + id + rest`, with no earlier 'v' in `p` and `rest` not continuing
      the identifier, normalises to `id`. */
  lemma WatchUrlYieldsId(p: string, id: string, rest: string)
    requires 'v' !in p
    requires IsVideoId(id)
    requires rest == [] || !IsIdChar(rest[0])
    requires Contains(p + QueryKey + id + rest, WatchMarker)
    ensures ValidateVideoId(p + QueryKey + id + rest) == Ok(id)
  {
    SearchFindsCapture(p, QueryKey, id, rest);
  }

  /** A short URL `p + "youtu.be/" + id + rest`, with no 'y' in `p`, no watch marker and `rest`
      not continuing the identifier, normalises to `id`. */
  lemma ShortUrlYieldsId(p: string, id: string, rest: string)
    requires 'y' !in p
    requires IsVideoId(id)
    requires rest == [] || !IsIdChar(rest[0])
    requires !Contains(p + ShortMarker + id + rest, WatchMarker)
    ensures ValidateVideoId(p + ShortMarker + id + rest) == Ok(id)
  {
    var s := p + ShortMarker + id + rest;
    assert s[|p|..|p| + |ShortMarker|] == ShortMarker;
    assert IsAt(s, ShortMarker, |p|);
    SearchFindsCapture(p, ShortMarker, id, rest);
  }

  /** "https://www.youtube.com/watch?v=dQw4w9WgXcQ" normalises to "dQw4w9WgXcQ". */
  lemma WatchUrlExample()
    ensures ValidateVideoId("https://www.youtube.com/watch?v=dQw4w9WgXcQ") == Ok("dQw4w9WgXcQ")
  {
    var p, id := "https://www.youtube.com/watch?", "dQw4w9WgXcQ";
    var s := p + QueryKey + id + "";
    assert s == "https://www.youtube.com/watch?v=dQw4w9WgXcQ" by {
      assert p + QueryKey + id == "https://www.youtube.com/watch?v=dQw4w9WgXcQ";
    }
    assert 'v' !in p && IsVideoId(id) by {
      assert p == "https://www.youtube.com/watch?";
    }
    assert IsAt(s, WatchMarker, 12) by {
      assert p[12..] + QueryKey == WatchMarker;
      assert s[12..32] == p[12..] + QueryKey;
    }
    WatchUrlYieldsId(p, id, "");
  }

  /** "https://youtu.be/dQw4w9WgXcQ" normalises to "dQw4w9WgXcQ". */
  lemma ShortUrlExample()
    ensures ValidateVideoId("https://youtu.be/dQw4w9WgXcQ") == Ok("dQw4w9WgXcQ")
  {
    var p, id := "https://", "dQw4w9WgXcQ";
    var s := p + ShortMarker + id + "";
    assert s == "https://youtu.be/dQw4w9WgXcQ" by {
      assert p + ShortMarker + id == "https://youtu.be/dQw4w9WgXcQ";
    }
    assert 'y' !in p && IsVideoId(id) by {
      assert p == "https://";
    }
    assert !Contains(s, WatchMarker) by {
      MissingCharNoOccurrence(s, WatchMarker, 10);
    }
    ShortUrlYieldsId(p, id, "");
  }

  /** "not-a-valid-id!!" is rejected with the format error. */
  lemma InvalidInputExample()
    ensures ValidateVideoId("not-a-valid-id!!") == Err(InvalidFormat)
  {
    MissingCharNoOccurrence("not-a-valid-id!!", WatchMarker, 0);
    MissingCharNoOccurrence("not-a-valid-id!!", ShortMarker, 0);
  }
}
