/** Building the captions text: `" ".join(text_segments)` followed by
    `re.sub(r'\s+', ' ', text).strip()`, with Python's `" ".join(text.split())` as an independent
    reference definition of the clean-up. */
module Whitespace {
  import opened Text

  // ---------------------------------------------------------------------------------------------
  // The join

  /** `" ".join(parts)`. */
  function Join(parts: seq<string>): string
    decreases |parts|
  {
    if parts == [] then ""
    else if |parts| == 1 then parts[0]
    else parts[0] + " " + Join(parts[1..])
  }

  /** The non-whitespace characters of every part, in order. */
  function NonSpaceAll(parts: seq<string>): string
    decreases |parts|
  {
    if parts == [] then "" else NonSpace(parts[0]) + NonSpaceAll(parts[1..])
  }

  /** Joining with a single space adds no visible character: the non-whitespace characters of the
      joined text are exactly those of the parts, in order. */
  lemma {:induction false} JoinKeepsText(parts: seq<string>)
    ensures NonSpace(Join(parts)) == NonSpaceAll(parts)
    decreases |parts|
  {
    if |parts| == 1 {
      assert NonSpaceAll(parts[1..]) == "";
    } else if |parts| > 1 {
      JoinKeepsText(parts[1..]);
      NonSpaceAppend(parts[0] + " ", Join(parts[1..]));
      NonSpaceAppend(parts[0], " ");
      assert NonSpace(" ") == "";
    }
  }

  // ---------------------------------------------------------------------------------------------
  // Stripping and collapsing

  /** Every character of `s` is whitespace. */
  predicate AllSpace(s: string) {
    forall i :: 0 <= i < |s| ==> IsSpace(s[i])
  }

  /** No character of `w` is whitespace. */
  predicate NoSpace(w: string) {
    forall i :: 0 <= i < |w| ==> !IsSpace(w[i])
  }

  /** The string without its leading whitespace (`str.lstrip`). */
  function DropSpaces(s: string): (r: string)
    ensures |r| <= |s|
    ensures r == [] || !IsSpace(r[0])
    decreases |s|
  {
    if s != [] && IsSpace(s[0]) then DropSpaces(s[1..]) else s
  }

  /** `DropSpaces` removes a run of whitespace from the front and nothing else. */
  lemma {:induction false} DropSpacesSpec(s: string)
    ensures var r := DropSpaces(s); r == s[|s| - |r|..] && AllSpace(s[..|s| - |r|])
    decreases |s|
  {
    if s != [] && IsSpace(s[0]) {
      DropSpacesSpec(s[1..]);
      var r := DropSpaces(s);
      var k := |s| - |r|;
      assert s[1..][..k - 1] == s[1..k];
      assert forall i :: 1 <= i < k ==> s[i] == s[1..k][i - 1];
    }
  }

  /** The string without its trailing whitespace (`str.rstrip`). */
  function TrimEnd(s: string): (r: string)
    ensures |r| <= |s|
    ensures r == [] || !IsSpace(r[|r| - 1])
    decreases |s|
  {
    if s != [] && IsSpace(s[|s| - 1]) then TrimEnd(s[..|s| - 1]) else s
  }

  /** `TrimEnd` removes a run of whitespace from the back and nothing else. */
  lemma {:induction false} TrimEndSpec(s: string)
    ensures var r := TrimEnd(s); r == s[..|r|] && AllSpace(s[|r|..])
    decreases |s|
  {
    if s != [] && IsSpace(s[|s| - 1]) {
      var p := s[..|s| - 1];
      TrimEndSpec(p);
      var r := TrimEnd(s);
      assert p[..|r|] == s[..|r|];
      assert forall i :: |r| <= i < |s| - 1 ==> s[i] == p[|r|..][i - |r|];
    }
  }

  /** `str.strip()`. */
  function Strip(s: string): string {
    TrimEnd(DropSpaces(s))
  }

  /** `re.sub(r'\s+', ' ', s)`: every maximal run of whitespace becomes one space. */
  function Collapse(s: string): string
    decreases |s|
  {
    if s == [] then ""
    else if IsSpace(s[0]) then " " + Collapse(DropSpaces(s[1..]))
    else [s[0]] + Collapse(s[1..])
  }

  /** The captions text after the clean-up. */
  function Clean(s: string): string {
    Strip(Collapse(s))
  }

  /** The only whitespace character is the space, and no two spaces are adjacent. */
  predicate SingleSpaced(r: string) {
    (forall i :: 0 <= i < |r| && IsSpace(r[i]) ==> r[i] == ' ') &&
    (forall i :: 0 < i < |r| && r[i] == ' ' ==> r[i - 1] != ' ')
  }

  /** The shape the clean-up guarantees: single-spaced, with no whitespace at either end. */
  predicate IsClean(r: string) {
    SingleSpaced(r) && (r == [] || (!IsSpace(r[0]) && !IsSpace(r[|r| - 1])))
  }

  /** A run of whitespace holds no visible character. */
  lemma {:induction false} NonSpaceOfSpaces(s: string)
    requires AllSpace(s)
    ensures NonSpace(s) == ""
    decreases |s|
  {
    if s != [] {
      NonSpaceOfSpaces(s[1..]);
    }
  }

  /** Removing whitespace at the start or the end keeps the visible characters. */
  lemma TrimmingKeepsText(s: string)
    ensures NonSpace(DropSpaces(s)) == NonSpace(s)
    ensures NonSpace(TrimEnd(s)) == NonSpace(s)
  {
    var d := DropSpaces(s);
    var k := |s| - |d|;
    DropSpacesSpec(s);
    assert s == s[..k] + d;
    NonSpaceOfSpaces(s[..k]);
    NonSpaceAppend(s[..k], d);
    var t := TrimEnd(s);
    TrimEndSpec(s);
    assert s == t + s[|t|..];
    NonSpaceOfSpaces(s[|t|..]);
    NonSpaceAppend(t, s[|t|..]);
  }

  /** What `Collapse` produces: single-spaced, empty exactly when the input is, starting with
      whitespace exactly when the input does, and with the input's visible characters. */
  lemma {:induction false} CollapseShape(s: string)
    ensures SingleSpaced(Collapse(s))
    ensures |Collapse(s)| == 0 <==> |s| == 0
    ensures |s| > 0 ==> (IsSpace(Collapse(s)[0]) <==> IsSpace(s[0]))
    ensures NonSpace(Collapse(s)) == NonSpace(s)
    decreases |s|
  {
    if s != [] {
      var r := Collapse(s);
      assert s == [s[0]] + s[1..];
      NonSpaceAppend([s[0]], s[1..]);
      if IsSpace(s[0]) {
        var d := DropSpaces(s[1..]);
        CollapseShape(d);
        var c := Collapse(d);
        assert r == " " + c;
        assert forall i :: 0 < i < |r| ==> r[i] == c[i - 1];
        TrimmingKeepsText(s[1..]);
        NonSpaceAppend(" ", c);
      } else {
        CollapseShape(s[1..]);
        var c := Collapse(s[1..]);
        assert r == [s[0]] + c;
        assert forall i :: 0 < i < |r| ==> r[i] == c[i - 1];
        NonSpaceAppend([s[0]], c);
      }
    }
  }

  /** A slice of a single-spaced string is single-spaced. */
  lemma SliceSingleSpaced(s: string, a: nat, b: nat)
    requires a <= b <= |s| && SingleSpaced(s)
    ensures SingleSpaced(s[a..b])
  {
    var r := s[a..b];
    assert forall i :: 0 <= i < |r| ==> r[i] == s[a + i];
  }

  /** The cleaned text has no whitespace at its ends, no whitespace other than single spaces, and
      exactly the visible characters of its input, in order. */
  lemma CleanShape(s: string)
    ensures IsClean(Clean(s))
    ensures NonSpace(Clean(s)) == NonSpace(s)
  {
    var c := Collapse(s);
    CollapseShape(s);
    StripKeepsSingleSpaced(c);
    StripEnds(c);
    TrimmingKeepsText(c);
    TrimmingKeepsText(DropSpaces(c));
  }

  /** Stripping a single-spaced string leaves it single-spaced. */
  lemma StripKeepsSingleSpaced(c: string)
    requires SingleSpaced(c)
    ensures SingleSpaced(Strip(c))
  {
    var d := DropSpaces(c);
    DropSpacesSpec(c);
    SliceSingleSpaced(c, |c| - |d|, |c|);
    TrimEndSpec(d);
    SliceSingleSpaced(d, 0, |TrimEnd(d)|);
  }

  /** A stripped string is empty or starts and ends with a visible character. */
  lemma StripEnds(c: string)
    ensures var t := Strip(c); t == [] || (!IsSpace(t[0]) && !IsSpace(t[|t| - 1]))
  {
    var d := DropSpaces(c);
    var t := TrimEnd(d);
    if t != [] {
      TrimEndSpec(d);
      assert t[0] == d[0];
    }
  }

  /** A single-spaced string is its own collapse. */
  lemma {:induction false} CollapseFixesSingleSpaced(r: string)
    requires SingleSpaced(r)
    ensures Collapse(r) == r
    decreases |r|
  {
    if r != [] {
      var rest := r[1..];
      assert r == [r[0]] + rest;
      SliceSingleSpaced(r, 1, |r|);
      CollapseFixesSingleSpaced(rest);
      if IsSpace(r[0]) {
        assert DropSpaces(rest) == rest by {
          assert rest == [] || rest[0] == r[1];
        }
      }
    }
  }

  /** Already clean text is left as it is. */
  lemma CleanFixesClean(r: string)
    requires IsClean(r)
    ensures Clean(r) == r
  {
    CollapseFixesSingleSpaced(r);
  }

  /** The clean-up is idempotent. */
  lemma CleanIdempotent(s: string)
    ensures Clean(Clean(s)) == Clean(s)
  {
    CleanShape(s);
    CleanFixesClean(Clean(s));
  }

  // ---------------------------------------------------------------------------------------------
  // Reference definition: the words of a text, as Python's `str.split()` gives them

  /** Length of the leading run of non-whitespace characters. */
  function WordLength(s: string): (n: nat)
    ensures n <= |s|
    ensures s != [] && !IsSpace(s[0]) ==> n > 0
    decreases |s|
  {
    if s != [] && !IsSpace(s[0]) then 1 + WordLength(s[1..]) else 0
  }

  /** `WordLength` stops exactly at the first whitespace character. */
  lemma {:induction false} WordLengthSpec(s: string)
    ensures var n := WordLength(s); NoSpace(s[..n]) && (n == |s| || IsSpace(s[n]))
    decreases |s|
  {
    if s != [] && !IsSpace(s[0]) {
      WordLengthSpec(s[1..]);
      var n := WordLength(s);
      assert forall i :: 1 <= i < n ==> s[i] == s[1..][..n - 1][i - 1];
    }
  }

  /** The maximal runs of non-whitespace characters of `s`, in order. */
  function Words(s: string): seq<string>
    decreases |s|
  {
    if s == [] then []
    else if IsSpace(s[0]) then Words(s[1..])
    else
      var n := WordLength(s);
      [s[..n]] + Words(s[n..])
  }

  /** Every entry is a non-empty run without whitespace. */
  predicate AreWords(ws: seq<string>) {
    forall k :: 0 <= k < |ws| ==> |ws[k]| > 0 && NoSpace(ws[k])
  }

  /** `Words` yields words only. */
  lemma {:induction false} WordsSpec(s: string)
    ensures AreWords(Words(s))
    decreases |s|
  {
    if s != [] {
      if IsSpace(s[0]) {
        WordsSpec(s[1..]);
      } else {
        var n := WordLength(s);
        WordLengthSpec(s);
        WordsSpec(s[n..]);
      }
    }
  }

  /** The words of every part, in order. */
  function WordsAll(parts: seq<string>): seq<string>
    decreases |parts|
  {
    if parts == [] then [] else Words(parts[0]) + WordsAll(parts[1..])
  }

  /** Leading whitespace before a word start is skipped entirely. */
  lemma {:induction false} DropSpacesSkips(sp: string, rest: string)
    requires AllSpace(sp)
    requires rest == [] || !IsSpace(rest[0])
    ensures DropSpaces(sp + rest) == rest
    decreases |sp|
  {
    if sp != [] {
      assert (sp + rest)[1..] == sp[1..] + rest;
      DropSpacesSkips(sp[1..], rest);
    } else {
      assert sp + rest == rest;
    }
  }

  /** Collapsing passes a word through unchanged. */
  lemma {:induction false} CollapseWord(w: string, rest: string)
    requires NoSpace(w)
    ensures Collapse(w + rest) == w + Collapse(rest)
    decreases |w|
  {
    if w == [] {
      assert w + rest == rest;
    } else {
      assert (w + rest)[1..] == w[1..] + rest;
      CollapseWord(w[1..], rest);
      assert w == [w[0]] + w[1..];
    }
  }

  /** Joined words are empty or start and end with a visible character. */
  lemma {:induction false} JoinedWordsEnds(ws: seq<string>)
    requires AreWords(ws)
    ensures |ws| > 0 ==> |Join(ws)| > 0 && !IsSpace(Join(ws)[0]) && !IsSpace(Join(ws)[|Join(ws)| - 1])
    decreases |ws|
  {
    if |ws| > 1 {
      JoinedWordsEnds(ws[1..]);
      var j := Join(ws[1..]);
      assert Join(ws) == ws[0] + " " + j;
      assert Join(ws)[0] == ws[0][0];
      assert Join(ws)[|Join(ws)| - 1] == j[|j| - 1];
    } else if |ws| == 1 {
      assert Join(ws)[0] == ws[0][0];
    }
  }

  /** Words skip leading whitespace. */
  lemma {:induction false} WordsSkipSpaces(s: string)
    ensures Words(s) == Words(DropSpaces(s))
    decreases |s|
  {
    if s != [] && IsSpace(s[0]) {
      WordsSkipSpaces(s[1..]);
    }
  }

  /** A run without whitespace is one whole word. */
  lemma {:induction false} WordLengthOfWord(w: string)
    requires NoSpace(w)
    ensures WordLength(w) == |w|
    decreases |w|
  {
    if w != [] {
      WordLengthOfWord(w[1..]);
    }
  }

  /** A word that ends inside `x`, or at a whitespace start of `y`, is not extended by `y`. */
  lemma {:induction false} WordLengthAppend(x: string, y: string)
    requires WordLength(x) < |x| || y == [] || IsSpace(y[0])
    ensures WordLength(x + y) == WordLength(x)
    decreases |x|
  {
    if x == [] {
      assert x + y == y;
    } else if !IsSpace(x[0]) {
      assert (x + y)[1..] == x[1..] + y;
      WordLengthAppend(x[1..], y);
    }
  }

  /** The words of `w + sp + d`: the word `w` first, then the words of `d`. */
  lemma WordsAtGap(w: string, sp: string, d: string)
    requires |w| > 0 && NoSpace(w) && AllSpace(sp)
    requires d == [] || !IsSpace(d[0])
    requires sp == [] ==> d == []
    ensures Words(w + sp + d) == [w] + Words(d)
  {
    var t := w + (sp + d);
    assert w + sp + d == t;
    assert Words(t) == [w] + Words(sp + d) by {
      WordLengthOfWord(w);
      WordLengthAppend(w, sp + d);
      assert t[..|w|] == w;
      assert t[|w|..] == sp + d;
    }
    DropSpacesSkips(sp, d);
    WordsSkipSpaces(sp + d);
  }

  /** A single word with whitespace around it is that one word. */
  lemma WordsOfPaddedWord(before: string, w: string, after: string)
    requires AllSpace(before) && AllSpace(after) && |w| > 0 && NoSpace(w)
    ensures Words(before + w + after) == [w]
  {
    assert before + w + after == before + (w + after + "");
    DropSpacesSkips(before, w + after + "");
    WordsSkipSpaces(before + w + after);
    WordsAtGap(w, after, "");
    assert Words("") == [];
  }

  /** One space when `t` ends in whitespace, nothing otherwise. */
  function TrailingSpace(t: string): string {
    if t != [] && IsSpace(t[|t| - 1]) then " " else ""
  }

  /** Collapsing a text that starts at a word gives its words joined by single spaces, plus one
      space when the text ends in whitespace. */
  lemma {:induction false} CollapseFromWord(t: string)
    requires t == [] || !IsSpace(t[0])
    ensures Collapse(t) == Join(Words(t)) + TrailingSpace(t)
    decreases |t|
  {
    if t != [] {
      var n := WordLength(t);
      WordLengthSpec(t);
      WordsFromWord(t);
      var w, rest := t[..n], t[n..];
      assert t == w + rest;
      var d := DropSpaces(rest);
      if d != [] {
        CollapseFromWord(d);
      }
      CollapseAfterWord(w, rest);
    }
  }

  /** One step of `CollapseFromWord`: a word, then whitespace or nothing, then a rest for which the
      statement already holds. */
  lemma CollapseAfterWord(w: string, rest: string)
    requires |w| > 0 && NoSpace(w) && (rest == [] || IsSpace(rest[0]))
    requires var d := DropSpaces(rest); d != [] ==> Collapse(d) == Join(Words(d)) + TrailingSpace(d)
    ensures Collapse(w + rest) == Join([w] + Words(rest)) + TrailingSpace(w + rest)
  {
    if rest == [] {
      CollapseLastWord(w);
    } else if DropSpaces(rest) == [] {
      CollapseWordThenSpaces(w, rest);
    } else {
      CollapseWordThenWords(w, rest);
    }
  }

  /** The last step: a word alone collapses to itself. */
  lemma CollapseLastWord(w: string)
    requires |w| > 0 && NoSpace(w)
    ensures Collapse(w + []) == Join([w] + Words([])) + TrailingSpace(w + [])
  {
    CollapseWord(w, []);
    assert w + [] == w;
    assert [w] + Words([]) == [w];
  }

  /** A word followed by whitespace only collapses to the word and one space. */
  lemma CollapseWordThenSpaces(w: string, rest: string)
    requires |w| > 0 && NoSpace(w) && rest != [] && IsSpace(rest[0]) && DropSpaces(rest) == []
    ensures Collapse(w + rest) == Join([w] + Words(rest)) + TrailingSpace(w + rest)
  {
    var t := w + rest;
    assert Collapse(t) == w + " " by {
      CollapseWord(w, rest);
      assert DropSpaces(rest[1..]) == [];
    }
    assert Join([w] + Words(rest)) == w by {
      WordsSkipSpaces(rest);
      assert [w] + Words(rest) == [w];
    }
    assert TrailingSpace(t) == " " by {
      assert t[|t| - 1] == rest[|rest| - 1];
      DropSpacesSpec(rest);
    }
  }

  /** A word followed by whitespace and a non-empty rest collapses to the word, one space and the
      collapsed rest. */
  lemma CollapseWordThenWords(w: string, rest: string)
    requires |w| > 0 && NoSpace(w) && rest != [] && IsSpace(rest[0])
    requires var d := DropSpaces(rest); d != [] && Collapse(d) == Join(Words(d)) + TrailingSpace(d)
    ensures Collapse(w + rest) == Join([w] + Words(rest)) + TrailingSpace(w + rest)
  {
    var d := DropSpaces(rest);
    var j, e := Join(Words(d)), TrailingSpace(d);
    CollapseWord(w, rest);
    CollapseLeadingSpace(rest);
    WordsSkipSpaces(rest);
    WordsNonEmpty(d);
    JoinCons(w, Words(d));
    SuffixTrailingSpace(w, rest, d);
    Splice(w, j, e);
  }

  /** A leading run of whitespace collapses to one space before the rest. */
  lemma CollapseLeadingSpace(s: string)
    requires s != [] && IsSpace(s[0])
    ensures Collapse(s) == " " + Collapse(DropSpaces(s))
  {
  }

  /** A string that starts with a visible character has at least one word. */
  lemma WordsNonEmpty(s: string)
    requires s != [] && !IsSpace(s[0])
    ensures Words(s) != []
  {
  }

  /** Joining a word in front of further words puts one space between them. */
  lemma JoinCons(w: string, ws: seq<string>)
    requires ws != []
    ensures Join([w] + ws) == w + " " + Join(ws)
  {
    assert ([w] + ws)[1..] == ws;
  }

  /** The end of `w + rest` is the end of its non-empty suffix `DropSpaces(rest)`. */
  lemma SuffixTrailingSpace(w: string, rest: string, d: string)
    requires d == DropSpaces(rest) && d != []
    ensures TrailingSpace(w + rest) == TrailingSpace(d)
  {
    DropSpacesLast(rest);
    var t := w + rest;
    assert t[|t| - 1] == rest[|rest| - 1];
  }

  /** Dropping leading whitespace keeps the last character when something is left. */
  lemma {:induction false} DropSpacesLast(s: string)
    requires DropSpaces(s) != []
    ensures var d := DropSpaces(s); d[|d| - 1] == s[|s| - 1]
    decreases |s|
  {
    if s != [] && IsSpace(s[0]) {
      DropSpacesLast(s[1..]);
    }
  }

  /** Concatenation regrouped around the space after a word. */
  lemma Splice(w: string, j: string, e: string)
    ensures w + (" " + (j + e)) == (w + " " + j) + e
  {
  }

  /** Whitespace at the start collapses to at most one space, which the strip removes. */
  lemma LeadingSpacesCollapse(s: string)
    ensures DropSpaces(Collapse(s)) == Collapse(DropSpaces(s))
  {
    var d := DropSpaces(s);
    CollapseShape(d);
    if s != [] && IsSpace(s[0]) {
      assert DropSpaces(s[1..]) == d;
      DropSpacesSkips(" ", Collapse(d));
    }
  }

  /** Stripping the end of joined words, with or without one trailing space, gives the joined words. */
  lemma TrimJoinedWords(ws: seq<string>)
    requires AreWords(ws)
    ensures TrimEnd(Join(ws)) == Join(ws)
    ensures TrimEnd(Join(ws) + " ") == Join(ws)
  {
    var j := Join(ws);
    JoinedWordsEnds(ws);
    if ws == [] {
      assert j == [];
    }
    assert (j + " ")[..|j|] == j;
  }

  /** The clean-up agrees with its reference definition: the words of the text joined by single
      spaces, which is `" ".join(s.split())` in Python. */
  lemma CleanIsJoinedWords(s: string)
    ensures Clean(s) == Join(Words(s))
  {
    var d := DropSpaces(s);
    WordsSkipSpaces(s);
    LeadingSpacesCollapse(s);
    CollapseFromWord(d);
    WordsSpec(d);
    TrimJoinedWords(Words(d));
  }

  /** A text that starts at a word: its first word, then the words of the rest. */
  lemma WordsFromWord(t: string)
    requires t != [] && !IsSpace(t[0])
    ensures Words(t) == [t[..WordLength(t)]] + Words(t[WordLength(t)..])
  {
  }

  /** Cutting `a + b` inside `a`. */
  lemma SliceAppend(a: string, b: string, n: nat)
    requires n <= |a|
    ensures (a + b)[..n] == a[..n] && (a + b)[n..] == a[n..] + b
  {
  }

  /** After a word that ends inside `a`, or right before whitespace at the start of `b`, the
      words of `a + b` continue with those of the rest of `a` followed by `b`. */
  lemma WordsAppendAtWord(a: string, b: string)
    requires a != [] && !IsSpace(a[0])
    requires WordLength(a) < |a| || b == [] || IsSpace(b[0])
    ensures Words(a + b) == [a[..WordLength(a)]] + Words(a[WordLength(a)..] + b)
  {
    assert (a + b)[0] == a[0];
    WordsFromWord(a + b);
    WordLengthAppend(a, b);
    SliceAppend(a, b, WordLength(a));
  }

  /** Words never straddle whitespace: where `a` ends or `b` starts with whitespace, the words of
      `a + b` are those of `a` followed by those of `b`. */
  lemma {:induction false} WordsAppend(a: string, b: string)
    requires a == [] || b == [] || IsSpace(a[|a| - 1]) || IsSpace(b[0])
    ensures Words(a + b) == Words(a) + Words(b)
    decreases |a|
  {
    if a == [] {
      assert a + b == b;
    } else if IsSpace(a[0]) {
      assert (a + b)[1..] == a[1..] + b;
      WordsAppend(a[1..], b);
    } else {
      var n := WordLength(a);
      var r := a[n..];
      assert n < |a| || b == [] || IsSpace(b[0]) by {
        WordLengthSpec(a);
      }
      assert r == [] || b == [] || IsSpace(r[|r| - 1]) || IsSpace(b[0]) by {
        if r != [] {
          assert r[|r| - 1] == a[|a| - 1];
        }
      }
      WordsAppend(r, b);
      WordsAppendAtWord(a, b);
      WordsFromWord(a);
      WordsAssoc([a[..n]], Words(r), Words(b));
    }
  }

  /** Concatenation of word lists is associative. */
  lemma WordsAssoc(x: seq<string>, y: seq<string>, z: seq<string>)
    ensures x + (y + z) == (x + y) + z
  {
  }

  /** The words of the joined text are the words of the parts, in order. */
  lemma {:induction false} WordsOfJoin(parts: seq<string>)
    ensures Words(Join(parts)) == WordsAll(parts)
    decreases |parts|
  {
    if parts == [] {
      assert Words("") == [];
    } else if |parts| == 1 {
      assert WordsAll(parts[1..]) == [];
    } else {
      var p, j := parts[0], Join(parts[1..]);
      assert Words(p + " ") == Words(p) by {
        WordsAppend(p, " ");
        assert Words(" ") == [];
      }
      assert Words(Join(parts)) == Words(p + " ") + Words(j) by {
        assert Join(parts) == (p + " ") + j;
        WordsAppend(p + " ", j);
      }
      WordsOfJoin(parts[1..]);
    }
  }

  /** The captions text is every word of every segment text, in order, separated by single spaces. */
  lemma CaptionsAreJoinedWords(texts: seq<string>)
    ensures Clean(Join(texts)) == Join(WordsAll(texts))
  {
    CleanIsJoinedWords(Join(texts));
    WordsOfJoin(texts);
  }

  /** Whitespace of several kinds around a word is not part of it. */
  lemma PaddedHelloExample()
    ensures Words(" hello\n\n") == ["hello"]
  {
    assert " hello\n\n" == " " + "hello" + "\n\n";
    WordsOfPaddedWord(" ", "hello", "\n\n");
  }

  /** Two texts that are each one word with whitespace around it give the two words joined by
      one space, whatever the whitespace was. */
  lemma PaddedWordsJoin(b1: string, w1: string, a1: string, b2: string, w2: string, a2: string)
    requires AllSpace(b1) && AllSpace(a1) && |w1| > 0 && NoSpace(w1)
    requires AllSpace(b2) && AllSpace(a2) && |w2| > 0 && NoSpace(w2)
    ensures Clean(Join([b1 + w1 + a1, b2 + w2 + a2])) == w1 + " " + w2
  {
    var texts := [b1 + w1 + a1, b2 + w2 + a2];
    assert WordsAll(texts) == [w1, w2] by {
      WordsOfPaddedWord(b1, w1, a1);
      WordsOfPaddedWord(b2, w2, a2);
      assert texts[1..] == [b2 + w2 + a2];
      assert WordsAll(texts[1..]) == [w2] by {
        assert texts[1..][1..] == [];
      }
    }
    assert Join([w1, w2]) == w1 + " " + w2 by {
      assert [w1, w2][1..] == [w2];
    }
    CaptionsAreJoinedWords(texts);
  }

  /** Two one-word texts are joined by one space, which the clean-up keeps. */
  lemma HelloWorldCleanExample()
    ensures Clean(Join(["hello", "world"])) == "hello world"
  {
    assert Join(["hello", "world"]) == "hello world" by {
      assert ["hello", "world"][1..] == ["world"];
    }
    CleanFixesClean("hello world");
  }
}
