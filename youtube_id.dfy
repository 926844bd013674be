/**
 * Video-identifier extraction: `get_youtube_id` in parsing/lex_podcast.py.
 *
 * The function runs `re.search(r"youtube\.com\/watch\?v=(\w+)", url)`.  A
 * search tries every start position from the left, so the match is the
 * leftmost occurrence of the marker `youtube.com/watch?v=` that is followed
 * by at least one word character; `\w+` is greedy, so the identifier is the
 * longest run of word characters after it.  No match gives `None`.
 */
module YoutubeId {
  import opened Wrappers
  import Text

  const Marker := "youtube.com/watch?v="

  /** `\w`, restricted to ASCII: letters, digits and the underscore. */
  predicate IsWordChar(c: char)
  {
    'a' <= c <= 'z' || 'A' <= c <= 'Z' || '0' <= c <= '9' || c == '_'
  }

  predicate AllWordChars(w: string)
  {
    forall k :: 0 <= k < |w| ==> IsWordChar(w[k])
  }

  /** The pattern matches at `i`: the marker, then at least one word character. */
  predicate MatchAt(s: string, i: int)
  {
    Text.OccursAt(s, Marker, i) && i + |Marker| < |s| && IsWordChar(s[i + |Marker|])
  }

  /** `w` is the longest run of word characters of `s` that starts at `j`. */
  predicate IsMaximalRunAt(s: string, j: int, w: string)
  {
    && 0 <= j && j + |w| <= |s| && s[j..j + |w|] == w && AllWordChars(w)
    && (j + |w| == |s| || !IsWordChar(s[j + |w|]))
  }

  /** What `\w+` consumes from position `j` on. */
  function WordRun(s: string, j: nat): (w: string)
    requires j <= |s|
    ensures IsMaximalRunAt(s, j, w)
    decreases |s| - j
  {
    if j < |s| && IsWordChar(s[j]) then [s[j]] + WordRun(s, j + 1) else []
  }

  /** The leftmost match at or after `i`. */
  function FirstMatchFrom(s: string, i: nat): (r: Option<nat>)
    requires i <= |s|
    ensures r.Some? ==> i <= r.value && MatchAt(s, r.value)
    ensures r.Some? ==> forall k :: i <= k < r.value ==> !MatchAt(s, k)
    ensures r.None? ==> forall k :: i <= k ==> !MatchAt(s, k)
    decreases |s| - i
  {
    if MatchAt(s, i) then Some(i)
    else if i < |s| then FirstMatchFrom(s, i + 1)
    else None
  }

  /** `i` is where `re.search` finds its match. */
  ghost predicate IsFirstMatch(s: string, i: int)
  {
    MatchAt(s, i) && forall k :: 0 <= k < i ==> !MatchAt(s, k)
  }

  /** `get_youtube_id(url)`.  The identifier, when there is one, is a
      non-empty run of word characters that follows the first match of the
      marker and is not followed by another word character; there is none
      exactly when the marker followed by a word character occurs nowhere. */
  function GetYoutubeId(url: string): (r: Option<string>)
    ensures r.None? <==> forall i :: !MatchAt(url, i)
    ensures r.Some? ==> |r.value| > 0
    ensures r.Some? ==> exists i :: IsFirstMatch(url, i) && IsMaximalRunAt(url, i + |Marker|, r.value)
  {
    match FirstMatchFrom(url, 0)
    case None => None
    case Some(i) =>
      var w := WordRun(url, i + |Marker|);
      assert IsFirstMatch(url, i);
      Some(w)
  }

  /** A maximal run is the one `\w+` consumes: it is determined by where it starts. */
  lemma {:induction false} MaximalRunIsWordRun(s: string, j: nat, w: string)
    requires j <= |s| && IsMaximalRunAt(s, j, w)
    ensures w == WordRun(s, j)
    decreases |s| - j
  {
    assert |w| > 0 ==> w[0] == s[j..j + |w|][0] == s[j];
    if j < |s| && IsWordChar(s[j]) {
      var rest := w[1..];
      assert s[j + 1..j + 1 + |rest|] == rest;
      MaximalRunIsWordRun(s, j + 1, rest);
      assert w == [s[j]] + rest;
    }
  }

  /** The identifier is what follows the first match, whatever comes before it. */
  lemma IdAfterFirstMatch(url: string, i: int)
    requires IsFirstMatch(url, i)
    ensures GetYoutubeId(url) == Some(WordRun(url, i + |Marker|))
  {
    var m := FirstMatchFrom(url, 0);
    assert m.Some?;
    assert !(m.value < i) && !(i < m.value);
  }

  /** A match inside `s` is a match inside `p + s`, moved by `|p|`, and back. */
  lemma MatchShift(p: string, s: string, k: int)
    requires 0 <= k
    ensures MatchAt(p + s, |p| + k) <==> MatchAt(s, k)
  {
    if k + |Marker| <= |s| {
      assert (p + s)[|p| + k..|p| + k + |Marker|] == s[k..k + |Marker|];
    }
    if k + |Marker| < |s| {
      assert (p + s)[|p| + k + |Marker|] == s[k + |Marker|];
    }
  }

  /** The word run after a position inside `s` is the same inside `p + s`. */
  lemma {:induction false} WordRunShift(p: string, s: string, j: nat)
    requires j <= |s|
    ensures WordRun(p + s, |p| + j) == WordRun(s, j)
    decreases |s| - j
  {
    if j < |s| {
      assert (p + s)[|p| + j] == s[j];
      WordRunShift(p, s, j + 1);
    }
  }

  /** No match starts inside `p`. */
  ghost predicate NoMatchIn(p: string, s: string)
  {
    forall i :: 0 <= i < |p| ==> !MatchAt(p + s, i)
  }

  lemma NoMatchShift(p: string, s: string)
    requires NoMatchIn(p, s)
    requires FirstMatchFrom(s, 0).None?
    ensures GetYoutubeId(p + s).None?
  {
    forall i ensures !MatchAt(p + s, i) {
      if i >= |p| { MatchShift(p, s, i - |p|); }
    }
  }

  lemma FirstMatchShift(p: string, s: string, j: int)
    requires NoMatchIn(p, s)
    requires IsFirstMatch(s, j)
    ensures IsFirstMatch(p + s, |p| + j)
  {
    MatchShift(p, s, j);
    forall k | 0 <= k < |p| + j ensures !MatchAt(p + s, k) {
      if k >= |p| { MatchShift(p, s, k - |p|); }
    }
  }

  lemma ShiftedId(p: string, s: string, j: nat)
    requires j + |Marker| <= |s|
    requires IsFirstMatch(p + s, |p| + j)
    ensures GetYoutubeId(p + s) == Some(WordRun(s, j + |Marker|))
  {
    IdAfterFirstMatch(p + s, |p| + j);
    WordRunShift(p, s, j + |Marker|);
  }

  lemma SomeMatchShift(p: string, s: string, j: nat)
    requires NoMatchIn(p, s)
    requires FirstMatchFrom(s, 0) == Some(j)
    ensures GetYoutubeId(p + s) == Some(WordRun(s, j + |Marker|))
  {
    assert IsFirstMatch(s, j);
    FirstMatchShift(p, s, j);
    ShiftedId(p, s, j);
  }

  /** The search is not anchored: text in front of the URL changes nothing,
      as long as no match starts inside it. */
  lemma PrefixIrrelevant(p: string, s: string)
    requires forall i :: 0 <= i < |p| ==> !MatchAt(p + s, i)
    ensures GetYoutubeId(p + s) == GetYoutubeId(s)
  {
    assert NoMatchIn(p, s);
    match FirstMatchFrom(s, 0)
    case None =>
      NoMatchShift(p, s);
    case Some(j) =>
      SomeMatchShift(p, s, j);
  }

  /** A match starts with the marker's first letter, `y`. */
  lemma NoMatchWithoutY(s: string, n: int)
    requires 0 <= n <= |s| && 'y' !in s[..n]
    ensures forall k :: 0 <= k < n ==> !MatchAt(s, k)
  {
    forall k | 0 <= k < n ensures !MatchAt(s, k) {
      assert s[k] == s[..n][k];
      assert k + |Marker| <= |s| ==> s[k..k + |Marker|][0] == s[k];
    }
  }

  /** In particular, any prefix without the letter `y` leaves the
      identifier unchanged. */
  lemma PrefixWithoutYIrrelevant(p: string, s: string)
    requires 'y' !in p
    ensures GetYoutubeId(p + s) == GetYoutubeId(s)
  {
    assert (p + s)[..|p|] == p;
    NoMatchWithoutY(p + s, |p|);
    PrefixIrrelevant(p, s);
  }

  /** A URL of the shape `<front>youtube.com/watch?v=<id><rest>`, with no
      match starting inside `front`, a word-character identifier and a rest
      that does not continue it, yields exactly that identifier. */
  lemma IdOfWatchUrl(front: string, id: string, rest: string)
    requires forall i :: 0 <= i < |front| ==> !MatchAt(front + Marker + id + rest, i)
    requires |id| > 0 && AllWordChars(id)
    requires rest == [] || !IsWordChar(rest[0])
    ensures GetYoutubeId(front + Marker + id + rest) == Some(id)
  {
    var s := Marker + id + rest;
    var t := front + Marker + id + rest;
    assert t == front + s;
    PrefixIrrelevant(front, s);
    assert s[..|Marker|] == Marker && s[|Marker|] == id[0];
    assert IsFirstMatch(s, 0);
    IdAfterFirstMatch(s, 0);
    assert s[|Marker|..|Marker| + |id|] == id;
    MaximalRunIsWordRun(s, |Marker|, id);
  }

  /** Without a word character after the marker there is no identifier. */
  lemma EmptyIdIsNone()
    ensures GetYoutubeId("https://www.youtube.com/watch?v=") == None
  {
    var front := "https://www.";
    var url := front + Marker;
    assert url == "https://www.youtube.com/watch?v=";
    assert url[..12] == front;
    NoMatchWithoutY(url, 12);
  }
}
