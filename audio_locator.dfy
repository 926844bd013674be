/**
 * Audio locator: `check_url_response` and `get_audio_name` in
 * parsing/lex_podcast.py.
 *
 * The HTTP GET behind the liveness probe is a parameter, `status`, giving
 * the status code a URL answers with.  The page scrape of
 * `get_audio_file_url` is a parameter too, `scraped`: the URL it returns,
 * or None.
 */
module AudioLocator {
  import opened Wrappers

  /** `requests.codes.ok`. */
  const StatusOk := 200

  /** The fixed part of the thumbnail pattern, before `(.*)`. */
  const ThumbPrefix := "https://lexfridman.com/files/thumbs_ai_podcast/"

  /** The host directory both audio candidates live in. */
  const AudioHost := "https://content.blubrry.com/takeituneasy/"

  /** `check_url_response(url)`: the URL itself on 200 OK, None otherwise. */
  function CheckUrlResponse(url: string, status: string -> int): (r: Option<string>)
    ensures r.Some? <==> status(url) == StatusOk
    ensures r.Some? ==> r.value == url
  {
    if status(url) == StatusOk then Some(url) else None
  }

  predicate NoNewline(s: string)
  {
    forall k :: 0 <= k < |s| ==> s[k] != '\n'
  }

  /** The file name the thumbnail pattern
      `^https://lexfridman\.com/files/thumbs_ai_podcast/(.*)\.png$` captures.
      `.` stops at a newline, and `$` matches at the very end or just before
      a final newline, so a thumbnail URL may end in `.png` or in `.png\n`. */
  function ThumbnailName(thumb: string): (r: Option<string>)
    ensures r.Some? ==> NoNewline(r.value)
    ensures r.Some? ==> thumb == ThumbPrefix + r.value + ".png" || thumb == ThumbPrefix + r.value + ".png\n"
  {
    var n := |ThumbPrefix|;
    if |thumb| >= n + 4 && thumb[..n] == ThumbPrefix && thumb[|thumb| - 4..] == ".png"
       && NoNewline(thumb[n..|thumb| - 4])
    then
      assert thumb == ThumbPrefix + thumb[n..|thumb| - 4] + ".png";
      Some(thumb[n..|thumb| - 4])
    else if |thumb| >= n + 5 && thumb[..n] == ThumbPrefix && thumb[|thumb| - 5..] == ".png\n"
       && NoNewline(thumb[n..|thumb| - 5])
    then
      assert thumb == ThumbPrefix + thumb[n..|thumb| - 5] + ".png\n";
      Some(thumb[n..|thumb| - 5])
    else None
  }

  /** The first guess, `lex_ai_<name>.mp3`. */
  function LexCandidate(name: string): string
  {
    AudioHost + "lex_ai_" + name + ".mp3"
  }

  /** The second guess, `mit_ai_<name>.mp3`. */
  function MitCandidate(name: string): string
  {
    AudioHost + "mit_ai_" + name + ".mp3"
  }

  /** `get_audio_name(thumbnail_url, podcast_url)`. */
  function GetAudioName(thumb: string, status: string -> int, scraped: Option<string>): (r: Option<string>)
    ensures r == scraped || (r.Some? && status(r.value) == StatusOk)
  {
    match ThumbnailName(thumb)
    case Some(name) =>
      var lex := LexCandidate(name);
      if CheckUrlResponse(lex, status).Some? then Some(lex)
      else
        var mit := MitCandidate(name);
        if CheckUrlResponse(mit, status).Some? then Some(mit)
        else scraped
    case None => scraped
  }

  // ---------------------------------------------------------------------
  // The chain as data: an ordered list of candidates, the first live one
  // wins, and the scraped link is the last resort.

  /** The candidates a thumbnail yields, in the order they are probed. */
  function Candidates(thumb: string): seq<string>
  {
    match ThumbnailName(thumb)
    case Some(name) => [LexCandidate(name), MitCandidate(name)]
    case None => []
  }

  /** The first live candidate, or the fallback when none is live. */
  function FirstLive(candidates: seq<string>, status: string -> int, fallback: Option<string>): (r: Option<string>)
    ensures (r == fallback && forall j :: 0 <= j < |candidates| ==> status(candidates[j]) != StatusOk)
         || (exists k :: 0 <= k < |candidates| && r == Some(candidates[k]) && status(candidates[k]) == StatusOk
               && forall j :: 0 <= j < k ==> status(candidates[j]) != StatusOk)
  {
    if candidates == [] then fallback
    else if status(candidates[0]) == StatusOk then Some(candidates[0])
    else
      var r := FirstLive(candidates[1..], status, fallback);
      assert forall j :: 1 <= j < |candidates| ==> candidates[j] == candidates[1..][j - 1];
      r
  }

  /** `get_audio_name` is the first live candidate, then the scraped link. */
  lemma AudioNameIsFirstLive(thumb: string, status: string -> int, scraped: Option<string>)
    ensures GetAudioName(thumb, status, scraped) == FirstLive(Candidates(thumb), status, scraped)
  {
  }

  /** A matching thumbnail whose `lex_ai_` candidate is live gives that candidate. */
  lemma LexPreferred(name: string, status: string -> int, scraped: Option<string>)
    requires NoNewline(name)
    requires status(LexCandidate(name)) == StatusOk
    ensures GetAudioName(ThumbPrefix + name + ".png", status, scraped) == Some(LexCandidate(name))
  {
    ThumbnailRoundTrip(name);
  }

  /** Otherwise a live `mit_ai_` candidate is taken. */
  lemma MitSecond(name: string, status: string -> int, scraped: Option<string>)
    requires NoNewline(name)
    requires status(LexCandidate(name)) != StatusOk
    requires status(MitCandidate(name)) == StatusOk
    ensures GetAudioName(ThumbPrefix + name + ".png", status, scraped) == Some(MitCandidate(name))
  {
    ThumbnailRoundTrip(name);
  }

  /** When neither guess is live, the scraped link is the answer. */
  lemma ScrapedWhenNoGuessLive(name: string, status: string -> int, scraped: Option<string>)
    requires NoNewline(name)
    requires status(LexCandidate(name)) != StatusOk
    requires status(MitCandidate(name)) != StatusOk
    ensures GetAudioName(ThumbPrefix + name + ".png", status, scraped) == scraped
  {
    ThumbnailRoundTrip(name);
  }

  /** A thumbnail outside the naming convention goes straight to the scraped
      link, whatever the probe says. */
  lemma ScrapedWhenNoMatch(thumb: string, status: string -> int, scraped: Option<string>)
    requires ThumbnailName(thumb).None?
    ensures GetAudioName(thumb, status, scraped) == scraped
    ensures Candidates(thumb) == []
  {
  }

  /** The captured name is exactly the text between the fixed prefix and the
      trailing `.png` (with or without a final newline). */
  lemma {:induction false} ThumbnailRoundTrip(name: string)
    requires NoNewline(name)
    ensures ThumbnailName(ThumbPrefix + name + ".png") == Some(name)
    ensures ThumbnailName(ThumbPrefix + name + ".png\n") == Some(name)
  {
    var n := |ThumbPrefix|;
    var t := ThumbPrefix + name + ".png";
    assert t[..n] == ThumbPrefix && t[|t| - 4..] == ".png" && t[n..|t| - 4] == name;
    var u := ThumbPrefix + name + ".png\n";
    assert u[..n] == ThumbPrefix && u[|u| - 1] == '\n';
    assert u[|u| - 4..][3] == u[|u| - 1];
    assert u[|u| - 5..] == ".png\n" && u[n..|u| - 5] == name;
  }

  /** The pattern fails exactly on the strings that are not the prefix, a
      newline-free name and `.png` (optionally followed by one newline). */
  lemma ThumbnailNoneIff(thumb: string)
    ensures ThumbnailName(thumb).None? <==>
      forall name :: NoNewline(name) ==>
        thumb != ThumbPrefix + name + ".png" && thumb != ThumbPrefix + name + ".png\n"
  {
    if ThumbnailName(thumb).None? {
      forall name | NoNewline(name)
        ensures thumb != ThumbPrefix + name + ".png" && thumb != ThumbPrefix + name + ".png\n"
      {
        ThumbnailRoundTrip(name);
      }
    }
  }
}
