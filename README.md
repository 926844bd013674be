# lex_podcast parsing core, modelled in Dafny

This project models the string-parsing and decision logic of the Lex Fridman
podcast scraper in `parsing/lex_podcast.py`. It proves what that logic
guarantees. Every network fetch, HTML query and library decoder is an input
here. There are seven modules, one file each:

- `Wrappers` (`wrappers.dfy`): `Option`, standing for Python's `None`.
- `Text` (`text.dfy`): substring search. It models `in` and `str.index` on strings.
- `Timestamp` (`timestamp.dfy`): `convert_to_timestamp`. This is `strptime` with a
  fixed format, including its calendar checks. It returns the sentinel `(0, 0)` on failure.
- `YoutubeId` (`youtube_id.dfy`): `get_youtube_id`, the unanchored
  `re.search` for `youtube.com/watch?v=` followed by a greedy `\w+`.
- `Description` (`description.dfy`): the paragraph logic of `get_description`.
  It takes the third paragraph, cuts it at the first ` Please `, and falls
  back to the span text when `str.index` raises.
- `AudioLocator` (`audio_locator.dfy`): `check_url_response` and
  `get_audio_name`. These are the thumbnail pattern, the `lex_ai_` and `mit_ai_`
  guesses, and the scraped fallback.
- `Collector` (`collector.dfy`): the accumulation loop of `get_data`, as an
  imperative method with loop invariants. The loop as written and the loop as
  intended are modelled side by side (see Findings).

The inputs that stand in for I/O:
- The HTTP status a URL answers with is a function `status: string -> int`.
- The page scrape of `get_audio_file_url` is an `Option<string>`.
- The parsed `entry-content` container is a list of paragraph texts plus an optional span text.
- The per-entry assembly of `get_data` is an oracle that says how the entry's `try` body ends.

Where the code and its own docstrings or tests disagree, the model follows the code:
- **Timestamp format.** The code parses `'%Y-%m-%dT%H:%M:%SZ'` (parsing/lex_podcast.py:159).
  The tests (tests/test_lex_podcast.py:36-47) expect `'2022-11-04 16:09:32'` to
  parse and `'2022-11-04T16:09:32Z'` to give `(0, 0)`. The format is therefore a parameter.
  `CodeFormat` is the code's; `SpaceFormat` is the tests'. The
  lemmas show that both test cases fail against the code's format and pass against the other.
  `strptime` matches the literal `T` and `Z` without regard to case, and so does the model.
- **Description text.** The docstring of `get_description` promises an empty string
  when no description is found (parsing/lex_podcast.py:40-41). The code returns `None`
  with two paragraphs or fewer. It falls back to the span only when `str.index`
  raises. It raises itself when the container or the span is missing.
- **Video identifier.** The docstring of `get_youtube_id` promises an 11-character
  ID (parsing/lex_podcast.py:182). The code returns whatever maximal run of word
  characters follows the marker, of any length.
- **Duplicates.** The loop of `get_data` has an early return for a repeated record
  (parsing/lex_podcast.py:314-318). It cannot run: `duplicate_score` is reset for every entry.

## Model

| member | source | states |
|---|---|---|
| Text.IndexFrom | parsing/lex_podcast.py:55 | `str.index`: Some(k) is the first occurrence of the pattern at or after the start; None means there is none |
| Text.ContainsIff | parsing/lex_podcast.py:54 | the `in` test holds exactly when the pattern occurs at some position |
| Timestamp.Convert | parsing/lex_podcast.py:157-170 | a converted pair is always a valid date (years 1-9999, real days of real months, leap years) and a valid time (seconds below 60) |
| Timestamp.ConvertRendering | parsing/lex_podcast.py:159-170 | every string equal up to letter case to the rendering of a valid date and time converts to exactly that date and time |
| Timestamp.ConvertedIsRendering | parsing/lex_podcast.py:159-170 | reformatting a converted result with the same format gives back the input, up to letter case |
| Timestamp.SentinelIffNoRendering | parsing/lex_podcast.py:157-163 | the sentinel `(0, 0)` comes back exactly when the input is no rendering of any valid date and time |
| Timestamp.EmptyGivesSentinel | tests/test_lex_podcast.py:47 | the empty string gives `(0, 0)` under any format |
| Timestamp.WrongLengthGivesSentinel | parsing/lex_podcast.py:157-163 | a string whose length does not fit the format gives `(0, 0)` |
| Timestamp.CodeFormatAcceptsIsoInput | parsing/lex_podcast.py:153-155 | the docstring example `2022-11-04T16:09:32Z` gives (2022-11-04, 16:09:32), so the test's sad path (tests/test_lex_podcast.py:45-46) fails against the code |
| Timestamp.CodeFormatIgnoresCase | parsing/lex_podcast.py:159 | `2022-11-04t16:09:32z` is accepted as well: the literal letters match in either case |
| Timestamp.SpaceInputNeedsSpaceFormat | tests/test_lex_podcast.py:36-41 | the test's good-path input gives `(0, 0)` under the code's format and the expected pair under the space format |
| Timestamp.NonLeapYearHasNoFebruary29 | parsing/lex_podcast.py:157-163 | 2023-02-29 gives `(0, 0)` |
| Timestamp.LeapYearHasFebruary29 | parsing/lex_podcast.py:157-170 | 2024-02-29 converts |
| Timestamp.YearZeroRefused | parsing/lex_podcast.py:157-163 | year 0000 gives `(0, 0)` |
| Timestamp.LeapSecondRefused | parsing/lex_podcast.py:157-163 | second 60 passes the pattern but gives `(0, 0)` |
| YoutubeId.WordRun | parsing/lex_podcast.py:186 | what `\w+` consumes is a run of word characters that the next character does not continue |
| YoutubeId.FirstMatchFrom | parsing/lex_podcast.py:186 | the search result is the leftmost position where the marker is followed by a word character |
| YoutubeId.MaximalRunIsWordRun | parsing/lex_podcast.py:186-190 | a maximal run of word characters is determined by its start, so the captured group is unique |
| YoutubeId.GetYoutubeId | parsing/lex_podcast.py:186-195 | None exactly when no match exists; otherwise a non-empty run of word characters after the first match, not followed by another word character |
| YoutubeId.IdAfterFirstMatch | parsing/lex_podcast.py:186-191 | the identifier is the run that follows the first match |
| YoutubeId.PrefixIrrelevant | parsing/lex_podcast.py:186 | the search is unanchored: text in front in which no match starts leaves the identifier unchanged |
| YoutubeId.PrefixWithoutYIrrelevant | parsing/lex_podcast.py:186 | in particular, any prefix without the letter `y` leaves the identifier unchanged |
| YoutubeId.IdOfWatchUrl | parsing/lex_podcast.py:173-191 | a URL `<front>youtube.com/watch?v=<id><rest>`, where no match starts inside `front`, `id` is a non-empty run of word characters and `rest` does not continue it, yields exactly `id` |
| YoutubeId.EmptyIdIsNone | parsing/lex_podcast.py:186-195 | `https://www.youtube.com/watch?v=` with nothing after the marker yields None |
| Description.GetDescription | parsing/lex_podcast.py:50-60 | any text returned is the span text or a prefix of the third paragraph |
| Description.FewParagraphsGiveNone | parsing/lex_podcast.py:52-53 | with two paragraphs or fewer the function returns None |
| Description.ThirdParagraphKept | parsing/lex_podcast.py:53-57 | a third paragraph without `Please` is returned unchanged |
| Description.CutAtFirstSpacedPlease | parsing/lex_podcast.py:54-56 | with ` Please ` present, the result is the prefix up to its first occurrence, and that prefix does not contain ` Please ` |
| Description.BarePleaseFallsBackToSpan | parsing/lex_podcast.py:54-60 | `Please` without the surrounding spaces makes `str.index` raise; the result is the span text, or a raise when there is no span |
| Description.NoContainerRaises | parsing/lex_podcast.py:50-59 | a page without the content container makes the function raise |
| AudioLocator.CheckUrlResponse | parsing/lex_podcast.py:208-212 | the result is the URL itself exactly when the status is 200, None otherwise |
| AudioLocator.ThumbnailName | parsing/lex_podcast.py:247-250 | a captured name has no newline, and the thumbnail is the prefix, the name and `.png`, optionally followed by one newline |
| AudioLocator.ThumbnailRoundTrip | parsing/lex_podcast.py:247-250 | the capture of prefix + name + `.png` (with or without a final newline) is exactly the name |
| AudioLocator.ThumbnailNoneIff | parsing/lex_podcast.py:247-249 | the pattern fails exactly on strings of no such shape |
| AudioLocator.GetAudioName | parsing/lex_podcast.py:247-263 | the result is the scraped link or a URL the probe reports live |
| AudioLocator.FirstLive | parsing/lex_podcast.py:251-263 | the first live candidate with all earlier ones dead, or the fallback when none is live |
| AudioLocator.AudioNameIsFirstLive | parsing/lex_podcast.py:247-263 | `get_audio_name` is the first live candidate of `[lex_ai_, mit_ai_]`, then the scraped link |
| AudioLocator.LexPreferred | parsing/lex_podcast.py:249-255 | a live `lex_ai_<name>.mp3` is returned |
| AudioLocator.MitSecond | parsing/lex_podcast.py:256-260 | otherwise a live `mit_ai_<name>.mp3` is returned |
| AudioLocator.ScrapedWhenNoGuessLive | parsing/lex_podcast.py:254-263 | when neither guess is live the scraped link is returned |
| AudioLocator.ScrapedWhenNoMatch | parsing/lex_podcast.py:248-263 | a non-matching thumbnail yields no candidates and goes straight to the scraped link |
| Collector.SuccessesMembers | parsing/lex_podcast.py:290-323 | a record is collected exactly when some entry produced it |
| Collector.RepeatIgnored | parsing/lex_podcast.py:314-319 | an entry repeating an earlier entry's record adds nothing: dropping it leaves the set unchanged |
| Collector.GetData | parsing/lex_podcast.py:289-323 | the loop as written raises exactly when the first entry fails before its title is read; otherwise it returns exactly the records the entries produced, and the duplicate abort never fires |
| Collector.CollectEpisodes | parsing/lex_podcast.py:289-323 | the loop as intended returns exactly the records the entries produced and never raises |
| Collector.FirstFailureLosesBatch | parsing/lex_podcast.py:320-322 | on a batch whose first entry fails before its title, the loop as written raises while the intended one returns the other entries' records |

## Left out

- Timestamp.Convert: accepts only zero-padded fixed-width fields. `strptime` also
  accepts one-digit month, day, hour, minute and second fields, a space-padded day and
  non-ASCII decimal digits, and a space in the format matches any run of whitespace.
  Those inputs convert in Python but give the sentinel here.
- Timestamp.Convert: input that is not a string (`strptime` raises TypeError, which
  the handler does not catch) is not modelled.
- YoutubeId.IsWordChar: `\w` is ASCII letters, digits and `_`. Python's `\w` on
  `str` also matches other Unicode letters and digits.
- YoutubeId.GetYoutubeId: input that is not a string (`re.search` raises
  TypeError) is not modelled.
- AudioLocator.CheckUrlResponse: the probe is a total function of the URL. An exception
  from `requests.get` (connection error, timeout) is not modelled, and the
  same URL is assumed to answer the same status every time.
- AudioLocator.GetAudioName: the scraped link is an input. `get_audio_file_url` is
  not part of this model. Its own handler reads an unbound `response` at
  parsing/lex_podcast.py:225 when the fetch raises.
- Description.GetDescription: the page fetch, the HTML parsing and the
  `.text` extraction are inputs. Fetch errors are not modelled.
- Collector.GetData: the index-page fetch and the per-entry assembly are an oracle.
  The assembly as written always raises after the title is read. `API_KEY` is never
  defined (line 302), and `get_date_time` returns one value where two are unpacked.
  The oracle also covers the inputs on which it does not raise.
- The record's `duration` field is a `real`. The rounding and MP3 decoding of
  `get_duration` are not modelled.
- `get_duration`, `get_date_time` and `save_list_to_csv` are left out: MP3
  decoding, a Google API client and file I/O.
- `transcribe/main.py` is left out: a speech-recognition model and file I/O.
- Logging calls and the `print` in the handler have no effect on results and are omitted.

## Findings

| source | as written | input that shows it | evidently intended | confidence | as-written member | corrected member |
|---|---|---|---|---|---|---|
| parsing/lex_podcast.py:320-322 | the handler prints the local `title`, which is unbound when the first entry raises before line 295 assigns it, so the handler itself raises UnboundLocalError and `get_data` fails as a whole | a listing whose first entry has fewer than two links under `div.vid-materials` (the unpacking at lines 292-294 raises ValueError); likewise a first link without `href` (KeyError) or a first entry without `.vid-title a` (AttributeError at line 295) | log the failure, skip the entry and go on with the batch | not executed | Collector.GetData | Collector.CollectEpisodes |
