/**
 * Batch collector: the accumulation loop of `get_data` in
 * parsing/lex_podcast.py.
 *
 * The index-page fetch and the per-entry assembly (link unpacking, field
 * queries, resolver calls, record building) are an oracle, `assemble`,
 * that says how one listing entry ends: with a nine-field record, or with
 * an exception raised before or after the entry's title was read.  The
 * loop adds every record to a set, skips entries that raised, and resets
 * `duplicate_score` for each entry, so the early return meant to stop the
 * batch on a duplicate can never run.
 *
 * The exception handler prints the local `title`.  When the very first
 * entry raises before its title was read, `title` is still unbound, the
 * handler itself raises, and `get_data` fails as a whole.  `GetData` models
 * the loop as written, that failure included; `CollectEpisodes` is the loop
 * as evidently intended, which never fails.
 */
module Collector {
  import opened Wrappers
  import Timestamp

  /** One row of the output: the nine fields of the tuple built at
      parsing/lex_podcast.py:303-313. */
  datatype Record = Record(
    title: string,
    guest: string,
    description: Option<string>,
    duration: real,
    youtubeUrl: string,
    audioUrl: Option<string>,
    thumbnailUrl: string,
    date: Option<Timestamp.Date>,
    time: Option<Timestamp.Time>)

  /** How the body of the `try` ends for one entry. */
  datatype Attempt =
    | Assembled(record: Record)
    | FailedBeforeTitle           // raised at lines 292-295, `title` not assigned
    | FailedAfterTitle(title: string)  // raised at lines 296-302, `title` assigned

  /** What `get_data` does: return the set, or raise. */
  datatype Outcome = Returned(episodes: set<Record>) | Raised

  /** The title the entry binds to the local `title`, if it gets that far. */
  function TitleRead(a: Attempt): Option<string>
  {
    match a
    case Assembled(r) => Some(r.title)
    case FailedBeforeTitle => None
    case FailedAfterTitle(t) => Some(t)
  }

  /** The records of the entries that did not raise. */
  function Successes<E>(entries: seq<E>, assemble: E -> Attempt): set<Record>
  {
    if entries == [] then {}
    else
      var last := assemble(entries[|entries| - 1]);
      Successes(entries[..|entries| - 1], assemble)
        + (if last.Assembled? then {last.record} else {})
  }

  /** Some entry produced the record `r`. */
  ghost predicate Produced<E>(entries: seq<E>, assemble: E -> Attempt, r: Record)
  {
    exists i :: 0 <= i < |entries| && assemble(entries[i]) == Assembled(r)
  }

  /** A record is collected exactly when some entry produced it. */
  lemma {:induction false} SuccessesMembers<E>(entries: seq<E>, assemble: E -> Attempt, r: Record)
    ensures r in Successes(entries, assemble) <==> Produced(entries, assemble, r)
  {
    if entries != [] {
      var init := entries[..|entries| - 1];
      SuccessesMembers(init, assemble, r);
      forall i | 0 <= i < |init| ensures init[i] == entries[i] { }
    }
  }

  /** Dropping entry `k` loses no record when entry `j` produced the same one. */
  lemma RepeatKept<E>(entries: seq<E>, assemble: E -> Attempt, j: nat, k: nat, r: Record)
    requires j < k < |entries| && assemble(entries[j]) == assemble(entries[k])
    requires Produced(entries, assemble, r)
    ensures Produced(entries[..k] + entries[k + 1..], assemble, r)
  {
    var rest := entries[..k] + entries[k + 1..];
    var i :| 0 <= i < |entries| && assemble(entries[i]) == Assembled(r);
    if i < k {
      assert rest[i] == entries[i];
    } else if i == k {
      assert rest[j] == entries[j];
    } else {
      assert rest[i - 1] == entries[i];
    }
  }

  /** Dropping an entry adds no record. */
  lemma DropAddsNothing<E>(entries: seq<E>, assemble: E -> Attempt, k: nat, r: Record)
    requires k < |entries|
    requires Produced(entries[..k] + entries[k + 1..], assemble, r)
    ensures Produced(entries, assemble, r)
  {
    var rest := entries[..k] + entries[k + 1..];
    var i :| 0 <= i < |rest| && assemble(rest[i]) == Assembled(r);
    if i < k {
      assert rest[i] == entries[i];
    } else {
      assert rest[i] == entries[i + 1];
    }
  }

  /** An entry that repeats a record an earlier entry already produced adds
      nothing: dropping it leaves the collected set unchanged. */
  lemma RepeatIgnored<E>(entries: seq<E>, assemble: E -> Attempt, j: nat, k: nat)
    requires j < k < |entries|
    requires assemble(entries[k]).Assembled? && assemble(entries[j]) == assemble(entries[k])
    ensures Successes(entries, assemble) == Successes(entries[..k] + entries[k + 1..], assemble)
  {
    var rest := entries[..k] + entries[k + 1..];
    forall r ensures r in Successes(entries, assemble) <==> r in Successes(rest, assemble) {
      SuccessesMembers(entries, assemble, r);
      SuccessesMembers(rest, assemble, r);
      if Produced(entries, assemble, r) {
        RepeatKept(entries, assemble, j, k, r);
      }
      if Produced(rest, assemble, r) {
        DropAddsNothing(entries, assemble, k, r);
      }
    }
  }

  /** `get_data` as written, from the listing entries on. */
  method GetData<E>(entries: seq<E>, assemble: E -> Attempt) returns (outcome: Outcome)
    ensures outcome.Raised? <==> |entries| > 0 && assemble(entries[0]).FailedBeforeTitle?
    ensures outcome.Returned? ==> outcome.episodes == Successes(entries, assemble)
  {
    var episodes: set<Record> := {};
    var title: Option<string> := None;
    var i := 0;
    while i < |entries|
      invariant 0 <= i <= |entries|
      invariant title.Some? <==> i > 0
      invariant i > 0 ==> !assemble(entries[0]).FailedBeforeTitle?
      invariant episodes == Successes(entries[..i], assemble)
    {
      var attempt := assemble(entries[i]);
      if TitleRead(attempt).Some? {
        title := TitleRead(attempt);
      }
      match attempt {
        case Assembled(record) =>
          var duplicateScore: real := 0.0;
          if record in episodes {
            duplicateScore := duplicateScore + 0.5;
            if duplicateScore == 1.0 {
              // lines 317-318 return the set here; the reset above makes
              // the score 0.5 at most, so this branch is never taken
              assert false;
            }
          }
          episodes := episodes + {record};
        case _ =>
          if title.None? {
            // `print(e, title)` with `title` unbound raises UnboundLocalError
            return Raised;
          }
      }
      assert entries[..i + 1][..i] == entries[..i];
      i := i + 1;
    }
    assert entries[..i] == entries;
    return Returned(episodes);
  }

  /** The loop as evidently intended: every entry is processed, failed ones
      are skipped, and the result is exactly the set of records produced. */
  method CollectEpisodes<E>(entries: seq<E>, assemble: E -> Attempt) returns (episodes: set<Record>)
    ensures forall r :: r in episodes <==> Produced(entries, assemble, r)
  {
    episodes := {};
    var i := 0;
    while i < |entries|
      invariant 0 <= i <= |entries|
      invariant episodes == Successes(entries[..i], assemble)
    {
      match assemble(entries[i]) {
        case Assembled(record) =>
          episodes := episodes + {record};
        case _ =>
      }
      assert entries[..i + 1][..i] == entries[..i];
      i := i + 1;
    }
    assert entries[..i] == entries;
    forall r ensures r in episodes <==> Produced(entries, assemble, r) {
      SuccessesMembers(entries, assemble, r);
    }
  }

  /** The two loops side by side on a batch whose first entry fails before
      its title is read: the loop as written loses the whole batch, the
      intended one returns what the other entries produced. */
  method FirstFailureLosesBatch<E>(first: E, rest: seq<E>, assemble: E -> Attempt)
    returns (written: Outcome, intended: set<Record>)
    requires assemble(first).FailedBeforeTitle?
    ensures written == Raised
    ensures intended == Successes(rest, assemble)
  {
    var entries := [first] + rest;
    written := GetData(entries, assemble);
    intended := CollectEpisodes(entries, assemble);
    forall r ensures r in intended <==> r in Successes(rest, assemble) {
      SuccessesMembers(rest, assemble, r);
      if Produced(entries, assemble, r) {
        var i :| 0 <= i < |entries| && assemble(entries[i]) == Assembled(r);
        assert i > 0 && entries[i] == rest[i - 1];
      }
      if Produced(rest, assemble, r) {
        var i :| 0 <= i < |rest| && assemble(rest[i]) == Assembled(r);
        assert entries[i + 1] == rest[i];
      }
    }
  }
}
