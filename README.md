# ephemeral: the tweet-retention rule and the deletion loop

ephemeral deletes a user's old tweets. It fetches the most recent part of the
user's timeline and walks it in order. A tweet created strictly before a fixed
date, the *twepoch*, is skipped. A tweet whose age strictly exceeds
`MAX_TWEET_AGE` is deleted, unless the `--test` dry-run flag is set. Every
other tweet is kept. A failed delete request is only logged.

This project models that loop, `deleteFromTimeline`, in the single module
`Ephemeral` (`ephemeral.dfy`):

- Instants and durations are integers counting nanoseconds. The age of a tweet
  is `time.Since`, which saturates at the bounds of Go's 64-bit `Duration`
  (`Age`). The age limit has the type `Duration`, an integer in the signed
  64-bit range, as every value `time.ParseDuration` returns is.
- "now" is a parameter. The timeline is the already fetched list of tweets.
- A tweet whose creation time does not parse has `createdAt == None`. A
  twepoch date that does not parse is `epoch == None`.
- The Twitter delete endpoint is an oracle `deleteOk: nat -> bool`: the answer
  to the k-th delete request issued in the run.
- The observable result of a run is an `Outcome`. It holds the decision taken
  for each fully processed tweet, the delete requests issued in order (each
  with the tweet's Id and the API's answer), and how the run ended: `Completed`,
  or `Aborted(i, fault)` at tweet i.
- The three fatal exits are these faults. `BadCreatedTime` is an unparsable
  creation time. `BadEpoch` is an unparsable twepoch. `ShortText` is the
  runtime panic of `t.Text[:45]` on a kept tweet whose text is shorter than 45
  bytes.
- `Judge` is one iteration of the loop. `Trace`/`Run` is the reference
  definition of the whole loop. The method `DeleteFromTimeline` is the loop
  itself, proved equal to `Run`.

Four points about the code a reader might not expect:

- The twepoch is parsed inside the loop, once per tweet, after the tweet's
  creation time. So an unparsable twepoch never stops an empty timeline. On a
  non-empty timeline it stops the run at the first tweet, unless that tweet's
  creation time fails first.
- A kept tweet with fewer than 45 bytes of text aborts the run. The text is not
  clamped. The limit counts bytes, not characters.
- An unparsable `MAX_TWEET_AGE` silently becomes a zero age limit.
- The header comment of main.go gives the twepoch format as YYYY-DD-MM (main.go:12). The parse layout `"2006-01-02"` at main.go:74 expects YYYY-MM-DD. The model takes the parsed instant as an input, so this difference does not show up in it.

## Model

| member | source | states |
|---|---|---|
| `Ephemeral.Age` | main.go:87 | definition of `time.Since`: now minus the creation time, saturated to the 64-bit Duration range; what the age test gets from it is proved by `AgeExceeds` |
| `Ephemeral.AgeExceeds` | main.go:87 | under any age limit below the largest Duration, the saturated age exceeds the limit exactly when now minus the creation time does; no age exceeds the largest Duration |
| `Ephemeral.AgeLimit` | main.go:129 | definition: a duration that does not parse becomes the zero Duration; its consequence is proved by `UnparsableAgeLimitDeletesAged` |
| `Ephemeral.Classify` | main.go:79-99 | definition of the skip/delete/keep rule; its promises are proved by `ClassifyByAge` |
| `Ephemeral.ClassifyByAge` | main.go:79-99 | a tweet is skipped exactly when created strictly before the twepoch, whatever the limit; at or after the twepoch it is deleted exactly when now minus its creation time strictly exceeds the limit, and kept otherwise; a limit equal to the largest Duration deletes nothing |
| `Ephemeral.Judge` | main.go:68-99 | definition of one iteration and the order of its fatal exits; what a run gets from it is proved by `RunClassifiesInOrder` |
| `Ephemeral.Issued` | main.go:88-93 | definition: one delete request for a Delete outside a dry run, none otherwise; proved of whole runs by `RunCallsAreStaleTweets`, `CallsAreForDeletePositions` and `DryRunDeletesNothing` |
| `Ephemeral.Step` | main.go:67-101 | definition of one iteration applied to the outcome so far; the loop is proved equal to it by `DeleteFromTimeline` |
| `Ephemeral.Trace` | main.go:67-101 | definition of the loop over a prefix of the timeline; its properties are proved by `AbortSticks`, `DryRunDeletesNothing` and `FailedDeleteDoesNotStop` |
| `Ephemeral.Run` | main.go:67-101 | definition of the loop over the whole timeline; the method `DeleteFromTimeline` returns exactly it |
| `Ephemeral.DeletePositions` | main.go:87-89 | the positions classified Delete, in strictly increasing order, are exactly the processed positions whose decision is Delete |
| `Ephemeral.DeleteFromTimeline` | main.go:60-104 | the loop returns exactly the reference outcome `Run` of the timeline: the same decisions, the same delete requests in the same order, and the same end |
| `Ephemeral.AbortSticks` | main.go:68-77 | once a fatal exit has stopped the loop, later tweets add no decision and no delete request |
| `Ephemeral.RunClassifiesInOrder` | main.go:67-101 | each processed tweet gets its own skip/delete/keep verdict; a completed run processed every tweet; a run aborted at i processed exactly the tweets before i and stopped on tweet i's own fault |
| `Ephemeral.RunCallsAreStaleTweets` | main.go:67-101 | outside a dry run, the k-th delete request carries the Id of the k-th processed tweet that classifies as Delete, so the requests follow timeline order and go to those tweets only |
| `Ephemeral.CallsAreForDeletePositions` | main.go:87-93 | in every run, dry or not, the k-th delete request carries the Id of the k-th processed tweet that classified as Delete |
| `Ephemeral.PreEpochNeverDeleted` | main.go:79-85 | a tweet created strictly before the twepoch is skipped and is never a Delete position, whatever the age limit; when Ids are unique, no delete request carries its Id |
| `Ephemeral.EpochInstantNotSkipped` | main.go:79 | a tweet created exactly at the twepoch is not skipped; it is deleted or kept by the age test alone |
| `Ephemeral.StaleTweetDeletedOnce` | main.go:87-89 | outside a dry run, a processed tweet at or after the twepoch whose age strictly exceeds the limit gets exactly one delete request, with its Id |
| `Ephemeral.FreshTweetNeverDeleted` | main.go:87-99 | a tweet whose age is at most the limit is never a Delete decision or position; when Ids are unique, no delete request carries its Id |
| `Ephemeral.DryRunDeletesNothing` | main.go:88-94 | a dry run issues no delete request, yet takes the same decisions and ends the same way as a real run |
| `Ephemeral.FailedDeleteDoesNotStop` | main.go:89-93 | whatever the API answers, the run processes the same tweets with the same decisions, issues requests for the same Ids, and ends the same way |
| `Ephemeral.UnparsableAgeLimitDeletesAged` | main.go:129 | when MAX_TWEET_AGE does not parse, every tweet at or after the twepoch created before "now" classifies as Delete; outside a dry run, once the loop reaches it, a delete request carries its Id |
| `Ephemeral.BadEpochStopsAtFirstTweet` | main.go:73-77 | an unparsable twepoch lets an empty timeline complete, and otherwise stops the run at the first tweet before any delete request |

## Left out

- Fetching the timeline (`getTimeline`, main.go:49-58) and its fatal error (main.go:61-65) are not modelled: the timeline is an input. Fetching is a network call into the Twitter client library.
- The Twitter client setup and credentials (main.go:124-127) are not modelled. The delete request's extra `trimUser` argument and the tweet it returns are not modelled either. Client calls are reduced to the success-or-failure oracle.
- Loading environment variables and exiting when one is missing (main.go:29-47) is left out. This is process plumbing.
- Flag parsing and log-level setup (main.go:108-120) are left out. `testRun` and the age limit are inputs.
- The date and duration parsers (`time.Parse`, `CreatedAtTime`, `time.ParseDuration`) are library code. Their results are inputs: an integer instant, or None on failure.
- The wall clock is left out: "now" is one parameter for the whole run. Go calls `time.Since` afresh for every tweet (main.go:87) and once more for the logged age (main.go:94). The model judges the whole timeline at a single instant, as if the loop took no time.
- Log messages and their fields (main.go:80-83, 91, 94, 96-99, 102) are left out, with one exception: the 45-byte slice on a kept tweet, because it can abort the run.
