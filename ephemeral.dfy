/** The retention rule and the deletion loop of ephemeral, a program that
    deletes a user's old tweets but never those posted before a fixed date
    (the "twepoch").

    Instants and durations are integers counting nanoseconds, as Go's
    time.Duration does. The timeline is the already fetched list of tweets,
    "now" is a parameter, and the Twitter delete endpoint is an oracle that
    answers each delete request with success or failure. */
module Ephemeral {

  newtype byte = b: int | 0 <= b < 256

  datatype Option<T> = None | Some(value: T)

  datatype Result<T, E> = Ok(value: T) | Fail(error: E)

  /** A tweet of the timeline. `createdAt` is None when the tweet's creation
      time does not parse. `text` is the tweet's UTF-8 text, byte by byte,
      since Go slices strings by byte. */
  datatype Tweet = Tweet(id: int, text: seq<byte>, createdAt: Option<int>)

  /** The run's settings: the parsed twepoch (None when the configured date
      does not parse), the age limit, and the dry-run flag `--test`. */
  datatype Config = Config(epoch: Option<int>, ageLimit: Duration, testRun: bool)

  /** What the loop does with one tweet. */
  datatype Decision = Skip | Delete | Keep

  /** The fatal exits that end the loop partway. */
  datatype Fault =
    | BadCreatedTime   // log.Fatal: the tweet's creation time does not parse
    | BadEpoch         // log.Fatal: the twepoch date does not parse
    | ShortText        // runtime panic: t.Text[:45] on a shorter text

  datatype End = Completed | Aborted(at: nat, fault: Fault)

  /** One delete request issued to the API: the tweet's Id and whether the
      API reported success. */
  datatype Call = Call(id: int, ok: bool)

  /** The observable result of one run: the decision taken for each tweet
      that was fully processed, the delete requests in the order they were
      issued, and how the run ended. */
  datatype Outcome = Outcome(decisions: seq<Decision>, calls: seq<Call>, end: End)

  /** The number of bytes of a kept tweet's text that are logged. */
  const KeepLogBytes: nat := 45

  const MinDuration: int := -0x8000_0000_0000_0000
  const MaxDuration: int := 0x7FFF_FFFF_FFFF_FFFF

  /** Go's time.Duration: a signed 64-bit count of nanoseconds. */
  type Duration = d: int | MinDuration <= d <= MaxDuration

  /** time.Since(created) read at `now`: Go's Time.Sub saturates at the
      bounds of the 64-bit Duration. */
  function Age(now: int, created: int): int {
    var x := now - created;
    if x < MinDuration then MinDuration else if x > MaxDuration then MaxDuration else x
  }

  /** Saturation does not change the age test: under any age limit below
      the largest Duration, the saturated age exceeds the limit exactly when
      the true difference does; and no age exceeds the largest Duration. */
  lemma AgeExceeds(now: int, created: int, limit: Duration)
    ensures limit < MaxDuration ==> (Age(now, created) > limit <==> now - created > limit)
    ensures limit == MaxDuration ==> !(Age(now, created) > limit)
  {
  }

  /** `h, _ := time.ParseDuration(maxTweetAge)`: the parse error is dropped,
      and ParseDuration returns the zero Duration along with an error. */
  function AgeLimit(parsed: Option<Duration>): Duration {
    match parsed
    case Some(d) => d
    case None => 0
  }

  /** The retention rule: skip tweets strictly before the twepoch, delete
      those whose age strictly exceeds the limit, keep the rest. */
  function Classify(epoch: int, ageLimit: Duration, now: int, created: int): Decision {
    if created < epoch then Skip
    else if Age(now, created) > ageLimit then Delete
    else Keep
  }

  /** The retention rule in terms of the true age now - created: pre-epoch
      tweets are skipped whatever the limit; at or after the twepoch a tweet
      is deleted exactly when its age strictly exceeds the limit, and kept
      otherwise. A limit equal to the largest Duration deletes nothing. */
  lemma ClassifyByAge(epoch: int, limit: Duration, now: int, created: int)
    ensures Classify(epoch, limit, now, created) == Skip <==> created < epoch
    ensures limit < MaxDuration ==>
      (Classify(epoch, limit, now, created) == Delete <==> epoch <= created && now - created > limit)
    ensures limit < MaxDuration ==>
      (Classify(epoch, limit, now, created) == Keep <==> epoch <= created && now - created <= limit)
    ensures limit == MaxDuration ==> Classify(epoch, limit, now, created) != Delete
  {
  }

  /** One iteration of the loop, in the order the source performs its
      checks: parse the creation time, parse the twepoch, classify, and for
      a kept tweet slice the first 45 bytes of its text for the log. */
  function Judge(t: Tweet, cfg: Config, now: int): Result<Decision, Fault> {
    if t.createdAt.None? then Fail(BadCreatedTime)
    else if cfg.epoch.None? then Fail(BadEpoch)
    else
      var d := Classify(cfg.epoch.value, cfg.ageLimit, now, t.createdAt.value);
      if d == Keep && |t.text| < KeepLogBytes then Fail(ShortText) else Ok(d)
  }

  /** The delete requests issued for one classified tweet: one for a Delete
      outside a dry run, none otherwise. `k` is the number of requests
      issued before it, and `deleteOk(k)` is the API's answer. */
  function Issued(t: Tweet, d: Decision, cfg: Config, deleteOk: nat -> bool, k: nat): seq<Call> {
    if d == Delete && !cfg.testRun then [Call(t.id, deleteOk(k))] else []
  }

  /** One iteration of the loop, on tweet t at position i, applied to the
      outcome so far: nothing happens once the loop has stopped. */
  function Step(prev: Outcome, t: Tweet, i: nat, cfg: Config, now: int, deleteOk: nat -> bool): Outcome {
    if prev.end.Aborted? then prev
    else match Judge(t, cfg, now)
      case Fail(f) => Outcome(prev.decisions, prev.calls, Aborted(i, f))
      case Ok(d) => Outcome(prev.decisions + [d], prev.calls + Issued(t, d, cfg, deleteOk, |prev.calls|), Completed)
  }

  /** The outcome of running the loop over the first n tweets. */
  function Trace(ts: seq<Tweet>, cfg: Config, now: int, deleteOk: nat -> bool, n: nat): Outcome
    requires n <= |ts|
    decreases n
  {
    if n == 0 then Outcome([], [], Completed)
    else Step(Trace(ts, cfg, now, deleteOk, n - 1), ts[n - 1], n - 1, cfg, now, deleteOk)
  }

  /** The outcome of running the loop over a whole timeline. */
  function Run(ts: seq<Tweet>, cfg: Config, now: int, deleteOk: nat -> bool): Outcome {
    Trace(ts, cfg, now, deleteOk, |ts|)
  }

  /** The positions of the Delete decisions, in increasing order: the
      subsequence of the timeline that classifies as Delete. */
  function DeletePositions(ds: seq<Decision>): (ps: seq<nat>)
    ensures forall k :: 0 <= k < |ps| ==> ps[k] < |ds| && ds[ps[k]] == Delete
    ensures forall j :: 0 <= j < |ds| && ds[j] == Delete ==> j in ps
    ensures forall k, l :: 0 <= k < l < |ps| ==> ps[k] < ps[l]
  {
    if ds == [] then []
    else
      var ps := DeletePositions(ds[..|ds| - 1]);
      if ds[|ds| - 1] == Delete then ps + [|ds| - 1] else ps
  }

  /** deleteFromTimeline: walk the timeline in order and, for each tweet,
      skip it, delete it or keep it; stop at the first fatal exit. A failed
      delete request is only logged. */
  method DeleteFromTimeline(timeline: seq<Tweet>, cfg: Config, now: int, deleteOk: nat -> bool)
    returns (out: Outcome)
    ensures out == Run(timeline, cfg, now, deleteOk)
  {
    var decisions: seq<Decision> := [];
    var calls: seq<Call> := [];
    for i := 0 to |timeline|
      invariant Trace(timeline, cfg, now, deleteOk, i) == Outcome(decisions, calls, Completed)
    {
      var t := timeline[i];
      if t.createdAt.None? {
        out := Outcome(decisions, calls, Aborted(i, BadCreatedTime));
        AbortSticks(timeline, cfg, now, deleteOk, i + 1, |timeline|);
        return;
      }
      var created := t.createdAt.value;
      if cfg.epoch.None? {
        out := Outcome(decisions, calls, Aborted(i, BadEpoch));
        AbortSticks(timeline, cfg, now, deleteOk, i + 1, |timeline|);
        return;
      }
      var epoch := cfg.epoch.value;
      if created < epoch {
        decisions := decisions + [Skip];
        continue;
      }
      var age := now - created;
      if age < MinDuration {
        age := MinDuration;
      } else if age > MaxDuration {
        age := MaxDuration;
      }
      if age > cfg.ageLimit {
        if !cfg.testRun {
          var ok := deleteOk(|calls|);
          // a failed delete is logged as a warning and the loop goes on
          calls := calls + [Call(t.id, ok)];
        }
        decisions := decisions + [Delete];
      } else {
        if |t.text| < KeepLogBytes {
          out := Outcome(decisions, calls, Aborted(i, ShortText));
          AbortSticks(timeline, cfg, now, deleteOk, i + 1, |timeline|);
          return;
        }
        decisions := decisions + [Keep];
      }
    }
    out := Outcome(decisions, calls, Completed);
  }

  /** Once the loop has stopped, later tweets change nothing. */
  lemma {:induction false} AbortSticks(ts: seq<Tweet>, cfg: Config, now: int, deleteOk: nat -> bool, i: nat, n: nat)
    requires i <= n <= |ts|
    requires Trace(ts, cfg, now, deleteOk, i).end.Aborted?
    ensures Trace(ts, cfg, now, deleteOk, n) == Trace(ts, cfg, now, deleteOk, i)
    decreases n
  {
    if n > i {
      AbortSticks(ts, cfg, now, deleteOk, i, n - 1);
    }
  }

  /** Over a prefix: every processed tweet's decision is its own Judge
      verdict, and the loop stops exactly at the first tweet whose verdict
      is a fault. */
  lemma {:induction false} TraceDecisions(ts: seq<Tweet>, cfg: Config, now: int, deleteOk: nat -> bool, n: nat)
    requires n <= |ts|
    ensures var o := Trace(ts, cfg, now, deleteOk, n);
      && |o.decisions| <= n
      && (forall j :: 0 <= j < |o.decisions| ==> Judge(ts[j], cfg, now) == Ok(o.decisions[j]))
      && (o.end.Completed? ==> |o.decisions| == n)
      && (o.end.Aborted? ==> |o.decisions| == o.end.at < n && Judge(ts[o.end.at], cfg, now) == Fail(o.end.fault))
    decreases n
  {
    if n > 0 {
      TraceDecisions(ts, cfg, now, deleteOk, n - 1);
    }
  }

  /** The k-th delete request is for the k-th tweet of `ts` whose decision
      in `ds` is Delete, and carries the API's k-th answer. */
  ghost predicate CallsMatch(ts: seq<Tweet>, ds: seq<Decision>, calls: seq<Call>, deleteOk: nat -> bool)
    requires |ds| <= |ts|
  {
    var ps := DeletePositions(ds);
    |calls| == |ps| &&
    forall k :: 0 <= k < |ps| ==> calls[k] == Call(ts[ps[k]].id, deleteOk(k))
  }

  /** One iteration keeps the calls matched to the Delete decisions. */
  lemma StepCalls(ts: seq<Tweet>, prev: Outcome, i: nat, cfg: Config, now: int, deleteOk: nat -> bool)
    requires !cfg.testRun
    requires i < |ts| && |prev.decisions| <= i
    requires prev.end.Completed? ==> |prev.decisions| == i
    requires CallsMatch(ts, prev.decisions, prev.calls, deleteOk)
    ensures var o := Step(prev, ts[i], i, cfg, now, deleteOk);
      |o.decisions| <= i + 1 && CallsMatch(ts, o.decisions, o.calls, deleteOk)
  {
  }

  /** Over a prefix, outside a dry run: the calls issued match the Delete
      decisions taken. */
  lemma {:induction false} TraceCalls(ts: seq<Tweet>, cfg: Config, now: int, deleteOk: nat -> bool, n: nat)
    requires !cfg.testRun
    requires n <= |ts|
    ensures |Trace(ts, cfg, now, deleteOk, n).decisions| <= n
    ensures var o := Trace(ts, cfg, now, deleteOk, n);
      CallsMatch(ts, o.decisions, o.calls, deleteOk)
    decreases n
  {
    TraceDecisions(ts, cfg, now, deleteOk, n);
    if n > 0 {
      TraceCalls(ts, cfg, now, deleteOk, n - 1);
      TraceDecisions(ts, cfg, now, deleteOk, n - 1);
      StepCalls(ts, Trace(ts, cfg, now, deleteOk, n - 1), n - 1, cfg, now, deleteOk);
    }
  }

  /** The loop classifies the timeline in order: each processed tweet gets
      its own verdict, a completed run processed every tweet, and a run
      aborted at i processed exactly the tweets before i, whose verdicts
      were all decisions, and stopped on tweet i's fault. */
  lemma RunClassifiesInOrder(ts: seq<Tweet>, cfg: Config, now: int, deleteOk: nat -> bool)
    ensures var o := Run(ts, cfg, now, deleteOk);
      && |o.decisions| <= |ts|
      && (forall j :: 0 <= j < |o.decisions| ==> Judge(ts[j], cfg, now) == Ok(o.decisions[j]))
      && (o.end.Completed? <==> |o.decisions| == |ts|)
      && (o.end.Aborted? ==> o.end.at == |o.decisions| < |ts| && Judge(ts[o.end.at], cfg, now) == Fail(o.end.fault))
  {
    TraceDecisions(ts, cfg, now, deleteOk, |ts|);
  }

  /** The delete requests are issued in timeline order, exactly one for each
      processed tweet that classifies as Delete and for no other, each with
      that tweet's Id; outside a dry run. */
  lemma RunCallsAreStaleTweets(ts: seq<Tweet>, cfg: Config, now: int, deleteOk: nat -> bool)
    requires !cfg.testRun
    ensures var o := Run(ts, cfg, now, deleteOk);
      var ps := DeletePositions(o.decisions);
      && |o.calls| == |ps|
      && (forall k :: 0 <= k < |ps| ==> ps[k] < |ts| && o.calls[k].id == ts[ps[k]].id)
      && (forall k, l :: 0 <= k < l < |ps| ==> ps[k] < ps[l])
      && (forall j :: 0 <= j < |o.decisions| ==> (o.decisions[j] == Delete <==> j in ps))
  {
    TraceCalls(ts, cfg, now, deleteOk, |ts|);
  }

  /** Every delete request of a run, dry or not, is for a processed tweet
      that classified as Delete: the k-th request carries the Id of the k-th
      such tweet. */
  lemma CallsAreForDeletePositions(ts: seq<Tweet>, cfg: Config, now: int, deleteOk: nat -> bool)
    ensures var o := Run(ts, cfg, now, deleteOk);
      var ps := DeletePositions(o.decisions);
      && |o.decisions| <= |ts|
      && forall k :: 0 <= k < |o.calls| ==> k < |ps| && ps[k] < |ts| && o.calls[k].id == ts[ps[k]].id
  {
    TraceDecisions(ts, cfg, now, deleteOk, |ts|);
    if cfg.testRun {
      DryRunDeletesNothing(ts, cfg, now, deleteOk, |ts|);
      assert cfg.(testRun := true) == cfg;
    } else {
      TraceCalls(ts, cfg, now, deleteOk, |ts|);
    }
  }

  /** Tweet Ids are unique within a timeline. */
  ghost predicate UniqueIds(ts: seq<Tweet>) {
    forall a, b :: 0 <= a < b < |ts| ==> ts[a].id != ts[b].id
  }

  /** With unique Ids, a tweet that is not a Delete position gets no delete
      request. */
  lemma NoCallOutsideDeletePositions(ts: seq<Tweet>, cfg: Config, now: int, deleteOk: nat -> bool, j: nat)
    requires j < |ts|
    ensures var o := Run(ts, cfg, now, deleteOk);
      UniqueIds(ts) && j !in DeletePositions(o.decisions) ==>
        forall k :: 0 <= k < |o.calls| ==> o.calls[k].id != ts[j].id
  {
    CallsAreForDeletePositions(ts, cfg, now, deleteOk);
    var o := Run(ts, cfg, now, deleteOk);
    var ps := DeletePositions(o.decisions);
    if UniqueIds(ts) && j !in ps {
      forall k | 0 <= k < |o.calls| ensures o.calls[k].id != ts[j].id {
        assert k < |ps| && ps[k] < |ts| && o.calls[k].id == ts[ps[k]].id;
        assert ps[k] != j;
        assert ts[ps[k]].id != ts[j].id;
      }
    }
  }

  /** A tweet created strictly before the twepoch is skipped and no delete
      request is ever issued for it, whatever the age limit and "now". */
  lemma PreEpochNeverDeleted(ts: seq<Tweet>, cfg: Config, now: int, deleteOk: nat -> bool, j: nat)
    requires j < |ts| && ts[j].createdAt.Some? && cfg.epoch.Some?
    requires ts[j].createdAt.value < cfg.epoch.value
    ensures var o := Run(ts, cfg, now, deleteOk);
      && (j < |o.decisions| ==> o.decisions[j] == Skip)
      && j !in DeletePositions(o.decisions)
    ensures var o := Run(ts, cfg, now, deleteOk);
      UniqueIds(ts) ==> forall k :: 0 <= k < |o.calls| ==> o.calls[k].id != ts[j].id
  {
    TraceDecisions(ts, cfg, now, deleteOk, |ts|);
    NoCallOutsideDeletePositions(ts, cfg, now, deleteOk, j);
  }

  /** `Before` is strict: a tweet created exactly at the twepoch instant is
      not skipped but goes on to the age test. */
  lemma EpochInstantNotSkipped(ts: seq<Tweet>, cfg: Config, now: int, deleteOk: nat -> bool, j: nat)
    requires j < |ts| && ts[j].createdAt.Some? && cfg.epoch.Some?
    requires ts[j].createdAt.value == cfg.epoch.value
    ensures var o := Run(ts, cfg, now, deleteOk);
      j < |o.decisions| ==>
        o.decisions[j] == (if Age(now, cfg.epoch.value) > cfg.ageLimit then Delete else Keep)
  {
    TraceDecisions(ts, cfg, now, deleteOk, |ts|);
  }

  /** Outside a dry run, a processed tweet at or after the twepoch whose age
      strictly exceeds the limit gets exactly one delete request, with its
      Id. */
  lemma StaleTweetDeletedOnce(ts: seq<Tweet>, cfg: Config, now: int, deleteOk: nat -> bool, j: nat)
    requires !cfg.testRun
    requires j < |ts| && ts[j].createdAt.Some? && cfg.epoch.Some?
    requires cfg.epoch.value <= ts[j].createdAt.value
    requires Age(now, ts[j].createdAt.value) > cfg.ageLimit
    ensures var o := Run(ts, cfg, now, deleteOk);
      var ps := DeletePositions(o.decisions);
      o.end.Completed? || j < o.end.at ==>
        exists k :: 0 <= k < |ps| && k < |o.calls| && ps[k] == j && o.calls[k].id == ts[j].id &&
          forall l :: 0 <= l < |ps| && ps[l] == j ==> l == k
  {
    RunClassifiesInOrder(ts, cfg, now, deleteOk);
    RunCallsAreStaleTweets(ts, cfg, now, deleteOk);
    var o := Run(ts, cfg, now, deleteOk);
    var ps := DeletePositions(o.decisions);
    if o.end.Completed? || j < o.end.at {
      assert o.decisions[j] == Delete;
      var k :| 0 <= k < |ps| && ps[k] == j;
      assert o.calls[k].id == ts[j].id;
    }
  }

  /** The age test is strict: a tweet whose age is at most the limit is
      never deleted. */
  lemma FreshTweetNeverDeleted(ts: seq<Tweet>, cfg: Config, now: int, deleteOk: nat -> bool, j: nat)
    requires j < |ts| && ts[j].createdAt.Some?
    requires cfg.epoch.Some? ==> Age(now, ts[j].createdAt.value) <= cfg.ageLimit
    ensures var o := Run(ts, cfg, now, deleteOk);
      && (j < |o.decisions| ==> o.decisions[j] != Delete)
      && j !in DeletePositions(o.decisions)
    ensures var o := Run(ts, cfg, now, deleteOk);
      UniqueIds(ts) ==> forall k :: 0 <= k < |o.calls| ==> o.calls[k].id != ts[j].id
  {
    TraceDecisions(ts, cfg, now, deleteOk, |ts|);
    NoCallOutsideDeletePositions(ts, cfg, now, deleteOk, j);
  }

  /** A dry run issues no delete request, yet takes the same decisions and
      ends the same way as a real run. */
  lemma {:induction false} DryRunDeletesNothing(ts: seq<Tweet>, cfg: Config, now: int, deleteOk: nat -> bool, n: nat)
    requires n <= |ts|
    ensures var dry := Trace(ts, cfg.(testRun := true), now, deleteOk, n);
      var live := Trace(ts, cfg.(testRun := false), now, deleteOk, n);
      && dry.calls == []
      && dry.decisions == live.decisions
      && dry.end == live.end
    decreases n
  {
    if n > 0 {
      DryRunDeletesNothing(ts, cfg, now, deleteOk, n - 1);
    }
  }

  /** A failed delete does not stop the loop: whatever the API answers, the
      same tweets are processed with the same decisions, the same delete
      requests are issued, and the run ends the same way. */
  lemma {:induction false} FailedDeleteDoesNotStop(ts: seq<Tweet>, cfg: Config, now: int,
                                                   ok1: nat -> bool, ok2: nat -> bool, n: nat)
    requires n <= |ts|
    ensures var a := Trace(ts, cfg, now, ok1, n);
      var b := Trace(ts, cfg, now, ok2, n);
      && a.decisions == b.decisions
      && |a.calls| == |b.calls|
      && (forall k :: 0 <= k < |a.calls| ==> a.calls[k].id == b.calls[k].id)
      && a.end == b.end
    decreases n
  {
    if n > 0 {
      FailedDeleteDoesNotStop(ts, cfg, now, ok1, ok2, n - 1);
    }
  }

  /** When MAX_TWEET_AGE does not parse the age limit is zero, so every
      tweet at or after the twepoch that is older than "now" classifies as
      Delete, and outside a dry run gets a delete request with its Id once
      the loop reaches it. */
  lemma UnparsableAgeLimitDeletesAged(ts: seq<Tweet>, epoch: int, testRun: bool, now: int,
                                      deleteOk: nat -> bool, j: nat)
    requires j < |ts| && ts[j].createdAt.Some?
    requires epoch <= ts[j].createdAt.value < now
    ensures var cfg := Config(Some(epoch), AgeLimit(None), testRun);
      var o := Run(ts, cfg, now, deleteOk);
      && Judge(ts[j], cfg, now) == Ok(Delete)
      && (o.end.Completed? || j < o.end.at ==> j < |o.decisions| && o.decisions[j] == Delete)
      && (!testRun && (o.end.Completed? || j < o.end.at) ==>
            exists k :: 0 <= k < |o.calls| && o.calls[k].id == ts[j].id)
  {
    var cfg := Config(Some(epoch), AgeLimit(None), testRun);
    RunClassifiesInOrder(ts, cfg, now, deleteOk);
    if !testRun {
      StaleTweetDeletedOnce(ts, cfg, now, deleteOk, j);
    }
  }

  /** The twepoch is parsed inside the loop: when it does not parse, an
      empty timeline still completes, and otherwise the run stops at the
      very first tweet before any request is issued. */
  lemma BadEpochStopsAtFirstTweet(ts: seq<Tweet>, cfg: Config, now: int, deleteOk: nat -> bool)
    requires cfg.epoch.None?
    ensures var o := Run(ts, cfg, now, deleteOk);
      && o.decisions == [] && o.calls == []
      && o.end == (if ts == [] then Completed
                   else if ts[0].createdAt.None? then Aborted(0, BadCreatedTime)
                   else Aborted(0, BadEpoch))
  {
    if ts != [] {
      AbortSticks(ts, cfg, now, deleteOk, 1, |ts|);
    }
  }
}
