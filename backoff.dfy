/** The delivery loop of gotify_teams_bridge.py:35-54: one notification
    frame is decoded, rendered and posted to the webhook, at most
    `max_retries` times, sleeping between failures with a delay that
    doubles and gains a random jitter of up to one second each time.

    The world outside the loop is given as oracles: the decoded frame
    (json.loads and the two key lookups are deterministic in the frame, so
    every attempt decodes it the same way), the outcome of each POST, and
    the jitter drawn after each failure. What the loop does is recorded as
    a trace of events. */
module Backoff {
  import opened TeamsFormat

  /** What decoding one frame gives: the `title` and `message` strings, or
      a failure (the frame is not JSON, a key is missing, or a value is
      not a string, so that `.replace` or `.strip` raises). */
  datatype Frame = Notification(title: string, message: string) | Malformed

  /** One POST to the webhook: a final status below 400 (2xx, or a 1xx or
      3xx that is not followed), or a transport error or a 4xx/5xx status
      (`raise_for_status` raises). */
  datatype PostOutcome = PostOk | PostFail

  /** The observable steps of the loop. `Forwarded` is the success log
      line, which quotes the title as received, not stripped. */
  datatype Event = Post(text: string) | Sleep(delay: real) | Forwarded(title: string)

  /** How the loop ends: it returns, or it raises "Maximum retry attempts
      reached". */
  datatype Delivery = Delivered | MaxRetriesExceeded

  datatype Report = Report(result: Delivery, attempts: nat, trace: seq<Event>)

  /** The default of the `max_retries` parameter. */
  const DefaultMaxRetries: int := 5

  /** The number of iterations of `range(maxRetries)`. */
  function Iterations(maxRetries: int): nat
  {
    if maxRetries < 0 then 0 else maxRetries
  }

  /** A jitter oracle as `random.uniform(0, 1)` draws it. */
  ghost predicate UnitJitter(jitter: seq<real>)
  {
    forall i :: 0 <= i < |jitter| ==> 0.0 <= jitter[i] <= 1.0
  }

  function Pow2(i: nat): (r: nat)
    ensures r >= 1
  {
    if i == 0 then 1 else 2 * Pow2(i - 1)
  }

  /** The value of `retry_delay` after `i` failures: 1 at first, then
      doubled and increased by that failure's jitter each time. */
  function Delay(jitter: seq<real>, i: nat): real
    requires i <= |jitter|
  {
    if i == 0 then 1.0 else 2.0 * Delay(jitter, i - 1) + jitter[i - 1]
  }

  predicate Succeeds(frame: Frame, outcome: PostOutcome)
  {
    frame.Notification? && outcome == PostOk
  }

  /** The index of the first of the first `n` attempts that succeeds, or
      `n` when none of them does. */
  function FirstSuccess(frame: Frame, outcomes: seq<PostOutcome>, n: nat): (k: nat)
    requires n <= |outcomes|
    ensures k <= n
    ensures forall i :: 0 <= i < k ==> !Succeeds(frame, outcomes[i])
    ensures k < n ==> Succeeds(frame, outcomes[k])
  {
    if n == 0 then 0
    else
      var k := FirstSuccess(frame, outcomes, n - 1);
      if k < n - 1 || Succeeds(frame, outcomes[n - 1]) then k else n
  }

  /** The text one attempt posts, when the frame decodes. */
  function Payload(frame: Frame): string
    requires frame.Notification?
  {
    Render(frame.title, frame.message)
  }

  /** What one attempt posts before its outcome is known: the rendered
      text if the frame decodes, nothing if it does not. */
  function AttemptPosts(frame: Frame): seq<Event>
  {
    if frame.Notification? then [Post(Payload(frame))] else []
  }

  /** The events of the failed attempt number `i` (from 0): what it
      `posted`, then the sleep with the current delay. */
  function FailedAttempt(posted: seq<Event>, jitter: seq<real>, i: nat): seq<Event>
    requires i <= |jitter|
  {
    posted + [Sleep(Delay(jitter, i))]
  }

  /** The events of the first `n` attempts, all of them failed, each
      having `posted` the same events. */
  function FailTrace(posted: seq<Event>, jitter: seq<real>, n: nat): seq<Event>
    requires n <= |jitter|
  {
    if n == 0 then [] else FailTrace(posted, jitter, n - 1) + FailedAttempt(posted, jitter, n - 1)
  }

  /** What one call of the loop does, stated without the loop: every
      attempt before the first success fails and sleeps; the first success
      posts, logs and ends the call; with no success in `maxRetries`
      attempts the call fails. */
  function Run(frame: Frame, maxRetries: int, outcomes: seq<PostOutcome>, jitter: seq<real>): Report
    requires maxRetries <= |outcomes| && maxRetries <= |jitter|
  {
    var n := Iterations(maxRetries);
    var k := FirstSuccess(frame, outcomes, n);
    if k < n then
      Report(Delivered, k + 1, FailTrace(AttemptPosts(frame), jitter, k) + [Post(Payload(frame)), Forwarded(frame.title)])
    else
      Report(MaxRetriesExceeded, n, FailTrace(AttemptPosts(frame), jitter, n))
  }

  /** The loop of gotify_teams_bridge.py:36-54, one iteration per attempt. */
  method FetchWithBackoff(frame: Frame, maxRetries: int, outcomes: seq<PostOutcome>, jitter: seq<real>)
    returns (result: Delivery, attempts: nat, trace: seq<Event>)
    requires maxRetries <= |outcomes| && maxRetries <= |jitter|
    ensures Report(result, attempts, trace) == Run(frame, maxRetries, outcomes, jitter)
  {
    var retryDelay: real := 1.0;
    var attempt: nat := 0;
    trace := [];
    while attempt < maxRetries
      invariant attempt <= Iterations(maxRetries)
      invariant FirstSuccess(frame, outcomes, attempt) == attempt
      invariant retryDelay == Delay(jitter, attempt)
      invariant trace == FailTrace(AttemptPosts(frame), jitter, attempt)
    {
      if frame.Notification? {
        var text := Render(frame.title, frame.message);
        trace := trace + [Post(text)];
        if outcomes[attempt] == PostOk {
          trace := trace + [Forwarded(frame.title)];
          RunSucceedsAt(frame, maxRetries, outcomes, jitter, attempt);
          return Delivered, attempt + 1, trace;
        }
      }
      trace := trace + [Sleep(retryDelay)];
      retryDelay := retryDelay * 2.0;
      retryDelay := retryDelay + jitter[attempt];
      attempt := attempt + 1;
    }
    return MaxRetriesExceeded, attempt, trace;
  }

  /** The first success, at attempt `k`, decides the whole run. */
  lemma RunSucceedsAt(frame: Frame, maxRetries: int, outcomes: seq<PostOutcome>, jitter: seq<real>, k: nat)
    requires maxRetries <= |outcomes| && maxRetries <= |jitter|
    requires k < maxRetries
    requires FirstSuccess(frame, outcomes, k) == k && Succeeds(frame, outcomes[k])
    ensures Run(frame, maxRetries, outcomes, jitter)
      == Report(Delivered, k + 1, FailTrace(AttemptPosts(frame), jitter, k) + [Post(Payload(frame)), Forwarded(frame.title)])
  {
    var n := Iterations(maxRetries);
    assert FirstSuccess(frame, outcomes, n) == k;
  }

  // Views of a trace

  /** The delays slept, in order. */
  function Sleeps(trace: seq<Event>): seq<real>
  {
    if trace == [] then []
    else (if trace[0].Sleep? then [trace[0].delay] else []) + Sleeps(trace[1..])
  }

  /** The texts posted, in order. */
  function Posts(trace: seq<Event>): seq<string>
  {
    if trace == [] then []
    else (if trace[0].Post? then [trace[0].text] else []) + Posts(trace[1..])
  }

  lemma {:induction false} SleepsAppend(a: seq<Event>, b: seq<Event>)
    ensures Sleeps(a + b) == Sleeps(a) + Sleeps(b)
    decreases |a|
  {
    if a == [] {
      assert a + b == b;
    } else {
      assert (a + b)[0] == a[0];
      assert (a + b)[1..] == a[1..] + b;
      SleepsAppend(a[1..], b);
    }
  }

  lemma {:induction false} PostsAppend(a: seq<Event>, b: seq<Event>)
    ensures Posts(a + b) == Posts(a) + Posts(b)
    decreases |a|
  {
    if a == [] {
      assert a + b == b;
    } else {
      assert (a + b)[0] == a[0];
      assert (a + b)[1..] == a[1..] + b;
      PostsAppend(a[1..], b);
    }
  }

  lemma ViewsAppend(a: seq<Event>, b: seq<Event>)
    ensures Sleeps(a + b) == Sleeps(a) + Sleeps(b)
    ensures Posts(a + b) == Posts(a) + Posts(b)
  {
    SleepsAppend(a, b);
    PostsAppend(a, b);
  }

  lemma ViewsSingle(e: Event)
    ensures Sleeps([e]) == (if e.Sleep? then [e.delay] else [])
    ensures Posts([e]) == (if e.Post? then [e.text] else [])
  {
    assert [e][1..] == [];
  }

  /** The views of one failed attempt: one sleep, after whatever it posted. */
  lemma FailedAttemptViews(posted: seq<Event>, jitter: seq<real>, i: nat)
    requires i <= |jitter|
    requires Sleeps(posted) == []
    ensures Sleeps(FailedAttempt(posted, jitter, i)) == [Delay(jitter, i)]
    ensures Posts(FailedAttempt(posted, jitter, i)) == Posts(posted)
  {
    ViewsAppend(posted, [Sleep(Delay(jitter, i))]);
    ViewsSingle(Sleep(Delay(jitter, i)));
  }

  /** What one attempt posts holds no sleep, and it is the rendered text
      exactly when the frame decodes. */
  lemma AttemptPostsViews(frame: Frame)
    ensures Sleeps(AttemptPosts(frame)) == []
    ensures Posts(AttemptPosts(frame)) == if frame.Notification? then [Payload(frame)] else []
  {
    if frame.Notification? {
      ViewsSingle(Post(Payload(frame)));
    }
  }

  /** The views of the end of a successful call: one POST, no sleep. */
  lemma SuccessViews(frame: Frame)
    requires frame.Notification?
    ensures Sleeps([Post(Payload(frame)), Forwarded(frame.title)]) == []
    ensures Posts([Post(Payload(frame)), Forwarded(frame.title)]) == [Payload(frame)]
  {
    var a, b := Post(Payload(frame)), Forwarded(frame.title);
    assert [a, b] == [a] + [b];
    ViewsAppend([a], [b]);
    ViewsSingle(a);
    ViewsSingle(b);
  }

  lemma FailTraceSleepsStep(posted: seq<Event>, jitter: seq<real>, n: nat)
    requires 0 < n <= |jitter|
    requires Sleeps(posted) == []
    ensures Sleeps(FailTrace(posted, jitter, n)) == Sleeps(FailTrace(posted, jitter, n - 1)) + [Delay(jitter, n - 1)]
  {
    SleepsAppend(FailTrace(posted, jitter, n - 1), FailedAttempt(posted, jitter, n - 1));
    FailedAttemptViews(posted, jitter, n - 1);
  }

  /** The failed attempts sleep once each, in order, for the current delay. */
  lemma {:induction false} FailTraceSleeps(posted: seq<Event>, jitter: seq<real>, n: nat)
    requires n <= |jitter|
    requires Sleeps(posted) == []
    ensures |Sleeps(FailTrace(posted, jitter, n))| == n
    ensures forall i :: 0 <= i < n ==> Sleeps(FailTrace(posted, jitter, n))[i] == Delay(jitter, i)
    decreases n
  {
    if n > 0 {
      var front := FailTrace(posted, jitter, n - 1);
      FailTraceSleeps(posted, jitter, n - 1);
      var ss := Sleeps(FailTrace(posted, jitter, n));
      FailTraceSleepsStep(posted, jitter, n);
      forall i | 0 <= i < n ensures ss[i] == Delay(jitter, i) {
        if i < n - 1 {
          assert ss[i] == Sleeps(front)[i];
        }
      }
    }
  }

  /** Failed attempts that post nothing leave no POST in the trace. */
  lemma {:induction false} FailTraceNoPosts(posted: seq<Event>, jitter: seq<real>, n: nat)
    requires n <= |jitter|
    requires Sleeps(posted) == [] && Posts(posted) == []
    ensures Posts(FailTrace(posted, jitter, n)) == []
    decreases n
  {
    if n > 0 {
      FailTraceNoPosts(posted, jitter, n - 1);
      PostsAppend(FailTrace(posted, jitter, n - 1), FailedAttempt(posted, jitter, n - 1));
      FailedAttemptViews(posted, jitter, n - 1);
    }
  }

  /** Failed attempts that each post `text` once leave exactly one POST
      of `text` per attempt. */
  lemma {:induction false} FailTraceOnePost(posted: seq<Event>, text: string, jitter: seq<real>, n: nat)
    requires n <= |jitter|
    requires Sleeps(posted) == [] && Posts(posted) == [text]
    ensures |Posts(FailTrace(posted, jitter, n))| == n
    ensures forall i :: 0 <= i < n ==> Posts(FailTrace(posted, jitter, n))[i] == text
    decreases n
  {
    if n > 0 {
      var front := FailTrace(posted, jitter, n - 1);
      FailTraceOnePost(posted, text, jitter, n - 1);
      var ps := Posts(FailTrace(posted, jitter, n));
      assert ps == Posts(front) + [text] by {
        PostsAppend(front, FailedAttempt(posted, jitter, n - 1));
        FailedAttemptViews(posted, jitter, n - 1);
      }
      forall i | 0 <= i < n ensures ps[i] == text {
        if i < n - 1 {
          assert ps[i] == Posts(front)[i];
        }
      }
    }
  }

  /** The failed attempts of one call: one sleep each, for the current
      delay, and one POST of the rendered text each when the frame
      decodes, none when it does not. */
  lemma FailTraceViews(frame: Frame, jitter: seq<real>, n: nat)
    requires n <= |jitter|
    ensures |Sleeps(FailTrace(AttemptPosts(frame), jitter, n))| == n
    ensures forall i :: 0 <= i < n ==> Sleeps(FailTrace(AttemptPosts(frame), jitter, n))[i] == Delay(jitter, i)
    ensures |Posts(FailTrace(AttemptPosts(frame), jitter, n))| == if frame.Notification? then n else 0
    ensures frame.Notification? ==>
      forall i :: 0 <= i < n ==> Posts(FailTrace(AttemptPosts(frame), jitter, n))[i] == Payload(frame)
  {
    AttemptPostsViews(frame);
    FailTraceSleeps(AttemptPosts(frame), jitter, n);
    if frame.Notification? {
      FailTraceOnePost(AttemptPosts(frame), Payload(frame), jitter, n);
    } else {
      FailTraceNoPosts(AttemptPosts(frame), jitter, n);
    }
  }

  /** Failed attempts whose posts log nothing log no success either. */
  lemma {:induction false} FailTraceNotForwarded(posted: seq<Event>, jitter: seq<real>, n: nat)
    requires n <= |jitter|
    requires forall e :: e in posted ==> !e.Forwarded?
    ensures forall e :: e in FailTrace(posted, jitter, n) ==> !e.Forwarded?
    decreases n
  {
    if n > 0 {
      FailTraceNotForwarded(posted, jitter, n - 1);
    }
  }

  // The delay schedule

  /** The `i`-th sleep (from 0) lasts between 2^i and 2^(i+1) - 1 seconds. */
  lemma {:induction false} DelayBounds(jitter: seq<real>, i: nat)
    requires UnitJitter(jitter) && i <= |jitter|
    ensures Pow2(i) as real <= Delay(jitter, i) <= (Pow2(i + 1) - 1) as real
    decreases i
  {
    if i > 0 {
      DelayBounds(jitter, i - 1);
    }
  }

  /** Each delay at least doubles the one before, and adds at most a
      second to the double, so the delays strictly increase. */
  lemma DelayGrowth(jitter: seq<real>, i: nat)
    requires UnitJitter(jitter) && i < |jitter|
    ensures 2.0 * Delay(jitter, i) <= Delay(jitter, i + 1) <= 2.0 * Delay(jitter, i) + 1.0
    ensures Delay(jitter, i) < Delay(jitter, i + 1)
  {
    DelayBounds(jitter, i);
  }

  // What one call does

  /** At most `maxRetries` attempts are made (none when it is zero or
      negative); the call fails exactly when every one of them fails, and
      then it has made all of them and logged no success. */
  lemma RunAttempts(frame: Frame, maxRetries: int, outcomes: seq<PostOutcome>, jitter: seq<real>)
    requires maxRetries <= |outcomes| && maxRetries <= |jitter|
    ensures var r := Run(frame, maxRetries, outcomes, jitter);
      && r.attempts <= Iterations(maxRetries)
      && (r.result == MaxRetriesExceeded <==>
            forall i :: 0 <= i < Iterations(maxRetries) ==> !Succeeds(frame, outcomes[i]))
      && (r.result == MaxRetriesExceeded ==> r.attempts == Iterations(maxRetries))
      && (r.result == MaxRetriesExceeded ==> forall e :: e in r.trace ==> !e.Forwarded?)
  {
    var n := Iterations(maxRetries);
    FailTraceNotForwarded(AttemptPosts(frame), jitter, n);
  }

  /** When attempt `k` (from 0) is the first to succeed, the call makes
      exactly `k + 1` attempts and `k` sleeps, and ends with the success
      log: nothing happens after the success. */
  lemma RunFirstSuccess(frame: Frame, maxRetries: int, outcomes: seq<PostOutcome>, jitter: seq<real>, k: nat)
    requires maxRetries <= |outcomes| && maxRetries <= |jitter|
    requires k < maxRetries
    requires forall i :: 0 <= i < k ==> !Succeeds(frame, outcomes[i])
    requires Succeeds(frame, outcomes[k])
    ensures var r := Run(frame, maxRetries, outcomes, jitter);
      && r.result == Delivered
      && r.attempts == k + 1
      && |Sleeps(r.trace)| == k
      && |Posts(r.trace)| == k + 1
      && r.trace[|r.trace| - 1] == Forwarded(frame.title)
  {
    RunSucceedsAt(frame, maxRetries, outcomes, jitter, k);
    var front := FailTrace(AttemptPosts(frame), jitter, k);
    var tail := [Post(Payload(frame)), Forwarded(frame.title)];
    ViewsAppend(front, tail);
    SuccessViews(frame);
    FailTraceViews(frame, jitter, k);
  }

  /** Every failed attempt, the last one included, is followed by exactly
      one sleep, and the sleeps follow the delay schedule. */
  lemma RunSleeps(frame: Frame, maxRetries: int, outcomes: seq<PostOutcome>, jitter: seq<real>)
    requires maxRetries <= |outcomes| && maxRetries <= |jitter|
    ensures var r := Run(frame, maxRetries, outcomes, jitter);
      && |Sleeps(r.trace)| == r.attempts - (if r.result == Delivered then 1 else 0)
      && forall i :: 0 <= i < |Sleeps(r.trace)| ==> Sleeps(r.trace)[i] == Delay(jitter, i)
  {
    var n := Iterations(maxRetries);
    var k := FirstSuccess(frame, outcomes, n);
    if k < n {
      var tail := [Post(Payload(frame)), Forwarded(frame.title)];
      ViewsAppend(FailTrace(AttemptPosts(frame), jitter, k), tail);
      SuccessViews(frame);
      FailTraceViews(frame, jitter, k);
    } else {
      FailTraceViews(frame, jitter, n);
    }
  }

  /** The sleeps of one call last between 2^i and 2^(i+1) - 1 seconds,
      and each at least doubles the one before. */
  lemma RunSleepBounds(frame: Frame, maxRetries: int, outcomes: seq<PostOutcome>, jitter: seq<real>)
    requires maxRetries <= |outcomes| && maxRetries <= |jitter|
    requires UnitJitter(jitter)
    ensures var s := Sleeps(Run(frame, maxRetries, outcomes, jitter).trace);
      && (forall i :: 0 <= i < |s| ==> Pow2(i) as real <= s[i] <= (Pow2(i + 1) - 1) as real)
      && (forall i :: 0 <= i < |s| - 1 ==> 2.0 * s[i] <= s[i + 1] && s[i] < s[i + 1])
  {
    var r := Run(frame, maxRetries, outcomes, jitter);
    var s := Sleeps(r.trace);
    RunSleeps(frame, maxRetries, outcomes, jitter);
    RunAttempts(frame, maxRetries, outcomes, jitter);
    assert |s| <= |jitter|;
    forall i | 0 <= i < |s| ensures Pow2(i) as real <= s[i] <= (Pow2(i + 1) - 1) as real {
      DelayBounds(jitter, i);
    }
    forall i | 0 <= i < |s| - 1 ensures 2.0 * s[i] <= s[i + 1] && s[i] < s[i + 1] {
      DelayGrowth(jitter, i);
    }
  }

  /** A frame that does not decode is never posted, yet it uses up every
      iteration, sleeping after each, and the call fails. */
  lemma RunMalformed(maxRetries: int, outcomes: seq<PostOutcome>, jitter: seq<real>)
    requires maxRetries <= |outcomes| && maxRetries <= |jitter|
    ensures var r := Run(Malformed, maxRetries, outcomes, jitter);
      && r.result == MaxRetriesExceeded
      && r.attempts == Iterations(maxRetries)
      && Posts(r.trace) == []
      && |Sleeps(r.trace)| == Iterations(maxRetries)
  {
    var n := Iterations(maxRetries);
    FailTraceViews(Malformed, jitter, n);
  }

  /** With `maxRetries` zero or negative nothing is attempted and the call
      fails at once. */
  lemma RunNoIterations(frame: Frame, maxRetries: int, outcomes: seq<PostOutcome>, jitter: seq<real>)
    requires maxRetries <= 0
    ensures Run(frame, maxRetries, outcomes, jitter) == Report(MaxRetriesExceeded, 0, [])
  {
  }

  /** Every POST of one call carries the same text, the rendering of the
      frame, while the success log quotes the title as received. */
  lemma RunPostsPayload(frame: Frame, maxRetries: int, outcomes: seq<PostOutcome>, jitter: seq<real>)
    requires maxRetries <= |outcomes| && maxRetries <= |jitter|
    requires frame.Notification?
    ensures var r := Run(frame, maxRetries, outcomes, jitter);
      && |Posts(r.trace)| == r.attempts
      && (forall i :: 0 <= i < |Posts(r.trace)| ==> Posts(r.trace)[i] == Render(frame.title, frame.message))
      && (r.result == Delivered ==> r.trace[|r.trace| - 1] == Forwarded(frame.title))
  {
    var n := Iterations(maxRetries);
    var k := FirstSuccess(frame, outcomes, n);
    if k < n {
      var tail := [Post(Payload(frame)), Forwarded(frame.title)];
      ViewsAppend(FailTrace(AttemptPosts(frame), jitter, k), tail);
      SuccessViews(frame);
      FailTraceViews(frame, jitter, k);
      var ps := Posts(FailTrace(AttemptPosts(frame), jitter, k) + tail);
      assert ps == Posts(FailTrace(AttemptPosts(frame), jitter, k)) + [Payload(frame)];
    } else {
      FailTraceViews(frame, jitter, n);
    }
  }

  // Two calls with the default `max_retries` of 5

  /** The webhook fails four times and accepts the fifth POST: five
      attempts, four sleeps, and the call returns. */
  lemma FifthAttemptSucceeds(frame: Frame, jitter: seq<real>)
    requires frame.Notification? && |jitter| >= DefaultMaxRetries
    ensures var r := Run(frame, DefaultMaxRetries, [PostFail, PostFail, PostFail, PostFail, PostOk], jitter);
      r.result == Delivered && r.attempts == 5 && |Sleeps(r.trace)| == 4
  {
    RunFirstSuccess(frame, DefaultMaxRetries, [PostFail, PostFail, PostFail, PostFail, PostOk], jitter, 4);
  }

  /** The webhook fails all five times: five attempts, five sleeps, no
      sixth attempt, and the call fails. */
  lemma AllFiveAttemptsFail(frame: Frame, jitter: seq<real>)
    requires |jitter| >= DefaultMaxRetries
    ensures var r := Run(frame, DefaultMaxRetries, [PostFail, PostFail, PostFail, PostFail, PostFail], jitter);
      r.result == MaxRetriesExceeded && r.attempts == 5 && |Sleeps(r.trace)| == 5
  {
    RunAttempts(frame, DefaultMaxRetries, [PostFail, PostFail, PostFail, PostFail, PostFail], jitter);
    RunSleeps(frame, DefaultMaxRetries, [PostFail, PostFail, PostFail, PostFail, PostFail], jitter);
  }
}
