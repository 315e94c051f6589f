# Gotify to Teams bridge: formatting and delivery retry loop

The bridge listens on a Gotify notification stream and forwards each
notification to a Microsoft Teams webhook. The part of it with logic worth
proving is `on_message_fetch_with_backoff`: for one incoming frame it decodes
the title and message, renders the Teams text, POSTs it, and on any exception
sleeps and retries with a delay that doubles and gains a random jitter, at
most `max_retries` times, before giving up with "Maximum retry attempts
reached".

The model has three modules:

- `TeamsFormat` (`format.dfy`): the rendered text
  `"**" + title.strip() + "**\n\n" + message.replace("\n", "\n\n")`.
  Python's `str.strip()` is `Strip` (white space as `str.isspace` defines it,
  cut from both ends), `str.replace` is `Replace` (left-to-right,
  non-overlapping, including the empty-pattern case), and `Render` puts them
  together. The lemmas characterise `Strip` exactly (it is the unique trimmed
  infix left after cutting white space from both ends), prove that doubling
  the line breaks is undone by collapsing them again, give the length of the
  rendered text, and show the rendered text can be taken apart into the
  stripped title and the original message.
- `Backoff` (`backoff.dfy`): the retry loop as a method, `FetchWithBackoff`,
  with a `while` loop over the attempt number that keeps `retry_delay` as a
  `real`, and a trace of what it does (`Post(text)`, `Sleep(delay)`, and the
  success log `Forwarded(title)`). The outside world is given as oracles:
  the decoded frame (`Notification(title, message)` or `Malformed`), the
  outcome of each POST, and the jitter drawn after each failure. The method
  is proved equal to `Run`, a loop-free definition built from the first
  successful attempt (`FirstSuccess`), the trace of failed attempts
  (`FailTrace`) and the delay schedule (`Delay`). The lemmas about `Run` give
  the number of attempts and sleeps, what happens after the first success,
  what a malformed frame does, and the bounds `2^i <= d_i <= 2^(i+1) - 1`
  and `d_(i+1) >= 2 * d_i` on the delays.
- `Config` (`config.dfy`): the stream URL with the token appended as a query
  parameter.

The model follows the code where it differs from an idealised retry engine:

- Decoding is inside the loop. A frame that does not decode is never
  posted. It is retried `max_retries` times, sleeping after each attempt, and
  the call then fails. It is not dropped after one failure.
- A sleep follows every failure, including the last one before the call
  gives up.
- The text is rendered again on each attempt. Rendering is pure, so every
  POST of one call carries the same text (`RunPostsPayload`).
- The first delay is the constant 1 second (line 36), not a parameter.
- The success log quotes the title as received, not the stripped title
  (line 46). The `Forwarded` event records that title.

Modelling choices:

- `json.loads` and the two key lookups give the same answer on every attempt
  for the same frame. So the decode result is one value, `Frame`, and not a
  per-attempt oracle. `Malformed` covers invalid JSON, a missing `title` or
  `message` key, and a value that is not a string. In each of these cases
  the attempt raises before the POST.
- `requests.post` followed by `raise_for_status` is one `PostOutcome` per
  attempt. `PostFail` stands for a transport error or a 4xx/5xx status.
  Any other final status, a 1xx or 3xx as well as a 2xx, is `PostOk`:
  `raise_for_status` does not raise for it.
- `random.uniform(0, 1)` is a sequence of reals. `UnitJitter` constrains
  each of them to `[0, 1]`.
- `time.sleep` is a `Sleep` event in the trace.
- The exception at line 54 is the result `MaxRetriesExceeded`.
- `FetchWithBackoff` requires the oracles to have at least `max_retries`
  entries. That is one entry per attempt the loop can make.

## Model

| member | source | states |
|---|---|---|
| TeamsFormat.TrimLeftSpec | gotify_teams_bridge.py:42 | stripping the front leaves the longest suffix not starting with white space; everything dropped is white space |
| TeamsFormat.TrimRightSpec | gotify_teams_bridge.py:42 | stripping the back leaves the longest prefix not ending with white space; everything dropped is white space |
| TeamsFormat.StripTrimmed | gotify_teams_bridge.py:42 | neither end of `title.strip()` is white space |
| TeamsFormat.StripSplit | gotify_teams_bridge.py:42 | every string is its stripped form with only white space before and after it |
| TeamsFormat.StripUnique | gotify_teams_bridge.py:42 | for any split `a + m + b` with `a`, `b` all white space and `m` trimmed, `strip` gives exactly `m` |
| TeamsFormat.StripIdempotent | gotify_teams_bridge.py:42 | stripping twice is the same as stripping once |
| TeamsFormat.StripPadded | gotify_teams_bridge.py:42 | adding white space around a string does not change what it strips to |
| TeamsFormat.ExpandBreaksLength | gotify_teams_bridge.py:40 | the body with doubled line breaks is longer by exactly the number of line breaks |
| TeamsFormat.ExpandBreaksNoBreaks | gotify_teams_bridge.py:40 | a body without line breaks goes through unchanged |
| TeamsFormat.ExpandBreaksAppend | gotify_teams_bridge.py:40 | doubling line breaks distributes over concatenation of bodies |
| TeamsFormat.ExpandBreaksRoundTrip | gotify_teams_bridge.py:40 | replacing each `"\n\n"` back by `"\n"` recovers the original message |
| TeamsFormat.RenderLength | gotify_teams_bridge.py:40-43 | the posted text has length 6 + stripped title + message + number of line breaks |
| TeamsFormat.RenderRecovers | gotify_teams_bridge.py:40-43 | the posted text starts with `**`, then the stripped title, then `**\n\n`, and collapsing the rest gives back the message |
| TeamsFormat.RenderIgnoresTitlePadding | gotify_teams_bridge.py:42 | titles that differ only in surrounding white space render identically |
| Backoff.FirstSuccess | gotify_teams_bridge.py:37-47 | the index of the first successful attempt among the first `n`, with all attempts before it failing, or `n` when none succeeds |
| Backoff.FetchWithBackoff | gotify_teams_bridge.py:35-54 | the loop's result, number of attempts and trace of POSTs, sleeps and success log equal the loop-free definition `Run` |
| Backoff.RunSucceedsAt | gotify_teams_bridge.py:44-47 | the first success at attempt `k` ends the call with `k + 1` attempts, the failed attempts' events, one POST and the success log |
| Backoff.FailTraceSleeps | gotify_teams_bridge.py:48-52 | failed attempts sleep once each, in order, for the current delay, whatever they posted |
| Backoff.FailTraceNoPosts | gotify_teams_bridge.py:39-50 | failed attempts that post nothing leave no POST in the trace |
| Backoff.FailTraceOnePost | gotify_teams_bridge.py:41-50 | failed attempts that each post one text leave exactly one POST of that text per attempt |
| Backoff.FailTraceViews | gotify_teams_bridge.py:39-52 | the failed attempts of one call sleep once each for the current delay, and post the rendered text once each when the frame decodes, nothing when it does not |
| Backoff.FailTraceNotForwarded | gotify_teams_bridge.py:46-52 | failed attempts never log a success: the log of line 46 only follows a POST that did not raise |
| Backoff.DelayBounds | gotify_teams_bridge.py:36-52 | the delay after `i` failures lies between 2^i and 2^(i+1) - 1 seconds |
| Backoff.DelayGrowth | gotify_teams_bridge.py:51-52 | each delay is at least double the previous one, at most double plus one second, and strictly larger |
| Backoff.RunAttempts | gotify_teams_bridge.py:37-54 | at most `max_retries` attempts; the call fails exactly when every attempt fails, and then it has made all `max_retries` of them and logged no success |
| Backoff.RunFirstSuccess | gotify_teams_bridge.py:44-47 | if attempt `k` is the first success, exactly `k + 1` attempts, `k` sleeps and `k + 1` POSTs occur, and the success log is the last event |
| Backoff.RunSleeps | gotify_teams_bridge.py:48-52 | the number of sleeps equals the number of failed attempts, the last failure included, and the `i`-th sleep lasts the `i`-th delay |
| Backoff.RunSleepBounds | gotify_teams_bridge.py:50-52 | the `i`-th sleep of a call lies between 2^i and 2^(i+1) - 1 seconds and at least doubles the one before |
| Backoff.RunMalformed | gotify_teams_bridge.py:39-54 | a frame that does not decode is never posted, uses every iteration with a sleep after each, and the call fails |
| Backoff.RunNoIterations | gotify_teams_bridge.py:37-54 | with `max_retries <= 0` nothing is attempted and the call fails at once with an empty trace |
| Backoff.RunPostsPayload | gotify_teams_bridge.py:41-46 | one POST per attempt, all carrying the same rendered text, and a successful call ends with the log of the unstripped title |
| Backoff.FifthAttemptSucceeds | gotify_teams_bridge.py:35-54 | with the default of 5 retries and four failed POSTs, the fifth attempt delivers after four sleeps |
| Backoff.AllFiveAttemptsFail | gotify_teams_bridge.py:35-54 | with the default of 5 retries and five failed POSTs, the call fails after exactly five attempts and five sleeps |
| Config.StreamUrlQueryMarks | gotify_teams_bridge.py:32 | the token always gets a `?` of its own: a configured URL that already has a query string ends up with two `?` |
| Config.StreamUrlInjective | gotify_teams_bridge.py:32 | for a fixed URL, different tokens give different stream URLs |

## Left out

- Loading the environment and the required-variable checks
  (gotify_teams_bridge.py:10-28). This is process start-up, and it happens
  before the loop is ever called.
- Logging (gotify_teams_bridge.py:13-14, 49, 58, 63, 67, 71). Only the
  success log of line 46 is in the trace. The error log of line 49 always
  comes right before the sleep, so it adds nothing.
- The websocket callbacks and `run_forever` (gotify_teams_bridge.py:57-82).
  They only log and dispatch. No reconnect or connection state exists in
  the code. The exception raised at line 54 leaves the model as the result
  `MaxRetriesExceeded`. What the websocket library then does with it is
  not modelled.
- `json.loads` (RFC 8259) and `requests.post` / `raise_for_status`. They are
  library and network calls, abstracted as the `Frame` value and one
  `PostOutcome` per attempt.
- `time.sleep` and `random.uniform`. There is no clock: a sleep is an event
  in the trace. Jitter is an exact real in `[0, 1]`, so floating-point
  rounding of `retry_delay` is not modelled.
- Strings are sequences of Unicode scalar values. A lone surrogate, which
  `json.loads` can produce, has no counterpart.
