# vpn-adfs-cookie4 in Dafny

`vpn-adfs-cookie4.py` logs in to a Pulse/Ivanti VPN gateway that delegates
sign-in to Microsoft (ADFS / Entra ID) single sign-on. It drives a browser
through the sign-in pages and prints the gateway's `DSID` session cookie as a
`DSID=<value>;` header fragment. This project models the part of the script
that decides what happens, leaving out the browser itself:

- `common.dfy` (module `Common`): the exceptions that travel through the
  retry logic, with the transient engine error as a tag. Also substring
  containment (Python's `in` on strings) and `require_non_null`.
- `backoff.dfy` (module `BackOff`): the class `FixedValuesBackOff`. It is a
  cursor over a fixed list of delays that hands them out in order and then
  repeats the last one. The function `Schedule` gives the delays that `n`
  calls return.
- `poller.dfy` (module `Poller`): `wait_for_condition`, the bounded polling
  loop.
  - The predicate is a stream of evaluations: each one returns a boolean or
    raises.
  - Sleeping adds to a millisecond counter.
  - The method `WaitForCondition` is the loop. The function `Poll` is its
    specification, and the closed-form lemmas about `Poll` describe it.
- `taskloop.dfy` (module `TaskLoop`): `TaskLoop.run_next`, the one-step
  dispatcher.
  - The page is a record of what the dispatcher reads: the URL, the content,
    which fields are visible or enabled, and the cookies.
  - The result is the signal (or exception) together with the clicks, fills
    and checks performed.
  - `RunNext` is the if-chain of the script. `Dispatch` is an independent
    reference: an ordered table of page signatures where the first one that
    matches decides the step.
- `driver.dfy` (module `Driver`): the loop of `main`.
  - The method `Run` owns a `FixedValuesBackOff` object and the clock.
  - What `run_next` did on each iteration, and how long it took, is a stream
    of events.
  - `Drive` is the loop's specification as a function. The method
    `Iterate` is one pass of the loop body on the backoff object.

Times are whole milliseconds. The script's float seconds (0.2, 0.3, 6, 60)
are all whole numbers of milliseconds, so nothing is lost. The poll's guard
`attempts_cnt <= timeout / delay` becomes the floor `attempts <= timeout / delay`.
That is the same test for a natural-number counter.

Two details of the loop in `main`:

- Finding the cookie stops the loop without resetting the backoff (line 280).
  The model does the same (`Driver.TransientsThenCookie`).
- The deadline is only checked at the top of the loop (lines 259-261). A
  deadline that passes while `run_next` is still working (during the MFA
  poll, say) is only noticed at the next check.

The timeout of the MFA code poll is a parameter of `TaskLoop.RunNext` and of
everything it calls. The lemmas about them hold for every value. The script
passes 15 000 seconds (`MFA_POLL_TIMEOUT_AS_WRITTEN_MS`); the browser's 15 s
default (`MFA_POLL_TIMEOUT_MS`) is what it evidently means (see Findings).

## Model

| member | source | states |
|---|---|---|
| Common.Contains | vpn-adfs-cookie4.py:151-152 | Python's `needle in haystack`: a contained string is no longer than the haystack, and every prefix and suffix is contained. |
| Common.RequireNonNull | vpn-adfs-cookie4.py:23-26 | The value comes back exactly when it is present. A missing value gives `ValueError("<name> must not be null")`. |
| BackOff.DelayAt | vpn-adfs-cookie4.py:127-129 | The delay at a cursor position is the configured value there, or the last value once the cursor is past the end. An empty list has no delay: Python's `values[-1]` raises IndexError. |
| BackOff.FixedValuesBackOff.constructor | vpn-adfs-cookie4.py:121-125 | Keeps the values and puts the cursor before the first one (`index == -1`). |
| BackOff.FixedValuesBackOff.NextBackOff | vpn-adfs-cookie4.py:127-129 | Advances the cursor by exactly one and returns the delay at the new position. Nothing else changes. |
| BackOff.FixedValuesBackOff.Reset | vpn-adfs-cookie4.py:131-132 | Puts the cursor back before the first value, so the next call returns the first value again. |
| BackOff.ScheduleAt | vpn-adfs-cookie4.py:127-129 | The k-th of n calls returns `values[min(k, len - 1)]`. |
| BackOff.ScheduleReplaysValues | vpn-adfs-cookie4.py:127-129 | The first `len(values)` calls return the configured values in order. |
| BackOff.ScheduleSaturates | vpn-adfs-cookie4.py:129 | Every call from the `len(values)`-th on returns the last value. |
| BackOff.Delays | vpn-adfs-cookie4.py:121-129 | A fresh object called `n` times hands out exactly `Schedule(values, n)`: the configured values in order, then the last one repeated. |
| BackOff.ScheduleNonDecreasing | vpn-adfs-cookie4.py:127-129 | Non-decreasing configured values, such as the empty-mile list, give non-decreasing delays. |
| Poller.EvaluationCases | vpn-adfs-cookie4.py:101-112 | Every evaluation is exactly one of: the predicate held, a failed attempt (false, or a transient error), or a non-transient error. |
| Poller.PollRetriesOnlyEngineErrors | vpn-adfs-cookie4.py:106-114 | Within the budget, the poller retries exactly the engine's navigation error, moving on to the next evaluation after one delay. Any other error ends the poll as its result, unchanged. |
| Poller.Budget | vpn-adfs-cookie4.py:95-99 | The loop allows ⌊timeout/delay⌋ + 1 evaluations, at least one. |
| Poller.Verdict | vpn-adfs-cookie4.py:101-114 | An evaluation that is not a failed attempt succeeds exactly when it returned true. Otherwise it aborts with the error it raised, which is never transient. It never times out. |
| Poller.PollFrom | vpn-adfs-cookie4.py:99-114 | From any point in the loop, an escaping error is never transient and the time slept never decreases. |
| Poller.Poll | vpn-adfs-cookie4.py:87-116 | Whatever the predicate does, only a non-transient error escapes the poll. This includes the ZeroDivisionError of a zero delay. |
| Poller.FirstDecisive | vpn-adfs-cookie4.py:99-114 | Finds the first evaluation in a range that is not a failed attempt: every earlier one failed, and it did not. |
| Poller.PollFromFailedAttempt | vpn-adfs-cookie4.py:102-112 | A false result, or a transient error within the budget, costs one delay and leads to the next evaluation. |
| Poller.PollFromDecisiveAttempt | vpn-adfs-cookie4.py:101-114 | A true result, or a non-transient error, ends the poll at that evaluation without sleeping again. |
| Poller.PollFromClosedForm | vpn-adfs-cookie4.py:99-116 | Closed form of the loop from any attempt: it is decided by the first decisive evaluation, or times out at the end of the budget. |
| Poller.PollClosedForm | vpn-adfs-cookie4.py:87-116 | The poll ends at the first decisive evaluation k, after k + 1 evaluations and initial + k·delay ms slept. Otherwise it times out after ⌊timeout/delay⌋ + 1 evaluations and as many delays. |
| Poller.PollBounded | vpn-adfs-cookie4.py:95-116 | Between 1 and ⌊timeout/delay⌋ + 1 evaluations, and every evaluation but the last failed. It times out exactly when every evaluation in the budget failed. It succeeds exactly when the last evaluation returned true. |
| Poller.PollSucceedsOnEvaluation | vpn-adfs-cookie4.py:97-105 | A predicate that first holds on its K-th evaluation succeeds after K evaluations, having slept the initial delay once and the delay K − 1 times. |
| Poller.PollAbortsOnEvaluation | vpn-adfs-cookie4.py:106-114 | A non-transient error on the K-th evaluation escapes at once. |
| Poller.PollTimesOut | vpn-adfs-cookie4.py:99-116 | A predicate that never holds, and raises at most transient errors, times out after exactly the budget. It never loops forever. |
| Poller.PollIgnoresTransientErrors | vpn-adfs-cookie4.py:106-112 | A transient error and a false result are interchangeable: the poll ends the same way. |
| Poller.WaitForCondition | vpn-adfs-cookie4.py:87-116 | The step-by-step loop, with its `condition_ok` and `attempts_cnt` variables, computes exactly `Poll`. |
| TaskLoop.FindCookie | vpn-adfs-cookie4.py:229 | Returns the first cookie with the name, or nothing exactly when no cookie has it. |
| TaskLoop.CookieHeader | vpn-adfs-cookie4.py:232 | The payload `<name>=<value>;`: the name, a single `=`, the value and a closing `;` can be read back from it. |
| TaskLoop.MfaActions | vpn-adfs-cookie4.py:180-184 | The code step fills the code first and submits last, and ticks "remember MFA" exactly when the box is enabled. |
| TaskLoop.MfaPoll | vpn-adfs-cookie4.py:188-197 | The code poll, every 300 ms after a first 300 ms, for the given timeout: between 1 and timeout/300 + 1 evaluations, a timeout exactly when all of them fail, and only non-transient errors escape. |
| TaskLoop.MfaVerdict | vpn-adfs-cookie4.py:188-205 | After the code poll: MFA_FAILED exactly when the poll succeeded and the code field is still there. TASK_DONE exactly when it succeeded and the field is gone. Otherwise the poll's TimeoutError or escaping error is raised. |
| TaskLoop.FromPassword | vpn-adfs-cookie4.py:171-235 | The tests after the email step return only the four signal codes, a payload exactly with ALL_DONE_COOKIE_FOUND, raise only non-transient errors and only on the code page, and act on nothing for an empty mile. |
| TaskLoop.RunNext | vpn-adfs-cookie4.py:148-235 | For any MFA poll timeout, the dispatcher returns only the four signal codes. It carries a payload exactly with ALL_DONE_COOKIE_FOUND, and raises only non-transient errors of its own. |
| TaskLoop.FirstMatch | vpn-adfs-cookie4.py:148-235 | The reference order: the position of the first signature the page shows; none before it matches. |
| TaskLoop.FromPasswordFollowsPriority | vpn-adfs-cookie4.py:171-235 | The tests after the email step act on the first signature, in table order, that the page shows. |
| TaskLoop.RunNextFollowsPriority | vpn-adfs-cookie4.py:148-235 | `run_next` equals the priority table: the first matching signature decides. The email step alone falls through to the later tests on the re-rendered page. |
| TaskLoop.CookieFoundOnlyAtTarget | vpn-adfs-cookie4.py:227-233 | ALL_DONE_COOKIE_FOUND exactly when the URL is on the gateway, no earlier signature matched and a cookie is named DSID. The payload is then `DSID=<value>;` of the first such cookie. |
| TaskLoop.MfaStep | vpn-adfs-cookie4.py:178-205 | The code step fills the code, ticks "remember" exactly when that box is enabled, and submits. It reports rejection or acceptance by whether the code field is still there once the poll ends. |
| TaskLoop.RememberMfaOnlyWhenEnabled | vpn-adfs-cookie4.py:182-183 | The "remember MFA" box is ticked only in the code step, and only when enabled. |
| TaskLoop.EmailThenPassword | vpn-adfs-cookie4.py:163-176 | An email page whose submit shows the password field gives email-fill, submit, password-fill, submit and a single TASK_DONE. |
| TaskLoop.CookieExample | vpn-adfs-cookie4.py:227-233 | Cookies `DSPREAUTH=x`, `DSID=abc123` and `DSID=later` on the gateway give exactly `DSID=abc123;`. |
| Driver.Recover | vpn-adfs-cookie4.py:285-296 | The handler retries exactly the transient errors: one backoff step, sleeping its delay. Any other error is re-raised unchanged. |
| Driver.HandlerRetriesOnlyEngineErrors | vpn-adfs-cookie4.py:285-296 | The driver's handler retries exactly the engine's navigation error, taking one backoff step and its delay. Any other error is re-raised unchanged. |
| Driver.EmptyMileNonDecreasing | vpn-adfs-cookie4.py:251 | The empty-mile delays handed out never decrease, however many calls are made. |
| Driver.IterationFacts | vpn-adfs-cookie4.py:257-296 | One pass of the loop:<br>• after the deadline, it stops with the timeout;<br>• the cursor moves by at most one or is reset;<br>• the clock advances by at least the dispatch time, plus the 100 ms pause when every backoff delay is at least that long;<br>• a payload is printed only for the cookie signal;<br>• only non-transient errors escape. |
| Driver.IterationBySignal | vpn-adfs-cookie4.py:263-296 | Per signal:<br>• TASK_DONE resets the backoff and pauses 100 ms;<br>• EMPTY_MILE takes the next backoff delay;<br>• MFA_FAILED pauses 6 s and leaves the backoff alone;<br>• the cookie stops the loop with the payload;<br>• an unknown code raises AssertionError;<br>• a transient error takes the next backoff delay. |
| Driver.TransientLikeEmptyMile | vpn-adfs-cookie4.py:269-294 | A transient error has exactly the effect of an EMPTY_MILE signal. |
| Driver.EmptyMileDelaysAtLeastPause | vpn-adfs-cookie4.py:251-267 | Every empty-mile delay is at least the 100 ms pause. |
| Driver.Iterate | vpn-adfs-cookie4.py:258-296 | The loop body on the backoff object computes exactly `Iteration`, and leaves the object's cursor where `Iteration` says. |
| Driver.DriveFacts | vpn-adfs-cookie4.py:248-296 | A run never prints a payload once a deadline check has found the deadline passed. A deadline check that finds it passed ends the run with the timeout. No transient error ends a run. Every iteration that goes on takes at least 100 ms, so a run ends within 601 iterations. |
| Driver.Run | vpn-adfs-cookie4.py:248-296 | The loop of `main`, on the backoff object, computes exactly `Drive` and completes at most 601 iterations. |
| Driver.TransientStreak | vpn-adfs-cookie4.py:285-294 | n transient errors in a row within the deadline advance the backoff n times. The clock moves by their durations plus the delays handed out. |
| Driver.NonTransientErrorEndsRun | vpn-adfs-cookie4.py:285-296 | Any other exception raised by `run_next` before the deadline, including a page-layer failure, ends the run with that exception on that iteration. |
| Driver.TransientsThenCookie | vpn-adfs-cookie4.py:278-294 | n transient errors followed by the cookie, within the deadline, print the payload after exactly n retried iterations. |
| Driver.KnownSignalsNeverAssert | vpn-adfs-cookie4.py:282-283 | If every signal is one of the four codes, as `RunNext` guarantees, the AssertionError branch is never taken. |
| Driver.MfaPollAsWrittenOutlastsDeadline | vpn-adfs-cookie4.py:188-197 | As written, a code check that never succeeds keeps the poll going for 50001 evaluations and 15 000 600 ms, far past the 60 s deadline. |
| Driver.LateCodeCheckDependsOnTimeout | vpn-adfs-cookie4.py:188-205 | A check that first holds on its 52nd evaluation finishes the code step as written, but makes the poll raise its TimeoutError with the 15 s timeout. |
| Driver.MfaPollWithinDeadline | vpn-adfs-cookie4.py:188-197 | With the intended 15 s timeout, the poll ends after at most 51 evaluations and at most 15 600 ms slept, whatever the check does. |

## Left out

- `AppArgs`, `Credentials` and `Browser4` are not modelled: argument parsing, the keyring, TOTP generation and browser start-up. Their results are parameters: the domain, the credentials, the one-time code and the page.
- The browser is not modelled. A page is a record of what `run_next` reads. The page after the email submit (`afterEmail`) and the poll's evaluations are parameters, and so is whether the code field is still there after the poll.
- Sleeping, the clock and the duration of each `run_next` call are inputs. The model adds up milliseconds and never waits.
- Diagnostic prints, `print(payload)`, `store_session` and the `finally` clean-up are not modelled. The emitted payload is the run's result.
- `call_id` only appears in messages. The poll timeout carries the check's name.
- Exception classes are tags. Recognising the transient engine error by the text of its class name is a predicate on the tag.
- Python floats are not modelled. All the script's times are whole milliseconds.
- TaskLoop.MfaVerdict: the error of a timed-out poll is stated as an implication, `TimedOut ==> Threw(PollTimeout)`. The converse would also need that the check itself never raises a poll timeout.
- Driver.DriveFacts: "the deadline check found it passed" implies the timeout, but not the converse. A run that raises the TimeoutError of the MFA poll, or any other non-transient error, ends with that error instead.
- TaskLoop.RunNext: raises none of the page layer's own exceptions. Examples are Playwright's transient navigation errors from `click`, `fill` or `is_visible`, and a TimeoutError from `is_enabled` when the rememberMFA box is missing (line 182). These enter only as events of the driver's stream (`Driver.Event`), with `PageError` for the non-transient ones.
- Driver.Run: starts at the first deadline check. The initial `page.goto` (line 254) only counts as `startup` time. It is outside the loop's inner `try`, so a transient navigation error there ends the run instead of being retried, and the model does not represent that failure.
- Driver.KnownSignalsNeverAssert: it also assumes that no event is the AssertionError itself. `run_next` could only raise that through the page layer.

## Findings

| source | as written | input that shows it | evidently intended | confidence | as-written member | corrected member |
|---|---|---|---|---|---|---|
| vpn-adfs-cookie4.py:192 | `timeout_seconds=self.browser4.default_timeout_seconds * 1000` passes 15000 seconds to a parameter counted in seconds | An MFA code page where, after submit, the code field stays and no error message appears, so the check returns false every time. The poll then runs 50001 times and sleeps about 4 h 10 min. | The browser's default timeout of 15 s: at most 51 evaluations, about 15.6 s slept, inside the 60 s run deadline | high; not executed | Driver.MfaPollAsWrittenOutlastsDeadline | Driver.MfaPollWithinDeadline |

`TaskLoop.MfaPoll`, and `TaskLoop.RunNext` above it, take the timeout as a
parameter, so every lemma about the dispatcher covers both values.
`Driver.LateCodeCheckDependsOnTimeout` shows an input on which the two
values give different steps.
