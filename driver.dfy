/** The driver loop of `main`: it owns the empty-mile backoff and the clock,
    calls run_next until the cookie is found, and turns each signal or
    exception into a pause, a backoff step or the end of the run. Time is in
    milliseconds since the run started; what run_next did on each iteration,
    and how long it took, is given as a stream of events. */
module Driver {
  import opened Common
  import opened BackOff
  import opened Poller
  import opened TaskLoop

  /** The run gives up once more than 60 seconds have elapsed. */
  const MAX_ELAPSED_MS: nat := 60_000
  const TASK_DONE_PAUSE_MS: nat := 100
  const MFA_FAILED_PAUSE_MS: nat := 6_000
  /** The empty-mile delays, 0.2 s to 6 s. */
  const EMPTY_MILE_BACKOFF_MS: seq<nat> := [200, 200, 200, 400, 400, 600, 2000, 6000]

  /** What one call of run_next ended with, and how long it took. */
  datatype Event = Event(outcome: Outcome, duration: nat)

  /** How the run ends: the payload is printed, or an exception escapes. */
  datatype RunResult = Emitted(payload: Option<string>) | Fatal(error: Error)

  /** After one iteration: carry on with this backoff cursor and clock, or stop. */
  datatype Transition = Next(index: int, elapsed: nat) | Stop(result: RunResult)

  ghost predicate AllAtLeast(values: seq<nat>, bound: nat) {
    forall k :: 0 <= k < |values| ==> values[k] >= bound
  }

  /** The loop's exception handler: a transient error is an empty mile (one
      backoff step and its sleep); anything else is re-raised. */
  function Recover(values: seq<nat>, index: int, elapsed: nat, e: Error): (t: Transition)
    requires index >= -1
    ensures t.Next? <==> IsTransient(e) && |values| > 0
    ensures t.Next? ==> t.index == index + 1 && t.elapsed == elapsed + DelayAt(values, index + 1).value
    ensures !IsTransient(e) ==> t == Stop(Fatal(e))
  {
    if IsTransient(e) then
      match DelayAt(values, index + 1)
      case Some(d) => Next(index + 1, elapsed + d)
      case None => Stop(Fatal(IndexOutOfRange))
    else
      Stop(Fatal(e))
  }

  /** The handler retries exactly the engine's navigation error, with one
      backoff step; any other error is re-raised unchanged. */
  lemma HandlerRetriesOnlyEngineErrors(e: Error, values: seq<nat>, index: int, elapsed: nat)
    requires index >= -1
    ensures e.PlaywrightError? && |values| > 0 ==>
              Recover(values, index, elapsed, e) == Next(index + 1, elapsed + DelayAt(values, index + 1).value)
    ensures !e.PlaywrightError? ==> Recover(values, index, elapsed, e) == Stop(Fatal(e))
  {
  }

  /** The empty-mile delays never decrease, however many are handed out. */
  lemma EmptyMileNonDecreasing(n: nat)
    ensures NonDecreasing(Schedule(EMPTY_MILE_BACKOFF_MS, n))
  {
    assert NonDecreasing(EMPTY_MILE_BACKOFF_MS);
    ScheduleNonDecreasing(EMPTY_MILE_BACKOFF_MS, n);
  }

  /** One iteration of the loop in main: the deadline check, then the signal
      (or exception) of run_next and what it does to the backoff and the clock. */
  function Iteration(values: seq<nat>, index: int, elapsed: nat, ev: Event): Transition
    requires index >= -1
  {
    if elapsed > MAX_ELAPSED_MS then
      Recover(values, index, elapsed, RunTimeout)
    else
      var now := elapsed + ev.duration;
      match ev.outcome
      case Threw(e) => Recover(values, index, now, e)
      case Signalled(code, payload) =>
        if code == TASK_DONE then Next(-1, now + TASK_DONE_PAUSE_MS)
        else if code == EMPTY_MILE then
          match DelayAt(values, index + 1)
          case Some(d) => Next(index + 1, now + d)
          case None => Recover(values, index + 1, now, IndexOutOfRange)
        else if code == MFA_FAILED then Next(index, now + MFA_FAILED_PAUSE_MS)
        else if code == ALL_DONE_COOKIE_FOUND then Stop(Emitted(payload))
        else Recover(values, index, now, UnknownResult)
  }

  /** What any iteration guarantees: nothing goes on past the deadline, the
      backoff cursor moves by at most one step (or is reset), the clock moves
      forward by at least the time run_next took (and by at least the short
      pause when every backoff delay is at least that long), a payload is
      printed only for the cookie signal, and only non-transient errors end
      the run. */
  lemma IterationFacts(values: seq<nat>, index: int, elapsed: nat, ev: Event)
    requires index >= -1
    ensures var t := Iteration(values, index, elapsed, ev);
            && (elapsed > MAX_ELAPSED_MS ==> t == Stop(Fatal(RunTimeout)))
            && (t.Next? ==> elapsed <= MAX_ELAPSED_MS)
            && (t.Next? ==> t.index == -1 || t.index == index || t.index == index + 1)
            && (t.Next? ==> t.elapsed >= elapsed + ev.duration)
            && (t.Next? && AllAtLeast(values, TASK_DONE_PAUSE_MS) ==>
                  t.elapsed >= elapsed + ev.duration + TASK_DONE_PAUSE_MS)
            && (t.Stop? && t.result.Emitted? ==>
                  ev.outcome == Signalled(ALL_DONE_COOKIE_FOUND, t.result.payload) && elapsed <= MAX_ELAPSED_MS)
            && (t.Stop? && t.result.Fatal? ==> !IsTransient(t.result.error))
  {
  }

  /** What each signal does, once the deadline check has passed. */
  lemma IterationBySignal(values: seq<nat>, index: int, elapsed: nat, ev: Event)
    requires index >= -1 && |values| > 0 && elapsed <= MAX_ELAPSED_MS
    ensures var t := Iteration(values, index, elapsed, ev);
            var now := elapsed + ev.duration;
            && (ev.outcome.Signalled? && ev.outcome.code == TASK_DONE ==>
                  t == Next(-1, now + TASK_DONE_PAUSE_MS))
            && (ev.outcome.Signalled? && ev.outcome.code == EMPTY_MILE ==>
                  t == Next(index + 1, now + DelayAt(values, index + 1).value))
            && (ev.outcome.Signalled? && ev.outcome.code == MFA_FAILED ==>
                  t == Next(index, now + MFA_FAILED_PAUSE_MS))
            && (ev.outcome.Signalled? && ev.outcome.code == ALL_DONE_COOKIE_FOUND ==>
                  t == Stop(Emitted(ev.outcome.payload)))
            && (ev.outcome.Signalled? && !IsSignal(ev.outcome.code) ==> t == Stop(Fatal(UnknownResult)))
            && (ev.outcome.Threw? && IsTransient(ev.outcome.error) ==>
                  t == Next(index + 1, now + DelayAt(values, index + 1).value))
            && (ev.outcome.Threw? && !IsTransient(ev.outcome.error) ==> t == Stop(Fatal(ev.outcome.error)))
  {
  }

  /** A transient error counts exactly as an empty mile. */
  lemma TransientLikeEmptyMile(values: seq<nat>, index: int, elapsed: nat, e: Error, payload: Option<string>, duration: nat)
    requires index >= -1 && IsTransient(e)
    ensures Iteration(values, index, elapsed, Event(Threw(e), duration))
         == Iteration(values, index, elapsed, Event(Signalled(EMPTY_MILE, payload), duration))
  {
  }

  /** One iteration of main's loop on the backoff object itself. */
  method Iterate(backoff: FixedValuesBackOff, elapsed: nat, ev: Event) returns (t: Transition)
    requires backoff.Valid()
    modifies backoff
    ensures backoff.Valid()
    ensures t == Iteration(backoff.values, old(backoff.index), elapsed, ev)
    ensures t.Next? ==> backoff.index == t.index
  {
    // the body of `try`: it either moves on or raises `raised`
    var raised: Error;
    var now := elapsed;
    if elapsed > MAX_ELAPSED_MS {
      raised := RunTimeout;
    } else {
      now := elapsed + ev.duration;
      match ev.outcome
      case Threw(e) =>
        raised := e;
      case Signalled(code, payload) =>
        if code == TASK_DONE {
          backoff.Reset();
          return Next(-1, now + TASK_DONE_PAUSE_MS);
        } else if code == EMPTY_MILE {
          var d := backoff.NextBackOff();
          if d.Some? {
            return Next(backoff.index, now + d.value);
          }
          raised := IndexOutOfRange;
        } else if code == MFA_FAILED {
          return Next(backoff.index, now + MFA_FAILED_PAUSE_MS);
        } else if code == ALL_DONE_COOKIE_FOUND {
          return Stop(Emitted(payload));
        } else {
          raised := UnknownResult;
        }
    }
    // the `except` handler
    if IsTransient(raised) {
      var d := backoff.NextBackOff();
      if d.Some? {
        return Next(backoff.index, now + d.value);
      }
      return Stop(Fatal(IndexOutOfRange));
    }
    return Stop(Fatal(raised));
  }

  /** How a run ended, after how many completed iterations, and the elapsed
      time read by its last deadline check. */
  datatype RunEnd = RunEnd(result: RunResult, iterations: nat, checkedAt: nat)

  lemma EmptyMileDelaysAtLeastPause()
    ensures AllAtLeast(EMPTY_MILE_BACKOFF_MS, TASK_DONE_PAUSE_MS)
  {
  }

  /** The loop of main from iteration `i`, with `elapsed` milliseconds gone
      and the backoff cursor at `index`. */
  function Drive(events: nat -> Event, i: nat, elapsed: nat, index: int): RunEnd
    requires index >= -1
    decreases MAX_ELAPSED_MS + 1 - elapsed
  {
    EmptyMileDelaysAtLeastPause();
    IterationFacts(EMPTY_MILE_BACKOFF_MS, index, elapsed, events(i));
    match Iteration(EMPTY_MILE_BACKOFF_MS, index, elapsed, events(i))
    case Stop(res) => RunEnd(res, i, elapsed)
    case Next(idx, now) => Drive(events, i + 1, now, idx)
  }

  /** No payload is ever printed once the deadline has passed, a deadline
      check that finds it passed ends the run with the timeout, no transient
      error escapes, and every iteration that goes on advances the clock by
      at least 100 ms, so the loop stops within 601 iterations. */
  lemma {:induction false} DriveFacts(events: nat -> Event, i: nat, elapsed: nat, index: int)
    requires index >= -1
    ensures var r := Drive(events, i, elapsed, index);
            && r.iterations >= i && r.checkedAt >= elapsed
            && (r.result.Emitted? ==> r.checkedAt <= MAX_ELAPSED_MS)
            && (r.checkedAt > MAX_ELAPSED_MS ==> r.result == Fatal(RunTimeout))
            && (r.result.Fatal? ==> !IsTransient(r.result.error))
            && (r.iterations == i || (r.iterations - i - 1) * TASK_DONE_PAUSE_MS + elapsed <= MAX_ELAPSED_MS)
    decreases MAX_ELAPSED_MS + 1 - elapsed
  {
    EmptyMileDelaysAtLeastPause();
    IterationFacts(EMPTY_MILE_BACKOFF_MS, index, elapsed, events(i));
    match Iteration(EMPTY_MILE_BACKOFF_MS, index, elapsed, events(i))
    case Stop(res) =>
    case Next(idx, now) =>
      DriveFacts(events, i + 1, now, idx);
  }

  /** main from the first deadline check on; `startup` is the time the
      initial navigation took. */
  method Run(events: nat -> Event, startup: nat) returns (r: RunEnd)
    ensures r == Drive(events, 0, startup, -1)
    ensures r.iterations <= MAX_ELAPSED_MS / TASK_DONE_PAUSE_MS + 1
  {
    DriveFacts(events, 0, startup, -1);
    var backoff := new FixedValuesBackOff(EMPTY_MILE_BACKOFF_MS);
    var elapsed := startup;
    var i: nat := 0;
    while true
      invariant backoff.Valid() && backoff.values == EMPTY_MILE_BACKOFF_MS
      invariant Drive(events, i, elapsed, backoff.index) == Drive(events, 0, startup, -1)
      decreases MAX_ELAPSED_MS + 1 - elapsed
    {
      IterationFacts(EMPTY_MILE_BACKOFF_MS, backoff.index, elapsed, events(i));
      var t := Iterate(backoff, elapsed, events(i));
      match t
      case Stop(res) =>
        return RunEnd(res, i, elapsed);
      case Next(_, now) =>
        EmptyMileDelaysAtLeastPause();
        elapsed := now;
        i := i + 1;
    }
  }

  /** Time spent by `n` iterations from `i` that each end in a transient
      error: each takes its own duration plus the next backoff delay. */
  function StreakTime(events: nat -> Event, i: nat, index: int, n: nat): nat
    requires index >= -1
    decreases n
  {
    if n == 0 then 0
    else events(i).duration + DelayAt(EMPTY_MILE_BACKOFF_MS, index + 1).value
         + StreakTime(events, i + 1, index + 1, n - 1)
  }

  /** Iterations `i` to `i + n - 1` each end in a transient error. */
  predicate TransientFrom(events: nat -> Event, i: nat, n: nat) {
    forall k :: i <= k < i + n ==> events(k).outcome.Threw? && IsTransient(events(k).outcome.error)
  }

  /** A streak of `n` transient errors that ends before the deadline is
      retried: each error advances the backoff exactly once and sleeps its
      delay, and the run carries on from there. */
  lemma {:induction false} TransientStreak(events: nat -> Event, i: nat, elapsed: nat, index: int, n: nat)
    requires index >= -1 && TransientFrom(events, i, n)
    requires n > 0 ==> elapsed + StreakTime(events, i, index, n - 1) <= MAX_ELAPSED_MS
    ensures Drive(events, i, elapsed, index)
         == Drive(events, i + n, elapsed + StreakTime(events, i, index, n), index + n)
    decreases n, 1
  {
    if n > 0 {
      assert events(i).outcome.Threw? && IsTransient(events(i).outcome.error);
      TransientStep(events, i, elapsed, index);
      StreakRest(events, i, elapsed, index, n);
    }
  }

  /** The streak after its first error. */
  lemma {:induction false} StreakRest(events: nat -> Event, i: nat, elapsed: nat, index: int, n: nat)
    requires index >= -1 && n > 0 && TransientFrom(events, i, n)
    requires elapsed + StreakTime(events, i, index, n - 1) <= MAX_ELAPSED_MS
    ensures Drive(events, i + 1, elapsed + events(i).duration + DelayAt(EMPTY_MILE_BACKOFF_MS, index + 1).value, index + 1)
         == Drive(events, i + n, elapsed + StreakTime(events, i, index, n), index + n)
    decreases n, 0
  {
    var now := elapsed + events(i).duration + DelayAt(EMPTY_MILE_BACKOFF_MS, index + 1).value;
    StreakShift(events, i, elapsed, index, n);
    TransientStreak(events, i + 1, now, index + 1, n - 1);
    DriveAt(events, i + 1 + (n - 1), now + StreakTime(events, i + 1, index + 1, n - 1), index + 1 + (n - 1),
            i + n, elapsed + StreakTime(events, i, index, n), index + n);
  }

  /** The rest of a streak is a streak that starts one error later, with the
      clock and the cursor moved on by that error. */
  lemma StreakShift(events: nat -> Event, i: nat, elapsed: nat, index: int, n: nat)
    requires index >= -1 && n > 0 && TransientFrom(events, i, n)
    requires elapsed + StreakTime(events, i, index, n - 1) <= MAX_ELAPSED_MS
    ensures var now := elapsed + events(i).duration + DelayAt(EMPTY_MILE_BACKOFF_MS, index + 1).value;
            && TransientFrom(events, i + 1, n - 1)
            && (n - 1 > 0 ==> now + StreakTime(events, i + 1, index + 1, n - 1 - 1) <= MAX_ELAPSED_MS)
            && now + StreakTime(events, i + 1, index + 1, n - 1) == elapsed + StreakTime(events, i, index, n)
  {
    if n > 1 {
      var now := elapsed + events(i).duration + DelayAt(EMPTY_MILE_BACKOFF_MS, index + 1).value;
      assert now + StreakTime(events, i + 1, index + 1, n - 1 - 1) == elapsed + StreakTime(events, i, index, n - 1);
    }
  }

  /** Drive at equal arguments, however they are written. */
  lemma DriveAt(events: nat -> Event, i: nat, elapsed: nat, index: int, i': nat, elapsed': nat, index': int)
    requires index >= -1 && i == i' && elapsed == elapsed' && index == index'
    ensures Drive(events, i, elapsed, index) == Drive(events, i', elapsed', index')
  {
  }

  /** One transient error before the deadline: a single backoff step. */
  lemma TransientStep(events: nat -> Event, i: nat, elapsed: nat, index: int)
    requires index >= -1 && elapsed <= MAX_ELAPSED_MS
    requires events(i).outcome.Threw? && IsTransient(events(i).outcome.error)
    ensures Drive(events, i, elapsed, index)
         == Drive(events, i + 1, elapsed + events(i).duration + DelayAt(EMPTY_MILE_BACKOFF_MS, index + 1).value, index + 1)
  {
    IterationBySignal(EMPTY_MILE_BACKOFF_MS, index, elapsed, events(i));
  }

  /** Any other exception raised by run_next before the deadline (one of the
      script's own, or a failure of the page layer such as `PageError`)
      escapes main at once: the run ends with it on that iteration. */
  lemma NonTransientErrorEndsRun(events: nat -> Event, i: nat, elapsed: nat, index: int, e: Error)
    requires index >= -1 && elapsed <= MAX_ELAPSED_MS
    requires events(i).outcome == Threw(e) && !IsTransient(e)
    ensures Drive(events, i, elapsed, index) == RunEnd(Fatal(e), i, elapsed)
  {
  }

  /** Transient errors on the first `n` iterations followed by the cookie,
      all within the deadline, give a successful run that prints the payload
      after exactly `n` retried iterations. */
  lemma TransientsThenCookie(events: nat -> Event, startup: nat, n: nat, payload: Option<string>)
    requires TransientFrom(events, 0, n)
    requires events(n).outcome == Signalled(ALL_DONE_COOKIE_FOUND, payload)
    requires startup + StreakTime(events, 0, -1, n) <= MAX_ELAPSED_MS
    ensures Drive(events, 0, startup, -1) == RunEnd(Emitted(payload), n, startup + StreakTime(events, 0, -1, n))
  {
    if n > 0 {
      StreakTimeGrows(events, 0, -1, n - 1);
    }
    TransientStreak(events, 0, startup, -1, n);
  }

  lemma {:induction false} StreakTimeGrows(events: nat -> Event, i: nat, index: int, n: nat)
    requires index >= -1
    ensures StreakTime(events, i, index, n) <= StreakTime(events, i, index, n + 1)
    decreases n
  {
    if n > 0 {
      StreakTimeGrows(events, i + 1, index + 1, n - 1);
    }
  }

  /** Events whose signals are among the four codes (and which do not raise
      the AssertionError themselves) never reach the AssertionError branch. */
  lemma {:induction false} KnownSignalsNeverAssert(events: nat -> Event, i: nat, elapsed: nat, index: int)
    requires index >= -1
    requires forall k :: events(k).outcome.Signalled? ==> IsSignal(events(k).outcome.code)
    requires forall k :: events(k).outcome != Threw(UnknownResult)
    ensures Drive(events, i, elapsed, index).result != Fatal(UnknownResult)
    decreases MAX_ELAPSED_MS + 1 - elapsed
  {
    EmptyMileDelaysAtLeastPause();
    match Iteration(EMPTY_MILE_BACKOFF_MS, index, elapsed, events(i))
    case Stop(res) =>
    case Next(idx, now) =>
      KnownSignalsNeverAssert(events, i + 1, now, idx);
  }

  /** As written, the MFA poll is given 15000 seconds: when the approval
      never arrives it evaluates the check 50001 times and sleeps more than
      four hours, although the whole run was meant to give up after 60
      seconds (the deadline is only checked between iterations). */
  lemma MfaPollAsWrittenOutlastsDeadline()
    ensures MfaPoll((j: nat) => Returned(false), MFA_POLL_TIMEOUT_AS_WRITTEN_MS) == PollOutcome(TimedOut, 50_001, 15_000_600)
    ensures MfaPoll((j: nat) => Returned(false), MFA_POLL_TIMEOUT_AS_WRITTEN_MS).waited > 250 * MAX_ELAPSED_MS
  {
    var never := (j: nat) => Returned(false);
    assert MFA_POLL_TIMEOUT_AS_WRITTEN_MS / MFA_POLL_DELAY_MS == 50_000;
    PollTimesOut(never, MFA_POLL_TIMEOUT_AS_WRITTEN_MS, MFA_POLL_DELAY_MS, MFA_POLL_INITIAL_DELAY_MS);
  }

  /** With the 15-second timeout the poll is meant to have, it ends after at
      most 51 evaluations and about 15.6 seconds of sleeping, well inside the
      run's deadline, whatever the check answers. */
  lemma MfaPollWithinDeadline(mfaCheck: nat -> Evaluation)
    ensures MfaPoll(mfaCheck, MFA_POLL_TIMEOUT_MS).evaluations <= 51
    ensures MfaPoll(mfaCheck, MFA_POLL_TIMEOUT_MS).waited <= 15_600 < MAX_ELAPSED_MS
  {
    assert MFA_POLL_TIMEOUT_MS / MFA_POLL_DELAY_MS == 50;
    PollClosedForm(mfaCheck, MFA_POLL_TIMEOUT_MS, MFA_POLL_DELAY_MS, MFA_POLL_INITIAL_DELAY_MS);
    var k := FirstDecisive(mfaCheck, 0, Budget(MFA_POLL_TIMEOUT_MS, MFA_POLL_DELAY_MS));
    if k < 51 {
      assert k * 300 <= 15_000;
    }
  }

  /** The timeout decides the code step for a check that first holds on its
      52nd evaluation: the poll as written succeeds and the step is done,
      while with the 15-second timeout the poll has given up one evaluation
      earlier and raises its TimeoutError. */
  lemma LateCodeCheckDependsOnTimeout(mfaCheck: nat -> Evaluation)
    requires forall j :: 0 <= j < 51 ==> mfaCheck(j) == Returned(false)
    requires mfaCheck(51) == Returned(true)
    ensures MfaVerdict(MfaPoll(mfaCheck, MFA_POLL_TIMEOUT_AS_WRITTEN_MS).status, false) == Signalled(TASK_DONE, None)
    ensures MfaVerdict(MfaPoll(mfaCheck, MFA_POLL_TIMEOUT_MS).status, false) == Threw(PollTimeout(MFA_CHECK_ID))
  {
    assert MFA_POLL_TIMEOUT_AS_WRITTEN_MS / MFA_POLL_DELAY_MS == 50_000;
    PollSucceedsOnEvaluation(mfaCheck, MFA_POLL_TIMEOUT_AS_WRITTEN_MS, MFA_POLL_DELAY_MS, MFA_POLL_INITIAL_DELAY_MS, 52);
    assert MFA_POLL_TIMEOUT_MS / MFA_POLL_DELAY_MS == 50;
    PollTimesOut(mfaCheck, MFA_POLL_TIMEOUT_MS, MFA_POLL_DELAY_MS, MFA_POLL_INITIAL_DELAY_MS);
  }
}
