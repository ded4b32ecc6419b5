/** `wait_for_condition`: a bounded polling loop. The predicate is given as the
    stream of what its successive evaluations do, and sleeping is modelled by
    adding up the milliseconds slept. */
module Poller {
  import opened Common

  /** What one call of the predicate supplier did: it returned a boolean or it
      raised an exception. */
  datatype Evaluation = Returned(holds: bool) | Raised(error: Error)

  /** A failed attempt: the predicate returned false, or raised an error the
      poller classifies as transient. Both cost one delay. */
  predicate Failed(e: Evaluation) {
    e == Returned(false) || (e.Raised? && IsTransient(e.error))
  }

  /** Every evaluation is exactly one of: the predicate held, a failed
      attempt, or an error that aborts the poll. */
  lemma EvaluationCases(e: Evaluation)
    ensures e == Returned(true) <==> !Failed(e) && !e.Raised?
    ensures e.Raised? && !IsTransient(e.error) <==> !Failed(e) && e != Returned(true)
  {
  }

  /** The poller retries exactly the engine's navigation error, at the cost
      of one delay; any other error ends the poll as its result, unchanged. */
  lemma PollRetriesOnlyEngineErrors(supplier: nat -> Evaluation, timeout: nat, delay: nat, attempts: nat, waited: nat, e: Error)
    requires delay > 0 && attempts < Budget(timeout, delay) && supplier(attempts) == Raised(e)
    ensures e.PlaywrightError? ==>
              PollFrom(supplier, timeout, delay, attempts, waited) == PollFrom(supplier, timeout, delay, attempts + 1, waited + delay)
    ensures !e.PlaywrightError? ==>
              PollFrom(supplier, timeout, delay, attempts, waited) == PollOutcome(Aborted(e), attempts + 1, waited)
  {
  }

  /** How the poll ended: the predicate held, the attempts ran out (Python
      raises TimeoutError), or an exception escaped the poller. */
  datatype PollStatus = Succeeded | TimedOut | Aborted(error: Error)

  /** The status, how many times the predicate was evaluated and how many
      milliseconds the poller slept in all. */
  datatype PollOutcome = PollOutcome(status: PollStatus, evaluations: nat, waited: nat)

  /** The number of evaluations the loop allows: `attempts_cnt` runs from 0 up
      to and including timeout / delay. */
  function Budget(timeout: nat, delay: nat): (b: nat)
    requires delay > 0
    ensures b >= 1
  {
    timeout / delay + 1
  }

  /** The status that an evaluation other than a failed attempt ends the poll with. */
  function Verdict(e: Evaluation): (s: PollStatus)
    requires !Failed(e)
    ensures s == Succeeded <==> e == Returned(true)
    ensures s.Aborted? <==> e.Raised?
    ensures s.Aborted? ==> s.error == e.error && !IsTransient(s.error)
    ensures s != TimedOut
  {
    match e
    case Returned(_) => Succeeded
    case Raised(err) => Aborted(err)
  }

  /** The loop of wait_for_condition from the point where `attempts` attempts
      have failed and `waited` milliseconds have been slept. */
  function PollFrom(supplier: nat -> Evaluation, timeout: nat, delay: nat, attempts: nat, waited: nat): (r: PollOutcome)
    requires delay > 0
    ensures r.status.Aborted? ==> !IsTransient(r.status.error)
    ensures r.waited >= waited
    decreases timeout / delay + 1 - attempts
  {
    if attempts > timeout / delay then
      PollOutcome(TimedOut, attempts, waited)
    else
      match supplier(attempts)
      case Returned(true) => PollOutcome(Succeeded, attempts + 1, waited)
      case Returned(false) => PollFrom(supplier, timeout, delay, attempts + 1, waited + delay)
      case Raised(err) =>
        if IsTransient(err) then PollFrom(supplier, timeout, delay, attempts + 1, waited + delay)
        else PollOutcome(Aborted(err), attempts + 1, waited)
  }

  /** The whole of wait_for_condition. `timeout_seconds / delay_seconds` with a
      zero delay raises ZeroDivisionError before anything else happens; the
      initial delay is slept once, only when it is positive. */
  function Poll(supplier: nat -> Evaluation, timeout: nat, delay: nat, initialDelay: nat): (r: PollOutcome)
    ensures r.status.Aborted? ==> !IsTransient(r.status.error)
  {
    if delay == 0 then PollOutcome(Aborted(ZeroDivision), 0, 0)
    else PollFrom(supplier, timeout, delay, 0, initialDelay)
  }

  /** The index of the first evaluation in [from, limit) that is not a failed
      attempt, or `limit` when they all fail. */
  function FirstDecisive(supplier: nat -> Evaluation, from: nat, limit: nat): (k: nat)
    requires from <= limit
    ensures from <= k <= limit
    ensures forall j :: from <= j < k ==> Failed(supplier(j))
    ensures k < limit ==> !Failed(supplier(k))
    decreases limit - from
  {
    if from == limit || !Failed(supplier(from)) then from
    else FirstDecisive(supplier, from + 1, limit)
  }

  /** One unfolding of the loop: a failed attempt within the budget costs one
      delay and moves on to the next evaluation. */
  lemma PollFromFailedAttempt(supplier: nat -> Evaluation, timeout: nat, delay: nat, attempts: nat, waited: nat)
    requires delay > 0 && attempts < Budget(timeout, delay) && Failed(supplier(attempts))
    ensures PollFrom(supplier, timeout, delay, attempts, waited)
         == PollFrom(supplier, timeout, delay, attempts + 1, waited + delay)
  {
  }

  /** One unfolding of the loop: any other evaluation within the budget ends
      the poll. */
  lemma PollFromDecisiveAttempt(supplier: nat -> Evaluation, timeout: nat, delay: nat, attempts: nat, waited: nat)
    requires delay > 0 && attempts < Budget(timeout, delay) && !Failed(supplier(attempts))
    ensures PollFrom(supplier, timeout, delay, attempts, waited)
         == PollOutcome(Verdict(supplier(attempts)), attempts + 1, waited)
  {
    match supplier(attempts)
    case Returned(holds) =>
      assert holds;
    case Raised(e) =>
      assert !IsTransient(e);
  }

  /** What the loop comes to from a given attempt on: the verdict of the
      first decisive evaluation, or a timeout once the budget is spent. */
  function ClosedForm(supplier: nat -> Evaluation, timeout: nat, delay: nat, attempts: nat, waited: nat): PollOutcome
    requires delay > 0 && attempts <= Budget(timeout, delay)
  {
    var b := Budget(timeout, delay);
    var k := FirstDecisive(supplier, attempts, b);
    if k < b then PollOutcome(Verdict(supplier(k)), k + 1, waited + (k - attempts) * delay)
    else PollOutcome(TimedOut, b, waited + (b - attempts) * delay)
  }

  lemma {:induction false} PollFromClosedForm(supplier: nat -> Evaluation, timeout: nat, delay: nat, attempts: nat, waited: nat)
    requires delay > 0 && attempts <= Budget(timeout, delay)
    ensures PollFrom(supplier, timeout, delay, attempts, waited) == ClosedForm(supplier, timeout, delay, attempts, waited)
    decreases Budget(timeout, delay) - attempts
  {
    var b := Budget(timeout, delay);
    if attempts == b {
      assert FirstDecisive(supplier, attempts, b) == b;
    } else if Failed(supplier(attempts)) {
      PollFromFailedAttempt(supplier, timeout, delay, attempts, waited);
      PollFromClosedForm(supplier, timeout, delay, attempts + 1, waited + delay);
      ClosedFormFailedAttempt(supplier, timeout, delay, attempts, waited);
    } else {
      assert FirstDecisive(supplier, attempts, b) == attempts;
      PollFromDecisiveAttempt(supplier, timeout, delay, attempts, waited);
    }
  }

  lemma ClosedFormFailedAttempt(supplier: nat -> Evaluation, timeout: nat, delay: nat, attempts: nat, waited: nat)
    requires delay > 0 && attempts < Budget(timeout, delay) && Failed(supplier(attempts))
    ensures ClosedForm(supplier, timeout, delay, attempts, waited)
         == ClosedForm(supplier, timeout, delay, attempts + 1, waited + delay)
  {
    var b := Budget(timeout, delay);
    var k := FirstDecisive(supplier, attempts, b);
    assert k == FirstDecisive(supplier, attempts + 1, b);
    MulStep(k - (attempts + 1), delay);
  }

  lemma MulStep(n: nat, d: nat)
    ensures (n + 1) * d == d + n * d
  {
  }

  /** The poll is decided by the first evaluation that is not a failed
      attempt: it ends there after that many evaluations, having slept the
      initial delay once and one delay per failed attempt; when every attempt
      in the budget fails it times out after exactly ⌊timeout/delay⌋ + 1
      evaluations. */
  lemma PollClosedForm(supplier: nat -> Evaluation, timeout: nat, delay: nat, initialDelay: nat)
    requires delay > 0
    ensures var b := Budget(timeout, delay);
            var k := FirstDecisive(supplier, 0, b);
            Poll(supplier, timeout, delay, initialDelay) ==
              if k < b then PollOutcome(Verdict(supplier(k)), k + 1, initialDelay + k * delay)
              else PollOutcome(TimedOut, b, initialDelay + b * delay)
  {
    PollFromClosedForm(supplier, timeout, delay, 0, initialDelay);
  }

  /** The poll always ends after at least one and at most ⌊timeout/delay⌋ + 1
      evaluations, every evaluation but the last was a failed attempt, and it
      times out exactly when no evaluation in the budget succeeded or raised a
      non-transient error. */
  lemma PollBounded(supplier: nat -> Evaluation, timeout: nat, delay: nat, initialDelay: nat)
    requires delay > 0
    ensures var r := Poll(supplier, timeout, delay, initialDelay);
            && 1 <= r.evaluations <= timeout / delay + 1
            && (forall j :: 0 <= j < r.evaluations - 1 ==> Failed(supplier(j)))
            && (r.status == TimedOut <==> forall j :: 0 <= j < timeout / delay + 1 ==> Failed(supplier(j)))
            && (r.status == Succeeded <==> supplier(r.evaluations - 1) == Returned(true))
  {
    PollClosedForm(supplier, timeout, delay, initialDelay);
  }

  /** A predicate that first holds on its K-th evaluation (within the budget)
      succeeds after K evaluations, having slept the initial delay once and
      the per-attempt delay K - 1 times. */
  lemma PollSucceedsOnEvaluation(supplier: nat -> Evaluation, timeout: nat, delay: nat, initialDelay: nat, k: nat)
    requires delay > 0 && 1 <= k <= timeout / delay + 1
    requires forall j :: 0 <= j < k - 1 ==> Failed(supplier(j))
    requires supplier(k - 1) == Returned(true)
    ensures Poll(supplier, timeout, delay, initialDelay) == PollOutcome(Succeeded, k, initialDelay + (k - 1) * delay)
  {
    PollClosedForm(supplier, timeout, delay, initialDelay);
    FirstDecisiveIs(supplier, 0, Budget(timeout, delay), k - 1);
  }

  /** A non-transient error on the K-th evaluation escapes at once: no later
      evaluation happens and no further delay is slept. */
  lemma PollAbortsOnEvaluation(supplier: nat -> Evaluation, timeout: nat, delay: nat, initialDelay: nat, k: nat, e: Error)
    requires delay > 0 && 1 <= k <= timeout / delay + 1
    requires forall j :: 0 <= j < k - 1 ==> Failed(supplier(j))
    requires supplier(k - 1) == Raised(e) && !IsTransient(e)
    ensures Poll(supplier, timeout, delay, initialDelay) == PollOutcome(Aborted(e), k, initialDelay + (k - 1) * delay)
  {
    PollClosedForm(supplier, timeout, delay, initialDelay);
    FirstDecisiveIs(supplier, 0, Budget(timeout, delay), k - 1);
  }

  /** A predicate whose every evaluation in the budget fails makes the poll
      time out after ⌊timeout/delay⌋ + 1 evaluations and as many delays. */
  lemma PollTimesOut(supplier: nat -> Evaluation, timeout: nat, delay: nat, initialDelay: nat)
    requires delay > 0
    requires forall j :: 0 <= j < timeout / delay + 1 ==> Failed(supplier(j))
    ensures Poll(supplier, timeout, delay, initialDelay) ==
            PollOutcome(TimedOut, timeout / delay + 1, initialDelay + (timeout / delay + 1) * delay)
  {
    PollClosedForm(supplier, timeout, delay, initialDelay);
    FirstDecisiveIs(supplier, 0, Budget(timeout, delay), Budget(timeout, delay));
  }

  lemma FirstDecisiveIs(supplier: nat -> Evaluation, from: nat, limit: nat, k: nat)
    requires from <= k <= limit
    requires forall j :: from <= j < k ==> Failed(supplier(j))
    requires k < limit ==> !Failed(supplier(k))
    ensures FirstDecisive(supplier, from, limit) == k
  {
  }

  /** A transient error and a `false` result are interchangeable: two
      predicates that fail on the same evaluations and agree wherever they do
      not fail make the poll end the same way. */
  lemma {:induction false} PollIgnoresTransientErrors(s1: nat -> Evaluation, s2: nat -> Evaluation, timeout: nat, delay: nat, initialDelay: nat)
    requires forall j :: Failed(s1(j)) <==> Failed(s2(j))
    requires forall j :: !Failed(s1(j)) ==> s1(j) == s2(j)
    ensures Poll(s1, timeout, delay, initialDelay) == Poll(s2, timeout, delay, initialDelay)
  {
    if delay > 0 {
      var b := Budget(timeout, delay);
      var k1 := FirstDecisive(s1, 0, b);
      var k2 := FirstDecisive(s2, 0, b);
      FirstDecisiveIs(s2, 0, b, k1);
      PollClosedForm(s1, timeout, delay, initialDelay);
      PollClosedForm(s2, timeout, delay, initialDelay);
    }
  }

  /** The loop of wait_for_condition, step by step. */
  method WaitForCondition(supplier: nat -> Evaluation, timeout: nat, delay: nat, initialDelay: nat)
    returns (r: PollOutcome)
    ensures r == Poll(supplier, timeout, delay, initialDelay)
  {
    if delay == 0 {
      return PollOutcome(Aborted(ZeroDivision), 0, 0);
    }
    var conditionOk := false;
    var attempts: nat := 0;
    var attemptsMax := timeout / delay;
    var waited: nat := 0;
    if initialDelay > 0 {
      waited := waited + initialDelay;
    }
    while !conditionOk && attempts <= attemptsMax
      invariant !conditionOk ==> PollFrom(supplier, timeout, delay, attempts, waited) == Poll(supplier, timeout, delay, initialDelay)
      invariant conditionOk ==> PollOutcome(Succeeded, attempts + 1, waited) == Poll(supplier, timeout, delay, initialDelay)
      decreases attemptsMax + 1 - attempts, if conditionOk then 0 else 1
    {
      match supplier(attempts)
      case Returned(holds) =>
        conditionOk := holds;
        if !conditionOk {
          waited := waited + delay;
          attempts := attempts + 1;
        }
      case Raised(err) =>
        if IsTransient(err) {
          waited := waited + delay;
          attempts := attempts + 1;
        } else {
          return PollOutcome(Aborted(err), attempts + 1, waited);
        }
    }
    if !conditionOk {
      return PollOutcome(TimedOut, attempts, waited);
    }
    return PollOutcome(Succeeded, attempts + 1, waited);
  }
}
