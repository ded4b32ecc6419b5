/** `FixedValuesBackOff`: a cursor over a fixed list of delays (milliseconds)
    that hands the delays out in order and then keeps repeating the last one. */
module BackOff {
  import opened Common

  function Min(a: int, b: int): int {
    if a <= b then a else b
  }

  /** The delay handed out when the cursor stands at `index`:
      `values[min(index, len(values) - 1)]`; with an empty list Python indexes
      `values[-1]` and raises IndexError. */
  function DelayAt(values: seq<nat>, index: nat): (r: Option<nat>)
    ensures r.Some? <==> |values| > 0
    ensures index < |values| ==> r == Some(values[index])
    ensures |values| > 0 && index >= |values| - 1 ==> r == Some(values[|values| - 1])
  {
    if |values| == 0 then None else Some(values[Min(index, |values| - 1)])
  }

  /** The delays returned by `n` calls of next_back_off on a fresh (or just
      reset) object. */
  function Schedule(values: seq<nat>, n: nat): (r: seq<nat>)
    requires |values| > 0
    ensures |r| == n
  {
    if n == 0 then [] else Schedule(values, n - 1) + [DelayAt(values, n - 1).value]
  }

  lemma {:induction false} ScheduleAt(values: seq<nat>, n: nat, k: nat)
    requires |values| > 0 && k < n
    ensures Schedule(values, n)[k] == values[Min(k, |values| - 1)]
  {
    if k < n - 1 {
      ScheduleAt(values, n - 1, k);
    }
  }

  /** The first |values| calls return the configured values, in order. */
  lemma ScheduleReplaysValues(values: seq<nat>)
    requires |values| > 0
    ensures Schedule(values, |values|) == values
  {
    forall k | 0 <= k < |values|
      ensures Schedule(values, |values|)[k] == values[k]
    {
      ScheduleAt(values, |values|, k);
    }
  }

  /** Every call from the |values|-th on returns the last value. */
  lemma ScheduleSaturates(values: seq<nat>, n: nat, k: nat)
    requires |values| > 0 && |values| - 1 <= k < n
    ensures Schedule(values, n)[k] == values[|values| - 1]
  {
    ScheduleAt(values, n, k);
  }

  ghost predicate NonDecreasing(s: seq<nat>) {
    forall i, j :: 0 <= i <= j < |s| ==> s[i] <= s[j]
  }

  /** Configured non-decreasing, the handed-out delays never decrease. */
  lemma ScheduleNonDecreasing(values: seq<nat>, n: nat)
    requires |values| > 0 && NonDecreasing(values)
    ensures NonDecreasing(Schedule(values, n))
  {
    forall i, j | 0 <= i <= j < n
      ensures Schedule(values, n)[i] <= Schedule(values, n)[j]
    {
      ScheduleAt(values, n, i);
      ScheduleAt(values, n, j);
    }
  }

  class FixedValuesBackOff {
    const values: seq<nat>
    var index: int

    ghost predicate Valid()
      reads this
    {
      index >= -1
    }

    constructor (values: seq<nat>)
      ensures Valid()
      ensures this.values == values && index == -1
    {
      this.values := values;
      index := -1;
    }

    /** Advances the cursor and returns the delay under it; the cursor is the
        only state that changes (`values` is constant). */
    method NextBackOff() returns (d: Option<nat>)
      requires Valid()
      modifies this
      ensures Valid()
      ensures index == old(index) + 1
      ensures d == DelayAt(values, index)
    {
      index := index + 1;
      if |values| == 0 {
        d := None;
      } else {
        d := Some(values[Min(index, |values| - 1)]);
      }
    }

    /** Rewinds the cursor to before the first value. */
    method Reset()
      modifies this
      ensures Valid()
      ensures index == -1
    {
      index := -1;
    }
  }

  /** Builds a backoff object and calls next_back_off on it `n` times,
      collecting the delays: the object hands out exactly `Schedule`. */
  method Delays(values: seq<nat>, n: nat) returns (ds: seq<nat>)
    requires |values| > 0
    ensures ds == Schedule(values, n)
  {
    var backoff := new FixedValuesBackOff(values);
    ds := [];
    var k := 0;
    while k < n
      invariant 0 <= k <= n
      invariant backoff.Valid() && backoff.values == values && backoff.index == k - 1
      invariant ds == Schedule(values, k)
    {
      var d := backoff.NextBackOff();
      ds := ds + [d.value];
      k := k + 1;
    }
  }
}
