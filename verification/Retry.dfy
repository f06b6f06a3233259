/** The retry loop around every RPC-bound block range (retry.go). Durations are whole nanoseconds. */
module Retry {
  import opened Words

  datatype RetryPolicy = RetryPolicy(maxRetries: int, initialBackoff: int, maxBackoff: int, backoffFactor: real)

  const SECOND: int := 1_000_000_000

  /** Non-positive settings fall back to the production defaults. */
  function Normalize(p: RetryPolicy): RetryPolicy {
    RetryPolicy(
      if p.maxRetries <= 0 then 5 else p.maxRetries,
      if p.initialBackoff <= 0 then SECOND else p.initialBackoff,
      if p.maxBackoff <= 0 then 30 * SECOND else p.maxBackoff,
      if p.backoffFactor <= 0.0 then 2.0 else p.backoffFactor)
  }

  ghost predicate Usable(p: RetryPolicy) {
    p.maxRetries > 0 && p.initialBackoff > 0 && p.maxBackoff > 0 && p.backoffFactor > 0.0
  }

  datatype OpResult = Done | Transient | Permanent

  /** What the environment does around one attempt: context state before and after the call, the call, the sleep. */
  datatype Attempt = Attempt(cancelledBefore: bool, result: OpResult, cancelledAfter: bool, sleepFails: bool)

  datatype Outcome = Succeeded | Cancelled | Rejected | SleepInterrupted | Exhausted

  function Clip(x: real, limit: int): int {
    if x.Floor > limit then limit else x.Floor
  }

  function Times(factor: real): real -> real {
    x => x * factor
  }

  /** Waits under an arbitrary growth law: each one is scaled, truncated to whole nanoseconds and capped. */
  function Waits(grow: real -> real, first: int, limit: int, k: nat): int {
    if k == 0 then first else Clip(grow(Waits(grow, first, limit, k - 1) as real), limit)
  }

  /** The schedule before truncation and capping. */
  function Growth(grow: real -> real, first: int, k: nat): real {
    if k == 0 then first as real else grow(Growth(grow, first, k - 1))
  }

  function NextBackoff(p: RetryPolicy, backoff: int): int {
    Clip(Times(p.backoffFactor)(backoff as real), p.maxBackoff)
  }

  function Backoff(p: RetryPolicy, k: nat): int {
    Waits(Times(p.backoffFactor), p.initialBackoff, p.maxBackoff, k)
  }

  /** initial * factor^k. */
  function Ideal(p: RetryPolicy, k: nat): real {
    Growth(Times(p.backoffFactor), p.initialBackoff, k)
  }

  /** Attempts i is followed by another one. */
  predicate Continues(a: Attempt) {
    !a.cancelledBefore && a.result == Transient && !a.cancelledAfter && !a.sleepFails
  }

  /** The attempt at which the loop ends, looking from attempt i on. */
  function LastAttempt(environment: nat -> Attempt, limit: nat, i: nat): nat
    requires i < limit
    decreases limit - i
  {
    if i + 1 == limit || !Continues(environment(i)) then i else LastAttempt(environment, limit, i + 1)
  }

  /** What the caller is told when the loop ends at an attempt; the final one is not followed by a sleep. */
  function Verdict(a: Attempt, final: bool): Outcome {
    if a.cancelledBefore then Cancelled
    else if a.result == Done then Succeeded
    else if a.cancelledAfter then Cancelled
    else if a.result == Permanent then Rejected
    else if final then Exhausted
    else SleepInterrupted
  }

  lemma {:induction false} LastAttemptIsFirstToEnd(environment: nat -> Attempt, limit: nat, i: nat)
    requires i < limit
    ensures var k := LastAttempt(environment, limit, i);
            && i <= k < limit && (forall j :: i <= j < k ==> Continues(environment(j)))
            && (k + 1 < limit ==> !Continues(environment(k)))
    decreases limit - i
  {
    if i + 1 < limit && Continues(environment(i)) {
      LastAttemptIsFirstToEnd(environment, limit, i + 1);
    }
  }

  /** Nobody cancels and no sleep fails. */
  ghost predicate Calm(environment: nat -> Attempt, limit: nat) {
    forall i :: 0 <= i < limit ==> IsCalm(environment(i))
  }

  predicate IsCalm(a: Attempt) {
    !a.cancelledBefore && !a.cancelledAfter && !a.sleepFails
  }

  /** Then the range is retried until the first attempt that does not fail transiently, and that attempt decides. */
  lemma CalmRunIsDecidedByResults(environment: nat -> Attempt, limit: nat)
    requires limit > 0 && Calm(environment, limit)
    ensures var k := LastAttempt(environment, limit, 0);
            var outcome := Verdict(environment(k), k + 1 == limit);
            && k < limit && (forall j :: 0 <= j < k ==> environment(j).result == Transient)
            && (outcome == Succeeded <==> environment(k).result == Done)
            && (outcome == Rejected <==> environment(k).result == Permanent)
            && (outcome == Exhausted <==> k + 1 == limit && environment(k).result == Transient)
            && outcome != Cancelled && outcome != SleepInterrupted
  {
    LastAttemptIsFirstToEnd(environment, limit, 0);
    assert IsCalm(environment(LastAttempt(environment, limit, 0)));
  }

  class Retryer {
    const policy: RetryPolicy

    constructor (p: RetryPolicy)
      ensures policy == Normalize(p) && Usable(policy)
      ensures policy.maxRetries == (if p.maxRetries > 0 then p.maxRetries else 5)
      ensures policy.initialBackoff == (if p.initialBackoff > 0 then p.initialBackoff else 1_000_000_000)
      ensures policy.maxBackoff == (if p.maxBackoff > 0 then p.maxBackoff else 30_000_000_000)
      ensures policy.backoffFactor == (if p.backoffFactor > 0.0 then p.backoffFactor else 2.0)
    {
      policy := Normalize(p);
    }

    /** environment[i] describes attempt i + 1. */
    method RetryRange(environment: nat -> Attempt) returns (outcome: Outcome, calls: nat, sleeps: seq<int>)
      requires Usable(policy)
      // the outcome, the calls and the sleeps are decided by the attempt at which the loop ends
      ensures var k := LastAttempt(environment, policy.maxRetries, 0);
              && outcome == Verdict(environment(k), k + 1 == policy.maxRetries)
              && calls == (if environment(k).cancelledBefore then k else k + 1)
              && |sleeps| == (if outcome == SleepInterrupted then k + 1 else k)
      // at most maxRetries calls, and a sleep only between two calls
      ensures calls <= policy.maxRetries && |sleeps| <= policy.maxRetries - 1
      ensures |sleeps| <= calls <= |sleeps| + 1
      // success is reported exactly when the last call succeeded
      ensures outcome == Succeeded <==> calls > 0 && environment(calls - 1).result == Done
      // every earlier attempt failed transiently: a permanent error or a cancellation stops the loop at once
      ensures forall i :: 0 <= i < calls - 1 ==>
                && environment(i).result == Transient && !environment(i).cancelledBefore && !environment(i).cancelledAfter
                && !environment(i).sleepFails
      // the last call decides: a cancellation comes before a permanent error, and both before a sleep
      ensures outcome == Rejected <==>
                calls > 0 && environment(calls - 1).result == Permanent && !environment(calls - 1).cancelledAfter
      ensures calls > 0 && environment(calls - 1).result != Done && environment(calls - 1).cancelledAfter ==> outcome == Cancelled
      ensures outcome == Exhausted <==>
                && calls == policy.maxRetries && environment(calls - 1).result == Transient
                && !environment(calls - 1).cancelledAfter
      ensures outcome == SleepInterrupted <==>
                && 0 < calls < policy.maxRetries && environment(calls - 1).result == Transient
                && !environment(calls - 1).cancelledAfter && environment(calls - 1).sleepFails
      ensures outcome == SleepInterrupted ==> |sleeps| == calls
      ensures outcome == Cancelled ==>
                || (environment(calls).cancelledBefore && |sleeps| == calls)
                || (calls > 0 && environment(calls - 1).cancelledAfter)
      ensures environment(0).cancelledBefore ==> calls == 0 && outcome == Cancelled
      // the k-th sleep is the k-th backoff
      ensures forall k :: 0 <= k < |sleeps| ==> sleeps[k] == Backoff(policy, k)
    {
      var backoff := policy.initialBackoff;
      calls, sleeps := 0, [];
      var attempt := 1;
      while attempt <= policy.maxRetries
        invariant 1 <= attempt <= policy.maxRetries + 1
        invariant calls == attempt - 1
        invariant |sleeps| == if attempt <= policy.maxRetries then calls else calls - 1
        invariant attempt <= policy.maxRetries ==> backoff == Backoff(policy, attempt - 1)
        invariant forall i :: 0 <= i < calls - 1 ==> Continues(environment(i))
        invariant attempt <= policy.maxRetries && calls > 0 ==> Continues(environment(calls - 1))
        invariant calls > 0 ==> environment(calls - 1).result == Transient
        invariant attempt <= policy.maxRetries ==>
                    LastAttempt(environment, policy.maxRetries, attempt - 1) == LastAttempt(environment, policy.maxRetries, 0)
        invariant attempt > policy.maxRetries ==>
                    && LastAttempt(environment, policy.maxRetries, 0) == calls - 1
                    && Verdict(environment(calls - 1), true) == Exhausted && !environment(calls - 1).cancelledBefore
        invariant forall k :: 0 <= k < |sleeps| ==> sleeps[k] == Backoff(policy, k)
      {
        var now := environment(attempt - 1);
        if now.cancelledBefore {
          return Cancelled, calls, sleeps;
        }
        calls := calls + 1;
        if now.result == Done {
          return Succeeded, calls, sleeps;
        }
        if now.cancelledAfter {
          return Cancelled, calls, sleeps;
        }
        if now.result == Permanent {
          return Rejected, calls, sleeps;
        }
        if attempt < policy.maxRetries {
          sleeps := sleeps + [backoff];
          if now.sleepFails {
            return SleepInterrupted, calls, sleeps;
          }
          backoff := NextBackoff(policy, backoff);
        }
        attempt := attempt + 1;
      }
      outcome := Exhausted;
    }
  }

  // ---- What the backoff sequence is ------------------------------------------------------------

  function Cap(x: real, limit: int): real {
    if x <= limit as real then x else limit as real
  }

  ghost predicate Whole(x: real) {
    x == x.Floor as real
  }

  ghost predicate Expanding(grow: real -> real) {
    && (forall x: real :: x >= 0.0 ==> x <= grow(x))
    && (forall x: real, y: real :: 0.0 <= x <= y ==> grow(x) <= grow(y))
  }

  lemma TimesIsExpanding(factor: real)
    requires factor >= 1.0
    ensures Expanding(Times(factor))
  {
    forall x: real | x >= 0.0
      ensures x <= Times(factor)(x)
    {
      assert x * (factor - 1.0) >= 0.0;
    }
    forall x: real, y: real | 0.0 <= x <= y
      ensures Times(factor)(x) <= Times(factor)(y)
    {
      assert (y - x) * factor >= 0.0;
    }
  }

  lemma {:induction false} WaitsBounds(grow: real -> real, first: int, limit: int, k: nat)
    requires Expanding(grow) && 0 < first <= limit
    ensures first <= Waits(grow, first, limit, k) <= limit
    ensures Waits(grow, first, limit, k) as real <= Growth(grow, first, k)
    ensures Waits(grow, first, limit, k) <= Waits(grow, first, limit, k + 1)
  {
    if k > 0 {
      WaitsBounds(grow, first, limit, k - 1);
    }
  }

  ghost predicate WholeUntil(grow: real -> real, first: int, limit: int) {
    forall k: nat :: Growth(grow, first, k) < limit as real ==> Whole(Growth(grow, first, k))
  }

  /** Every wait equals the scheduled value or the cap. */
  ghost predicate ExponentialUntil(grow: real -> real, first: int, limit: int) {
    forall k: nat :: Waits(grow, first, limit, k) as real == Cap(Growth(grow, first, k), limit)
  }

  lemma {:induction false} WholeGrowthIsExact(grow: real -> real, first: int, limit: int, k: nat)
    requires Expanding(grow) && 0 < first <= limit && WholeUntil(grow, first, limit)
    ensures Growth(grow, first, k) >= 0.0
    ensures Waits(grow, first, limit, k) as real == Cap(Growth(grow, first, k), limit)
  {
    if k > 0 {
      WholeGrowthIsExact(grow, first, limit, k - 1);
      var x := Growth(grow, first, k - 1);
      assert Growth(grow, first, k) == grow(x);
      if x > limit as real {
        assert limit as real <= grow(limit as real) <= grow(x);
      }
    }
  }

  ghost predicate Growing(p: RetryPolicy) {
    Usable(p) && p.backoffFactor >= 1.0 && p.initialBackoff <= p.maxBackoff
  }

  /** The waits never shrink, stay between the first wait and the cap, and never exceed the exponential schedule. */
  lemma BackoffBounds(p: RetryPolicy, k: nat)
    requires Growing(p)
    ensures p.initialBackoff <= Backoff(p, k) <= Backoff(p, k + 1) <= p.maxBackoff
    ensures Backoff(p, k) as real <= Ideal(p, k)
  {
    TimesIsExpanding(p.backoffFactor);
    WaitsBounds(Times(p.backoffFactor), p.initialBackoff, p.maxBackoff, k);
    WaitsBounds(Times(p.backoffFactor), p.initialBackoff, p.maxBackoff, k + 1);
  }

  /** The documented schedule min(initial * factor^k, max) holds for every wait exactly when that schedule is made of
      whole nanoseconds until it reaches the cap. */
  lemma BackoffIsExponentialExactlyWhenWhole(p: RetryPolicy)
    requires Growing(p)
    ensures ExponentialUntil(Times(p.backoffFactor), p.initialBackoff, p.maxBackoff)
            <==> WholeUntil(Times(p.backoffFactor), p.initialBackoff, p.maxBackoff)
  {
    TimesIsExpanding(p.backoffFactor);
    ExactExactlyWhenWhole(Times(p.backoffFactor), p.initialBackoff, p.maxBackoff);
  }

  lemma ExactExactlyWhenWhole(grow: real -> real, first: int, limit: int)
    requires Expanding(grow) && 0 < first <= limit
    ensures ExponentialUntil(grow, first, limit) <==> WholeUntil(grow, first, limit)
  {
    if WholeUntil(grow, first, limit) {
      forall k: nat
        ensures Waits(grow, first, limit, k) as real == Cap(Growth(grow, first, k), limit)
      {
        WholeGrowthIsExact(grow, first, limit, k);
      }
    } else {
      var k: nat :| Growth(grow, first, k) < limit as real && !Whole(Growth(grow, first, k));
      assert Whole(Waits(grow, first, limit, k) as real);
    }
  }

  /** A whole factor, such as the default 2.0, always gives the documented schedule. */
  lemma WholeFactorIsExponential(p: RetryPolicy, k: nat)
    requires Growing(p) && Whole(p.backoffFactor)
    ensures Backoff(p, k) as real == Cap(Ideal(p, k), p.maxBackoff)
  {
    var grow := Times(p.backoffFactor);
    TimesIsExpanding(p.backoffFactor);
    assert forall x: real :: Whole(x) ==> Whole(grow(x)) by {
      forall x: real | Whole(x)
        ensures Whole(grow(x))
      {
        WholeProduct(x, p.backoffFactor, grow(x));
      }
    }
    assert WholeUntil(grow, p.initialBackoff, p.maxBackoff) by {
      forall j: nat
        ensures Whole(Growth(grow, p.initialBackoff, j))
      {
        GrowthIsWhole(grow, p.initialBackoff, j);
      }
    }
    WholeGrowthIsExact(grow, p.initialBackoff, p.maxBackoff, k);
  }

  lemma WholeProduct(x: real, y: real, product: real)
    requires Whole(x) && Whole(y) && product == x * y
    ensures Whole(product)
  {
    var n, m := x.Floor, y.Floor;
    assert product == (n * m) as real;
  }

  lemma {:induction false} GrowthIsWhole(grow: real -> real, first: int, k: nat)
    requires forall x: real :: Whole(x) ==> Whole(grow(x))
    ensures Whole(Growth(grow, first, k))
  {
    if k > 0 {
      GrowthIsWhole(grow, first, k - 1);
    }
  }

  /** With factor 1.5 and a one-nanosecond start the wait never grows. */
  lemma FractionalFactorStalls()
    ensures var p := RetryPolicy(5, 1, 100, 1.5);
            Growing(p) && Backoff(p, 2) == 1 && Cap(Ideal(p, 2), p.maxBackoff) == 2.25
  {
    var p := RetryPolicy(5, 1, 100, 1.5);
    assert Backoff(p, 0) == 1;
    assert Backoff(p, 1) == 1;
    assert Ideal(p, 1) == 1.5;
  }

  function Sum(s: seq<int>): int {
    if s == [] then 0 else Sum(s[..|s| - 1]) + s[|s| - 1]
  }

  lemma {:induction false} SumBound(s: seq<int>, limit: int)
    requires forall i :: 0 <= i < |s| ==> 0 <= s[i] <= limit
    ensures 0 <= Sum(s) <= |s| * limit
  {
    if s != [] {
      SumBound(s[..|s| - 1], limit);
      assert |s| * limit == (|s| - 1) * limit + limit;
    }
  }

  lemma ProductMonotone(x: int, y: int, factor: int)
    requires x <= y && factor >= 0
    ensures x * factor <= y * factor
  {
    assert (y - x) * factor >= 0;
  }

  /** The total time slept by one call of RetryRange is bounded by the policy alone. */
  lemma TotalSleepBound(p: RetryPolicy, sleeps: seq<int>)
    requires Growing(p) && |sleeps| <= p.maxRetries - 1
    requires forall k :: 0 <= k < |sleeps| ==> sleeps[k] == Backoff(p, k)
    ensures 0 <= Sum(sleeps) <= (p.maxRetries - 1) * p.maxBackoff
  {
    forall k | 0 <= k < |sleeps|
      ensures 0 <= sleeps[k] <= p.maxBackoff
    {
      BackoffBounds(p, k);
    }
    SumBound(sleeps, p.maxBackoff);
    ProductMonotone(|sleeps|, p.maxRetries - 1, p.maxBackoff);
  }
}
