/** `retry_on_failure`: the decorator that calls a function up to
    `max_retries + 1` times, sleeping with a clamped exponential backoff
    between attempts that raise one of the exceptions it is told to retry.

    The wrapped function is given as `call`, where `call(i)` is the outcome of
    its i-th invocation (0-based); `time.sleep` is not performed but recorded:
    the model returns the list of delays slept. */
module Retry {
  import opened Python
  import opened Errors

  /** The decorator's arguments. Delays are seconds, as exact reals. */
  datatype Policy = Policy(
    maxRetries: int,
    initialDelay: real,
    maxDelay: real,
    backoffFactor: real,
    exceptions: seq<ExceptionClass>)

  /** `retry_on_failure()` with every argument left at its default. */
  const DefaultPolicy := Policy(3, 1.0, 10.0, 2.0, [APIErrorClass])

  /** `time.sleep` rejects a negative length. */
  const NegativeSleep := Foreign("ValueError", "sleep length must be non-negative")

  /** `time.sleep` cannot represent the length as 64-bit nanoseconds. */
  const SleepOverflow := Foreign("OverflowError", "timestamp too large to convert to C _PyTime_t")

  /** The longest length, in seconds, that `time.sleep` accepts: 2^63 - 1 nanoseconds. */
  const MaxSleep: real := 9223372036.854775807

  /** The most negative length, in seconds, that `time.sleep` converts (-2^63
      nanoseconds) before rejecting it as negative. */
  const MinSleep: real := -9223372036.854775808

  /** The exception `time.sleep(d)` raises, if any. CPython first converts the
      length to whole nanoseconds, rounding away from zero, and raises
      `OverflowError` when that falls outside the signed 64-bit range; only
      then does it reject a negative length. */
  function SleepError(d: real): (e: Option<Exception>)
    ensures e.None? <==> 0.0 <= d <= MaxSleep
    ensures e == Some(NegativeSleep) <==> MinSleep <= d < 0.0
    ensures e.Some? ==> e.value == NegativeSleep || e.value == SleepOverflow
  {
    var ns := d * 1_000_000_000.0;
    if ns > 9223372036854775807.0 || ns < -9223372036854775808.0 then Some(SleepOverflow)
    else if d < 0.0 then Some(NegativeSleep)
    else None
  }

  /** `raise None`, reached when the loop body never runs (`max_retries < 0`). */
  const RaiseNone := Foreign("TypeError", "exceptions must derive from BaseException")

  /** Python's `min(a, b)`: the first argument unless the second is strictly smaller. */
  function Min(a: real, b: real): (m: real)
    ensures m <= a && m <= b && (m == a || m == b)
  {
    if b < a then b else a
  }

  /** `delay * backoff_factor`. */
  function Backoff(p: Policy, delay: real): real {
    delay * p.backoffFactor
  }

  /** The delay passed to the k-th sleep (0-based): the initial delay, then each
      previous delay times the factor, clamped at the maximum. */
  function Delay(p: Policy, k: nat): (d: real)
    ensures k > 0 ==> d <= p.maxDelay
  {
    if k == 0 then p.initialDelay else Min(Backoff(p, Delay(p, k - 1)), p.maxDelay)
  }

  /** The attempt raised an exception that the `except exceptions` clause catches. */
  predicate Caught<T>(p: Policy, o: Outcome<T>) {
    o.Raised? && Catches(p.exceptions, o.exc)
  }

  /** What one call of the wrapper did: its outcome, how many times it called
      the wrapped function, and the delays it slept, in order. */
  datatype Trace<T> = Trace(result: Outcome<T>, calls: nat, sleeps: seq<real>)

  /** The first n calls all raised a caught exception, and each was followed by
      one sleep of the scheduled length, which `time.sleep` accepted. */
  ghost predicate RetriedFor<T>(p: Policy, call: nat -> Outcome<T>, n: nat, sleeps: seq<real>) {
    && |sleeps| == n
    && (forall i :: 0 <= i < n ==> Caught(p, call(i)))
    && (forall i :: 0 <= i < n ==> sleeps[i] == Delay(p, i) && SleepError(sleeps[i]).None?)
  }

  /** How the last call decides the result: a value or an uncaught exception
      passes through, a caught exception on the final allowed attempt is
      re-raised, and a caught exception earlier can only end the run when the
      scheduled sleep fails with the exception `time.sleep` raises. */
  ghost predicate EndsWith<T>(p: Policy, last: Outcome<T>, calls: nat, result: Outcome<T>)
    requires 1 <= calls
  {
    if !Caught(p, last) || calls == p.maxRetries + 1 then result == last
    else SleepError(Delay(p, calls - 1)).Some? && result == Raised(SleepError(Delay(p, calls - 1)).value)
  }

  /** The wrapper's contract, stated declaratively. With `max_retries < 0`
      nothing is called and `raise None` fails. Otherwise it makes between 1
      and `max_retries + 1` calls, every call but the last raised a caught
      exception and was followed by one sleep, and the last call decides. */
  ghost predicate IsTraceOf<T>(p: Policy, call: nat -> Outcome<T>, t: Trace<T>) {
    if p.maxRetries < 0 then
      t == Trace(Raised(RaiseNone), 0, [])
    else
      && 1 <= t.calls <= p.maxRetries + 1
      && RetriedFor(p, call, t.calls - 1, t.sleeps)
      && EndsWith(p, call(t.calls - 1), t.calls, t.result)
  }

  lemma RetriedForExtend<T>(p: Policy, call: nat -> Outcome<T>, n: nat, sleeps: seq<real>)
    requires RetriedFor(p, call, n, sleeps)
    requires Caught(p, call(n)) && SleepError(Delay(p, n)).None?
    ensures RetriedFor(p, call, n + 1, sleeps + [Delay(p, n)])
  {
  }

  /** The wrapper: `for retry in range(max_retries + 1)` with the locals `delay`
      and `last_exception`, returning on the first value, letting an uncaught
      exception through, and re-raising the last caught one when the attempts
      run out. */
  method RetryOnFailure<T>(p: Policy, call: nat -> Outcome<T>) returns (result: Outcome<T>, calls: nat, sleeps: seq<real>)
    ensures IsTraceOf(p, call, Trace(result, calls, sleeps))
  {
    var delay := p.initialDelay;
    var lastException: Option<Exception> := None;
    calls, sleeps := 0, [];
    var retry := 0;
    while retry < p.maxRetries + 1
      invariant retry == 0 || retry <= p.maxRetries
      invariant calls == retry
      invariant RetriedFor(p, call, retry, sleeps)
      invariant delay == Delay(p, retry)
      invariant lastException == if retry == 0 then None else Some(call(retry - 1).exc)
      decreases p.maxRetries + 1 - retry
    {
      var outcome := call(retry);
      calls := calls + 1;
      if outcome.Returned? || !Catches(p.exceptions, outcome.exc) {
        return outcome, calls, sleeps;
      }
      lastException := Some(outcome.exc);
      if retry == p.maxRetries {
        break;
      }
      var failure := SleepError(delay);
      if failure.Some? {
        return Raised(failure.value), calls, sleeps;
      }
      RetriedForExtend(p, call, retry, sleeps);
      sleeps := sleeps + [delay];
      delay := Min(Backoff(p, delay), p.maxDelay);
      retry := retry + 1;
    }
    result := if lastException.Some? then Raised(lastException.value) else Raised(RaiseNone);
  }

  /** The contract leaves the wrapper no freedom: one trace per policy and function. */
  lemma TraceIsUnique<T>(p: Policy, call: nat -> Outcome<T>, t1: Trace<T>, t2: Trace<T>)
    requires IsTraceOf(p, call, t1) && IsTraceOf(p, call, t2)
    ensures t1 == t2
  {
    if p.maxRetries >= 0 {
      assert t1.calls == t2.calls;
      assert t1.sleeps == t2.sleeps;
    }
  }

  /** Settings under which `time.sleep` never fails: the delays are never
      negative and never longer than it can represent. */
  predicate SleepableDelays(p: Policy) {
    0.0 <= p.initialDelay <= MaxSleep && 0.0 <= p.maxDelay <= MaxSleep && 0.0 <= p.backoffFactor
  }

  lemma {:induction false} DelaySleepable(p: Policy, k: nat)
    requires SleepableDelays(p)
    ensures 0.0 <= Delay(p, k) <= MaxSleep && SleepError(Delay(p, k)).None?
  {
    if k > 0 {
      DelaySleepable(p, k - 1);
      assert 0.0 <= Backoff(p, Delay(p, k - 1));
    }
  }

  /** When every attempt raises a caught exception and `time.sleep` accepts each
      of the `max_retries` delays between them, exactly `max_retries + 1` calls
      are made, exactly `max_retries` sleeps happen, and the exception of the
      final attempt, not the first, is re-raised. */
  lemma Exhaustion<T>(p: Policy, call: nat -> Outcome<T>, t: Trace<T>)
    requires 0 <= p.maxRetries
    requires forall i :: 0 <= i <= p.maxRetries ==> Caught(p, call(i))
    requires forall i :: 0 <= i < p.maxRetries ==> SleepError(Delay(p, i)).None?
    requires IsTraceOf(p, call, t)
    ensures t.calls == p.maxRetries + 1 && |t.sleeps| == p.maxRetries
    ensures t.result == call(p.maxRetries)
  {
  }

  /** The wrapper stops at the first attempt whose outcome is not caught: a value
      is returned, an uncaught exception propagates. After k caught failures that
      means k + 1 calls and exactly k sleeps (none after the last attempt),
      provided `time.sleep` accepted each of those k delays. */
  lemma StopsAtFirstUncaught<T>(p: Policy, call: nat -> Outcome<T>, k: nat, t: Trace<T>)
    requires k <= p.maxRetries
    requires forall i :: 0 <= i < k ==> Caught(p, call(i))
    requires forall i :: 0 <= i < k ==> SleepError(Delay(p, i)).None?
    requires !Caught(p, call(k))
    requires IsTraceOf(p, call, t)
    ensures t.calls == k + 1 && |t.sleeps| == k
    ensures t.result == call(k)
  {
  }

  /** A sleep that fails ends the run: after k + 1 caught failures, with k
      sleeps that succeeded, a k-th scheduled delay that `time.sleep` refuses
      raises its exception in place of the caught one. */
  lemma SleepFailureEndsRun<T>(p: Policy, call: nat -> Outcome<T>, k: nat, t: Trace<T>)
    requires k < p.maxRetries
    requires forall i :: 0 <= i <= k ==> Caught(p, call(i))
    requires forall i :: 0 <= i < k ==> SleepError(Delay(p, i)).None?
    requires SleepError(Delay(p, k)).Some?
    requires IsTraceOf(p, call, t)
    ensures t.calls == k + 1 && |t.sleeps| == k
    ensures t.result == Raised(SleepError(Delay(p, k)).value)
  {
  }

  /** A negative initial delay (within what `time.sleep` can convert) makes the
      first retry fail inside `time.sleep` with `ValueError`. */
  lemma NegativeInitialDelayAborts<T>(p: Policy, call: nat -> Outcome<T>, t: Trace<T>)
    requires 1 <= p.maxRetries && MinSleep <= p.initialDelay < 0.0
    requires Caught(p, call(0))
    requires IsTraceOf(p, call, t)
    ensures t == Trace(Raised(NegativeSleep), 1, [])
  {
    SleepFailureEndsRun(p, call, 0, t);
  }

  /** An initial delay too long, or too negative, for 64-bit nanoseconds makes
      the first retry fail inside `time.sleep` with `OverflowError`, before
      the sign is looked at. */
  lemma HugeInitialDelayOverflows<T>(p: Policy, call: nat -> Outcome<T>, t: Trace<T>)
    requires 1 <= p.maxRetries && (p.initialDelay > MaxSleep || p.initialDelay < MinSleep)
    requires Caught(p, call(0))
    requires IsTraceOf(p, call, t)
    ensures t == Trace(Raised(SleepOverflow), 1, [])
  {
    SleepFailureEndsRun(p, call, 0, t);
  }

  lemma GrowsByFactor(p: Policy, x: real)
    requires 0.0 <= x && 1.0 <= p.backoffFactor
    ensures x <= Backoff(p, x)
  {
  }

  /** The schedule's bounds: with a factor of at least 1 and an initial delay
      between 0 and the maximum, delays never decrease, never drop below the
      initial delay and never exceed the maximum. */
  lemma {:induction false} DelayMonotone(p: Policy, k: nat)
    requires 1.0 <= p.backoffFactor && 0.0 <= p.initialDelay <= p.maxDelay
    ensures p.initialDelay <= Delay(p, k) <= Delay(p, k + 1) <= p.maxDelay
  {
    if k > 0 {
      DelayMonotone(p, k - 1);
    }
    GrowsByFactor(p, Delay(p, k));
  }

  /** Monotonicity across any distance: an earlier delay is never longer than a later one. */
  lemma {:induction false} DelayOrdered(p: Policy, i: nat, j: nat)
    requires 1.0 <= p.backoffFactor && 0.0 <= p.initialDelay <= p.maxDelay
    requires i <= j
    ensures Delay(p, i) <= Delay(p, j)
    decreases j - i
  {
    if i < j {
      DelayMonotone(p, i);
      DelayOrdered(p, i + 1, j);
    }
  }

  /** The sleeps a run actually makes: each one after the first is at most
      `max_delay`, and under the monotone settings they never decrease. */
  lemma SleepsWithinSchedule<T>(p: Policy, call: nat -> Outcome<T>, t: Trace<T>)
    requires IsTraceOf(p, call, t)
    ensures forall i :: 0 < i < |t.sleeps| ==> t.sleeps[i] <= p.maxDelay
    ensures 1.0 <= p.backoffFactor && 0.0 <= p.initialDelay <= p.maxDelay ==>
      forall i, j :: 0 <= i <= j < |t.sleeps| ==> t.sleeps[i] <= t.sleeps[j]
  {
    if 1.0 <= p.backoffFactor && 0.0 <= p.initialDelay <= p.maxDelay {
      forall i, j | 0 <= i <= j < |t.sleeps|
        ensures t.sleeps[i] <= t.sleeps[j]
      {
        DelayOrdered(p, i, j);
      }
    }
  }

  /** The closed form's partner: the unclamped delay `initial_delay * factor^k`. */
  function Unclamped(p: Policy, k: nat): real {
    if k == 0 then p.initialDelay else Backoff(p, Unclamped(p, k - 1))
  }

  /** Closed form of the schedule: every sleep after the first is
      `min(initial_delay * factor^k, max_delay)`. The first is not clamped. */
  lemma {:induction false} DelayClosedForm(p: Policy, k: nat)
    requires 1.0 <= p.backoffFactor && 0.0 <= p.maxDelay
    requires 1 <= k
    ensures Delay(p, k) == Min(Unclamped(p, k), p.maxDelay)
  {
    var m, j := p.maxDelay, k - 1;
    var a := Unclamped(p, j);
    if j > 0 {
      DelayClosedForm(p, j);
      if a > m {
        assert Delay(p, j) == m;
        GrowsByFactor(p, m);
        GrowsByFactor(p, a);
      }
    }
  }

  /** The default schedule: 1, 2, 4, 8, 10, 10 seconds. */
  lemma DefaultSchedule()
    ensures Delay(DefaultPolicy, 0) == 1.0 && Delay(DefaultPolicy, 1) == 2.0
    ensures Delay(DefaultPolicy, 2) == 4.0 && Delay(DefaultPolicy, 3) == 8.0
    ensures Delay(DefaultPolicy, 4) == 10.0 && Delay(DefaultPolicy, 5) == 10.0
  {
    var p := DefaultPolicy;
    assert Delay(p, 1) == 2.0;
    assert Delay(p, 2) == 4.0;
    assert Delay(p, 3) == 8.0;
    assert Delay(p, 4) == 10.0;
  }

  /** With the defaults, a function that always raises `APIError` is called 4
      times, sleeps 1, 2 and 4 seconds in between, and the fourth error surfaces. */
  lemma DefaultExhaustion<T>(call: nat -> Outcome<T>, t: Trace<T>)
    requires forall i :: 0 <= i <= 3 ==> call(i).Raised? && call(i).exc.APIError?
    requires IsTraceOf(DefaultPolicy, call, t)
    ensures t.calls == 4 && t.sleeps == [1.0, 2.0, 4.0] && t.result == call(3)
  {
    forall i | 0 <= i <= 3 ensures Caught(DefaultPolicy, call(i)) {
      assert IsInstance(call(i).exc, DefaultPolicy.exceptions[0]);
    }
    forall i | 0 <= i < 3 ensures SleepError(Delay(DefaultPolicy, i)).None? {
      DelaySleepable(DefaultPolicy, i);
    }
    Exhaustion(DefaultPolicy, call, t);
    DefaultSchedule();
  }

  /** With the defaults, success on the second attempt returns its value after
      one sleep of the initial delay, which is below the maximum. */
  lemma DefaultSecondAttemptSucceeds<T>(call: nat -> Outcome<T>, v: T, t: Trace<T>)
    requires call(0).Raised? && call(0).exc.APIError? && call(1) == Returned(v)
    requires IsTraceOf(DefaultPolicy, call, t)
    ensures t.result == Returned(v) && t.calls == 2 && t.sleeps == [1.0]
    ensures DefaultPolicy.initialDelay <= t.sleeps[0] < DefaultPolicy.maxDelay
  {
    assert Caught(DefaultPolicy, call(0)) by {
      assert IsInstance(call(0).exc, DefaultPolicy.exceptions[0]);
    }
    DelaySleepable(DefaultPolicy, 0);
    StopsAtFirstUncaught(DefaultPolicy, call, 1, t);
  }
}
