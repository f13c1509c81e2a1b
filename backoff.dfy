/**
 * The `exponential_backoff` decorator: `wrapper_retry` calls the wrapped function
 * up to `retries` times, sleeping `min(max_backoff, backoff * 2^attempt)` after
 * every failure, and gives up by returning None without raising. A sleep length that
 * `time.sleep` refuses (a negative one raises `ValueError`, one too large for its
 * 64-bit nanosecond clock raises `OverflowError`) raises inside the `except` handler,
 * and that exception leaves the wrapper.
 *
 * The wrapped function is an oracle: `f(k)` is what its k-th call (0-based) does.
 * Each sleep performed is recorded, in order, in the `waits` trace.
 */
module Backoff {
  import opened Wrappers

  /** The decorator's arguments `retries`, `backoff_in_seconds`, `max_backoff_in_seconds`. */
  datatype Policy = Policy(retries: int, backoff: int, maxBackoff: int)

  /** `exponential_backoff()` with no arguments, as `get_embedding` is decorated. */
  const DefaultPolicy := Policy(5, 2, 64)

  /** One call of the wrapped function: it returns a value or raises. */
  datatype Attempt<+T> = Returned(value: T) | Raised

  /**
   * What a run of the wrapper does: its result, how often it called the function, the
   * sleeps it performed, and whether `time.sleep` raised (then `result` is None).
   */
  datatype Trace<+T> = Trace(result: Option<T>, calls: nat, waits: seq<int>, sleepRaised: bool)

  /**
   * The longest sleep, in whole seconds, CPython's `time.sleep` accepts: the seconds
   * are converted to signed 64-bit nanoseconds, and (2^63 - 1) / 10^9 rounds down to this.
   */
  const MaxSleep: int := 9223372036

  /** `time.sleep(w)` for an integer `w` sleeps instead of raising. */
  predicate Sleepable(w: int)
  {
    0 <= w <= MaxSleep
  }

  function Pow2(k: nat): (p: nat)
    ensures p >= 1
  {
    if k == 0 then 1 else 2 * Pow2(k - 1)
  }

  /** The sleep requested after the failure of attempt number `attempt`. */
  function Wait(p: Policy, attempt: nat): (w: int)
    ensures w <= p.maxBackoff && w <= p.backoff * Pow2(attempt)
    ensures w == p.maxBackoff || w == p.backoff * Pow2(attempt)
    ensures w >= 0 <==> p.backoff >= 0 && p.maxBackoff >= 0
  {
    var w := p.backoff * Pow2(attempt);
    if p.maxBackoff < w then p.maxBackoff else w
  }

  /** The behaviour of the wrapper from attempt number `attempt` on. */
  function Run<T>(p: Policy, f: nat -> Attempt<T>, attempt: nat): Trace<T>
    decreases if attempt < p.retries then p.retries - attempt else 0
  {
    if attempt >= p.retries then Trace(None, 0, [], false)
    else match f(attempt)
      case Returned(v) => Trace(Some(v), 1, [], false)
      case Raised =>
        if !Sleepable(Wait(p, attempt)) then Trace(None, 1, [], true)
        else
          var rest := Run(p, f, attempt + 1);
          Trace(rest.result, rest.calls + 1, [Wait(p, attempt)] + rest.waits, rest.sleepRaised)
  }

  /** `wrapper_retry`: the loop of the decorator, with the wrapped function given as `f`. */
  method WrapperRetry<T>(p: Policy, f: nat -> Attempt<T>)
    returns (result: Option<T>, calls: nat, waits: seq<int>, sleepRaised: bool)
    ensures Trace(result, calls, waits, sleepRaised) == Run(p, f, 0)
  {
    var attempt: nat := 0;
    calls, waits := 0, [];
    while attempt < p.retries
      invariant calls == attempt && |waits| == attempt
      invariant var t := Run(p, f, attempt);
        Run(p, f, 0) == Trace(t.result, calls + t.calls, waits + t.waits, t.sleepRaised)
      decreases p.retries - attempt
    {
      calls := calls + 1;
      var outcome := f(attempt);
      if outcome.Returned? {
        return Some(outcome.value), calls, waits, false;
      }
      var wait := Wait(p, attempt);
      if !Sleepable(wait) {
        return None, calls, waits, true;
      }
      ghost var rest := Run(p, f, attempt + 1);
      assert waits + ([wait] + rest.waits) == (waits + [wait]) + rest.waits;
      waits := waits + [wait];
      attempt := attempt + 1;
    }
    result, sleepRaised := None, false;
  }

  function Max0(n: int): nat { if n < 0 then 0 else n }

  /** The function is called at most once per attempt left, and never when no attempt is left. */
  lemma {:induction false} RunCallBound<T>(p: Policy, f: nat -> Attempt<T>, attempt: nat)
    ensures Run(p, f, attempt).calls <= Max0(p.retries - attempt)
    ensures p.retries <= attempt ==> Run(p, f, attempt) == Trace(None, 0, [], false)
    decreases if attempt < p.retries then p.retries - attempt else 0
  {
    if attempt < p.retries && f(attempt).Raised? && Sleepable(Wait(p, attempt)) {
      RunCallBound(p, f, attempt + 1);
    }
  }

  /** A result is the value of the last call, and every call before it raised. */
  lemma {:induction false} RunFirstSuccess<T>(p: Policy, f: nat -> Attempt<T>, attempt: nat)
    ensures var t := Run(p, f, attempt);
      t.result.Some? ==>
        && t.calls >= 1
        && f(attempt + t.calls - 1) == Returned(t.result.value)
        && forall k :: attempt <= k < attempt + t.calls - 1 ==> f(k).Raised?
    decreases if attempt < p.retries then p.retries - attempt else 0
  {
    if attempt < p.retries && f(attempt).Raised? && Sleepable(Wait(p, attempt)) {
      RunFirstSuccess(p, f, attempt + 1);
    }
  }

  /**
   * When `time.sleep` accepts every remaining wait, None comes back exactly when every
   * remaining attempt raised; then all of them were made and nothing is raised.
   */
  lemma {:induction false} RunExhausted<T>(p: Policy, f: nat -> Attempt<T>, attempt: nat)
    requires forall k :: attempt <= k < p.retries ==> Sleepable(Wait(p, k))
    ensures var t := Run(p, f, attempt);
      t.result.None? <==> forall k :: attempt <= k < p.retries ==> f(k).Raised?
    ensures var t := Run(p, f, attempt);
      t.result.None? ==> t.calls == Max0(p.retries - attempt) && !t.sleepRaised
    decreases if attempt < p.retries then p.retries - attempt else 0
  {
    if attempt < p.retries {
      RunExhausted(p, f, attempt + 1);
    }
  }

  /**
   * `time.sleep` raises only on a length outside `0..MaxSleep`: the exception escapes
   * only after a failed call whose wait is refused, every earlier call having failed
   * with an accepted wait; that call is the last one made and no sleep follows it. A
   * policy with non-negative base and a cap within `MaxSleep` never raises.
   */
  lemma {:induction false} RunSleepRaises<T>(p: Policy, f: nat -> Attempt<T>, attempt: nat)
    ensures var t := Run(p, f, attempt);
      t.sleepRaised ==>
        && t.result.None? && t.calls >= 1 && |t.waits| == t.calls - 1
        && (var last := attempt + t.calls - 1;
            && last < p.retries && f(last).Raised? && !Sleepable(Wait(p, last))
            && forall k :: attempt <= k < last ==> f(k).Raised? && Sleepable(Wait(p, k)))
    ensures p.backoff >= 0 && 0 <= p.maxBackoff <= MaxSleep ==> !Run(p, f, attempt).sleepRaised
    decreases if attempt < p.retries then p.retries - attempt else 0
  {
    if attempt < p.retries && f(attempt).Raised? && Sleepable(Wait(p, attempt)) {
      RunSleepRaises(p, f, attempt + 1);
    }
  }

  /** A negative base with a failing first call: one call, no sleep, and the `ValueError` escapes. */
  lemma NegativeBackoffRaises<T>(f: nat -> Attempt<T>)
    requires f(0) == Raised
    ensures Run(Policy(3, -2, 64), f, 0) == Trace(None, 1, [], true)
  {
  }

  /** A first wait of 10^10 seconds is too long for `time.sleep`: one call, and `OverflowError` escapes. */
  lemma OverflowingBackoffRaises<T>(f: nat -> Attempt<T>)
    requires f(0) == Raised
    ensures Run(Policy(2, 10000000000, 100000000000), f, 0) == Trace(None, 1, [], true)
  {
  }

  /** A sleep follows every failed call, the last one included unless its sleep raised, with the exponential schedule. */
  lemma {:induction false} RunSchedule<T>(p: Policy, f: nat -> Attempt<T>, attempt: nat)
    ensures var t := Run(p, f, attempt);
      |t.waits| == (if t.result.Some? || t.sleepRaised then t.calls - 1 else t.calls)
    ensures var t := Run(p, f, attempt);
      forall i :: 0 <= i < |t.waits| ==> t.waits[i] == Wait(p, attempt + i)
    ensures var t := Run(p, f, attempt);
      forall i :: 0 <= i < |t.waits| ==> Sleepable(t.waits[i])
    decreases if attempt < p.retries then p.retries - attempt else 0
  {
    if attempt < p.retries && f(attempt).Raised? && Sleepable(Wait(p, attempt)) {
      RunSchedule(p, f, attempt + 1);
    }
  }

  /**
   * When every call either raises or returns `v`, one remaining attempt returns, and
   * `time.sleep` accepts the waits before it, the wrapper returns `v`.
   */
  lemma {:induction false} RunReturnsValue<T>(p: Policy, f: nat -> Attempt<T>, attempt: nat, v: T, k: nat)
    requires forall j: nat :: f(j) == Raised || f(j) == Returned(v)
    requires attempt <= k < p.retries && f(k) == Returned(v)
    requires forall j :: attempt <= j < k ==> Sleepable(Wait(p, j))
    ensures Run(p, f, attempt).result == Some(v)
    decreases k - attempt
  {
    if f(attempt) == Raised {
      RunReturnsValue(p, f, attempt + 1, v, k);
    }
  }

  lemma {:induction false} Pow2Monotone(j: nat, k: nat)
    requires j <= k
    ensures Pow2(j) <= Pow2(k)
    decreases k
  {
    if j < k {
      Pow2Monotone(j, k - 1);
    }
  }

  /** With a non-negative base the waits never decrease. */
  lemma WaitMonotone(p: Policy, j: nat, k: nat)
    requires p.backoff >= 0 && j <= k
    ensures Wait(p, j) <= Wait(p, k)
  {
    Pow2Monotone(j, k);
    assert p.backoff * Pow2(j) <= p.backoff * Pow2(k) by {
      var d := Pow2(k) - Pow2(j);
      assert p.backoff * Pow2(k) == p.backoff * Pow2(j) + p.backoff * d;
    }
  }

  /**
   * The sleeps of one run are all accepted by `time.sleep`, never decrease and never
   * exceed the cap. A negative base makes the first failure's sleep raise, so then no
   * sleep is performed at all.
   */
  lemma RunWaitsOrdered<T>(p: Policy, f: nat -> Attempt<T>)
    ensures var w := Run(p, f, 0).waits;
      forall i, j :: 0 <= i <= j < |w| ==> Sleepable(w[i]) && w[i] <= w[j] <= p.maxBackoff
  {
    RunSchedule(p, f, 0);
    var w := Run(p, f, 0).waits;
    if p.backoff < 0 {
      assert w == [];
    } else {
      forall i, j | 0 <= i <= j < |w|
        ensures Sleepable(w[i]) && w[i] <= w[j] <= p.maxBackoff
      {
        WaitMonotone(p, i, j);
      }
    }
  }

  /** Three attempts of which two fail: three calls, sleeps of 2 and 4, the value returned. */
  lemma TwoFailuresThenSuccess<T>(v: T, f: nat -> Attempt<T>)
    requires f(0) == Raised && f(1) == Raised && f(2) == Returned(v)
    ensures Run(Policy(3, 2, 64), f, 0) == Trace(Some(v), 3, [2, 4], false)
  {
    var p := Policy(3, 2, 64);
    assert Run(p, f, 2) == Trace(Some(v), 1, [], false);
    assert Pow2(1) == 2;
    assert Run(p, f, 1) == Trace(Some(v), 2, [4], false);
  }

  /** A function that always raises under the default decorator: five calls, sleeps 2, 4, 8, 16, 32. */
  lemma DefaultExhaustion<T>(f: nat -> Attempt<T>)
    requires forall k :: f(k) == Raised
    ensures Run(DefaultPolicy, f, 0) == Trace(None, 5, [2, 4, 8, 16, 32], false)
  {
    var p := DefaultPolicy;
    assert Pow2(1) == 2 && Pow2(2) == 4 && Pow2(3) == 8 && Pow2(4) == 16;
    assert Run(p, f, 5) == Trace(None, 0, [], false);
    assert Run(p, f, 4) == Trace(None, 1, [32], false);
    assert Run(p, f, 3) == Trace(None, 2, [16, 32], false);
    assert Run(p, f, 2) == Trace(None, 3, [8, 16, 32], false);
    assert Run(p, f, 1) == Trace(None, 4, [4, 8, 16, 32], false);
  }
}
