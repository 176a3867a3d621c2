/** `retryAPI` of the content generator: the given asynchronous call is
    awaited once per attempt; a rejection with HTTP status 503 or 429 is
    retried after `2^i * 1000` milliseconds unless it is on the last
    attempt, and every other rejection is rethrown as it is. The call is a
    given function from the attempt number to how that attempt settles. */
module ContentRetry {
  import opened Common
  import opened Backoff

  /** A rejection reason: the `status` property the helper inspects (absent
      when the thrown value carries none) and the rest of the error. */
  datatype ApiError = ApiError(status: Option<int>, message: string)

  /** How one awaited call of `fn` settles. */
  datatype Settled<T> = Resolved(value: T) | Rejected(error: ApiError)
  type Fn<T> = nat -> Settled<T>

  /** What the helper throws: the rejection of `fn` itself, or its own
      `Error('Max retries exceeded')`. */
  datatype Thrown = Rethrown(error: ApiError) | MaxRetriesExceeded
  datatype Outcome<T> = Returned(value: T) | Threw(thrown: Thrown)
  datatype Run<T> = Run(outcome: Outcome<T>, trace: seq<Event>)

  const DefaultMaxRetries: int := 5

  /** Milliseconds per backoff step. */
  const DelayUnit: nat := 1000

  /** `error.status === 503 || error.status === 429`. */
  predicate Retryable(e: ApiError) {
    e.status == Some(503) || e.status == Some(429)
  }

  predicate TransientFailure<T>(s: Settled<T>) {
    s.Rejected? && Retryable(s.error)
  }

  function Transients<T>(fn: Fn<T>): nat -> bool {
    (a: nat) => TransientFailure(fn(a))
  }

  lemma TransientsMeaning<T>(fn: Fn<T>)
    ensures forall a: nat :: Transients(fn)(a) == TransientFailure(fn(a))
  {
    forall a: nat ensures Transients(fn)(a) == TransientFailure(fn(a)) {
      assert Transients(fn)(a) == TransientFailure(fn(a));
    }
  }

  /** The helper's answer to how an attempt settled: its value, or its
      rejection passed on. */
  function Settle<T>(s: Settled<T>): Outcome<T> {
    match s
    case Resolved(v) => Returned(v)
    case Rejected(e) => Threw(Rethrown(e))
  }

  /** What `retryAPI(fn, maxRetries)` does: with no attempt permitted it
      throws `Max retries exceeded` without calling `fn`; otherwise every
      attempt before the stopping one was a retryable rejection followed by
      a wait of `2^i * 1000` ms, and the stopping attempt settles the call. */
  function RetrySpec<T>(fn: Fn<T>, maxRetries: int): Run<T> {
    if maxRetries <= 0 then Run(Threw(MaxRetriesExceeded), [])
    else
      var k := FirstStop(Transients(fn), maxRetries, 0);
      Run(Settle(fn(k)), Schedule(k, DelayUnit) + [Call(k)])
  }

  method RetryApi<T>(fn: Fn<T>, maxRetries: int) returns (outcome: Outcome<T>, trace: seq<Event>)
    ensures Run(outcome, trace) == RetrySpec(fn, maxRetries)
  {
    trace := [];
    var i := 0;
    while i < maxRetries
      invariant i == 0 || i < maxRetries
      invariant maxRetries > 0 ==>
        FirstStop(Transients(fn), maxRetries, 0) == FirstStop(Transients(fn), maxRetries, i)
      invariant trace == Schedule(i, DelayUnit)
    {
      trace := trace + [Call(i)];
      var settled := fn(i);
      match settled {
        case Resolved(v) =>
          outcome := Returned(v);
          return;
        case Rejected(error) =>
          if Retryable(error) && i < maxRetries - 1 {
            var delay := Pow2(i) * DelayUnit;
            trace := trace + [Wait(delay)];
          } else {
            outcome := Threw(Rethrown(error));
            return;
          }
      }
      i := i + 1;
    }
    outcome := Threw(MaxRetriesExceeded);
  }

  /** `fn` is called at most `maxRetries` times, on attempts 0, 1, 2, …;
      the waits between consecutive calls run 1000, 2000, 4000, … ms, one
      fewer than the calls; and `fn` is called again only after a retryable
      rejection that was not on the last attempt. */
  lemma {:induction false} RetryBackoff<T>(fn: Fn<T>, maxRetries: int)
    ensures var t := RetrySpec(fn, maxRetries).trace;
      && |Calls(t)| <= (if maxRetries > 0 then maxRetries else 0)
      && (forall a :: 0 <= a < |Calls(t)| ==> Calls(t)[a] == a)
      && |Waits(t)| == (if |Calls(t)| > 0 then |Calls(t)| - 1 else 0)
      && (forall a :: 0 <= a < |Waits(t)| ==> Waits(t)[a] == Pow2(a) * 1000)
      && (forall a :: 0 <= a < |Calls(t)| - 1 ==> TransientFailure(fn(a)) && a < maxRetries - 1)
  {
    if maxRetries > 0 {
      var k := FirstStop(Transients(fn), maxRetries, 0);
      RunShape(k, DelayUnit);
      TransientsMeaning(fn);
    }
  }

  /** With no attempt permitted `fn` is never called and the helper throws
      `Max retries exceeded`. */
  lemma NoAttemptPermitted<T>(fn: Fn<T>, maxRetries: int)
    requires maxRetries <= 0
    ensures RetrySpec(fn, maxRetries) == Run(Threw(MaxRetriesExceeded), [])
  {
  }

  /** The value of the first call that resolves, after retryable
      rejections only, is returned. */
  lemma {:induction false} ReturnsFirstSuccess<T>(fn: Fn<T>, maxRetries: int, k: nat)
    requires k < maxRetries
    requires forall a :: 0 <= a < k ==> TransientFailure(fn(a))
    requires fn(k).Resolved?
    ensures RetrySpec(fn, maxRetries) == Run(Returned(fn(k).value), Schedule(k, DelayUnit) + [Call(k)])
  {
    TransientsMeaning(fn);
    FirstStopIs(Transients(fn), maxRetries, k);
  }

  /** A rejection that is not retryable, or any rejection on the last
      attempt, is rethrown unchanged, with no wait after it. */
  lemma {:induction false} RethrowsUnchanged<T>(fn: Fn<T>, maxRetries: int, k: nat)
    requires k < maxRetries
    requires forall a :: 0 <= a < k ==> TransientFailure(fn(a))
    requires fn(k).Rejected? && (!Retryable(fn(k).error) || k == maxRetries - 1)
    ensures RetrySpec(fn, maxRetries) == Run(Threw(Rethrown(fn(k).error)), Schedule(k, DelayUnit) + [Call(k)])
  {
    TransientsMeaning(fn);
    FirstStopIs(Transients(fn), maxRetries, k);
  }

  /** With at least one attempt the helper never throws its own error: it
      settles exactly as some permitted attempt settled, that attempt being
      the first that was not a retryable rejection, or the last. */
  lemma {:induction false} SettlesAsSomeAttempt<T>(fn: Fn<T>, maxRetries: int)
    requires maxRetries > 0
    ensures RetrySpec(fn, maxRetries).outcome != Threw(MaxRetriesExceeded)
    ensures exists k :: 0 <= k < maxRetries && RetrySpec(fn, maxRetries).outcome == Settle(fn(k))
                       && (!TransientFailure(fn(k)) || k == maxRetries - 1)
                       && forall a :: 0 <= a < k ==> TransientFailure(fn(a))
  {
    var k := FirstStop(Transients(fn), maxRetries, 0);
    TransientsMeaning(fn);
    assert RetrySpec(fn, maxRetries).outcome == Settle(fn(k));
  }
}
