/** The retry loop of an outbound adapter, against an upstream that answers each attempt as it likes. */
module HttpRequest {
  import opened Options

  datatype ErrorClass = Unauthorised | NotFound | Conflict | RateLimited | Unavailable | Invalid | Internal

  datatype AdapterError = AdapterError(kind: ErrorClass, retryable: bool, retryAfter: Option<real>)

  datatype RetryPolicy = RetryPolicy(maxAttempts: int, baseDelay: real, maxDelay: real, factor: real)

  /** One answer: a refused body, a transport failure, or a status with its parsed Retry-After. */
  datatype Answer = OutOfBounds | TransportError | Status(code: int, retryAfter: Option<real>)

  datatype Result = Returned(code: int) | Failed(error: AdapterError)

  /** The upper-cased methods that may be sent again. */
  predicate IsIdempotent(verb: string) {
    verb in {"GET", "HEAD", "OPTIONS"}
  }

  predicate IsSuccess(code: int, expected: set<int>) {
    code in expected || 200 <= code < 300
  }

  function MapStatus(code: int, retryAfter: Option<real>): AdapterError {
    if code in {401, 403} then AdapterError(Unauthorised, false, None)
    else if code == 404 then AdapterError(NotFound, false, None)
    else if code == 409 then AdapterError(Conflict, false, None)
    else if code == 429 then AdapterError(RateLimited, true, retryAfter)
    else if 500 <= code <= 599 then AdapterError(Unavailable, true, retryAfter)
    else if 400 <= code <= 499 then AdapterError(Invalid, false, None)
    else AdapterError(Internal, false, None)
  }

  function Power(base: real, e: nat): real {
    if e == 0 then 1.0 else base * Power(base, e - 1)
  }

  function Min(a: real, b: real): real {
    if b < a then b else a
  }

  function Backoff(retry: RetryPolicy, attempt: nat): (delay: real)
    requires attempt >= 1
    ensures delay <= retry.maxDelay
  {
    Min(retry.baseDelay * Power(retry.factor, attempt - 1), retry.maxDelay)
  }

  /** Answers after which another attempt is worth making: a lost connection, a 429, any 5xx. */
  ghost predicate IsTransient(a: Answer, expected: set<int>) {
    a.TransportError? || (a.Status? && a.code !in expected && (a.code == 429 || 500 <= a.code <= 599))
  }

  /** What the caller gets when `a` is the last answer. */
  function Conclude(a: Answer, expected: set<int>): Result {
    match a
    case OutOfBounds => Failed(AdapterError(Unavailable, false, None))
    case TransportError => Failed(AdapterError(Unavailable, true, None))
    case Status(code, retryAfter) =>
      if IsSuccess(code, expected) then Returned(code) else Failed(MapStatus(code, retryAfter))
  }

  /** The error handed to the caller is marked retryable exactly when the last answer was transient. */
  lemma RetryableIffTransient(a: Answer, expected: set<int>)
    ensures (Conclude(a, expected).Failed? && Conclude(a, expected).error.retryable) <==> IsTransient(a, expected)
  {
  }

  /** The kinds of failure, each with the codes it stands for. */
  ghost predicate IsClassified(code: int, retryAfter: Option<real>, e: AdapterError) {
    && (e.kind == Unauthorised <==> code == 401 || code == 403)
    && (e.kind == NotFound <==> code == 404)
    && (e.kind == Conflict <==> code == 409)
    && (e.kind == RateLimited <==> code == 429)
    && (e.kind == Unavailable <==> 500 <= code <= 599)
    && (e.kind == Internal <==> code < 400 || code > 599)
    && (e.retryable <==> e.kind == RateLimited || e.kind == Unavailable)
    && e.retryAfter == if e.retryable then retryAfter else None
  }

  /** An answer succeeds by its code alone; every other code fails with the kind it stands for. */
  lemma OutcomeFollowsCode(code: int, retryAfter: Option<real>, expected: set<int>)
    ensures var r := Conclude(Status(code, retryAfter), expected);
      if code in expected || 200 <= code <= 299 then r == Returned(code)
      else r.Failed? && IsClassified(code, retryAfter, r.error)
  {
  }

  /** The pause after a transient answer to the attempt numbered `attempt`, counting from one. */
  function Pause(a: Answer, retry: RetryPolicy, attempt: nat): (delay: real)
    requires attempt >= 1
    ensures delay <= retry.maxDelay
  {
    if a.Status? && a.retryAfter.Some? then Min(a.retryAfter.value, retry.maxDelay) else Backoff(retry, attempt)
  }

  /** With a factor of at least one the pauses never shorten from one attempt to the next. */
  lemma {:induction false} BackoffGrows(retry: RetryPolicy, attempt: nat)
    requires attempt >= 1 && retry.factor >= 1.0 && retry.baseDelay >= 0.0
    ensures Backoff(retry, attempt) <= Backoff(retry, attempt + 1)
  {
    var p := Power(retry.factor, attempt - 1);
    PowerIsPositive(retry.factor, attempt - 1);
    assert Power(retry.factor, attempt) == retry.factor * p;
    assert (retry.factor - 1.0) * p >= 0.0;
    assert retry.factor * p >= p;
    assert retry.baseDelay * (retry.factor * p - p) >= 0.0;
    assert retry.baseDelay * (retry.factor * p) >= retry.baseDelay * p;
  }

  /** The backoff is the geometric progression from the base delay, capped, for any factor at all. */
  lemma {:induction false} BackoffIsGeometric(retry: RetryPolicy, d: nat -> real, attempt: nat)
    requires attempt >= 1 && d(1) == retry.baseDelay && forall k :: 1 <= k ==> d(k + 1) == d(k) * retry.factor
    ensures Backoff(retry, attempt) == if d(attempt) < retry.maxDelay then d(attempt) else retry.maxDelay
  {
    ProgressionIsPower(retry, d, attempt);
  }

  lemma {:induction false} ProgressionIsPower(retry: RetryPolicy, d: nat -> real, attempt: nat)
    requires attempt >= 1 && d(1) == retry.baseDelay && forall k :: 1 <= k ==> d(k + 1) == d(k) * retry.factor
    ensures d(attempt) == retry.baseDelay * Power(retry.factor, attempt - 1)
  {
    if attempt == 1 {
    } else {
      ProgressionIsPower(retry, d, attempt - 1);
      var p := Power(retry.factor, attempt - 2);
      assert d(attempt - 1 + 1) == retry.baseDelay * p * retry.factor;
      assert Power(retry.factor, attempt - 1) == retry.factor * p;
      assert retry.baseDelay * p * retry.factor == retry.baseDelay * (retry.factor * p);
    }
  }

  /** With a factor of at least one each pause is the one before times the factor, up to the cap and then at it. */
  lemma BackoffFollowsBackoff(retry: RetryPolicy, k: nat)
    requires k >= 1 && retry.factor >= 1.0 && retry.baseDelay >= 0.0
    ensures Backoff(retry, 1) == Min(retry.baseDelay, retry.maxDelay)
    ensures Backoff(retry, k) < retry.maxDelay ==>
      Backoff(retry, k + 1) == Min(retry.factor * Backoff(retry, k), retry.maxDelay)
    ensures Backoff(retry, k) == retry.maxDelay ==> Backoff(retry, k + 1) == retry.maxDelay
  {
    BackoffGrows(retry, k);
    var p := Power(retry.factor, k - 1);
    assert Power(retry.factor, k) == retry.factor * p;
    assert retry.baseDelay * (retry.factor * p) == retry.factor * (retry.baseDelay * p);
  }

  lemma {:induction false} PowerIsPositive(base: real, e: nat)
    requires base >= 1.0
    ensures Power(base, e) >= 1.0
  {
    if e == 0 {
    } else {
      PowerIsPositive(base, e - 1);
      assert (base - 1.0) * Power(base, e - 1) >= 0.0;
    }
  }

  /** The time spent asleep: a sleep of zero or less, which a server can ask for, returns at once. */
  function Waited(sleeps: seq<real>): real {
    if sleeps == [] then 0.0
    else
      var last := sleeps[|sleeps| - 1];
      Waited(sleeps[..|sleeps| - 1]) + if last > 0.0 then last else 0.0
  }

  lemma {:induction false} WaitedIsBounded(sleeps: seq<real>, most: real, n: nat)
    requires most >= 0.0 && |sleeps| <= n
    requires forall i :: 0 <= i < |sleeps| ==> sleeps[i] <= most
    ensures Waited(sleeps) <= n as real * most
    decreases n
  {
    if sleeps == [] {
      assert n as real * most >= 0.0;
    } else {
      WaitedIsBounded(sleeps[..|sleeps| - 1], most, n - 1);
      assert n as real * most == (n - 1) as real * most + most;
    }
  }

  lemma WaitWithinPolicy(sleeps: seq<real>, retry: RetryPolicy)
    requires sleeps == [] || |sleeps| < retry.maxAttempts
    requires forall i :: 0 <= i < |sleeps| ==> sleeps[i] <= retry.maxDelay
    ensures retry.maxAttempts >= 1 && retry.maxDelay >= 0.0 ==>
      Waited(sleeps) <= (retry.maxAttempts - 1) as real * retry.maxDelay
  {
    if retry.maxAttempts >= 1 && retry.maxDelay >= 0.0 {
      WaitedIsBounded(sleeps, retry.maxDelay, retry.maxAttempts - 1);
    }
  }

  /**
   `upstream(i)` answers the attempt numbered i. The counters are what the adapter does: passes
   through the limiter, requests put on the wire, and sleeps asked for.
   */
  method Request(verb: string, egressAllowed: bool, expected: set<int>, retry: RetryPolicy, upstream: nat -> Answer)
    returns (result: Result, acquires: nat, sends: nat, sleeps: seq<real>)
    ensures !egressAllowed ==>
      sends == acquires == 0 && sleeps == [] && result == Failed(AdapterError(Invalid, false, None))
    ensures egressAllowed ==>
      && 1 <= sends == acquires == |sleeps| + 1
      && (verb != "GET" && verb != "HEAD" && verb != "OPTIONS" ==> sends == 1 && sleeps == [])
      && (sends == 1 || sends <= retry.maxAttempts)
      && (forall i :: 0 <= i < sends - 1 ==> IsTransient(upstream(i), expected))
      && (IsTransient(upstream(sends - 1), expected) && (verb == "GET" || verb == "HEAD" || verb == "OPTIONS") ==>
            sends >= retry.maxAttempts)
      && result == Conclude(upstream(sends - 1), expected)
    ensures forall i :: 0 <= i < |sleeps| ==> sleeps[i] == Pause(upstream(i), retry, i + 1)
    ensures retry.maxAttempts >= 1 && retry.maxDelay >= 0.0 ==>
      Waited(sleeps) <= (retry.maxAttempts - 1) as real * retry.maxDelay
  {
    hide Waited, Backoff;
    acquires, sends, sleeps := 0, 0, [];
    if !egressAllowed {
      WaitWithinPolicy([], retry);
      return Failed(AdapterError(Invalid, false, None)), 0, 0, [];
    }
    var attempt := 0;
    while true
      invariant attempt == acquires == sends == |sleeps|
      invariant attempt == 0 || (IsIdempotent(verb) && attempt < retry.maxAttempts)
      invariant forall i :: 0 <= i < attempt ==> IsTransient(upstream(i), expected)
      invariant forall i :: 0 <= i < |sleeps| ==> sleeps[i] == Pause(upstream(i), retry, i + 1)
      decreases retry.maxAttempts - attempt
    {
      attempt := attempt + 1;
      acquires := acquires + 1;
      sends := sends + 1;
      var answer := upstream(attempt - 1);
      if answer.OutOfBounds? {
        result := Failed(AdapterError(Unavailable, false, None));
        break;
      }
      if answer.TransportError? {
        if IsIdempotent(verb) && attempt < retry.maxAttempts {
          sleeps := sleeps + [Backoff(retry, attempt)];
          continue;
        }
        result := Failed(AdapterError(Unavailable, true, None));
        break;
      }
      if IsSuccess(answer.code, expected) {
        result := Returned(answer.code);
        break;
      }
      var error := MapStatus(answer.code, answer.retryAfter);
      if error.retryable && IsIdempotent(verb) && attempt < retry.maxAttempts {
        var delay := if error.retryAfter.Some? then error.retryAfter.value else Backoff(retry, attempt);
        sleeps := sleeps + [Min(delay, retry.maxDelay)];
        continue;
      }
      result := Failed(error);
      break;
    }
    WaitWithinPolicy(sleeps, retry);
  }
}
