/** `makeRequestWithRetries`: one HTTP call with a bounded number of attempts,
    a fixed set of retryable statuses and exponential backoff between attempts.
    The network is a script: `script[k]` is what attempt `k + 1` gets back. */
module Retry {

  const RetryableStatuses: set<int> := {403, 429, 500, 502, 503, 504}
  const DefaultRetries := 5
  const DefaultBaseDelay := 1000

  /** Why an axios call was rejected: a response with a non-success status, or
      no response at all (the status is then reported as 'N/A'). */
  datatype Fault = HttpError(status: int, message: string) | NoResponse(message: string)

  /** What one attempt gets back. */
  datatype Outcome<+R> = Success(resp: R) | Failed(fault: Fault)

  /** How the call ends: the response is returned, the last error is rethrown,
      or, when `retries < 1`, the loop never runs and the call yields `undefined`. */
  datatype RetryResult<+R> = Returned(resp: R) | Thrown(fault: Fault) | NoAttempt

  /** The result, the backoff delays slept in order, and the attempts made. */
  datatype RetryRun<+R> = RetryRun(result: RetryResult<R>, delays: seq<int>, attempts: nat)

  /** Only a response whose status is in the retryable set earns another
      attempt: 403, 429 and the 5xx codes 500 and 502-504. A 501, a 505, any
      other status and a missing response are final. */
  function IsRetryable(f: Fault): (b: bool)
    ensures b <==> f.HttpError? && (f.status == 403 || f.status == 429 || (500 <= f.status <= 504 && f.status != 501))
  {
    f.HttpError? && f.status in RetryableStatuses
  }

  function Pow2(n: nat): (p: nat)
    ensures p >= 1
  {
    if n == 0 then 1 else 2 * Pow2(n - 1)
  }

  predicate RetriedAt<R>(script: seq<Outcome<R>>, k: nat)
    requires k < |script|
  {
    script[k].Failed? && IsRetryable(script[k].fault)
  }

  /** The behaviour the source promises, stated without following its loop:
      every attempt but the last failed with a retryable status and was followed
      by the delay `baseDelay * 2^(k-1)`; the last attempt either succeeded, and
      its response is returned unchanged, or failed and its error is rethrown
      because it was not retryable or the attempt budget was spent. */
  ghost predicate Explains<R>(script: seq<Outcome<R>>, retries: int, baseDelay: int, run: RetryRun<R>)
    requires retries <= |script|
  {
    && 1 <= run.attempts <= retries
    && |run.delays| == run.attempts - 1
    && (forall k :: 0 <= k < |run.delays| ==> run.delays[k] == baseDelay * Pow2(k))
    && (forall k :: 0 <= k < run.attempts - 1 ==> RetriedAt(script, k))
    && match run.result
       case Returned(resp) => script[run.attempts - 1] == Success(resp)
       case Thrown(f) =>
         script[run.attempts - 1] == Failed(f) && (!IsRetryable(f) || run.attempts == retries)
       case NoAttempt => false
  }

  /** The loop from attempt number `attempt` on. */
  function RetryFrom<R>(script: seq<Outcome<R>>, attempt: nat, retries: int, baseDelay: int): (run: RetryRun<R>)
    requires 1 <= attempt <= retries <= |script|
    ensures attempt <= run.attempts <= retries
    ensures |run.delays| == run.attempts - attempt
    ensures forall k :: 0 <= k < |run.delays| ==> run.delays[k] == baseDelay * Pow2(attempt - 1 + k)
    ensures forall k :: attempt - 1 <= k < run.attempts - 1 ==> RetriedAt(script, k)
    ensures match run.result
            case Returned(resp) => script[run.attempts - 1] == Success(resp)
            case Thrown(f) =>
              script[run.attempts - 1] == Failed(f) && (!IsRetryable(f) || run.attempts == retries)
            case NoAttempt => false
    decreases retries - attempt
  {
    match script[attempt - 1]
    case Success(resp) => RetryRun(Returned(resp), [], attempt)
    case Failed(f) =>
      if IsRetryable(f) && attempt < retries then
        var rest := RetryFrom(script, attempt + 1, retries, baseDelay);
        RetryRun(rest.result, [baseDelay * Pow2(attempt - 1)] + rest.delays, rest.attempts)
      else
        RetryRun(Thrown(f), [], attempt)
  }

  function MakeRequestWithRetries<R>(script: seq<Outcome<R>>, retries: int, baseDelay: int): (run: RetryRun<R>)
    requires retries <= |script|
    ensures retries < 1 ==> run == RetryRun(NoAttempt, [], 0)
    ensures retries >= 1 ==> Explains(script, retries, baseDelay, run)
  {
    if retries < 1 then RetryRun(NoAttempt, [], 0) else RetryFrom(script, 1, retries, baseDelay)
  }

  /** `Explains` pins the run down completely: two runs it accepts are equal. */
  lemma {:induction false} ExplainsIsComplete<R>(script: seq<Outcome<R>>, retries: int, baseDelay: int,
                                                  a: RetryRun<R>, b: RetryRun<R>)
    requires retries <= |script|
    requires Explains(script, retries, baseDelay, a) && Explains(script, retries, baseDelay, b)
    ensures a == b
  {
    assert a.attempts < b.attempts ==> RetriedAt(script, a.attempts - 1);
    assert b.attempts < a.attempts ==> RetriedAt(script, b.attempts - 1);
    assert a.delays == b.delays;
  }

  /** A run of retryable failures uses up the whole budget: `retries` attempts,
      the doubling delays between them, and the last error rethrown. */
  lemma RetryableFailuresExhaust<R>(script: seq<Outcome<R>>, retries: int, baseDelay: int)
    requires 1 <= retries <= |script|
    requires forall k :: 0 <= k < retries ==> RetriedAt(script, k)
    ensures var run := MakeRequestWithRetries(script, retries, baseDelay);
            && run.attempts == retries
            && run.result.Thrown?
            && script[retries - 1] == Failed(run.result.fault)
            && run.delays == seq(retries - 1, k requires 0 <= k => baseDelay * Pow2(k))
  {
    var run := MakeRequestWithRetries(script, retries, baseDelay);
    assert run.attempts < retries ==> RetriedAt(script, run.attempts - 1);
    assert RetriedAt(script, retries - 1);
  }

  /** With the defaults, five retryable failures sleep exactly 1, 2, 4 and 8
      seconds and no sixth attempt is made. */
  lemma DefaultBackoffSchedule<R>(script: seq<Outcome<R>>)
    requires |script| >= DefaultRetries
    requires forall k :: 0 <= k < DefaultRetries ==> RetriedAt(script, k)
    ensures var run := MakeRequestWithRetries(script, DefaultRetries, DefaultBaseDelay);
            && run.attempts == 5
            && run.delays == [1000, 2000, 4000, 8000]
            && run.result.Thrown?
            && script[4] == Failed(run.result.fault)
  {
    RetryableFailuresExhaust(script, DefaultRetries, DefaultBaseDelay);
    assert Pow2(1) == 2 && Pow2(2) == 4 && Pow2(3) == 8;
  }

  /** A failure that is not retryable (404, or no response at all) is rethrown
      on the attempt it happened, without any delay. */
  lemma NonRetryableFailsImmediately<R>(script: seq<Outcome<R>>, retries: int, baseDelay: int, k: nat)
    requires 1 <= retries <= |script| && k < retries
    requires forall j :: 0 <= j < k ==> RetriedAt(script, j)
    requires script[k].Failed? && !IsRetryable(script[k].fault)
    ensures var run := MakeRequestWithRetries(script, retries, baseDelay);
            run.attempts == k + 1 && run.result == Thrown(script[k].fault) && |run.delays| == k
  {
    var run := MakeRequestWithRetries(script, retries, baseDelay);
    assert run.attempts < k + 1 ==> RetriedAt(script, run.attempts - 1);
    assert run.attempts > k + 1 ==> RetriedAt(script, k);
  }

  /** The first successful response is returned unchanged and ends the loop. */
  lemma FirstSuccessReturned<R>(script: seq<Outcome<R>>, retries: int, baseDelay: int, k: nat)
    requires 1 <= retries <= |script| && k < retries
    requires forall j :: 0 <= j < k ==> RetriedAt(script, j)
    requires script[k].Success?
    ensures var run := MakeRequestWithRetries(script, retries, baseDelay);
            run.attempts == k + 1 && run.result == Returned(script[k].resp)
  {
    var run := MakeRequestWithRetries(script, retries, baseDelay);
    assert run.attempts < k + 1 ==> RetriedAt(script, run.attempts - 1);
    assert run.attempts > k + 1 ==> RetriedAt(script, k);
  }

  /** Status 429 earns a second attempt; status 404 fails on the first. */
  lemma ClassificationExamples()
    ensures IsRetryable(HttpError(429, "Too Many Requests"))
    ensures !IsRetryable(HttpError(404, "Not Found"))
    ensures !IsRetryable(NoResponse("socket hang up"))
  {
  }
}
