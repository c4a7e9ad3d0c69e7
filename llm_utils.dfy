/**
 * The retry policy declared on invoke_with_retry (src/llm_utils.py:10-20):
 * tenacity retries on three exception types, stops after the 10th attempt,
 * waits wait_exponential(multiplier=5, min=10, max=120) between attempts
 * and calls log_retry before every sleep. The remote call is a stub that
 * gives, for each attempt number, a result or an exception.
 */
module LlmUtils {

  const MaxAttempts: nat := 10
  const Multiplier: nat := 5
  const MinWait: nat := 10
  const MaxWait: nat := 120

  const ResourceExhaustedType := "google.api_core.exceptions.ResourceExhausted"
  const InternalServerErrorType := "google.api_core.exceptions.InternalServerError"
  const GenAIErrorType := "langchain_google_genai.chat_models.ChatGoogleGenerativeAIError"

  /** An exception, given by the qualified names of its class and all of
      that class's ancestors (what isinstance consults). */
  datatype Exception = Exception(mro: seq<string>)

  /** What one invocation of the wrapped call does. */
  datatype CallOutcome = Returned(value: string) | Raised(error: Exception)

  /** What the decorated function does: return the call's result, let a
      non-retryable exception through, or raise tenacity's RetryError
      (no reraise is set) carrying the last attempt's exception. */
  datatype RetryOutcome = Success(value: string) | Propagated(error: Exception) | GaveUp(last: Exception)

  /** One observable step of the attempt loop. */
  datatype Event = Invoke(attempt: nat) | LogRetry(wait: nat) | Sleep(seconds: nat)

  /** retry_if_exception_type((ResourceExhausted, InternalServerError, ChatGoogleGenerativeAIError)). */
  predicate Retryable(e: Exception)
  {
    ResourceExhaustedType in e.mro || InternalServerErrorType in e.mro || GenAIErrorType in e.mro
  }

  predicate RetryableFailure(o: CallOutcome)
  {
    o.Raised? && Retryable(o.error)
  }

  function Pow2(n: nat): (r: nat)
    ensures r >= 1
  {
    if n == 0 then 1 else 2 * Pow2(n - 1)
  }

  /** wait_exponential after the attempt with the given number:
      max(min, min(multiplier * 2^(attempt-1), max)). */
  function WaitAfter(attempt: nat): (w: nat)
    requires attempt >= 1
    ensures MinWait <= w <= MaxWait
  {
    var raw := Multiplier * Pow2(attempt - 1);
    if raw < MinWait then MinWait else if raw > MaxWait then MaxWait else raw
  }

  /** The run of the loop from the given attempt on: its outcome and the
      number of the attempt it ends on. */
  function Run(call: nat -> CallOutcome, attempt: nat): (r: (RetryOutcome, nat))
    requires 1 <= attempt <= MaxAttempts
    ensures attempt <= r.1 <= MaxAttempts
    decreases MaxAttempts - attempt
  {
    match call(attempt)
    case Returned(v) => (Success(v), attempt)
    case Raised(e) =>
      if !Retryable(e) then (Propagated(e), attempt)
      else if attempt >= MaxAttempts then (GaveUp(e), attempt)
      else Run(call, attempt + 1)
  }

  /** The events of a run that ends on attempt n: each attempt, and between
      two attempts the log line and then the sleep for the same wait. */
  function Trace(n: nat): seq<Event>
    requires n >= 1
    decreases n
  {
    if n == 1 then [Invoke(1)]
    else Trace(n - 1) + [LogRetry(WaitAfter(n - 1)), Sleep(WaitAfter(n - 1)), Invoke(n)]
  }

  /** The decorated call: an attempt loop over the stub. */
  method InvokeWithRetry(call: nat -> CallOutcome) returns (r: RetryOutcome, attempts: nat, trace: seq<Event>)
    ensures (r, attempts) == Run(call, 1)
    ensures 1 <= attempts <= MaxAttempts
    ensures trace == Trace(attempts)
  {
    attempts := 1;
    trace := [Invoke(1)];
    var outcome := call(1);
    while RetryableFailure(outcome) && attempts < MaxAttempts
      invariant 1 <= attempts <= MaxAttempts
      invariant Run(call, attempts) == Run(call, 1)
      invariant outcome == call(attempts)
      invariant trace == Trace(attempts)
      decreases MaxAttempts - attempts
    {
      var w := WaitAfter(attempts);
      trace := trace + [LogRetry(w), Sleep(w)];
      attempts := attempts + 1;
      trace := trace + [Invoke(attempts)];
      outcome := call(attempts);
    }
    match outcome {
      case Returned(v) => r := Success(v);
      case Raised(e) => r := if Retryable(e) then GaveUp(e) else Propagated(e);
    }
  }

  // ---------------------------------------------------------------------
  // Properties of the policy

  /** If the first N-1 calls fail retryably and the N-th returns, the N-th
      result is returned after exactly N invocations. */
  lemma {:induction false} SucceedsOnAttempt(call: nat -> CallOutcome, from: nat, n: nat)
    requires 1 <= from <= n <= MaxAttempts
    requires forall j :: from <= j < n ==> RetryableFailure(call(j))
    requires call(n).Returned?
    ensures Run(call, from) == (Success(call(n).value), n)
    decreases n - from
  {
    if from < n {
      assert RetryableFailure(call(from));
      SucceedsOnAttempt(call, from + 1, n);
    }
  }

  /** A call that always fails retryably is given up only after the 10th attempt. */
  lemma {:induction false} ExhaustsAfterMaxAttempts(call: nat -> CallOutcome, from: nat)
    requires 1 <= from <= MaxAttempts
    requires forall j :: from <= j <= MaxAttempts ==> RetryableFailure(call(j))
    ensures var last := call(MaxAttempts); last.Raised? && Run(call, from) == (GaveUp(last.error), MaxAttempts)
    decreases MaxAttempts - from
  {
    assert RetryableFailure(call(from));
    if from < MaxAttempts {
      ExhaustsAfterMaxAttempts(call, from + 1);
    }
  }

  /** Every attempt before the last one failed with a retryable error, and
      the outcome is decided by the last attempt alone. */
  lemma {:induction false} RunCharacterised(call: nat -> CallOutcome, from: nat)
    requires 1 <= from <= MaxAttempts
    ensures var (r, n) := Run(call, from);
      && (forall j :: from <= j < n ==> RetryableFailure(call(j)))
      && (r.Success? <==> call(n).Returned?)
      && (r.Success? ==> r.value == call(n).value)
      && (r.Propagated? <==> call(n).Raised? && !Retryable(call(n).error))
      && (r.Propagated? ==> r.error == call(n).error)
      && (r.GaveUp? <==> RetryableFailure(call(n)) && n == MaxAttempts)
      && (r.GaveUp? ==> r.last == call(n).error)
    decreases MaxAttempts - from
  {
    var o := call(from);
    if RetryableFailure(o) && from < MaxAttempts {
      RunCharacterised(call, from + 1);
    }
  }

  /** A non-retryable error propagates after a single call. */
  lemma NonRetryablePropagatesAtOnce(call: nat -> CallOutcome)
    requires call(1).Raised? && !Retryable(call(1).error)
    ensures Run(call, 1) == (Propagated(call(1).error), 1)
  {
  }

  /** The run gives up exactly when all ten attempts failed retryably. */
  lemma GivesUpOnlyAfterTenRetryableFailures(call: nat -> CallOutcome)
    ensures Run(call, 1).0.GaveUp? <==> forall j :: 1 <= j <= MaxAttempts ==> RetryableFailure(call(j))
  {
    RunCharacterised(call, 1);
    if forall j :: 1 <= j <= MaxAttempts ==> RetryableFailure(call(j)) {
      ExhaustsAfterMaxAttempts(call, 1);
    }
  }

  lemma {:induction false} Pow2Monotone(a: nat, b: nat)
    requires a <= b
    ensures Pow2(a) <= Pow2(b)
    decreases b
  {
    if a < b { Pow2Monotone(a, b - 1); }
  }

  /** Waits never shrink from one attempt to the next. */
  lemma WaitsNonDecreasing(a: nat, b: nat)
    requires 1 <= a <= b
    ensures WaitAfter(a) <= WaitAfter(b)
  {
    Pow2Monotone(a - 1, b - 1);
  }

  /** The waits tenacity computes after attempts 1 to 9. */
  lemma WaitSchedule()
    ensures [WaitAfter(1), WaitAfter(2), WaitAfter(3), WaitAfter(4), WaitAfter(5),
             WaitAfter(6), WaitAfter(7), WaitAfter(8), WaitAfter(9)]
         == [10, 10, 20, 40, 80, 120, 120, 120, 120]
  {
    assert Pow2(5) == 32;
    assert Pow2(8) == 256;
  }

  function CountInvokes(t: seq<Event>): nat
  {
    if t == [] then 0 else CountInvokes(t[..|t| - 1]) + (if t[|t| - 1].Invoke? then 1 else 0)
  }

  function CountLogs(t: seq<Event>): nat
  {
    if t == [] then 0 else CountLogs(t[..|t| - 1]) + (if t[|t| - 1].LogRetry? then 1 else 0)
  }

  lemma {:induction false} CountsAppend(t: seq<Event>, u: seq<Event>)
    ensures CountInvokes(t + u) == CountInvokes(t) + CountInvokes(u)
    ensures CountLogs(t + u) == CountLogs(t) + CountLogs(u)
    decreases |u|
  {
    if u != [] {
      assert (t + u)[..|t + u| - 1] == t + u[..|u| - 1];
      assert (t + u)[|t + u| - 1] == u[|u| - 1];
      CountsAppend(t, u[..|u| - 1]);
    } else {
      assert t + u == t;
    }
  }

  /** A run that ends on attempt n invokes the call n times, logs n-1
      times, and every log line is followed by a sleep for the wait it
      announces, which lies in [10, 120]. */
  lemma {:induction false} TraceShape(n: nat)
    requires n >= 1
    ensures CountInvokes(Trace(n)) == n
    ensures CountLogs(Trace(n)) == n - 1
    ensures |Trace(n)| == 3 * n - 2
    ensures forall k :: 0 <= k < |Trace(n)| && Trace(n)[k].LogRetry? ==>
              k + 1 < |Trace(n)| && Trace(n)[k + 1] == Sleep(Trace(n)[k].wait)
              && MinWait <= Trace(n)[k].wait <= MaxWait
    decreases n
  {
    if n > 1 {
      TraceShape(n - 1);
      var w := WaitAfter(n - 1);
      var step := [LogRetry(w), Sleep(w), Invoke(n)];
      CountsAppend(Trace(n - 1), step);
      var one, two := [LogRetry(w)], [LogRetry(w), Sleep(w)];
      assert one[..0] == [] && two[..1] == one && step[..2] == two;
      assert CountInvokes(one) == 0 && CountLogs(one) == 1;
      assert CountInvokes(two) == 0 && CountLogs(two) == 1;
      assert CountInvokes(step) == 1 && CountLogs(step) == 1;
    }
  }
}
