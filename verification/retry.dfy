/** The rate-limit retry loop of `process_single_image`: up to
    `MaxRetries + 1` requests, retrying only on HTTP 429 and sleeping
    `2^attempt` seconds plus jitter before each retry. The network is the
    function `reply`: `reply(i)` is what the request of attempt `i` ends in.
    Jitter is left out; a sleep is recorded by its integer base `2^attempt`. */
module Retry {
  import opened Json

  const MaxRetries: nat := 3
  const TooManyRequests := 429

  /** What one request ends in: a decoded body, an HTTP error status raised
      by `raise_for_status` (with its message), or any other exception. */
  datatype Outcome = Ok(data: Value) | Http(code: int, message: string) | Failure(detail: string)

  predicate IsRateLimit(o: Outcome)
  {
    o.Http? && o.code == TooManyRequests
  }

  /** How the loop ends. */
  datatype Fetch =
    | Fetched(data: Value)
    | RateLimitExceeded
    | HttpFailed(code: int, message: string)
    | Crashed(detail: string)

  /** The result together with the requests issued and the backoff bases slept. */
  datatype Trace = Trace(result: Fetch, requests: nat, backoffs: seq<nat>)

  /** Python's `2 ** n`. */
  function Pow2(n: nat): (r: nat)
    ensures r >= 1
  {
    if n == 0 then 1 else 2 * Pow2(n - 1)
  }

  /** The loop run from attempt `attempt` on. */
  function RetryFrom(reply: nat -> Outcome, attempt: nat): (t: Trace)
    requires attempt <= MaxRetries
    ensures 1 <= t.requests <= MaxRetries + 1 - attempt
    ensures |t.backoffs| == t.requests - 1
    ensures forall i :: 0 <= i < |t.backoffs| ==> t.backoffs[i] == Pow2(attempt + i)
    decreases MaxRetries - attempt
  {
    match reply(attempt)
    case Ok(data) => Trace(Fetched(data), 1, [])
    case Failure(detail) => Trace(Crashed(detail), 1, [])
    case Http(code, message) =>
      if code != TooManyRequests then Trace(HttpFailed(code, message), 1, [])
      else if attempt < MaxRetries then
        var rest := RetryFrom(reply, attempt + 1);
        Trace(rest.result, rest.requests + 1, [Pow2(attempt)] + rest.backoffs)
      else Trace(RateLimitExceeded, 1, [])
  }

  /** `t` continued after the retries that slept `slept`. */
  function After(slept: seq<nat>, t: Trace): Trace
  {
    Trace(t.result, t.requests + |slept|, slept + t.backoffs)
  }

  /** The loop itself. */
  method FetchWithRetry(reply: nat -> Outcome) returns (result: Fetch, requests: nat, backoffs: seq<nat>)
    ensures Trace(result, requests, backoffs) == RetryFrom(reply, 0)
  {
    ghost var spec := RetryFrom(reply, 0);
    var attempt: nat := 0;
    var done := false;
    result, requests, backoffs := RateLimitExceeded, 0, [];
    assert backoffs + spec.backoffs == spec.backoffs;
    while !done
      invariant attempt <= MaxRetries && |backoffs| == attempt
      invariant !done ==> spec == After(backoffs, RetryFrom(reply, attempt))
      invariant done ==> Trace(result, requests, backoffs) == spec
      decreases MaxRetries - attempt, !done
    {
      ghost var here := RetryFrom(reply, attempt);
      var outcome := reply(attempt);
      match outcome {
        case Ok(data) =>
          assert here == Trace(Fetched(data), 1, []);
          AfterFinal(backoffs, here);
          result, requests, done := Fetched(data), attempt + 1, true;
        case Failure(detail) =>
          assert here == Trace(Crashed(detail), 1, []);
          AfterFinal(backoffs, here);
          result, requests, done := Crashed(detail), attempt + 1, true;
        case Http(code, message) =>
          if code == TooManyRequests {
            if attempt < MaxRetries {
              ghost var next := RetryFrom(reply, attempt + 1);
              assert here == After([Pow2(attempt)], next);
              AfterSleep(backoffs, Pow2(attempt), next);
              backoffs := backoffs + [Pow2(attempt)];
              attempt := attempt + 1;
            } else {
              assert here == Trace(RateLimitExceeded, 1, []);
              AfterFinal(backoffs, here);
              result, requests, done := RateLimitExceeded, attempt + 1, true;
            }
          } else {
            assert here == Trace(HttpFailed(code, message), 1, []);
            AfterFinal(backoffs, here);
            result, requests, done := HttpFailed(code, message), attempt + 1, true;
          }
      }
    }
  }

  /** A run that ends on its first request, continued after `slept`. */
  lemma AfterFinal(slept: seq<nat>, t: Trace)
    requires t.requests == 1 && t.backoffs == []
    ensures After(slept, t) == Trace(t.result, |slept| + 1, slept)
  {
    assert slept + [] == slept;
  }

  /** One more sleep moves from the continuation into the slept prefix. */
  lemma AfterSleep(slept: seq<nat>, b: nat, t: Trace)
    ensures After(slept, After([b], t)) == After(slept + [b], t)
  {
    assert (slept + [b]) + t.backoffs == slept + ([b] + t.backoffs);
  }

  // ----- properties of the loop -----

  /** At most four requests and three sleeps; the sleep bases are
      1, 2, 4 in that order, so they strictly increase. */
  lemma AttemptAndSleepBounds(reply: nat -> Outcome)
    ensures RetryFrom(reply, 0).requests <= MaxRetries + 1
    ensures |RetryFrom(reply, 0).backoffs| <= MaxRetries
    ensures RetryFrom(reply, 0).backoffs == [1, 2, 4][..|RetryFrom(reply, 0).backoffs|]
    ensures forall i, j :: 0 <= i < j < |RetryFrom(reply, 0).backoffs| ==>
              RetryFrom(reply, 0).backoffs[i] < RetryFrom(reply, 0).backoffs[j]
  {
    var b := RetryFrom(reply, 0).backoffs;
    assert Pow2(0) == 1 && Pow2(1) == 2 && Pow2(2) == 4;
    forall i | 0 <= i < |b| ensures b[i] == [1, 2, 4][i] {
      assert b[i] == Pow2(i);
    }
  }

  /** A sleep happens only after a 429 on an attempt that is not the last:
      the `i`-th sleep of a run from `attempt` follows attempt `attempt + i`. */
  lemma {:induction false} SleepsFollowRateLimits(reply: nat -> Outcome, attempt: nat)
    requires attempt <= MaxRetries
    ensures forall j :: attempt <= j < attempt + |RetryFrom(reply, attempt).backoffs| ==>
              j < MaxRetries && IsRateLimit(reply(j))
    decreases MaxRetries - attempt
  {
    var t := RetryFrom(reply, attempt);
    if |t.backoffs| > 0 {
      SleepsFollowRateLimits(reply, attempt + 1);
      assert IsRateLimit(reply(attempt)) && attempt < MaxRetries;
      assert |t.backoffs| == |RetryFrom(reply, attempt + 1).backoffs| + 1;
    }
  }

  /** Anything but a 429 ends the loop at once: one request, no sleep. */
  lemma NoRetryWithoutRateLimit(reply: nat -> Outcome, attempt: nat)
    requires attempt <= MaxRetries && !IsRateLimit(reply(attempt))
    ensures RetryFrom(reply, attempt).requests == 1 && RetryFrom(reply, attempt).backoffs == []
    ensures reply(attempt).Http? ==>
              RetryFrom(reply, attempt).result == HttpFailed(reply(attempt).code, reply(attempt).message)
    ensures reply(attempt).Ok? ==> RetryFrom(reply, attempt).result == Fetched(reply(attempt).data)
    ensures reply(attempt).Failure? ==> RetryFrom(reply, attempt).result == Crashed(reply(attempt).detail)
  {
  }

  /** The loop gives up with the rate-limit error exactly when every attempt
      from `attempt` to the last one got a 429. */
  lemma {:induction false} ExhaustedIffAllRateLimited(reply: nat -> Outcome, attempt: nat)
    requires attempt <= MaxRetries
    ensures RetryFrom(reply, attempt).result == RateLimitExceeded <==>
              forall i :: attempt <= i <= MaxRetries ==> IsRateLimit(reply(i))
    decreases MaxRetries - attempt
  {
    if IsRateLimit(reply(attempt)) && attempt < MaxRetries {
      ExhaustedIffAllRateLimited(reply, attempt + 1);
    }
  }

  /** Giving up costs four requests and exactly three sleeps, 1, 2 and 4:
      there is no sleep after the last 429. */
  lemma ExhaustedShape(reply: nat -> Outcome)
    requires RetryFrom(reply, 0).result == RateLimitExceeded
    ensures RetryFrom(reply, 0).requests == MaxRetries + 1
    ensures RetryFrom(reply, 0).backoffs == [1, 2, 4]
  {
    ExhaustedIffAllRateLimited(reply, 0);
    ExhaustedIffAllRateLimited(reply, 1);
    ExhaustedIffAllRateLimited(reply, 2);
    ExhaustedIffAllRateLimited(reply, 3);
    AttemptAndSleepBounds(reply);
  }

  /** `k` rate limits followed by anything else: for `k <= MaxRetries` the
      loop ends with what attempt `k` gave, after `k + 1` requests. */
  lemma {:induction false} RateLimitedThenStopped(reply: nat -> Outcome, attempt: nat, k: nat)
    requires attempt <= k <= MaxRetries
    requires forall i :: attempt <= i < k ==> IsRateLimit(reply(i))
    requires !IsRateLimit(reply(k))
    ensures RetryFrom(reply, attempt).result == RetryFrom(reply, k).result
    ensures RetryFrom(reply, attempt).requests == k - attempt + 1
    decreases k - attempt
  {
    if attempt < k {
      RateLimitedThenStopped(reply, attempt + 1, k);
    }
  }

  /** `k` rate limits followed by a success: the data comes back after `k`
      sleeps and `k + 1` requests. */
  lemma RateLimitedThenFetched(reply: nat -> Outcome, attempt: nat, k: nat, data: Value)
    requires attempt <= k <= MaxRetries
    requires forall i :: attempt <= i < k ==> IsRateLimit(reply(i))
    requires reply(k) == Ok(data)
    ensures RetryFrom(reply, attempt).result == Fetched(data)
    ensures RetryFrom(reply, attempt).requests == k - attempt + 1
  {
    RateLimitedThenStopped(reply, attempt, k);
  }
}
