/** `process_single_image` and the worker pool of `process_analysis_job`.
    Everything an item meets outside the code is in its `ItemEnv`: whether
    opening the image raised (with the exception's message) and what each
    request returns. The pool is a sequential map that keeps input order. */
module Pipeline {
  import opened Wrappers
  import opened Json
  import opened Retry
  import opened Response

  const RateLimitMessage := "Rate limit exceeded after retries"
  const HttpErrorPrefix := "HTTP Error: "

  /** The world as one image sees it. */
  datatype ItemEnv = ItemEnv(openError: Option<string>, reply: nat -> Outcome)

  /** The record for the fetch result of the retry loop. */
  function RecordForFetch(filename: string, fetch: Fetch, decode: string -> Option<Value>): (r: Record)
    ensures r.filename == filename
    ensures !fetch.Fetched? ==> IsErrorRecord(r)
    ensures fetch == RateLimitExceeded ==> r.description == Str(RateLimitMessage)
  {
    match fetch
    case Fetched(data) => RecordFromData(filename, data, decode)
    case RateLimitExceeded => ErrorRecord(filename, RateLimitMessage)
    case HttpFailed(_, message) => ErrorRecord(filename, HttpErrorPrefix + message)
    case Crashed(detail) => ErrorRecord(filename, detail)
  }

  /** What `process_single_image(filename)` returns. */
  function ItemRecord(filename: string, env: ItemEnv, decode: string -> Option<Value>): (r: Record)
    ensures r.filename == filename
    ensures env.openError.Some? ==> r == ErrorRecord(filename, env.openError.value)
  {
    if env.openError.Some? then ErrorRecord(filename, env.openError.value)
    else RecordForFetch(filename, RetryFrom(env.reply, 0).result, decode)
  }

  /** `process_single_image`: read the image, run the retry loop, turn the
      response into a record. Also returns the requests issued and the
      backoff bases slept. */
  method ProcessSingleImage(filename: string, env: ItemEnv, decode: string -> Option<Value>)
    returns (record: Record, requests: nat, backoffs: seq<nat>)
    ensures record == ItemRecord(filename, env, decode)
    ensures env.openError.Some? ==> requests == 0 && backoffs == []
    ensures env.openError.None? ==> requests == RetryFrom(env.reply, 0).requests
                                    && backoffs == RetryFrom(env.reply, 0).backoffs
  {
    if env.openError.Some? {
      return ErrorRecord(filename, env.openError.value), 0, [];
    }
    var fetch;
    fetch, requests, backoffs := FetchWithRetry(env.reply);
    record := RecordForFetch(filename, fetch, decode);
  }

  /** How `list(executor.map(process_single_image, image_files))` ends:
      with the records, or with the exception the pool raised. */
  datatype PoolResult = Finished(results: seq<Record>) | PoolRaised(error: string)

  /** The records of `files`, one per file, in order. */
  function PoolRecords(files: seq<string>, env: string -> ItemEnv, decode: string -> Option<Value>): (rs: seq<Record>)
    ensures |rs| == |files|
    ensures forall i :: 0 <= i < |files| ==> rs[i] == ItemRecord(files[i], env(files[i]), decode)
  {
    seq(|files|, i requires 0 <= i < |files| => ItemRecord(files[i], env(files[i]), decode))
  }

  /** The pool's result, where `fault` is an exception the pool itself
      raises. With the null context map read as an empty one (see
      `PoolOutcomeAsWritten`), nothing else can make the pool raise. */
  function PoolOutcome(files: seq<string>, env: string -> ItemEnv, decode: string -> Option<Value>,
                       fault: Option<string>): (r: PoolResult)
    ensures fault.None? <==> r.Finished?
    ensures fault.Some? ==> r == PoolRaised(fault.value)
  {
    if fault.Some? then PoolRaised(fault.value) else Finished(PoolRecords(files, env, decode))
  }

  /** The message of the AttributeError `context_map.get` raises when the
      request's `context_map` is null. */
  const NullContextMapError := "'NoneType' object has no attribute 'get'"

  /** The pool as written: `context_map.get(filename, "")` runs before the
      per-item `try`, so a null `context_map` makes every item raise, and the
      pool re-raises the first of those exceptions. */
  function PoolOutcomeAsWritten(files: seq<string>, contextMap: Option<map<string, string>>,
                                env: string -> ItemEnv, decode: string -> Option<Value>,
                                fault: Option<string>): (r: PoolResult)
    ensures contextMap.Some? ==> r == PoolOutcome(files, env, decode, fault)
  {
    if fault.Some? then PoolRaised(fault.value)
    else if contextMap.None? && files != [] then PoolRaised(NullContextMapError)
    else Finished(PoolRecords(files, env, decode))
  }

  /** The discrepancy: a request whose `context_map` is null fails a job of
      one or more images, where an empty map completes it. */
  lemma NullContextMapFailsJob(files: seq<string>, env: string -> ItemEnv, decode: string -> Option<Value>)
    requires files != []
    ensures PoolOutcomeAsWritten(files, None, env, decode, None) == PoolRaised(NullContextMapError)
    ensures PoolOutcomeAsWritten(files, Some(map[]), env, decode, None).Finished?
  {
  }

  /** The pool run in order over `files`. */
  method RunPool(files: seq<string>, env: string -> ItemEnv, decode: string -> Option<Value>, fault: Option<string>)
    returns (outcome: PoolResult)
    ensures outcome == PoolOutcome(files, env, decode, fault)
  {
    if fault.Some? {
      return PoolRaised(fault.value);
    }
    var results: seq<Record> := [];
    for i := 0 to |files|
      invariant |results| == i
      invariant forall j :: 0 <= j < i ==> results[j] == ItemRecord(files[j], env(files[j]), decode)
    {
      var record, _, _ := ProcessSingleImage(files[i], env(files[i]), decode);
      results := results + [record];
    }
    outcome := Finished(results);
  }

  // ----- properties -----

  /** Every image gets exactly one record, in input order, whose filename is
      that image's; each record depends on its own image's world only. */
  lemma OneRecordPerImage(files: seq<string>, env: string -> ItemEnv, decode: string -> Option<Value>)
    ensures var r := PoolOutcome(files, env, decode, None);
            && r.Finished? && |r.results| == |files|
            && (forall i :: 0 <= i < |files| ==> r.results[i].filename == files[i])
            && (forall i :: 0 <= i < |files| ==> r.results[i] == ItemRecord(files[i], env(files[i]), decode))
  {
  }

  /** An image that cannot be opened gets an error record carrying the
      exception's message, makes no request, and leaves the other images'
      records and the pool's completion alone. */
  lemma UnreadableImageIsContained(files: seq<string>, k: nat, env: string -> ItemEnv, decode: string -> Option<Value>)
    requires k < |files| && env(files[k]).openError.Some?
    ensures var r := PoolOutcome(files, env, decode, None);
            && r.Finished?
            && r.results[k] == ErrorRecord(files[k], env(files[k]).openError.value)
            && forall i :: 0 <= i < |files| && files[i] != files[k] ==>
                 r.results[i] == ItemRecord(files[i], env(files[i]), decode)
  {
  }

  /** Three 429s and then a body that answers: the answer's title comes
      through after three sleeps of 1, 2 and 4 seconds (plus jitter). */
  lemma ThreeRateLimitsThenAnswer(filename: string, env: ItemEnv, decode: string -> Option<Value>,
                                  data: Value, text: string, answer: map<string, Value>)
    requires env.openError.None?
    requires forall i :: 0 <= i < 3 ==> IsRateLimit(env.reply(i))
    requires env.reply(3) == Outcome.Ok(data) && Answers(data, text)
    requires decode(Clean(text)) == Some(Obj(answer)) && "Title" in answer
    ensures ItemRecord(filename, env, decode).title == answer["Title"]
    ensures RetryFrom(env.reply, 0).backoffs == [1, 2, 4]
  {
    RateLimitedThenFetched(env.reply, 0, 3, data);
    AttemptAndSleepBounds(env.reply);
    MissingKeysDefaultToEmpty(filename, data, text, decode, answer);
  }

  /** A 429 on every attempt: a rate-limit error record, four requests,
      three sleeps; the job still completes. */
  lemma AlwaysRateLimited(filename: string, env: ItemEnv, decode: string -> Option<Value>)
    requires env.openError.None?
    requires forall i :: 0 <= i <= MaxRetries ==> IsRateLimit(env.reply(i))
    ensures ItemRecord(filename, env, decode) == ErrorRecord(filename, RateLimitMessage)
    ensures RetryFrom(env.reply, 0).requests == MaxRetries + 1
    ensures RetryFrom(env.reply, 0).backoffs == [1, 2, 4]
  {
    ExhaustedIffAllRateLimited(env.reply, 0);
    ExhaustedShape(env.reply);
  }

  /** Any other HTTP error, on the first request or after `k` rate limits:
      it is not retried, and the record is `"HTTP Error: ..."`. */
  lemma HttpErrorNotRetried(filename: string, env: ItemEnv, decode: string -> Option<Value>, k: nat)
    requires env.openError.None? && k <= MaxRetries
    requires forall i :: 0 <= i < k ==> IsRateLimit(env.reply(i))
    requires env.reply(k).Http? && env.reply(k).code != TooManyRequests
    ensures ItemRecord(filename, env, decode) == ErrorRecord(filename, HttpErrorPrefix + env.reply(k).message)
    ensures RetryFrom(env.reply, 0).requests == k + 1 && |RetryFrom(env.reply, 0).backoffs| == k
  {
    RateLimitedThenStopped(env.reply, 0, k);
    NoRetryWithoutRateLimit(env.reply, k);
  }
}
