# ShutterStacker backend: analysis jobs, retries and upload bookkeeping in Dafny

This project models the decision rules and state updates inside the FastAPI
service `backend/main.py`, which has an external vision model write
stock-photo metadata (title, description, keywords, category) for a batch of
images, then embeds that metadata with exiftool and uploads the images over
FTP. Five parts are modelled:

- the rate-limit retry loop of `process_single_image`. It makes at most four
  requests and retries only on HTTP 429, sleeping `2^attempt` seconds plus
  jitter before each retry (module `Retry`);
- the path from a response body to a result record. This covers the
  `candidates` guard, the nested `content`/`parts`/`text` path, code-fence
  cleanup, `json.loads` and the four field lookups that default to `""`
  (modules `Response`, `Json`, `Text`);
- the per-image pipeline and the worker pool, which gives one record per
  image in input order (module `Pipeline`);
- the job store `JOBS` and the endpoints `analyze_images`,
  `process_analysis_job` and `get_analysis_status`, including the
  `.jpg`/`.jpeg`/`.png` filter (module `Jobs`, class `JobStore`);
- `embed_and_upload`: the exiftool argument list, and the embed and upload
  loops that skip missing files and collect successes and failures
  (module `Upload`).

The model abstracts the outside world into parameters:

- The network is a function `reply: nat -> Outcome`, where `reply(i)` is
  what request attempt `i` ends in: a decoded body, an HTTP error status
  with its message, or another exception.
- `json.loads` is a function `decode: string -> Option<Value>`, where `None`
  stands for a JSONDecodeError.
- File existence, exiftool, the FTP login and the FTP stores are fields of
  `Upload.Env`.
- Whether an image could be opened is part of `Pipeline.ItemEnv`.
- A fault of the thread pool itself is an `Option<string>`.

Errors are values throughout: Python's exceptions become `Lookup.Raised`,
`Membership.NotIterable` or `Result.Err` carrying Python's message. An
endpoint's HTTPException becomes `Jobs.HttpError`.

A few points where the code's behaviour is easy to misread:

- An image that cannot be opened produces an error record whose
  description is the exception's text, not a fixed message.
- The pool keeps input order, because `executor.map` returns results in
  submission order.
- The retry logic is written inline for the one request, not as a reusable
  wrapper.

## Model

| member | source | states |
|---|---|---|
| `Text.RemoveAll` | backend/main.py:204 | `replace(pat, "")` never lengthens the string; what it removes is stated by the three lemmas below |
| `Text.RemoveAllAbsent` | backend/main.py:204 | `replace(pat, "")` leaves a string without `pat` unchanged |
| `Text.RemoveAllPlainPrefix` | backend/main.py:204 | removing a backtick-led marker passes a backtick-free prefix through unchanged |
| `Text.RemoveFenceLeavesNone` | backend/main.py:204 | after `replace("```", "")` no "```" remains, even where a removal joins backticks from both sides |
| `Text.Strip` | backend/main.py:204 | `strip()` returns a slice of the input; everything dropped before and after it is whitespace, and the result starts and ends with a non-whitespace character |
| `Text.StripIdempotent` | backend/main.py:204 | stripping twice is stripping once |
| `Text.Lower` | backend/main.py:260 | `lower()` keeps the length and lower-cases each ASCII letter in place |
| `Text.PathJoin` | backend/main.py:306 | `os.path.join(dir, name)` is `name` when `name` is absolute; otherwise it is `dir + name` or `dir + "/" + name` |
| `Json.Truthy` | backend/main.py:182 | `not v` holds exactly for None, False, 0, "", [] and {} |
| `Json.Subscript` | backend/main.py:192 | `v[k]` gives KeyError/IndexError exactly for a dict without the key (or subscripted by 0), or an empty list or empty string subscripted by 0; otherwise it gives a value or Python's TypeError |
| `Json.Then` | backend/main.py:192 | in a chain of subscripts, the first KeyError, IndexError or TypeError is the chain's outcome |
| `Json.Contains` | backend/main.py:182 | `"candidates" in data` on a dict tests its keys |
| `Json.Get` | backend/main.py:218-221 | `metadata.get(k, "")` succeeds exactly on a dict and yields the default for a missing key |
| `Retry.RetryFrom` | backend/main.py:148-179 | each run makes between 1 and `MaxRetries + 1 - attempt` requests; it sleeps exactly once fewer than it requests, and the i-th sleep has base `2^(attempt+i)` |
| `Retry.FetchWithRetry` | backend/main.py:147-179 | the loop ends with exactly the result, request count and backoff bases of `RetryFrom(reply, 0)` |
| `Retry.AttemptAndSleepBounds` | backend/main.py:148-161 | at most 4 requests and 3 sleeps; the sleep bases are a prefix of 1, 2, 4 and strictly increase |
| `Retry.SleepsFollowRateLimits` | backend/main.py:155-161 | every sleep follows a 429 on an attempt below `max_retries` |
| `Retry.NoRetryWithoutRateLimit` | backend/main.py:150-154 | a success, a non-429 HTTP error or another exception ends the loop after one request with no sleep, carrying that outcome |
| `Retry.ExhaustedIffAllRateLimited` | backend/main.py:156-170 | the loop gives up with the rate-limit error if and only if every attempt got a 429 |
| `Retry.ExhaustedShape` | backend/main.py:157-170 | giving up takes 4 requests and sleeps 1, 2 and 4, with no sleep after the last 429 |
| `Retry.RateLimitedThenStopped` | backend/main.py:149-179 | after k 429s (k at most 3), any other outcome at attempt k ends the loop with that attempt's result after k + 1 requests |
| `Retry.RateLimitedThenFetched` | backend/main.py:149-161 | k 429s (k at most 3) and then a success return that body after k + 1 requests |
| `Response.ErrorRecord` | backend/main.py:183-189 | an error record has the input filename, the sentinel title, the given description, and empty keywords and category |
| `Response.Candidates` | backend/main.py:182 | on a dict, the guard reads `data["candidates"]`, or reports it missing |
| `Response.AnswerText` | backend/main.py:192 | the subscript chain reaches a value only through a non-empty list of candidates; a dict of candidates fails with a KeyError on `[0]` |
| `Response.Clean` | backend/main.py:204 | the cleaned answer contains no "```" |
| `Response.Field` | backend/main.py:218-221 | `metadata.get(name, "")` succeeds exactly on a dict, copying the value of a present key and giving `""` for a missing one |
| `Response.Metadata` | backend/main.py:181-222 | a missing or falsy `candidates` gives "No candidates returned"; a missing nested key or index gives "Invalid API response format"; once the nested path reaches an answer, the outcome is that answer's `AnswerFields`, whatever else the body carries |
| `Response.AnswerFields` | backend/main.py:203-222 | a string answer that decodes to None gives "Failed to parse JSON response"; fields are read exactly when the text is a string whose cleaned form decodes to a dict |
| `Response.RecordFromData` | backend/main.py:181-222 | the record keeps the filename, and every error path yields the error record with that error's description |
| `Response.WellFormedReachesAnswer` | backend/main.py:192 | the smallest body of the expected shape reaches `candidates[0].content.parts[0].text` |
| `Response.CleanIdempotent` | backend/main.py:204 | cleaning twice is cleaning once |
| `Response.FencedCleansToBody` | backend/main.py:204 | "```json" + body + "```" with a backtick-free body cleans to the stripped body, the same as the bare body |
| `Response.FencedAnswerSameRecord` | backend/main.py:192-222 | a body whose answer is fenced yields the same record as one whose answer is bare, whatever other keys either body carries |
| `Response.UndecodableAnswer` | backend/main.py:205-214 | for any body that reaches an answer, an answer that does not decode yields the "Failed to parse JSON response" record |
| `Response.MissingKeysDefaultToEmpty` | backend/main.py:216-222 | for any body that reaches an answer decoding to a dict, each of the four fields is copied from the decoded dict when present and is `""` when missing; a record without a title is not an error record |
| `Response.IncompleteCandidate` | backend/main.py:191-201 | a first candidate without `content` yields the "Invalid API response format" record, whatever other keys the body and other candidates the list carry |
| `Response.SafetyBlockedReply` | backend/main.py:191-201 | a reply whose only candidate carries a `finishReason` but no `content`, next to `usageMetadata`, yields the "Invalid API response format" record |
| `Response.SentinelIsAmbiguous` | backend/main.py:164-222 | in any body, an answer titled "Error Processing", with a string description and no keywords or category, is indistinguishable from an error record although the fetch succeeded |
| `Pipeline.RecordForFetch` | backend/main.py:154-179 | every unsuccessful fetch gives an error record with the filename; giving up on rate limits has description "Rate limit exceeded after retries" |
| `Pipeline.ItemRecord` | backend/main.py:121-232 | the record keeps the filename; an image that cannot be opened gives the error record carrying the exception text |
| `Pipeline.ProcessSingleImage` | backend/main.py:121-232 | returns `ItemRecord`; an unopened image makes no request and no sleep, otherwise requests and sleeps are those of the retry loop |
| `Pipeline.PoolRecords` | backend/main.py:236-237 | one record per file, the i-th for the i-th file |
| `Pipeline.PoolOutcome` | backend/main.py:234-246 | the pool raises exactly when it faults, with that fault as the error |
| `Pipeline.PoolOutcomeAsWritten` | backend/main.py:121-123 | as written, the pool agrees with `PoolOutcome` whenever the context map is not null |
| `Pipeline.NullContextMapFailsJob` | backend/main.py:123 | with a null `context_map` and at least one image, the pool raises the AttributeError; an empty map completes |
| `Pipeline.RunPool` | backend/main.py:236-237 | running the items in order yields `PoolOutcome` |
| `Pipeline.OneRecordPerImage` | backend/main.py:236-237 | a pool without fault finishes with exactly one record per image, in order, each with its image's filename and depending on that image alone |
| `Pipeline.UnreadableImageIsContained` | backend/main.py:224-232 | an unreadable image gets its own error record and neither fails the pool nor changes the other images' records |
| `Pipeline.ThreeRateLimitsThenAnswer` | backend/main.py:147-222 | three 429s then any body whose nested path reaches an answer decoding to a dict with a title: that title arrives after sleeps of 1, 2 and 4 |
| `Pipeline.AlwaysRateLimited` | backend/main.py:156-170 | 429 on every attempt gives the rate-limit error record after 4 requests and 3 sleeps |
| `Pipeline.HttpErrorNotRetried` | backend/main.py:149-179 | an HTTP error other than 429, on the first request or after k 429s (k at most 3), is not retried: the record is "HTTP Error: ..." with that error's message, after k + 1 requests and k sleeps |
| `Jobs.IsImageName` | backend/main.py:260 | an image name has at least four characters and ends in `g` or `G`, as all three extensions do |
| `Jobs.ImageNameIgnoresCase` | backend/main.py:260 | the test ignores case: a name is an image exactly when its lower-cased form is |
| `Jobs.ImageFiles` | backend/main.py:260 | a name is selected if and only if it is in the listing and its lower-cased form ends in .jpg, .jpeg or .png |
| `Jobs.ImageFilesAppend` | backend/main.py:260 | the selection keeps listing order: selecting from a + b is selecting from a, then from b |
| `Jobs.ImageNameExamples` | backend/main.py:260 | upper-case extensions count; "jpg" alone and "photo.jpg.bak" do not |
| `Jobs.Initialised` | backend/main.py:265-269 | submitting sets the job to processing with no results and no error, and leaves other entries unchanged |
| `Jobs.Finalised` | backend/main.py:239-246 | completion stores status completed and the results; a pool error stores status failed and the error; other entries and a missing entry are unchanged |
| `Jobs.Lookup` | backend/main.py:286-289 | an unknown id gives 404; a known id gives the stored job unchanged |
| `Jobs.InitialisedKeepsStoreWellFormed` | backend/main.py:265-269 | submitting keeps the invariant: a processing job has no results or error, and a failed job has an error |
| `Jobs.FinalisedKeepsStoreWellFormed` | backend/main.py:239-246 | finishing keeps the same invariant |
| `Jobs.Lifecycle` | backend/main.py:234-269 | submit then finish: processing first, then completed with one record per image in order, or failed with the fault; other ids read back unchanged |
| `Jobs.FinalisedIsTerminal` | backend/main.py:239-246 | a finished job is no longer processing; it is completed exactly when the pool finished |
| `Jobs.JobStore.constructor` | backend/main.py:46 | the store starts empty |
| `Jobs.JobStore.AnalyzeImages` | backend/main.py:254-281 | a missing session gives 404 and an unreadable one 500, both leaving the store unchanged; otherwise the job is initialised as processing and `Ok` carries the selected images, the list handed to the background job (the HTTP answer itself is the fixed "Analysis started in background" message) |
| `Jobs.JobStore.ProcessAnalysisJob` | backend/main.py:234-246 | the store becomes `Finalised` of the pool's outcome |
| `Jobs.JobStore.GetAnalysisStatus` | backend/main.py:284-289 | the answer is `Lookup` of the current store; a processing job is reported with no results and no error, a failed one with its error |
| `Upload.ExiftoolArgs` | backend/main.py:310-323 | the command line has 12 arguments: "exiftool", then "-overwrite_original", then the tag assignments, with the image path last |
| `Upload.ArgsSpelledOut` | backend/main.py:310-323 | written out, the arguments are the endpoint's twelve: the title feeds `Title` and `XMP:Title`, the description `Description`, `IPTC:Caption-Abstract` and `XMP:Description`, the keywords `Keywords`, `IPTC:Keywords` and `XMP:Subject`, the category `Category` |
| `Upload.OnlyThePathIsAnOperand` | backend/main.py:310-323 | every argument between the program and the path starts with "-", whatever the field values hold |
| `Upload.ImagePath` | backend/main.py:306 | `os.path.join(session_path, item.filename)` (also line 345): an absolute filename replaces the session directory and so may name a file outside it; a relative one is appended to it with at most one "/" |
| `Upload.Existing` | backend/main.py:305-308 | exactly the items whose image path exists, drawn from the request |
| `Upload.ExistingAppend` | backend/main.py:305-308 | the loops visit the request in order: the existing items of `a + b` are those of `a`, then those of `b` |
| `Upload.ExistingSingle` | backend/main.py:305-308 | a single item is kept exactly when its image path exists |
| `Upload.RunOf` | backend/main.py:305-328 | an item is skipped by a loop exactly when its image path does not exist |
| `Upload.Commands` | backend/main.py:305-326 | the exiftool command lines run for the request, at most one per item |
| `Upload.FailureMessage` | backend/main.py:328 | a failure message (also line 355) starts with its loop's prefix, "ExifTool failed for " or "FTP Upload failed for ", followed by the filename, ": " and the error text |
| `Upload.StagesTellApart` | backend/main.py:328 | an embed message is never an upload message (line 355) |
| `Upload.MessageMayNotIdentifyItem` | backend/main.py:328 | a message need not identify its item: filename "a: b" with error "c" gives the same message as filename "a" with error "b: c" |
| `Upload.CommandsFollowExisting` | backend/main.py:305-326 | exiftool runs once per existing item, in request order, each time on that item's own command line |
| `Upload.Successes` | backend/main.py:350-353 | `uploaded_files` has at most one entry per request item |
| `Upload.Failures` | backend/main.py:325-328 | `embed_errors` and `upload_errors` have at most one entry per request item |
| `Upload.EmbedMetadata` | backend/main.py:302-328 | the loop runs exactly the command lines of `Commands` and collects exactly the `Failures` of the embed stage |
| `Upload.UploadFiles` | backend/main.py:336-355 | the loop collects exactly the `Successes` and `Failures` of the upload stage |
| `Upload.ReportFor` | backend/main.py:339-367 | the report carries the embed failures; it is a connection failure exactly when login raised, and otherwise carries the upload successes and failures |
| `Upload.EmbedAndUpload` | backend/main.py:298-367 | a missing session gives 404; otherwise the report is `ReportFor`, and cleanup is queued exactly when the upload completed |
| `Upload.SuccessCount` | backend/main.py:350-353 | one uploaded name per position whose store succeeded |
| `Upload.FailureCount` | backend/main.py:325-328 | one message per position whose run failed |
| `Upload.RunCounts` | backend/main.py:343-355 | in each loop, successes and failures together number exactly the existing items |
| `Upload.SucceededListed` | backend/main.py:350-353 | the filename of every item whose store succeeded is in the uploaded list |
| `Upload.ListedSucceeded` | backend/main.py:350-353 | every uploaded name is the filename of an item whose store succeeded |
| `Upload.FailedListed` | backend/main.py:325-328 | every failed run leaves its message, with the item's filename and the error text |
| `Upload.ListedFailed` | backend/main.py:325-328 | every message is the message of a failed run |
| `Upload.UniqueNameNeverBoth` | backend/main.py:350-355 | an item whose filename no other item shares is not both uploaded and reported failed |
| `Upload.DuplicateNameInBothLists` | backend/main.py:343-355 | two items with the same filename are stored separately, so the name can be both uploaded and reported failed |
| `Upload.UploadedIsSubsequence` | backend/main.py:343-353 | uploaded names appear in the request in the same order |
| `Upload.SkipsMissingImages` | backend/main.py:305-348 | exiftool runs only on existing paths, and every uploaded name belongs to an item whose image exists |

## Findings

| source | as written | input that shows it | evidently intended | confidence | as-written member | corrected member |
|---|---|---|---|---|---|---|
| backend/main.py:123 | `context_map.get(filename, "")` runs outside the per-image `try`. The request model declares `context_map` as `Optional`, so it may be null | an analyze request with `"context_map": null` for a session holding one `.jpg`: every image raises AttributeError, the pool re-raises it, and the job ends `failed` | a null context map treated as an empty one, so the job completes with one record per image | medium, not executed | `Pipeline.PoolOutcomeAsWritten`, shown by `Pipeline.NullContextMapFailsJob` | `Pipeline.PoolOutcome`, used by `Pipeline.RunPool` and `Jobs.JobStore.ProcessAnalysisJob`, proved by `Pipeline.OneRecordPerImage` |

## Left out

- Web layer: app setup, CORS, the static mount and the `upload_files` endpoint (file writes), and `cleanup_session` (directory removal). They are I/O without decisions. Only the 404/500 outcomes survive, as `Jobs.HttpError`.
- The request payload, which consists of the prompt text, base64 encoding and MIME type (backend/main.py:122-145), is not modelled. The model's `reply` does not depend on it, so the user context from `context_map` only matters through the null-map finding.
- `requests.post`, `raise_for_status` and `response.json()` are replaced by the `reply` oracle. `json.loads` is replaced by the `decode` oracle.
- JSON numbers are integers. Floats, with Python type name `float` and the truthiness of `0.0`, are not modelled.
- Python exception messages are those of Python 3.11 and later. Earlier versions word the string-index TypeError differently.
- `Text.Lower` maps only ASCII letters. No other character lower-cases to one of `. j p e g n`, so the extension test is unaffected.
- `time.sleep` and the jitter `random.uniform(0, 1)` are not modelled. Only the integer backoff base `2^attempt` of each sleep is recorded.
- The thread pool (3 workers) and `BackgroundTasks` are modelled as a sequential, order-preserving loop and a separate call (`Jobs.JobStore.ProcessAnalysisJob`). The model does not cover interleavings, for example a second analyze of the same session while a job runs.
- Session ids from `uuid.uuid4` are parameters. Logging is not modelled.
- Exceptions from `subprocess.run` other than a non-zero exit, such as exiftool not being installed, propagate out of the endpoint and are not modelled. The image-path existence test is assumed to give the same answer in the embed loop and the upload loop.
- exiftool runs and FTP stores are keyed by the item's position in the request, so two items with the same filename can fare differently.
- An error raised when the `with FTP(...)` block closes the connection after the loop also ends in the "FTP Connection failed" answer; the model only lets the connect-and-login step raise.
- A failure of `open` inside the upload loop and a failure of `storbinary` are both caught by the same handler, so both are folded into `Env.store`.
