/** The job store `JOBS` and the three endpoints around it: `analyze_images`
    (select the images, start a job), `process_analysis_job` (finish it) and
    `get_analysis_status` (look it up). The store maps a session id to its
    job; the background task is the separate call `ProcessAnalysisJob`. */
module Jobs {
  import opened Wrappers
  import opened Text
  import Json
  import opened Response
  import opened Pipeline

  datatype Status = Processing | Completed | Failed

  /** One entry of `JOBS`: `{"status", "results", "error"}`. */
  datatype Job = Job(status: Status, results: seq<Record>, error: Option<string>)

  /** An HTTPException the endpoints raise. */
  datatype HttpError = HttpError(code: int, detail: string)

  /** What `os.path.exists` and `os.listdir` find for the session directory. */
  datatype SessionDir = NoSuchDir | Unreadable(reason: string) | Entries(names: seq<string>)

  // ----- image selection -----

  /** `f.lower().endswith((".jpg", ".jpeg", ".png"))`. All three extensions
      end in `g`, so an image name ends in `g` or `G`. */
  predicate IsImageName(name: string)
    ensures IsImageName(name) ==> 4 <= |name| && LowerChar(name[|name| - 1]) == 'g'
  {
    var lower := Lower(name);
    EndsWith(lower, ".jpg") || EndsWith(lower, ".jpeg") || EndsWith(lower, ".png")
  }

  /** The list comprehension that picks the images out of a directory listing. */
  function ImageFiles(entries: seq<string>): (r: seq<string>)
    ensures forall x :: x in r <==> x in entries && IsImageName(x)
    ensures |r| <= |entries|
  {
    if entries == [] then []
    else (if IsImageName(entries[0]) then [entries[0]] else []) + ImageFiles(entries[1..])
  }

  /** The selection keeps listing order: it distributes over concatenation. */
  lemma {:induction false} ImageFilesAppend(a: seq<string>, b: seq<string>)
    ensures ImageFiles(a + b) == ImageFiles(a) + ImageFiles(b)
  {
    if a != [] {
      assert (a + b)[0] == a[0] && (a + b)[1..] == a[1..] + b;
      ImageFilesAppend(a[1..], b);
    } else {
      assert a + b == b;
    }
  }

  /** A name whose lower-cased tail spells `suffix` ends with it once lower-cased. */
  lemma LowerEndsWith(name: string, suffix: string)
    requires |suffix| <= |name|
    requires forall i :: 0 <= i < |suffix| ==> LowerChar(name[|name| - |suffix| + i]) == suffix[i]
    ensures EndsWith(Lower(name), suffix)
  {
    var l := Lower(name);
    assert l[|l| - |suffix|..] == suffix;
  }

  /** Every accepted extension ends in `g`, so a name whose last character
      does not lower-case to `g` is not an image. */
  lemma NotImageByLastChar(name: string)
    requires |name| > 0 && LowerChar(name[|name| - 1]) != 'g'
    ensures !IsImageName(name)
  {
    var l := Lower(name);
    assert !EndsWith(l, ".jpg") by { if 4 <= |l| { assert l[|l| - 4..][3] == l[|l| - 1]; } }
    assert !EndsWith(l, ".jpeg") by { if 5 <= |l| { assert l[|l| - 5..][4] == l[|l| - 1]; } }
    assert !EndsWith(l, ".png") by { if 4 <= |l| { assert l[|l| - 4..][3] == l[|l| - 1]; } }
  }

  /** The test ignores case: a name is an image exactly when its lower-cased
      form is. */
  lemma ImageNameIgnoresCase(name: string)
    ensures IsImageName(Lower(name)) <==> IsImageName(name)
  {
    assert Lower(Lower(name)) == Lower(name);
  }

  /** Upper-case extensions are images; names merely containing an extension are not. */
  lemma ImageNameExamples()
    ensures IsImageName("IMG_01.JPG") && IsImageName("a.jpeg") && IsImageName("x.Png")
    ensures !IsImageName("notes.txt") && !IsImageName("jpg") && !IsImageName("photo.jpg.bak")
  {
    LowerEndsWith("IMG_01.JPG", ".jpg");
    LowerEndsWith("a.jpeg", ".jpeg");
    LowerEndsWith("x.Png", ".png");
    NotImageByLastChar("notes.txt");
    NotImageByLastChar("photo.jpg.bak");
  }

  // ----- the store as a map -----

  /** `JOBS[id] = {"status": "processing", "results": [], "error": None}`. */
  function Initialised(jobs: map<string, Job>, id: string): (r: map<string, Job>)
    ensures r.Keys == jobs.Keys + {id}
    ensures r[id] == Job(Processing, [], None)
    ensures forall k :: k in jobs && k != id ==> r[k] == jobs[k]
  {
    jobs[id := Job(Processing, [], None)]
  }

  /** The assignments at the end of `process_analysis_job`. A missing entry
      makes them raise KeyError inside the background task, so nothing changes. */
  function Finalised(jobs: map<string, Job>, id: string, outcome: PoolResult): (r: map<string, Job>)
    ensures r.Keys == jobs.Keys
    ensures forall k :: k in jobs && k != id ==> r[k] == jobs[k]
    ensures id in jobs && outcome.Finished? ==>
              r[id] == Job(Completed, outcome.results, jobs[id].error)
    ensures id in jobs && outcome.PoolRaised? ==>
              r[id] == Job(Failed, jobs[id].results, Some(outcome.error))
  {
    if id !in jobs then jobs
    else match outcome
      case Finished(results) => jobs[id := jobs[id].(status := Completed, results := results)]
      case PoolRaised(error) => jobs[id := jobs[id].(status := Failed, error := Some(error))]
  }

  /** `get_analysis_status`: the stored job, or 404. */
  function Lookup(jobs: map<string, Job>, id: string): (r: Result<Job, HttpError>)
    ensures r.Ok? <==> id in jobs
    ensures r.Ok? ==> r.value == jobs[id]
    ensures r.Err? ==> r.error.code == 404
  {
    if id in jobs then Ok(jobs[id]) else Err(HttpError(404, "Job not found"))
  }

  /** The store's invariant: a processing job has no results and no error,
      a failed job has an error. */
  ghost predicate WellFormedStore(jobs: map<string, Job>)
  {
    forall id :: id in jobs ==>
      && (jobs[id].status == Processing ==> jobs[id].results == [] && jobs[id].error == None)
      && (jobs[id].status == Failed ==> jobs[id].error.Some?)
  }

  // ----- properties of the lifecycle -----

  /** Submitting a job keeps the invariant. */
  lemma InitialisedKeepsStoreWellFormed(jobs: map<string, Job>, id: string)
    requires WellFormedStore(jobs)
    ensures WellFormedStore(Initialised(jobs, id))
  {
  }

  /** Finishing a job keeps the invariant. */
  lemma FinalisedKeepsStoreWellFormed(jobs: map<string, Job>, id: string, outcome: PoolResult)
    requires WellFormedStore(jobs)
    ensures WellFormedStore(Finalised(jobs, id, outcome))
  {
  }

  /** A submitted job read back before it finishes is processing with no
      results; after the pool finishes it is completed with one record per
      image in listing order, or failed with the pool's error. Other jobs
      read back unchanged throughout. */
  lemma Lifecycle(jobs: map<string, Job>, id: string, files: seq<string>, env: string -> ItemEnv,
                  decode: string -> Option<Json.Value>, fault: Option<string>)
    ensures Lookup(Initialised(jobs, id), id) == Ok(Job(Processing, [], None))
    ensures var after := Finalised(Initialised(jobs, id), id, PoolOutcome(files, env, decode, fault));
            && (fault.None? ==>
                  && Lookup(after, id).value.status == Completed
                  && |Lookup(after, id).value.results| == |files|
                  && (forall i :: 0 <= i < |files| ==> Lookup(after, id).value.results[i].filename == files[i])
                  && Lookup(after, id).value.error == None)
            && (fault.Some? ==> Lookup(after, id) == Ok(Job(Failed, [], fault)))
            && (forall k :: k != id ==> Lookup(after, k) == Lookup(jobs, k))
  {
    var after := Finalised(Initialised(jobs, id), id, PoolOutcome(files, env, decode, fault));
    OneRecordPerImage(files, env, decode);
    forall k | k != id ensures Lookup(after, k) == Lookup(jobs, k) {
      assert k in after <==> k in jobs;
    }
  }

  /** Finishing moves a job out of `processing` for good: a finished job
      is completed or failed. */
  lemma FinalisedIsTerminal(jobs: map<string, Job>, id: string, outcome: PoolResult)
    requires id in jobs
    ensures Finalised(jobs, id, outcome)[id].status != Processing
    ensures Finalised(jobs, id, outcome)[id].status == Completed <==> outcome.Finished?
  {
  }

  /** A job store that the service owns: the module-level `JOBS` dict. */
  class JobStore {
    var jobs: map<string, Job>

    ghost predicate Valid()
      reads this
    {
      WellFormedStore(jobs)
    }

    constructor ()
      ensures Valid() && jobs == map[]
    {
      jobs := map[];
    }

    /** `analyze_images`: 404 when the session directory is missing, 500 when
        it cannot be listed; otherwise the job starts as processing and the
        selected images are handed to the background task. */
    method AnalyzeImages(sessionId: string, dir: SessionDir) returns (r: Result<seq<string>, HttpError>)
      requires Valid()
      modifies this
      ensures Valid()
      ensures dir.NoSuchDir? ==> r == Err(HttpError(404, "Session not found")) && jobs == old(jobs)
      ensures dir.Unreadable? ==>
                r == Err(HttpError(500, "Error reading session dir: " + dir.reason)) && jobs == old(jobs)
      ensures dir.Entries? ==> r == Ok(ImageFiles(dir.names)) && jobs == Initialised(old(jobs), sessionId)
    {
      match dir {
        case NoSuchDir =>
          return Err(HttpError(404, "Session not found"));
        case Unreadable(reason) =>
          return Err(HttpError(500, "Error reading session dir: " + reason));
        case Entries(names) =>
          var imageFiles := ImageFiles(names);
          InitialisedKeepsStoreWellFormed(jobs, sessionId);
          jobs := Initialised(jobs, sessionId);
          return Ok(imageFiles);
      }
    }

    /** `process_analysis_job`: run the pool over the images, then record
        completion with the results, or failure with the pool's error. */
    method ProcessAnalysisJob(sessionId: string, imageFiles: seq<string>, env: string -> ItemEnv,
                              decode: string -> Option<Json.Value>, fault: Option<string>)
      requires Valid()
      modifies this
      ensures Valid()
      ensures jobs == Finalised(old(jobs), sessionId, PoolOutcome(imageFiles, env, decode, fault))
    {
      var outcome := RunPool(imageFiles, env, decode, fault);
      FinalisedKeepsStoreWellFormed(jobs, sessionId, outcome);
      if sessionId in jobs {
        match outcome {
          case Finished(results) =>
            jobs := jobs[sessionId := jobs[sessionId].(status := Completed, results := results)];
          case PoolRaised(error) =>
            jobs := jobs[sessionId := jobs[sessionId].(status := Failed, error := Some(error))];
        }
      }
    }

    /** `get_analysis_status`. A client polling before the job finishes sees
        it processing with no results and no error; a failed job carries its
        error. */
    method GetAnalysisStatus(sessionId: string) returns (r: Result<Job, HttpError>)
      requires Valid()
      ensures r == Lookup(jobs, sessionId)
      ensures r.Ok? && r.value.status == Processing ==> r.value.results == [] && r.value.error == None
      ensures r.Ok? && r.value.status == Failed ==> r.value.error.Some?
    {
      if sessionId in jobs {
        r := Ok(jobs[sessionId]);
      } else {
        r := Err(HttpError(404, "Job not found"));
      }
    }
  }
}
