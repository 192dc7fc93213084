/** `embed_and_upload`: write each item's metadata into its image with
    exiftool, then send the images over FTP. The file system, exiftool and
    the FTP server are the functions and values of `Env`; the loops skip
    items whose image does not exist and collect what succeeded and what
    failed. */
module Upload {
  import opened Wrappers
  import opened Text
  import Jobs

  /** One item of the request's `metadata` list. */
  datatype MetadataItem = MetadataItem(filename: string, title: string, description: string,
                                       keywords: string, category: string)

  datatype Field = Title | Description | Keywords | Category

  function FieldOf(item: MetadataItem, f: Field): string
  {
    match f
    case Title => item.title
    case Description => item.description
    case Keywords => item.keywords
    case Category => item.category
  }

  /** The tags exiftool is told to write, each with the field it receives. */
  const ExifTags: seq<(string, Field)> := [
    ("Title", Title), ("Description", Description), ("Keywords", Keywords), ("Category", Category),
    ("IPTC:Caption-Abstract", Description), ("IPTC:Keywords", Keywords),
    ("XMP:Title", Title), ("XMP:Description", Description), ("XMP:Subject", Keywords)
  ]

  /** The `-TAG=VALUE` option by which exiftool is told to write a tag. */
  function TagAssignment(tag: string, value: string): string
  {
    "-" + tag + "=" + value
  }

  /** The exiftool command line for one item: the program, the overwrite
      flag, one assignment per entry of `ExifTags` in that order, and the
      image path last. */
  function ExiftoolArgs(item: MetadataItem, imagePath: string): (r: seq<string>)
    ensures |r| == |ExifTags| + 3
    ensures r[0] == "exiftool" && r[1] == "-overwrite_original" && r[|r| - 1] == imagePath
  {
    ["exiftool", "-overwrite_original"]
      + seq(|ExifTags|, i requires 0 <= i < |ExifTags| => TagAssignment(ExifTags[i].0, FieldOf(item, ExifTags[i].1)))
      + [imagePath]
  }

  /** Written out, the command line is the twelve arguments of the endpoint:
      the title feeds two tags, the description and the keywords three each,
      the category one. */
  lemma ArgsSpelledOut(item: MetadataItem, imagePath: string)
    ensures ExiftoolArgs(item, imagePath) == [
      "exiftool",
      "-overwrite_original",
      TagAssignment("Title", item.title),
      TagAssignment("Description", item.description),
      TagAssignment("Keywords", item.keywords),
      TagAssignment("Category", item.category),
      TagAssignment("IPTC:Caption-Abstract", item.description),
      TagAssignment("IPTC:Keywords", item.keywords),
      TagAssignment("XMP:Title", item.title),
      TagAssignment("XMP:Description", item.description),
      TagAssignment("XMP:Subject", item.keywords),
      imagePath ]
  {
  }

  /** Every argument between the program name and the path is an option,
      whatever the field values hold, so the path is the only operand. */
  lemma OnlyThePathIsAnOperand(item: MetadataItem, imagePath: string)
    ensures var r := ExiftoolArgs(item, imagePath);
            forall i :: 1 <= i < |r| - 1 ==> |r[i]| > 0 && r[i][0] == '-'
  {
    var r := ExiftoolArgs(item, imagePath);
    forall i | 2 <= i < |r| - 1 ensures |r[i]| > 0 && r[i][0] == '-' {
      var tag := ExifTags[i - 2];
      assert r[i] == "-" + tag.0 + "=" + FieldOf(item, tag.1);
    }
  }

  /** What the endpoint meets outside the code: which paths exist; what the
      exiftool run for the request's `i`-th item gives on its command line
      (`Some(stderr)` for a non-zero exit); whether connecting and logging in
      to the FTP server raises (with the message); and what storing the
      `i`-th item's file raises. Runs and stores are keyed by position, so
      two items with the same filename can fare differently. */
  datatype Env = Env(
    fileExists: string -> bool,
    exiftool: (nat, seq<string>) -> Option<string>,
    login: Option<string>,
    store: (nat, string) -> Option<string>)

  /** `os.path.join(session_path, item.filename)`. An absolute filename
      replaces the session directory, so it names a file outside it. */
  function ImagePath(sessionPath: string, item: MetadataItem): (r: string)
    ensures |item.filename| > 0 && item.filename[0] == '/' ==> r == item.filename
    ensures (|item.filename| == 0 || item.filename[0] != '/') ==> r == sessionPath + item.filename || r == sessionPath + "/" + item.filename
  {
    PathJoin(sessionPath, item.filename)
  }

  /** The items whose image exists, in request order. */
  function Existing(items: seq<MetadataItem>, sessionPath: string, fileExists: string -> bool): (r: seq<MetadataItem>)
    ensures |r| <= |items|
    ensures forall it :: it in r ==> it in items && fileExists(ImagePath(sessionPath, it))
    ensures forall it :: it in items && fileExists(ImagePath(sessionPath, it)) ==> it in r
  {
    if items == [] then []
    else
      var last := items[|items| - 1];
      Existing(items[..|items| - 1], sessionPath, fileExists)
        + (if fileExists(ImagePath(sessionPath, last)) then [last] else [])
  }

  /** `Existing` keeps request order: filtering `a + b` is filtering `a`,
      then filtering `b`. */
  lemma {:induction false} ExistingAppend(a: seq<MetadataItem>, b: seq<MetadataItem>, sessionPath: string,
                                          fileExists: string -> bool)
    ensures Existing(a + b, sessionPath, fileExists)
            == Existing(a, sessionPath, fileExists) + Existing(b, sessionPath, fileExists)
    decreases |b|
  {
    if b == [] {
      assert a + b == a;
    } else {
      var n := |b| - 1;
      var last := b[n];
      var tail := if fileExists(ImagePath(sessionPath, last)) then [last] else [];
      assert (a + b)[..|a + b| - 1] == a + b[..n] && (a + b)[|a + b| - 1] == last;
      assert Existing(a + b, sessionPath, fileExists) == Existing(a + b[..n], sessionPath, fileExists) + tail;
      assert Existing(b, sessionPath, fileExists) == Existing(b[..n], sessionPath, fileExists) + tail;
      ExistingAppend(a, b[..n], sessionPath, fileExists);
    }
  }

  /** A single item is kept exactly when its image exists; with
      `ExistingAppend` this makes `Existing` the in-order filter. */
  lemma ExistingSingle(it: MetadataItem, sessionPath: string, fileExists: string -> bool)
    ensures Existing([it], sessionPath, fileExists) == if fileExists(ImagePath(sessionPath, it)) then [it] else []
  {
    assert [it][..0] == [];
  }

  /** The two loops over the request: embedding, then uploading. */
  datatype Stage = Embed | Transfer

  /** What one loop did with one item: skipped it because its image is
      missing, or ran exiftool / stored the file, which succeeded or raised. */
  datatype Run = Skipped | Succeeded | Failed(detail: string)

  /** What `stage` did with `item`, the request's `i`-th item. */
  function RunOf(stage: Stage, item: MetadataItem, i: nat, sessionPath: string, env: Env): (r: Run)
    ensures r.Skipped? <==> !env.fileExists(ImagePath(sessionPath, item))
  {
    var path := ImagePath(sessionPath, item);
    if !env.fileExists(path) then Skipped
    else
      var outcome := match stage
        case Embed => env.exiftool(i, ExiftoolArgs(item, path))
        case Transfer => env.store(i, item.filename);
      if outcome.None? then Succeeded else Failed(outcome.value)
  }

  /** How each loop's messages begin. */
  function FailurePrefix(stage: Stage): string
  {
    match stage
    case Embed => "ExifTool failed for "
    case Transfer => "FTP Upload failed for "
  }

  /** The message a failure leaves in `embed_errors` or `upload_errors`:
      the stage's prefix, then the filename, ": " and the error text. */
  function FailureMessage(stage: Stage, filename: string, detail: string): (r: string)
    ensures |FailurePrefix(stage)| <= |r| && r[..|FailurePrefix(stage)|] == FailurePrefix(stage)
    ensures r[|FailurePrefix(stage)|..] == filename + ": " + detail
  {
    FailurePrefix(stage) + filename + ": " + detail
  }

  /** An embed message is never an upload message. */
  lemma StagesTellApart(f: string, d: string, g: string, e: string)
    ensures FailureMessage(Embed, f, d) != FailureMessage(Transfer, g, e)
  {
    assert FailureMessage(Embed, f, d)[0] == 'E';
    assert FailureMessage(Transfer, g, e)[0] == 'F';
  }

  /** A message need not identify its item: a filename containing ": " can
      give the same message as a shorter filename with a longer error text. */
  lemma MessageMayNotIdentifyItem(stage: Stage)
    ensures FailureMessage(stage, "a: b", "c") == FailureMessage(stage, "a", "b: c")
  {
  }

  /** The exiftool command lines run for the request, in order. */
  function Commands(items: seq<MetadataItem>, sessionPath: string, fileExists: string -> bool): (r: seq<seq<string>>)
    ensures |r| <= |items|
  {
    if items == [] then []
    else
      var last := items[|items| - 1];
      var path := ImagePath(sessionPath, last);
      Commands(items[..|items| - 1], sessionPath, fileExists) + (if fileExists(path) then [ExiftoolArgs(last, path)] else [])
  }

  /** exiftool runs once per item whose image exists, in request order, on
      that item's own command line. */
  lemma {:induction false} CommandsFollowExisting(items: seq<MetadataItem>, sessionPath: string, fileExists: string -> bool)
    ensures var cs := Commands(items, sessionPath, fileExists);
            var existing := Existing(items, sessionPath, fileExists);
            && |cs| == |existing|
            && forall k :: 0 <= k < |cs| ==> cs[k] == ExiftoolArgs(existing[k], ImagePath(sessionPath, existing[k]))
  {
    if items != [] {
      CommandsFollowExisting(items[..|items| - 1], sessionPath, fileExists);
    }
  }

  /** `uploaded_files` for the upload loop: the filenames whose run succeeded, in order. */
  function Successes(stage: Stage, items: seq<MetadataItem>, sessionPath: string, env: Env): (r: seq<string>)
    ensures |r| <= |items|
  {
    if items == [] then []
    else
      var n := |items| - 1;
      Successes(stage, items[..n], sessionPath, env)
        + (if RunOf(stage, items[n], n, sessionPath, env).Succeeded? then [items[n].filename] else [])
  }

  /** `embed_errors` and `upload_errors`: one message per failed run, in order. */
  function Failures(stage: Stage, items: seq<MetadataItem>, sessionPath: string, env: Env): (r: seq<string>)
    ensures |r| <= |items|
  {
    if items == [] then []
    else
      var n := |items| - 1;
      var run := RunOf(stage, items[n], n, sessionPath, env);
      Failures(stage, items[..n], sessionPath, env)
        + (if run.Failed? then [FailureMessage(stage, items[n].filename, run.detail)] else [])
  }

  /** One more item for the embedding loop. */
  lemma CommandsStep(items: seq<MetadataItem>, i: nat, sessionPath: string, fileExists: string -> bool)
    requires i < |items|
    ensures var path := ImagePath(sessionPath, items[i]);
            Commands(items[..i + 1], sessionPath, fileExists)
            == Commands(items[..i], sessionPath, fileExists) + (if fileExists(path) then [ExiftoolArgs(items[i], path)] else [])
  {
    assert items[..i + 1][..i] == items[..i];
  }

  /** One more item for either loop's success and failure lists. */
  lemma RunStep(stage: Stage, items: seq<MetadataItem>, i: nat, sessionPath: string, env: Env)
    requires i < |items|
    ensures var run := RunOf(stage, items[i], i, sessionPath, env);
            && Successes(stage, items[..i + 1], sessionPath, env)
               == Successes(stage, items[..i], sessionPath, env) + (if run.Succeeded? then [items[i].filename] else [])
            && Failures(stage, items[..i + 1], sessionPath, env)
               == Failures(stage, items[..i], sessionPath, env)
                  + (if run.Failed? then [FailureMessage(stage, items[i].filename, run.detail)] else [])
  {
    assert items[..i + 1][..i] == items[..i];
  }

  /** The embedding loop. */
  method EmbedMetadata(items: seq<MetadataItem>, sessionPath: string, env: Env)
    returns (commands: seq<seq<string>>, embedErrors: seq<string>)
    ensures commands == Commands(items, sessionPath, env.fileExists)
    ensures embedErrors == Failures(Embed, items, sessionPath, env)
  {
    commands, embedErrors := [], [];
    for i := 0 to |items|
      invariant commands == Commands(items[..i], sessionPath, env.fileExists)
      invariant embedErrors == Failures(Embed, items[..i], sessionPath, env)
    {
      CommandsStep(items, i, sessionPath, env.fileExists);
      RunStep(Embed, items, i, sessionPath, env);
      var item := items[i];
      var imagePath := PathJoin(sessionPath, item.filename);
      if !env.fileExists(imagePath) {
        continue;
      }
      var cmd := ExiftoolArgs(item, imagePath);
      commands := commands + [cmd];
      var outcome := env.exiftool(i, cmd);
      if outcome.Some? {
        embedErrors := embedErrors + [FailureMessage(Embed, item.filename, outcome.value)];
      }
    }
    assert items[..|items|] == items;
  }

  /** The upload loop, once logged in. */
  method UploadFiles(items: seq<MetadataItem>, sessionPath: string, env: Env)
    returns (uploaded: seq<string>, uploadErrors: seq<string>)
    ensures uploaded == Successes(Transfer, items, sessionPath, env)
    ensures uploadErrors == Failures(Transfer, items, sessionPath, env)
  {
    uploaded, uploadErrors := [], [];
    for i := 0 to |items|
      invariant uploaded == Successes(Transfer, items[..i], sessionPath, env)
      invariant uploadErrors == Failures(Transfer, items[..i], sessionPath, env)
    {
      RunStep(Transfer, items, i, sessionPath, env);
      var filename := items[i].filename;
      var filePath := PathJoin(sessionPath, filename);
      if !env.fileExists(filePath) {
        continue;
      }
      var outcome := env.store(i, filename);
      if outcome.None? {
        uploaded := uploaded + [filename];
      } else {
        uploadErrors := uploadErrors + [FailureMessage(Transfer, filename, outcome.value)];
      }
    }
    assert items[..|items|] == items;
  }

  /** The endpoint's answer once the session exists. */
  datatype Report =
    | Completed(uploaded: seq<string>, uploadErrors: seq<string>, embedErrors: seq<string>)
    | ConnectFailed(error: string, embedErrors: seq<string>)

  /** The report the endpoint gives for a session directory `sessionPath`. */
  function ReportFor(items: seq<MetadataItem>, sessionPath: string, env: Env): (r: Report)
    ensures r.embedErrors == Failures(Embed, items, sessionPath, env)
    ensures r.ConnectFailed? <==> env.login.Some?
    ensures r.Completed? ==> r.uploaded == Successes(Transfer, items, sessionPath, env)
                             && r.uploadErrors == Failures(Transfer, items, sessionPath, env)
  {
    var embedErrors := Failures(Embed, items, sessionPath, env);
    if env.login.Some? then ConnectFailed("FTP Connection failed: " + env.login.value, embedErrors)
    else Completed(Successes(Transfer, items, sessionPath, env), Failures(Transfer, items, sessionPath, env), embedErrors)
  }

  /** `embed_and_upload`: 404 for a missing session; otherwise embed, then
      upload. Cleanup of the session is queued only when the upload ran. */
  method EmbedAndUpload(tempDir: string, sessionId: string, items: seq<MetadataItem>, env: Env)
    returns (r: Result<Report, Jobs.HttpError>, cleanupQueued: bool)
    ensures !env.fileExists(PathJoin(tempDir, sessionId)) ==>
              r == Err(Jobs.HttpError(404, "Session not found")) && !cleanupQueued
    ensures env.fileExists(PathJoin(tempDir, sessionId)) ==>
              r == Ok(ReportFor(items, PathJoin(tempDir, sessionId), env))
    ensures cleanupQueued <==> r.Ok? && r.value.Completed?
  {
    var sessionPath := PathJoin(tempDir, sessionId);
    if !env.fileExists(sessionPath) {
      return Err(Jobs.HttpError(404, "Session not found")), false;
    }
    var _, embedErrors := EmbedMetadata(items, sessionPath, env);
    if env.login.Some? {
      return Ok(ConnectFailed("FTP Connection failed: " + env.login.value, embedErrors)), false;
    }
    var uploaded, uploadErrors := UploadFiles(items, sessionPath, env);
    return Ok(Completed(uploaded, uploadErrors, embedErrors)), true;
  }

  // ----- properties of the bookkeeping -----

  /** The positions at which `stage` succeeded. */
  ghost function SucceededAt(stage: Stage, items: seq<MetadataItem>, sessionPath: string, env: Env): set<nat>
  {
    set i: nat | i < |items| && RunOf(stage, items[i], i, sessionPath, env).Succeeded?
  }

  /** The positions at which `stage` failed. */
  ghost function FailedAt(stage: Stage, items: seq<MetadataItem>, sessionPath: string, env: Env): set<nat>
  {
    set i: nat | i < |items| && RunOf(stage, items[i], i, sessionPath, env).Failed?
  }

  /** Dropping the last item drops at most its own position from the successes. */
  lemma SucceededAtStep(stage: Stage, items: seq<MetadataItem>, sessionPath: string, env: Env)
    requires items != []
    ensures var n := |items| - 1;
            && SucceededAt(stage, items, sessionPath, env)
               == SucceededAt(stage, items[..n], sessionPath, env)
                  + (if RunOf(stage, items[n], n, sessionPath, env).Succeeded? then {n} else {})
            && n !in SucceededAt(stage, items[..n], sessionPath, env)
  {
    var n := |items| - 1;
    forall i: nat | i < n ensures items[..n][i] == items[i] {
    }
  }

  /** Dropping the last item drops at most its own position from the failures. */
  lemma FailedAtStep(stage: Stage, items: seq<MetadataItem>, sessionPath: string, env: Env)
    requires items != []
    ensures var n := |items| - 1;
            && FailedAt(stage, items, sessionPath, env)
               == FailedAt(stage, items[..n], sessionPath, env)
                  + (if RunOf(stage, items[n], n, sessionPath, env).Failed? then {n} else {})
            && n !in FailedAt(stage, items[..n], sessionPath, env)
  {
    var n := |items| - 1;
    forall i: nat | i < n ensures items[..n][i] == items[i] {
    }
  }

  /** One filename per position that succeeded. */
  lemma {:induction false} SuccessCount(stage: Stage, items: seq<MetadataItem>, sessionPath: string, env: Env)
    ensures |Successes(stage, items, sessionPath, env)| == |SucceededAt(stage, items, sessionPath, env)|
  {
    if items != [] {
      var n := |items| - 1;
      SuccessCount(stage, items[..n], sessionPath, env);
      SucceededAtStep(stage, items, sessionPath, env);
    }
  }

  /** One message per position that failed. */
  lemma {:induction false} FailureCount(stage: Stage, items: seq<MetadataItem>, sessionPath: string, env: Env)
    ensures |Failures(stage, items, sessionPath, env)| == |FailedAt(stage, items, sessionPath, env)|
  {
    if items != [] {
      var n := |items| - 1;
      FailureCount(stage, items[..n], sessionPath, env);
      FailedAtStep(stage, items, sessionPath, env);
    }
  }

  /** Each loop accounts for every existing item exactly once: successes and
      failures together number the existing items. */
  lemma {:induction false} RunCounts(stage: Stage, items: seq<MetadataItem>, sessionPath: string, env: Env)
    ensures |Successes(stage, items, sessionPath, env)| + |Failures(stage, items, sessionPath, env)|
            == |Existing(items, sessionPath, env.fileExists)|
  {
    if items != [] {
      var n := |items| - 1;
      RunCounts(stage, items[..n], sessionPath, env);
    }
  }

  /** A position that succeeded contributes its filename. */
  lemma {:induction false} SucceededListed(stage: Stage, items: seq<MetadataItem>, sessionPath: string, env: Env)
    ensures forall i :: 0 <= i < |items| && RunOf(stage, items[i], i, sessionPath, env).Succeeded? ==>
              items[i].filename in Successes(stage, items, sessionPath, env)
  {
    if items != [] {
      var n := |items| - 1;
      var prefix := items[..n];
      SucceededListed(stage, prefix, sessionPath, env);
      RunStep(stage, items, n, sessionPath, env);
      assert items[..n + 1] == items;
      forall i | 0 <= i < n && RunOf(stage, items[i], i, sessionPath, env).Succeeded?
        ensures items[i].filename in Successes(stage, prefix, sessionPath, env)
      {
        assert prefix[i] == items[i];
      }
    }
  }

  /** Every listed filename comes from a position that succeeded. */
  lemma {:induction false} ListedSucceeded(stage: Stage, items: seq<MetadataItem>, sessionPath: string, env: Env)
    ensures forall f :: f in Successes(stage, items, sessionPath, env) ==>
              exists i :: 0 <= i < |items| && items[i].filename == f && RunOf(stage, items[i], i, sessionPath, env).Succeeded?
  {
    if items != [] {
      var n := |items| - 1;
      var prefix := items[..n];
      ListedSucceeded(stage, prefix, sessionPath, env);
      RunStep(stage, items, n, sessionPath, env);
      assert items[..n + 1] == items;
      forall f | f in Successes(stage, items, sessionPath, env)
        ensures exists i :: 0 <= i < |items| && items[i].filename == f && RunOf(stage, items[i], i, sessionPath, env).Succeeded?
      {
        if f in Successes(stage, prefix, sessionPath, env) {
          var i :| 0 <= i < |prefix| && prefix[i].filename == f && RunOf(stage, prefix[i], i, sessionPath, env).Succeeded?;
          assert items[i] == prefix[i];
        } else {
          assert items[n].filename == f;
        }
      }
    }
  }

  /** A position that failed contributes its message. */
  lemma {:induction false} FailedListed(stage: Stage, items: seq<MetadataItem>, sessionPath: string, env: Env)
    ensures forall i :: 0 <= i < |items| && RunOf(stage, items[i], i, sessionPath, env).Failed? ==>
              FailureMessage(stage, items[i].filename, RunOf(stage, items[i], i, sessionPath, env).detail)
                in Failures(stage, items, sessionPath, env)
  {
    if items != [] {
      var n := |items| - 1;
      var prefix := items[..n];
      FailedListed(stage, prefix, sessionPath, env);
      RunStep(stage, items, n, sessionPath, env);
      assert items[..n + 1] == items;
      forall i | 0 <= i < n && RunOf(stage, items[i], i, sessionPath, env).Failed?
        ensures FailureMessage(stage, items[i].filename, RunOf(stage, items[i], i, sessionPath, env).detail)
                  in Failures(stage, prefix, sessionPath, env)
      {
        assert prefix[i] == items[i];
      }
    }
  }

  /** Every message comes from a position that failed. */
  lemma {:induction false} ListedFailed(stage: Stage, items: seq<MetadataItem>, sessionPath: string, env: Env)
    ensures forall m :: m in Failures(stage, items, sessionPath, env) ==>
              exists i :: 0 <= i < |items| && RunOf(stage, items[i], i, sessionPath, env).Failed?
                          && m == FailureMessage(stage, items[i].filename, RunOf(stage, items[i], i, sessionPath, env).detail)
  {
    if items != [] {
      var n := |items| - 1;
      var prefix := items[..n];
      ListedFailed(stage, prefix, sessionPath, env);
      RunStep(stage, items, n, sessionPath, env);
      assert items[..n + 1] == items;
      forall m | m in Failures(stage, items, sessionPath, env)
        ensures exists i :: 0 <= i < |items| && RunOf(stage, items[i], i, sessionPath, env).Failed?
                            && m == FailureMessage(stage, items[i].filename, RunOf(stage, items[i], i, sessionPath, env).detail)
      {
        if m in Failures(stage, prefix, sessionPath, env) {
          var i :| 0 <= i < |prefix| && RunOf(stage, prefix[i], i, sessionPath, env).Failed?
                   && m == FailureMessage(stage, prefix[i].filename, RunOf(stage, prefix[i], i, sessionPath, env).detail);
          assert items[i] == prefix[i];
        } else {
          assert m == FailureMessage(stage, items[n].filename, RunOf(stage, items[n], n, sessionPath, env).detail);
        }
      }
    }
  }

  /** An item whose filename no other item shares is never both uploaded
      and reported as failed. */
  lemma UniqueNameNeverBoth(items: seq<MetadataItem>, i: nat, sessionPath: string, env: Env)
    requires i < |items| && RunOf(Transfer, items[i], i, sessionPath, env).Failed?
    requires forall j :: 0 <= j < |items| && j != i ==> items[j].filename != items[i].filename
    ensures items[i].filename !in Successes(Transfer, items, sessionPath, env)
  {
    ListedSucceeded(Transfer, items, sessionPath, env);
  }

  /** Two items with the same filename are stored separately: when the first
      store raises and the second succeeds, the name is in both lists. */
  lemma DuplicateNameInBothLists(item: MetadataItem, sessionPath: string, env: Env)
    requires env.fileExists(ImagePath(sessionPath, item))
    requires env.store(0, item.filename).Some? && env.store(1, item.filename).None?
    ensures item.filename in Successes(Transfer, [item, item], sessionPath, env)
    ensures FailureMessage(Transfer, item.filename, env.store(0, item.filename).value)
              in Failures(Transfer, [item, item], sessionPath, env)
  {
    var items := [item, item];
    assert items[..1] == [item] && [item][..0] == [];
    assert RunOf(Transfer, item, 0, sessionPath, env) == Failed(env.store(0, item.filename).value);
    assert RunOf(Transfer, item, 1, sessionPath, env) == Succeeded;
  }

  /** `a` is `b` with some elements left out, order kept. */
  ghost predicate IsSubsequence(a: seq<string>, b: seq<string>)
    decreases |b|
  {
    || a == []
    || (b != [] && (|| (a[|a| - 1] == b[|b| - 1] && IsSubsequence(a[..|a| - 1], b[..|b| - 1]))
                    || IsSubsequence(a, b[..|b| - 1])))
  }

  function Filenames(items: seq<MetadataItem>): (r: seq<string>)
    ensures |r| == |items|
    ensures forall i :: 0 <= i < |items| ==> r[i] == items[i].filename
  {
    seq(|items|, i requires 0 <= i < |items| => items[i].filename)
  }

  /** The uploaded names appear in the request in the same order. */
  lemma {:induction false} UploadedIsSubsequence(items: seq<MetadataItem>, sessionPath: string, env: Env)
    ensures IsSubsequence(Successes(Transfer, items, sessionPath, env), Filenames(items))
  {
    var u := Successes(Transfer, items, sessionPath, env);
    if items != [] {
      var n := |items| - 1;
      var prefix := items[..n];
      UploadedIsSubsequence(prefix, sessionPath, env);
      var up := Successes(Transfer, prefix, sessionPath, env);
      var names := Filenames(items);
      assert names[..n] == Filenames(prefix);
      if RunOf(Transfer, items[n], n, sessionPath, env).Succeeded? {
        assert u == up + [items[n].filename];
        assert u[..|u| - 1] == up && u[|u| - 1] == names[n];
        assert IsSubsequence(u[..|u| - 1], names[..n]);
      } else {
        assert u == up;
        assert IsSubsequence(u, names[..n]);
      }
    }
  }

  /** Both loops skip missing images: exiftool runs only on existing paths,
      and every uploaded name is that of an item whose image exists. */
  lemma SkipsMissingImages(items: seq<MetadataItem>, sessionPath: string, env: Env)
    ensures forall c :: c in Commands(items, sessionPath, env.fileExists) ==> |c| > 0 && env.fileExists(c[|c| - 1])
    ensures forall f :: f in Successes(Transfer, items, sessionPath, env) ==>
              exists i :: 0 <= i < |items| && items[i].filename == f && env.fileExists(ImagePath(sessionPath, items[i]))
  {
    var existing := Existing(items, sessionPath, env.fileExists);
    var cs := Commands(items, sessionPath, env.fileExists);
    CommandsFollowExisting(items, sessionPath, env.fileExists);
    forall c | c in cs ensures |c| > 0 && env.fileExists(c[|c| - 1]) {
      var k :| 0 <= k < |cs| && cs[k] == c;
      assert existing[k] in existing;
    }
    ListedSucceeded(Transfer, items, sessionPath, env);
  }
}
