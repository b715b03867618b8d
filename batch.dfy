/**
 * The batch driver: the command-line settings and their validation, the
 * directory walk that turns image files into jobs, and the worker body that
 * crops each job to a temporary file, renames it to its final name and keeps
 * the four outcome counters. The workers are modelled as one sequential loop
 * over the jobs; the engine and the file system are represented by the
 * outcome each job meets.
 */
module Batch {
  import opened Wrappers
  import opened Geometry
  import opened Naming
  import CropSearch
  import Materialize

  // ---------------------------------------------------------------------------
  // Settings
  // ---------------------------------------------------------------------------

  datatype Config = Config(input: string, output: string, tolerance: real, maxCrop: real, threads: int)

  /** The flag defaults: no input directory, output "cropped", tolerance 15, max-crop 30, 4 threads. */
  const Defaults: Config := Config("", "cropped", 15.0, 30.0, 4)

  datatype ConfigError = MissingInput | ToleranceOutOfRange | MaxCropOutOfRange | TooFewThreads

  predicate Percentage(v: real) { 0.0 <= v <= 100.0 }

  /**
   * The validation of main.go: the four checks in order, the first failing
   * one reported (the program then exits).
   */
  function Validate(c: Config): (error: Option<ConfigError>)
    ensures error == None <==>
      c.input != "" && Percentage(c.tolerance) && Percentage(c.maxCrop) && c.threads >= 1
    ensures error == Some(ToleranceOutOfRange) <==> c.input != "" && !Percentage(c.tolerance)
    ensures error == Some(MaxCropOutOfRange) <==>
      c.input != "" && Percentage(c.tolerance) && !Percentage(c.maxCrop)
    ensures error == Some(TooFewThreads) <==>
      c.input != "" && Percentage(c.tolerance) && Percentage(c.maxCrop) && c.threads < 1
  {
    if c.input == "" then Some(MissingInput)
    else if c.tolerance < 0.0 || c.tolerance > 100.0 then Some(ToleranceOutOfRange)
    else if c.maxCrop < 0.0 || c.maxCrop > 100.0 then Some(MaxCropOutOfRange)
    else if c.threads < 1 then Some(TooFewThreads)
    else None
  }

  /** The defaults pass validation once an input directory is given, and only then. */
  lemma DefaultsNeedOnlyInput(input: string)
    ensures Validate(Defaults.(input := input)) == None <==> input != ""
  {
  }

  /** An accepted max-crop keeps each crop ceiling of the engine between 0 and the dimension. */
  lemma AcceptedCeilings(c: Config, bounds: Rect)
    requires Validate(c) == None && bounds.Canonical()
    ensures 0 <= CropSearch.CropLimits(bounds, c.maxCrop).width <= bounds.Dx()
    ensures 0 <= CropSearch.CropLimits(bounds, c.maxCrop).height <= bounds.Dy()
  {
  }

  // ---------------------------------------------------------------------------
  // Jobs
  // ---------------------------------------------------------------------------

  /** One entry visited by the directory walk. */
  datatype Entry = Entry(path: string, isDir: bool)

  datatype Job = Job(inputPath: string, filename: string, outputDir: string, tolerance: real, maxCrop: real)

  /** The walk callback's test: a file whose lower-cased extension is .jpg, .jpeg or .png. */
  predicate Selected(e: Entry) {
    !e.isDir && IsImagePath(e.path)
  }

  function JobFor(e: Entry, c: Config): Job {
    Job(e.path, Base(e.path), c.output, c.tolerance, c.maxCrop)
  }

  /** The jobs of the selected entries, in the order the walk visits them. */
  function SelectJobs(entries: seq<Entry>, c: Config): seq<Job> {
    if entries == [] then []
    else
      var last := entries[|entries| - 1];
      SelectJobs(entries[..|entries| - 1], c) + (if Selected(last) then [JobFor(last, c)] else [])
  }

  /** The walk: each selected entry appends its job. */
  method CollectJobs(entries: seq<Entry>, c: Config) returns (jobs: seq<Job>)
    ensures jobs == SelectJobs(entries, c)
  {
    jobs := [];
    for i := 0 to |entries|
      invariant jobs == SelectJobs(entries[..i], c)
    {
      assert entries[..i + 1][..i] == entries[..i];
      var e := entries[i];
      if e.isDir {
        continue;
      }
      if !IsImagePath(e.path) {
        continue;
      }
      jobs := jobs + [JobFor(e, c)];
    }
    assert entries[..|entries|] == entries;
  }

  /** A job is made exactly for each selected entry, and carries the run's settings unchanged. */
  lemma {:induction false} SelectJobsMembers(entries: seq<Entry>, c: Config)
    ensures |SelectJobs(entries, c)| <= |entries|
    ensures forall j :: j in SelectJobs(entries, c) <==> exists e :: e in entries && Selected(e) && j == JobFor(e, c)
    ensures forall j :: j in SelectJobs(entries, c) ==>
      j.outputDir == c.output && j.tolerance == c.tolerance && j.maxCrop == c.maxCrop
      && IsImagePath(j.inputPath) && j.filename == Base(j.inputPath)
  {
    if entries != [] {
      var init, last := entries[..|entries| - 1], entries[|entries| - 1];
      assert entries == init + [last];
      SelectJobsMembers(init, c);
    }
  }

  // ---------------------------------------------------------------------------
  // The worker body
  // ---------------------------------------------------------------------------

  /**
   * What one job meets: the engine's answer for it (a crop result, or the
   * text of an error from decoding, cropping or encoding) and, when that
   * succeeds, the error the rename to the final name reports, if any.
   */
  datatype Attempt = Attempt(crop: Result<Materialize.CropResult, string>, renameError: Option<string>)

  /** The per-job record sent on the result channel (its message text is not modelled). */
  datatype JobResult = JobResult(filename: string, success: bool, wasCropped: bool)

  /** A rename of the temporary file to the final name, both inside directory dir. */
  datatype Rename = Rename(dir: string, source: string, target: string)

  predicate Succeeded(a: Attempt) { a.crop.Success? && a.renameError.None? }
  predicate Failed(a: Attempt) { !Succeeded(a) }
  predicate SucceededCropped(a: Attempt) { Succeeded(a) && a.crop.value.wasCropped }
  predicate SucceededUnchanged(a: Attempt) { Succeeded(a) && !a.crop.value.wasCropped }
  predicate Cropping(a: Attempt) { a.crop.Success? }

  /** The record of a job: a failure for either error, the crop decision otherwise. */
  function Outcome(j: Job, a: Attempt): (r: JobResult)
    ensures r.filename == j.filename
    ensures r.success <==> Succeeded(a)
    ensures r.wasCropped <==> SucceededCropped(a)
  {
    if a.crop.Failure? || a.renameError.Some? then JobResult(j.filename, false, false)
    else JobResult(j.filename, true, a.crop.value.wasCropped)
  }

  /** The number of attempts satisfying p. */
  function Tally(s: seq<Attempt>, p: Attempt -> bool): (n: nat)
    ensures n <= |s|
  {
    if s == [] then 0 else Tally(s[..|s| - 1], p) + (if p(s[|s| - 1]) then 1 else 0)
  }

  /** Counting one more attempt. */
  lemma TallyStep(s: seq<Attempt>, i: nat, p: Attempt -> bool)
    requires i < |s|
    ensures Tally(s[..i + 1], p) == Tally(s[..i], p) + (if p(s[i]) then 1 else 0)
  {
    assert s[..i + 1][..i] == s[..i];
  }

  /** The renames the worker asks for: one per job the engine cropped successfully, in job order. */
  function RenamesOf(jobs: seq<Job>, workers: seq<int>, attempts: seq<Attempt>): seq<Rename>
    requires |workers| == |jobs| && |attempts| == |jobs|
  {
    if jobs == [] then []
    else
      var n := |jobs| - 1;
      var j, a := jobs[n], attempts[n];
      RenamesOf(jobs[..n], workers[..n], attempts[..n])
        + (if a.crop.Success? then [Rename(j.outputDir, TempName(workers[n], j.filename), FinalName(j.filename, a.crop.value.wasCropped))]
           else [])
  }

  /** The renames after one more job. */
  lemma RenamesStep(jobs: seq<Job>, workers: seq<int>, attempts: seq<Attempt>, i: nat)
    requires |workers| == |jobs| && |attempts| == |jobs| && i < |jobs|
    ensures RenamesOf(jobs[..i + 1], workers[..i + 1], attempts[..i + 1])
      == RenamesOf(jobs[..i], workers[..i], attempts[..i])
        + (if attempts[i].crop.Success? then
             [Rename(jobs[i].outputDir, TempName(workers[i], jobs[i].filename),
                     FinalName(jobs[i].filename, attempts[i].crop.value.wasCropped))]
           else [])
  {
    assert jobs[..i + 1][..i] == jobs[..i] && workers[..i + 1][..i] == workers[..i];
    assert attempts[..i + 1][..i] == attempts[..i];
  }

  /** The records of the jobs, in job order. */
  function Outcomes(jobs: seq<Job>, attempts: seq<Attempt>): seq<JobResult>
    requires |attempts| == |jobs|
  {
    if jobs == [] then []
    else
      var n := |jobs| - 1;
      Outcomes(jobs[..n], attempts[..n]) + [Outcome(jobs[n], attempts[n])]
  }

  /** The records after one more job. */
  lemma OutcomesStep(jobs: seq<Job>, attempts: seq<Attempt>, i: nat)
    requires |attempts| == |jobs| && i < |jobs|
    ensures Outcomes(jobs[..i + 1], attempts[..i + 1]) == Outcomes(jobs[..i], attempts[..i]) + [Outcome(jobs[i], attempts[i])]
  {
    assert jobs[..i + 1][..i] == jobs[..i] && attempts[..i + 1][..i] == attempts[..i];
  }

  /** Record k is the outcome of job k alone. */
  lemma {:induction false} OutcomesPointwise(jobs: seq<Job>, attempts: seq<Attempt>)
    requires |attempts| == |jobs|
    ensures |Outcomes(jobs, attempts)| == |jobs|
    ensures forall k :: 0 <= k < |jobs| ==> Outcomes(jobs, attempts)[k] == Outcome(jobs[k], attempts[k])
  {
    if jobs != [] {
      var n := |jobs| - 1;
      OutcomesPointwise(jobs[..n], attempts[..n]);
    }
  }

  /**
   * The workers' loop, run over the jobs in order; workers[k] is the ID of the
   * worker that takes job k. Every job ends in exactly one counter, whatever
   * the jobs before it met.
   */
  method RunBatch(jobs: seq<Job>, workers: seq<int>, attempts: seq<Attempt>)
    returns (processedCount: nat, croppedCount: nat, unchangedCount: nat, errorCount: nat, results: seq<JobResult>, renames: seq<Rename>)
    requires |workers| == |jobs| && |attempts| == |jobs|
    ensures processedCount + errorCount == |jobs|
    ensures processedCount == croppedCount + unchangedCount
    ensures processedCount == Tally(attempts, Succeeded) && errorCount == Tally(attempts, Failed)
    ensures croppedCount == Tally(attempts, SucceededCropped) && unchangedCount == Tally(attempts, SucceededUnchanged)
    ensures results == Outcomes(jobs, attempts)
    ensures renames == RenamesOf(jobs, workers, attempts)
  {
    processedCount, croppedCount, unchangedCount, errorCount := 0, 0, 0, 0;
    results, renames := [], [];
    for i := 0 to |jobs|
      invariant processedCount + errorCount == i && processedCount == croppedCount + unchangedCount
      invariant processedCount == Tally(attempts[..i], Succeeded)
      invariant croppedCount == Tally(attempts[..i], SucceededCropped)
      invariant results == Outcomes(jobs[..i], attempts[..i])
      invariant renames == RenamesOf(jobs[..i], workers[..i], attempts[..i])
    {
      TallyStep(attempts, i, Succeeded);
      TallyStep(attempts, i, SucceededCropped);
      RenamesStep(jobs, workers, attempts, i);
      OutcomesStep(jobs, attempts, i);
      var j, a := jobs[i], attempts[i];
      var tempName := TempName(workers[i], j.filename);
      if a.crop.Failure? {
        errorCount := errorCount + 1;
        results := results + [JobResult(j.filename, false, false)];
        continue;
      }
      var wasCropped := a.crop.value.wasCropped;
      var outputName := FinalName(j.filename, wasCropped);
      renames := renames + [Rename(j.outputDir, tempName, outputName)];
      if a.renameError.Some? {
        errorCount := errorCount + 1;
        results := results + [JobResult(j.filename, false, false)];
        continue;
      }
      processedCount := processedCount + 1;
      if wasCropped {
        croppedCount := croppedCount + 1;
      } else {
        unchangedCount := unchangedCount + 1;
      }
      results := results + [JobResult(j.filename, true, wasCropped)];
    }
    assert attempts[..|jobs|] == attempts && jobs[..|jobs|] == jobs && workers[..|jobs|] == workers;
    TallyComplement(attempts);
  }

  // ---------------------------------------------------------------------------
  // Properties of the accounting
  // ---------------------------------------------------------------------------

  /** Each attempt lands in exactly one of the error, cropped and unchanged counters. */
  lemma ExactlyOneCounter(a: Attempt)
    ensures Failed(a) || SucceededCropped(a) || SucceededUnchanged(a)
    ensures !(Failed(a) && SucceededCropped(a)) && !(Failed(a) && SucceededUnchanged(a))
    ensures !(SucceededCropped(a) && SucceededUnchanged(a))
  {
  }

  lemma {:induction false} TallyAppend(s: seq<Attempt>, t: seq<Attempt>, p: Attempt -> bool)
    ensures Tally(s + t, p) == Tally(s, p) + Tally(t, p)
    decreases |t|
  {
    if t == [] {
      assert s + t == s;
    } else {
      var n := |t| - 1;
      assert (s + t)[..|s + t| - 1] == s + t[..n];
      TallyAppend(s, t[..n], p);
    }
  }

  /** The counters depend only on which outcomes occurred, not on the order the workers met them. */
  lemma {:induction false} TallyPermutation(s: seq<Attempt>, t: seq<Attempt>, p: Attempt -> bool)
    requires multiset(s) == multiset(t)
    ensures Tally(s, p) == Tally(t, p)
    decreases |s|
  {
    if s != [] {
      var n := |s| - 1;
      var x := s[n];
      assert s == s[..n] + [x];
      assert x in multiset(t);
      var i :| 0 <= i < |t| && t[i] == x;
      var rest := t[..i] + t[i + 1..];
      assert t == t[..i] + [x] + t[i + 1..];
      assert multiset(rest) == multiset(t) - multiset{x};
      assert multiset(s[..n]) == multiset(s) - multiset{x};
      TallyPermutation(s[..n], rest, p);
      TallyAppend(t[..i] + [x], t[i + 1..], p);
      TallyAppend(t[..i], [x], p);
      TallyAppend(t[..i], t[i + 1..], p);
      assert [x][..0] == [];
    }
  }

  /** Every job is counted once: successes and failures add up to the number of jobs. */
  lemma {:induction false} TallyComplement(s: seq<Attempt>)
    ensures Tally(s, Succeeded) + Tally(s, Failed) == |s|
    ensures Tally(s, Succeeded) == Tally(s, SucceededCropped) + Tally(s, SucceededUnchanged)
  {
    if s != [] {
      TallyComplement(s[..|s| - 1]);
    }
  }

  /**
   * A failure does not stop the batch: after a job fails, every later job is
   * still recorded as a success exactly when its own crop and rename succeed.
   */
  lemma FailureDoesNotStopLaterJobs(jobs: seq<Job>, attempts: seq<Attempt>, k: nat)
    requires |attempts| == |jobs| && k < |jobs| && Failed(attempts[k])
    ensures |Outcomes(jobs, attempts)| == |jobs| && !Outcomes(jobs, attempts)[k].success
    ensures forall m :: k < m < |jobs| ==> Outcomes(jobs, attempts)[m].success == Succeeded(attempts[m])
  {
    OutcomesPointwise(jobs, attempts);
  }

  /** One rename per engine success, and each moves a temporary name to a final name of the same job. */
  lemma {:induction false} RenamesMatchCrops(jobs: seq<Job>, workers: seq<int>, attempts: seq<Attempt>)
    requires |workers| == |jobs| && |attempts| == |jobs|
    ensures |RenamesOf(jobs, workers, attempts)| == Tally(attempts, Cropping)
    ensures forall r :: r in RenamesOf(jobs, workers, attempts) ==>
      exists k :: 0 <= k < |jobs| && attempts[k].crop.Success? && r.dir == jobs[k].outputDir
        && r.source == TempName(workers[k], jobs[k].filename)
        && r.target == FinalName(jobs[k].filename, attempts[k].crop.value.wasCropped)
  {
    if jobs != [] {
      var n := |jobs| - 1;
      RenamesMatchCrops(jobs[..n], workers[..n], attempts[..n]);
    }
  }
}
