/** The background job `process_video`: it advances one entry of the shared
    job table through `processing` with progress 10, 30, 50 and 70, builds
    the overlay schedule and the ffmpeg command, runs ffmpeg, and ends the
    entry as `completed` at 100 or as `failed` with the exception's text.
    ffmpeg itself is the parameter `ffmpeg` (arguments to exit code and
    stderr); Python's float formatting is the parameter `fmt`. */
module Jobs {
  import opened Wrappers
  import opened Text
  import opened Schedule
  import opened FilterGraph

  datatype Status = Queued | Processing | Completed | Failed

  /** The status strings the job table and the HTTP responses carry. */
  function StatusName(s: Status): (name: string)
    ensures name in {"queued", "processing", "completed", "failed"}
  {
    match s
    case Queued => "queued"
    case Processing => "processing"
    case Completed => "completed"
    case Failed => "failed"
  }

  lemma StatusNameInjective(a: Status, b: Status)
    requires StatusName(a) == StatusName(b)
    ensures a == b
  {
  }

  /** One job record: `{"status", "progress"}` plus `"error"` once failed. */
  datatype Job = Job(status: Status, progress: int, error: Option<string>)

  type Table = map<string, Job>

  /** One assignment `jobs[job_id][key] = value`. */
  datatype Write = SetStatus(status: Status) | SetProgress(progress: int) | SetError(message: string)

  function Apply(j: Job, w: Write): Job {
    match w
    case SetStatus(s) => j.(status := s)
    case SetProgress(p) => j.(progress := p)
    case SetError(m) => j.(error := Some(m))
  }

  /** The assignments performed in order. */
  function ApplyAll(j: Job, ws: seq<Write>): Job
    decreases |ws|
  {
    if |ws| == 0 then j else ApplyAll(Apply(j, ws[0]), ws[1..])
  }

  /** The value of the last progress assignment in `ws`, or `p` if none. */
  function LastProgress(ws: seq<Write>, p: int): int {
    if |ws| == 0 then p
    else if ws[|ws| - 1].SetProgress? then ws[|ws| - 1].progress
    else LastProgress(ws[..|ws| - 1], p)
  }

  function LastStatus(ws: seq<Write>, s: Status): Status {
    if |ws| == 0 then s
    else if ws[|ws| - 1].SetStatus? then ws[|ws| - 1].status
    else LastStatus(ws[..|ws| - 1], s)
  }

  function LastError(ws: seq<Write>, e: Option<string>): Option<string> {
    if |ws| == 0 then e
    else if ws[|ws| - 1].SetError? then Some(ws[|ws| - 1].message)
    else LastError(ws[..|ws| - 1], e)
  }

  lemma {:induction false} ApplyAllSnoc(j: Job, ws: seq<Write>, w: Write)
    ensures ApplyAll(j, ws + [w]) == Apply(ApplyAll(j, ws), w)
    decreases |ws|
  {
    if |ws| > 0 {
      assert (ws + [w])[1..] == ws[1..] + [w];
      ApplyAllSnoc(Apply(j, ws[0]), ws[1..], w);
    } else {
      assert ([] + [w])[1..] == [];
    }
  }

  /** Each key ends up holding the last value assigned to it. */
  lemma {:induction false} LastWriteWins(j: Job, ws: seq<Write>)
    ensures ApplyAll(j, ws) == Job(LastStatus(ws, j.status), LastProgress(ws, j.progress), LastError(ws, j.error))
    decreases |ws|
  {
    if |ws| > 0 {
      var init := ws[..|ws| - 1];
      assert ws == init + [ws[|ws| - 1]];
      LastWriteWins(j, init);
      ApplyAllSnoc(j, init, ws[|ws| - 1]);
    }
  }

  lemma {:induction false} ApplyAllAppend(j: Job, a: seq<Write>, b: seq<Write>)
    ensures ApplyAll(j, a + b) == ApplyAll(ApplyAll(j, a), b)
    decreases |a|
  {
    if |a| > 0 {
      assert (a + b)[1..] == a[1..] + b;
      ApplyAllAppend(Apply(j, a[0]), a[1..], b);
    } else {
      assert a + b == b;
    }
  }

  lemma ApplyTwo(j: Job, w0: Write, w1: Write)
    ensures ApplyAll(j, [w0, w1]) == Apply(Apply(j, w0), w1)
  {
    var j1 := Apply(j, w0);
    assert [w0, w1][1..] == [w1];
    assert [w1][1..] == [];
    assert ApplyAll(j1, [w1]) == ApplyAll(Apply(j1, w1), []);
  }

  lemma ApplyThree(j: Job, w0: Write, w1: Write, w2: Write)
    ensures ApplyAll(j, [w0, w1, w2]) == Apply(Apply(Apply(j, w0), w1), w2)
  {
    assert [w0, w1, w2][1..] == [w1, w2];
    ApplyTwo(Apply(j, w0), w1, w2);
  }

  /** The progress values assigned, in order. */
  function ProgressTrail(ws: seq<Write>): seq<int> {
    if |ws| == 0 then []
    else (if ws[0].SetProgress? then [ws[0].progress] else []) + ProgressTrail(ws[1..])
  }

  /** The statuses assigned, in order. */
  function StatusTrail(ws: seq<Write>): seq<Status> {
    if |ws| == 0 then []
    else (if ws[0].SetStatus? then [ws[0].status] else []) + StatusTrail(ws[1..])
  }

  lemma {:induction false} TrailsAppend(a: seq<Write>, b: seq<Write>)
    ensures ProgressTrail(a + b) == ProgressTrail(a) + ProgressTrail(b)
    ensures StatusTrail(a + b) == StatusTrail(a) + StatusTrail(b)
    decreases |a|
  {
    if |a| > 0 {
      assert (a + b)[1..] == a[1..] + b;
      TrailsAppend(a[1..], b);
    } else {
      assert a + b == b;
    }
  }

  lemma TrailsOfThree(w0: Write, w1: Write, w2: Write)
    ensures ProgressTrail([w0, w1, w2]) == ProgressTrail([w0]) + ProgressTrail([w1]) + ProgressTrail([w2])
    ensures StatusTrail([w0, w1, w2]) == StatusTrail([w0]) + StatusTrail([w1]) + StatusTrail([w2])
  {
    assert [w0, w1, w2] == [w0] + ([w1] + [w2]);
    TrailsAppend([w1], [w2]);
    TrailsAppend([w0], [w1] + [w2]);
  }

  // ---------------------------------------------------------------------
  // The job

  /** What the background task is given. */
  datatype Request = Request(videoPath: string, captions: seq<Segment>, aspect: string,
                             outputPath: string, jobId: string, template: string)

  /** The exit status and error output of a finished ffmpeg process. */
  datatype RunResult = RunResult(returncode: int, stderr: string)

  /** `Path("temp") / job_id`. */
  function TempDir(id: string): string {
    "temp/" + id
  }

  /** The exception raised for a non-zero ffmpeg exit: the last 500
      characters of its error output. */
  function FfmpegFailure(stderr: string): Raised {
    GenericError("FFmpeg failed: " + LastChars(stderr, 500))
  }

  /** The schedule the job builds for `req`. */
  function JobSchedule(req: Request): seq<Overlay> {
    CreateCaptionImages(req.captions, TempDir(req.jobId), req.template)
  }

  /** The command line the job runs, when every timestamp decodes. */
  function JobCommand(req: Request, fmt: real -> string): Result<seq<string>, Raised> {
    var os := JobSchedule(req);
    var g :- AssembleGraph(req.aspect, os);
    Success(FfmpegArgs(req.videoPath, Paths(os), FilterComplex(g, fmt), req.outputPath))
  }

  /** The assignments made before the command is built. */
  const Started: seq<Write> := [SetStatus(Processing), SetProgress(10), SetProgress(30), SetProgress(50)]

  /** The assignments `process_video` makes to its job entry, in order, once
      building the command has given `cmd`. A timestamp `int()` rejects
      raises while the command is built, at progress 50; a failing ffmpeg
      raises at progress 70. `str(e)` is the exception's message. */
  function JobWrites(cmd: Result<seq<string>, Raised>, ffmpeg: seq<string> -> RunResult): seq<Write> {
    match cmd
    case Failure(e) => Started + [SetStatus(Failed), SetError(e.message)]
    case Success(args) =>
      var run := ffmpeg(args);
      if run.returncode != 0 then
        Started + [SetProgress(70), SetStatus(Failed), SetError(FfmpegFailure(run.stderr).message)]
      else
        Started + [SetProgress(70), SetStatus(Completed), SetProgress(100)]
  }

  /** The job table after the writes for `cmd` to entry `id`. */
  function Record(jobs: Table, id: string, cmd: Result<seq<string>, Raised>, ffmpeg: seq<string> -> RunResult): (r: Table)
    requires id in jobs
    ensures r.Keys == jobs.Keys
    ensures forall k :: k in jobs && k != id ==> r[k] == jobs[k]
  {
    jobs[id := ApplyAll(jobs[id], JobWrites(cmd, ffmpeg))]
  }

  /** `process_video(...)` on the job table: only the job's own entry changes. */
  function ProcessVideo(jobs: Table, req: Request, fmt: real -> string, ffmpeg: seq<string> -> RunResult): (r: Table)
    requires req.jobId in jobs
    ensures r.Keys == jobs.Keys
    ensures forall id :: id in jobs && id != req.jobId ==> r[id] == jobs[id]
  {
    Record(jobs, req.jobId, JobCommand(req, fmt), ffmpeg)
  }

  /** Whether ffmpeg was started and exited with status 0. */
  predicate Ran(cmd: Result<seq<string>, Raised>, ffmpeg: seq<string> -> RunResult) {
    cmd.Success? && ffmpeg(cmd.value).returncode == 0
  }

  // ---------------------------------------------------------------------
  // Properties

  /** Before the command is built the entry is `processing` at 50. */
  lemma StartedEffect(j: Job)
    ensures ApplyAll(j, Started) == Job(Processing, 50, j.error)
  {
    assert Started == [SetStatus(Processing)] + [SetProgress(10), SetProgress(30), SetProgress(50)];
    ApplyAllAppend(j, [SetStatus(Processing)], [SetProgress(10), SetProgress(30), SetProgress(50)]);
    assert ApplyAll(j, [SetStatus(Processing)]) == j.(status := Processing);
    ApplyThree(j.(status := Processing), SetProgress(10), SetProgress(30), SetProgress(50));
  }

  lemma StartedTrails()
    ensures ProgressTrail(Started) == [10, 30, 50]
    ensures StatusTrail(Started) == [Processing]
  {
    assert Started == [SetStatus(Processing)] + [SetProgress(10), SetProgress(30), SetProgress(50)];
    TrailsOfThree(SetProgress(10), SetProgress(30), SetProgress(50));
    TrailsAppend([SetStatus(Processing)], [SetProgress(10), SetProgress(30), SetProgress(50)]);
  }

  lemma JobWritesTrails(cmd: Result<seq<string>, Raised>, ffmpeg: seq<string> -> RunResult)
    ensures var ws := JobWrites(cmd, ffmpeg);
            && (cmd.Failure? ==>
                  && ProgressTrail(ws) == [10, 30, 50]
                  && StatusTrail(ws) == [Processing, Failed])
            && (cmd.Success? && !Ran(cmd, ffmpeg) ==>
                  && ProgressTrail(ws) == [10, 30, 50, 70]
                  && StatusTrail(ws) == [Processing, Failed])
            && (Ran(cmd, ffmpeg) ==>
                  && ProgressTrail(ws) == [10, 30, 50, 70, 100]
                  && StatusTrail(ws) == [Processing, Completed])
  {
    var ws := JobWrites(cmd, ffmpeg);
    match cmd
    case Failure(e) =>
      assert ws == Started + [SetStatus(Failed), SetError(e.message)];
      FailedBuildTrails(e.message);
    case Success(args) =>
      var run := ffmpeg(args);
      if run.returncode != 0 {
        var m := FfmpegFailure(run.stderr).message;
        assert ws == Started + [SetProgress(70), SetStatus(Failed), SetError(m)];
        TailTrails(SetProgress(70), SetStatus(Failed), SetError(m));
      } else {
        assert ws == Started + [SetProgress(70), SetStatus(Completed), SetProgress(100)];
        TailTrails(SetProgress(70), SetStatus(Completed), SetProgress(100));
      }
  }

  lemma FailedBuildTrails(m: string)
    ensures ProgressTrail(Started + [SetStatus(Failed), SetError(m)]) == [10, 30, 50]
    ensures StatusTrail(Started + [SetStatus(Failed), SetError(m)]) == [Processing, Failed]
  {
    StartedTrails();
    assert [SetStatus(Failed), SetError(m)] == [SetStatus(Failed)] + [SetError(m)];
    TrailsAppend([SetStatus(Failed)], [SetError(m)]);
    TrailsAppend(Started, [SetStatus(Failed), SetError(m)]);
  }

  lemma TailTrails(w0: Write, w1: Write, w2: Write)
    ensures ProgressTrail(Started + [w0, w1, w2])
              == [10, 30, 50] + ProgressTrail([w0]) + ProgressTrail([w1]) + ProgressTrail([w2])
    ensures StatusTrail(Started + [w0, w1, w2])
              == [Processing] + StatusTrail([w0]) + StatusTrail([w1]) + StatusTrail([w2])
  {
    StartedTrails();
    TrailsOfThree(w0, w1, w2);
    TrailsAppend(Started, [w0, w1, w2]);
  }

  /** Progress only ever increases, through a prefix of 10, 30, 50, 70, 100
      that stops at 50 or later; the status moves from `processing` to
      exactly one of `completed` or `failed`. */
  lemma ProgressMonotone(cmd: Result<seq<string>, Raised>, ffmpeg: seq<string> -> RunResult)
    ensures var t := ProgressTrail(JobWrites(cmd, ffmpeg));
            && 3 <= |t| <= 5 && t == [10, 30, 50, 70, 100][..|t|]
            && (forall i, j :: 0 <= i < j < |t| ==> t[i] < t[j])
    ensures var s := StatusTrail(JobWrites(cmd, ffmpeg));
            |s| == 2 && s[0] == Processing && (s[1] == Completed || s[1] == Failed)
  {
    JobWritesTrails(cmd, ffmpeg);
  }

  /** After the writes, the entry is `completed` at progress 100, with the
      error key untouched, exactly when ffmpeg ran and exited with 0;
      otherwise it is `failed` with the exception's text, and progress stays
      at 50 when the command could not be built and at 70 when ffmpeg
      failed. */
  lemma JobOutcome(j0: Job, cmd: Result<seq<string>, Raised>, ffmpeg: seq<string> -> RunResult)
    ensures var j := ApplyAll(j0, JobWrites(cmd, ffmpeg));
            && (j.status == Completed <==> Ran(cmd, ffmpeg))
            && (j.status == Completed ==> j.progress == 100 && j.error == j0.error)
            && (j.status != Completed ==> j.status == Failed && j.error.Some?)
            && (cmd.Failure? ==> j.progress == 50 && j.error == Some(cmd.error.message))
            && (cmd.Success? && !Ran(cmd, ffmpeg) ==>
                  && j.progress == 70
                  && j.error == Some(FfmpegFailure(ffmpeg(cmd.value).stderr).message))
  {
    StartedEffect(j0);
    var j1 := ApplyAll(j0, Started);
    match cmd
    case Failure(e) =>
      ApplyAllAppend(j0, Started, [SetStatus(Failed), SetError(e.message)]);
      ApplyTwo(j1, SetStatus(Failed), SetError(e.message));
    case Success(args) =>
      var run := ffmpeg(args);
      if run.returncode != 0 {
        var m := FfmpegFailure(run.stderr).message;
        ApplyAllAppend(j0, Started, [SetProgress(70), SetStatus(Failed), SetError(m)]);
        ApplyThree(j1, SetProgress(70), SetStatus(Failed), SetError(m));
      } else {
        ApplyAllAppend(j0, Started, [SetProgress(70), SetStatus(Completed), SetProgress(100)]);
        ApplyThree(j1, SetProgress(70), SetStatus(Completed), SetProgress(100));
      }
  }

  /** The job's entry in the table after `process_video`. */
  lemma ProcessVideoOutcome(jobs: Table, req: Request, fmt: real -> string, ffmpeg: seq<string> -> RunResult)
    requires req.jobId in jobs
    ensures var cmd := JobCommand(req, fmt);
            var j := ProcessVideo(jobs, req, fmt, ffmpeg)[req.jobId];
            && (j.status == Completed <==> Ran(cmd, ffmpeg))
            && (j.status == Completed ==> j.progress == 100 && j.error == jobs[req.jobId].error)
            && (j.status != Completed ==> j.status == Failed && j.error.Some?)
            && (cmd.Failure? ==> j.progress == 50 && j.error == Some(cmd.error.message))
            && (cmd.Success? && !Ran(cmd, ffmpeg) ==>
                  j.progress == 70 && j.error == Some(FfmpegFailure(ffmpeg(cmd.value).stderr).message))
  {
    JobOutcome(jobs[req.jobId], JobCommand(req, fmt), ffmpeg);
  }

  /** The recorded ffmpeg failure keeps at most the last 500 characters of
      ffmpeg's error output, behind a fixed prefix. */
  lemma FfmpegFailureText(stderr: string)
    ensures var m := FfmpegFailure(stderr).message;
            var tail := m[|"FFmpeg failed: "|..];
            && m[..|"FFmpeg failed: "|] == "FFmpeg failed: "
            && |tail| <= 500
            && tail == stderr[|stderr| - |tail|..]
            && (|stderr| <= 500 ==> tail == stderr)
  {
  }

  /** With no words in any segment the filter is the base stage alone,
      whose output is labelled `base`, yet the command still maps `[out]`,
      a label no stage of that graph defines. */
  lemma NoWordsCommand(req: Request, fmt: real -> string)
    requires TotalWords(req.captions) == 0
    ensures JobCommand(req, fmt).Success?
    ensures var args := JobCommand(req, fmt).value;
            && |args| > 6
            && args[3..5] == ["-filter_complex", "[0:v]" + BaseFilter(req.aspect) + "[base]"]
            && args[5..7] == ["-map", "[out]"]
  {
    assert JobSchedule(req) == [];
    EmptyScheduleCommand(req, fmt);
    BaseOnlyArgs(req.videoPath, req.aspect, req.outputPath, fmt);
  }

  lemma BaseOnlyArgs(video: string, aspect: string, output: string, fmt: real -> string)
    ensures var args := FfmpegArgs(video, [], FilterComplex(Graph(FrameFor(aspect), []), fmt), output);
            && |args| > 6
            && args[3..5] == ["-filter_complex", "[0:v]" + BaseFilter(aspect) + "[base]"]
            && args[5..7] == ["-map", "[out]"]
  {
    EmptyScheduleFilter(aspect, fmt);
    FfmpegInputs(video, [], "[0:v]" + BaseFilter(aspect) + "[base]", output);
  }

  lemma EmptyScheduleCommand(req: Request, fmt: real -> string)
    requires JobSchedule(req) == []
    ensures JobCommand(req, fmt)
            == Success(FfmpegArgs(req.videoPath, [], FilterComplex(Graph(FrameFor(req.aspect), []), fmt), req.outputPath))
  {
    EmptyScheduleHasNoOut(req.aspect);
    assert Paths(JobSchedule(req)) == [];
  }

  /** A timestamp that does not decode stops the command being built, with
      `int()`'s message about the first such field: ffmpeg is never started
      and the job fails at progress 50. */
  lemma BadTimestampFailsJob(req: Request, fmt: real -> string, i: nat)
    requires i < |JobSchedule(req)| && !Decodes(JobSchedule(req)[i])
    requires forall k :: 0 <= k < i ==> Decodes(JobSchedule(req)[k])
    ensures JobCommand(req, fmt) == Failure(DecodeError(JobSchedule(req)[i]))
  {
    var os := JobSchedule(req);
    var r := DecodeWindows(os);
    assert r.Failure?;
    var e :| 0 <= e < |os| && !Decodes(os[e]) && r.error == DecodeError(os[e])
             && forall k :: 0 <= k < e ==> Decodes(os[k]);
    if e < i {
      assert false;
    } else if i < e {
      assert false;
    }
  }
}
