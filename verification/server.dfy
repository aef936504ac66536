/** The HTTP handlers over the in-memory job table: `/upload` registers a
    job as `queued` and hands the background task its request, `/status`
    and `/download` read the table, `/templates` lists the registry. The job
    id (a random UUID) is a parameter; saving the upload and parsing the
    captions JSON are outside the model. */
module Server {
  import opened Wrappers
  import opened Templates
  import opened Schedule
  import opened Jobs

  /** An error body `{"error": message}` with the status code the handler
      pairs it with. */
  datatype HttpError = HttpError(code: int, message: string)

  const NotFound := HttpError(404, "Job not found")
  const NotReady := HttpError(400, "Video not ready")

  /** `{"job_id": ..., "status": ...}`. */
  datatype UploadReply = UploadReply(jobId: string, status: string)

  /** What `/upload` leaves behind: the new table, the reply and the
      background task it scheduled. */
  datatype Upload = Upload(jobs: Table, reply: UploadReply, task: Request)

  function UploadPath(id: string): string {
    "uploads/" + id + ".mp4"
  }

  function OutputPath(id: string): string {
    "outputs/" + id + ".mp4"
  }

  /** `upload_video`: the form field `template` is optional and defaults to
      the classic template's key. */
  function UploadVideo(jobs: Table, id: string, captions: seq<Segment>, aspect: string,
                       template: Option<string>): (u: Upload)
    ensures u.jobs.Keys == jobs.Keys + {id}
    ensures u.jobs[id] == Job(Queued, 0, None)
    ensures forall k :: k in jobs && k != id ==> u.jobs[k] == jobs[k]
    ensures u.reply.jobId == id && u.reply.status == StatusName(u.jobs[id].status)
    ensures u.task.jobId == id && u.task.captions == captions && u.task.aspect == aspect
    ensures u.task.videoPath == UploadPath(id) && u.task.outputPath == OutputPath(id)
    ensures template.Some? ==> u.task.template == template.value
    ensures template.None? ==> u.task.template == DefaultKey
  {
    Upload(jobs[id := Job(Queued, 0, None)],
           UploadReply(id, "queued"),
           Request(UploadPath(id), captions, aspect, OutputPath(id), id, template.GetOr(DefaultKey)))
  }

  /** `get_status`. */
  function GetStatus(jobs: Table, id: string): (r: Result<Job, HttpError>)
    ensures r.Success? <==> id in jobs
    ensures r.Success? ==> r.value == jobs[id]
    ensures r.Failure? ==> r.error == NotFound
  {
    if id in jobs then Success(jobs[id]) else Failure(NotFound)
  }

  /** `download_video`: the path of the file served. */
  function DownloadVideo(jobs: Table, id: string): (r: Result<string, HttpError>)
    ensures r.Success? <==> id in jobs && jobs[id].status == Completed
    ensures r.Success? ==> r.value == OutputPath(id)
    ensures id !in jobs ==> r == Failure(NotFound)
    ensures id in jobs && jobs[id].status != Completed ==> r == Failure(NotReady)
  {
    if id !in jobs then Failure(NotFound)
    else if jobs[id].status != Completed then Failure(NotReady)
    else Success(OutputPath(id))
  }

  /** `get_templates`: `(id, name)` of every registry entry, in order. */
  function GetTemplates(): (r: seq<(string, string)>)
    ensures |r| == |Registry|
    ensures forall i :: 0 <= i < |r| ==> r[i] == (Registry[i].0, Registry[i].1.name)
  {
    seq(|Registry|, i requires 0 <= i < |Registry| => (Registry[i].0, Registry[i].1.name))
  }

  // ---------------------------------------------------------------------
  // Properties

  /** Every listed id is a distinct key that the pipeline resolves to the
      style whose name is listed beside it. */
  lemma TemplatesListed()
    ensures var r := GetTemplates();
            && (forall i, j :: 0 <= i < j < |r| ==> r[i].0 != r[j].0)
            && (forall i :: 0 <= i < |r| ==> Resolve(r[i].0).name == r[i].1)
  {
    RegistryKeysDistinct();
    var r := GetTemplates();
    forall i | 0 <= i < |r|
      ensures Resolve(r[i].0).name == r[i].1
    {
      LookupFindsEntry(Registry, i);
    }
  }

  /** Right after an upload the job reports `queued` at progress 0 and
      cannot be downloaded yet. */
  lemma FreshUpload(jobs: Table, id: string, captions: seq<Segment>, aspect: string, template: Option<string>)
    ensures var u := UploadVideo(jobs, id, captions, aspect, template);
            && GetStatus(u.jobs, id) == Success(Job(Queued, 0, None))
            && DownloadVideo(u.jobs, id) == Failure(NotReady)
  {
  }

  /** Uploading, running the scheduled task and downloading: the download
      serves the file ffmpeg was told to write exactly when the command was
      built and ffmpeg exited with 0, and otherwise reports "Video not
      ready"; the status then reads `completed` or `failed`. */
  lemma UploadProcessDownload(jobs: Table, id: string, captions: seq<Segment>, aspect: string,
                              template: Option<string>, fmt: real -> string,
                              ffmpeg: seq<string> -> RunResult)
    ensures var u := UploadVideo(jobs, id, captions, aspect, template);
            var after := ProcessVideo(u.jobs, u.task, fmt, ffmpeg);
            var ok := Ran(JobCommand(u.task, fmt), ffmpeg);
            && (ok ==> DownloadVideo(after, id) == Success(u.task.outputPath))
            && (!ok ==> DownloadVideo(after, id) == Failure(NotReady))
            && GetStatus(after, id).Success?
            && GetStatus(after, id).value.status == (if ok then Completed else Failed)
  {
    var u := UploadVideo(jobs, id, captions, aspect, template);
    JobOutcome(u.jobs[id], JobCommand(u.task, fmt), ffmpeg);
  }

  /** Running one job leaves what every other job reports unchanged. */
  lemma OtherJobsUnaffected(jobs: Table, req: Request, fmt: real -> string,
                            ffmpeg: seq<string> -> RunResult, other: string)
    requires req.jobId in jobs && other != req.jobId
    ensures GetStatus(ProcessVideo(jobs, req, fmt, ffmpeg), other) == GetStatus(jobs, other)
    ensures DownloadVideo(ProcessVideo(jobs, req, fmt, ffmpeg), other) == DownloadVideo(jobs, other)
  {
    var after := ProcessVideo(jobs, req, fmt, ffmpeg);
    assert other in jobs <==> other in after;
    if other in jobs {
      assert after[other] == jobs[other];
    }
  }
}
