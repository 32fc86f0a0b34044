/** The job store of the two served copies of the service (backend/main.py
    and backend/test.py): `POST /process` creates a job, the background task
    `process_pdf_task` drives it through OCR and chunking, and
    `GET /status/{job_id}` reports on it. The store is a map from job id to
    job; everything runs one step at a time. The OCR call's outcome is an
    input, and so is the outcome of saving the upload. */
module Jobs {
  import opened Base
  import opened Chunker

  datatype Status = Queued | ProcessingOcr | ProcessingChunks | Completed | Failed

  /** The status string the API reports. */
  function StatusName(s: Status): string {
    match s
    case Queued => "queued"
    case ProcessingOcr => "processing_ocr"
    case ProcessingChunks => "processing_chunks"
    case Completed => "completed"
    case Failed => "failed"
  }

  /** `jobs[job_id]["result"]` of a completed job. */
  datatype JobResult = JobResult(ocrResults: OcrResult, chunks: seq<Chunk>, totalChunks: nat)

  /** The dict stored for a job: its `status`, and its `result` and `error`
      keys when they have been set. */
  datatype Job = Job(status: Status, result: Option<JobResult>, error: Option<string>)

  type Store = map<string, Job>

  datatype HttpError = HttpError(code: nat, detail: string)

  // ---------------------------------------------------------------------
  // POST /process
  // ---------------------------------------------------------------------

  const QueuedMessage: string := "PDF processing has been queued."

  /** The body of a successful submission. */
  datatype Accepted = Accepted(jobId: string, status: string, message: string)

  datatype Submitted = Submitted(response: Result<Accepted, HttpError>, store: Store)

  /** `process_pdf` once the job id is chosen: if writing the upload raised,
      a 500 carrying the error text and no job; otherwise a fresh queued job
      under `jobId`, replacing any job that already had that id. */
  function Submit(store: Store, jobId: string, saveError: Option<string>): (r: Submitted)
    ensures saveError.Some? ==> r.response == Err(HttpError(500, saveError.value)) && r.store == store
    ensures saveError.None? ==> r.response == Ok(Accepted(jobId, "queued", QueuedMessage))
    ensures saveError.None? ==> r.store.Keys == store.Keys + {jobId}
    ensures saveError.None? ==> r.store[jobId].status == Queued && r.store[jobId].result.None?
    ensures saveError.None? ==> r.store[jobId].error.None?
    ensures forall id | id in store && id != jobId :: id in r.store && r.store[id] == store[id]
  {
    match saveError
    case Some(e) => Submitted(Err(HttpError(500, e)), store)
    case None => Submitted(Ok(Accepted(jobId, StatusName(Queued), QueuedMessage)), store[jobId := Job(Queued, None, None)])
  }

  // ---------------------------------------------------------------------
  // process_pdf_task
  // ---------------------------------------------------------------------

  /** The statuses the background task wrote, in order, and the store it left. */
  datatype TaskRun = TaskRun(writes: seq<Status>, store: Store)

  /** The message stored when the background task fails: the OCR error, or else the
      chunking error. */
  function FailureOf(ocr: Result<OcrResult, string>, svc: Services): Option<string> {
    if ocr.Err? then Some(ocr.error)
    else if ProcessOcrResults(ocr.value, svc).Err? then Some(ProcessOcrResults(ocr.value, svc).error)
    else None
  }

  /** The background task for job `id`. Statuses are written in the order
      processing_ocr, processing_chunks, completed; any exception writes
      failed with its message. Every write updates the job's dict in place,
      so keys set earlier stay. For an id missing from the store the first
      write raises and so does the handler's: nothing changes. */
  function RunTask(store: Store, id: string, ocr: Result<OcrResult, string>, svc: Services): (r: TaskRun)
    ensures id !in store ==> r == TaskRun([], store)
    ensures id in store ==> 2 <= |r.writes| <= 3 && r.writes[0] == ProcessingOcr
    ensures id in store && |r.writes| == 3 ==> r.writes[1] == ProcessingChunks
    ensures id in store ==> (r.writes[|r.writes| - 1] == Failed <==> FailureOf(ocr, svc).Some?)
    ensures id in store ==> r.writes[|r.writes| - 1] in {Completed, Failed}
    ensures ocr.Err? && id in store ==> r.writes == [ProcessingOcr, Failed]
    ensures ocr.Ok? && id in store ==> |r.writes| == 3
    ensures r.store.Keys == store.Keys
    ensures forall other | other in store && other != id :: r.store[other] == store[other]
    ensures id in store ==> r.store[id].status == r.writes[|r.writes| - 1]
    ensures id in store && r.store[id].status == Failed ==> r.store[id].error == FailureOf(ocr, svc)
    ensures id in store && r.store[id].status == Completed ==>
              && r.store[id].result.Some?
              && r.store[id].result.value.ocrResults == ocr.value
              && r.store[id].result.value.chunks == ProcessOcrResults(ocr.value, svc).value
              && r.store[id].result.value.totalChunks == |r.store[id].result.value.chunks|
  {
    if id !in store then TaskRun([], store)
    else
      var job := store[id];
      match ocr
      case Err(e) =>
        TaskRun([ProcessingOcr, Failed], store[id := job.(status := Failed, error := Some(e))])
      case Ok(results) =>
        match ProcessOcrResults(results, svc)
        case Err(e) =>
          TaskRun([ProcessingOcr, ProcessingChunks, Failed], store[id := job.(status := Failed, error := Some(e))])
        case Ok(chunks) =>
          TaskRun([ProcessingOcr, ProcessingChunks, Completed],
                  store[id := job.(status := Completed, result := Some(JobResult(results, chunks, |chunks|)))])
  }

  // ---------------------------------------------------------------------
  // GET /status/{job_id}
  // ---------------------------------------------------------------------

  /** What the status response's `result` holds. */
  datatype Payload = Done(result: JobResult) | ErrorText(error: string)

  datatype StatusView = StatusView(jobId: string, status: string, result: Option<Payload>)

  const NotFound: HttpError := HttpError(404, "Job not found")

  /** A completed job whose `result` key is missing makes the handler raise,
      which the framework answers with a 500. */
  const InternalError: HttpError := HttpError(500, "Internal Server Error")

  const UnknownError: string := "Unknown error"

  function GetStatus(store: Store, id: string): (r: Result<StatusView, HttpError>)
    ensures id !in store ==> r == Err(NotFound)
    ensures r.Ok? ==> id in store && r.value.jobId == id && r.value.status == StatusName(store[id].status)
    ensures r.Ok? ==> (r.value.result.Some? <==> store[id].status in {Completed, Failed})
    ensures r.Ok? && store[id].status == Completed ==>
              store[id].result.Some? && r.value.result == Some(Done(store[id].result.value))
    ensures r.Ok? && store[id].status == Failed ==>
              r.value.result == Some(ErrorText(store[id].error.GetOr(UnknownError)))
    ensures r.Err? && id in store ==> r == Err(InternalError) && store[id].status == Completed && store[id].result.None?
  {
    if id !in store then Err(NotFound)
    else
      var job := store[id];
      var view := StatusView(id, StatusName(job.status), None);
      match job.status
      case Completed =>
        if job.result.Some? then Ok(view.(result := Some(Done(job.result.value)))) else Err(InternalError)
      case Failed => Ok(view.(result := Some(ErrorText(job.error.GetOr(UnknownError)))))
      case _ => Ok(view)
  }

  // ---------------------------------------------------------------------
  // The store's invariant and the lifecycle of a job
  // ---------------------------------------------------------------------

  /** Every completed job has its result. */
  predicate WellFormed(store: Store) {
    forall id | id in store && store[id].status == Completed :: store[id].result.Some?
  }

  /** On a well-formed store the status query fails only for unknown ids. */
  lemma StatusFailsOnlyForUnknownIds(store: Store, id: string)
    requires WellFormed(store)
    ensures GetStatus(store, id).Err? <==> id !in store
  {
  }

  lemma OperationsKeepStoreWellFormed(store: Store, jobId: string, saveError: Option<string>,
                                       ocr: Result<OcrResult, string>, svc: Services)
    requires WellFormed(store)
    ensures WellFormed(Submit(store, jobId, saveError).store)
    ensures WellFormed(RunTask(store, jobId, ocr, svc).store)
  {
  }

  /** A submitted job, once its task has run, has gone queued, then
      processing_ocr, then either failed or processing_chunks, and finishes
      completed or failed; the status query then carries a result. A failure
      in OCR means processing_chunks was never written, and a successful OCR
      call means it was. */
  lemma JobLifecycle(store: Store, jobId: string, ocr: Result<OcrResult, string>, svc: Services)
    ensures var s := Submit(store, jobId, None).store;
            var run := RunTask(s, jobId, ocr, svc);
            && ([Queued] + run.writes == [Queued, ProcessingOcr, Failed]
                || [Queued] + run.writes == [Queued, ProcessingOcr, ProcessingChunks, Failed]
                || [Queued] + run.writes == [Queued, ProcessingOcr, ProcessingChunks, Completed])
            && (ocr.Err? ==> ProcessingChunks !in run.writes)
            && (ocr.Ok? ==> ProcessingChunks in run.writes)
            && GetStatus(run.store, jobId).Ok?
            && GetStatus(run.store, jobId).value.result.Some?
  {
    var s := Submit(store, jobId, None).store;
    var run := RunTask(s, jobId, ocr, svc);
    assert jobId in s;
    WritesInOrder(run.writes, ocr.Ok?);
    FinishedJobReports(run.store, jobId);
  }

  /** The writes of a run on a known id, in the shape `RunTask` promises,
      form one of the three status sequences of the lifecycle. */
  lemma WritesInOrder(writes: seq<Status>, ocrOk: bool)
    requires 2 <= |writes| <= 3 && writes[0] == ProcessingOcr
    requires |writes| == 3 ==> writes[1] == ProcessingChunks
    requires writes[|writes| - 1] in {Completed, Failed}
    requires !ocrOk ==> writes == [ProcessingOcr, Failed]
    requires ocrOk ==> |writes| == 3
    ensures || [Queued] + writes == [Queued, ProcessingOcr, Failed]
            || [Queued] + writes == [Queued, ProcessingOcr, ProcessingChunks, Failed]
            || [Queued] + writes == [Queued, ProcessingOcr, ProcessingChunks, Completed]
    ensures ocrOk <==> ProcessingChunks in writes
  {
    if ocrOk {
      assert writes == [ProcessingOcr, ProcessingChunks, writes[2]];
    }
  }

  /** A job that finished, completed with its result or failed, is reported
      with a result. */
  lemma FinishedJobReports(store: Store, id: string)
    requires id in store && store[id].status in {Completed, Failed}
    requires store[id].status == Completed ==> store[id].result.Some?
    ensures GetStatus(store, id).Ok? && GetStatus(store, id).value.result.Some?
  {
  }
}
