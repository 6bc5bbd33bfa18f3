/** Lifecycle types of `src/textify/jobs/types.py` and the private rows of the job tables. */
module JobTypes {
  import opened Options
  import opened TranscriptTypes
  import opened ResultRows

  /** A UUID by its integer value; module Identifiers says which of them are version 4. */
  type Uuid = nat

  type JobId = int

  /** Microseconds on the UTC clock. */
  type Instant = int

  datatype JobStatus = Queued | Processing | Finished

  datatype JobOutcome = Succeeded | Failed | Cancelled

  /** `PublicErrorCode`. */
  datatype ErrorCode =
    | InvalidUrl | UnsupportedPlatform | InvalidRequest | UnsupportedContent | VideoTooLong
    | InvalidMediaDuration | UnsupportedMedia | NoUsableTranscript | MetadataRetrievalFailed
    | AudioDownloadFailed | TranscriptionFailed | TranscriptionCapacityExceeded | IdempotencyConflictCode
    | JobNotFound | JobAlreadyFinished | JobStoreUnavailable | QueueTimeout | WorkerInterrupted
    | MetadataTimeout | AudioDownloadTimeout | TranscriptionTimeout | InternalError

  datatype JobDispatch = JobDispatch(internalJobId: JobId, executionAttemptToken: Uuid)

  datatype ExecutionClaim = ExecutionClaim(dispatch: JobDispatch, workerOwner: Uuid)

  datatype ClaimHeartbeat = ClaimHeartbeat(claim: ExecutionClaim, cancellationRequested: bool)

  datatype ClaimedJob = ClaimedJob(claim: ExecutionClaim, submittedUrl: string, exclusions: set<FieldPath>)

  /** One `transcription_job` row without its primary key. */
  datatype Job = Job(
    publicId: Uuid,
    submittedUrl: string,
    status: JobStatus,
    outcome: Option<JobOutcome>,
    submittedAt: Instant,
    queueDeadlineAt: Instant,
    startedAt: Option<Instant>,
    finishedAt: Option<Instant>,
    cancellationRequested: bool,
    errorCode: Option<ErrorCode>,
    errorMessage: Option<string>)

  /** One `transcription_job_execution_attempt` row without its primary key. */
  datatype Attempt = Attempt(
    token: Uuid,
    nextDispatchAt: Instant,
    leaseOwner: Option<Uuid>,
    leaseExpiresAt: Option<Instant>,
    lastDispatchedAt: Option<Instant>,
    dispatchCount: int,
    workerOwner: Option<Uuid>,
    lastHeartbeatAt: Option<Instant>,
    claimLeaseExpiresAt: Option<Instant>)

  /** The safe snapshot of a job that a caller may read. */
  datatype Snapshot =
    | QueuedJob(id: JobId, publicId: Uuid, submittedAt: Instant, queueDeadlineAt: Instant)
    | ProcessingJob(publicId: Uuid, submittedAt: Instant, processingSince: Instant, cancellationRequested: bool)
    | SucceededJob(publicId: Uuid, submittedAt: Instant, processingSince: Instant, finishedAt: Instant,
                   result: TranscriptionResponse)
    | FailedJob(publicId: Uuid, submittedAt: Instant, startedAt: Option<Instant>, finishedAt: Instant,
                errorCode: ErrorCode, errorMessage: string)
    | CancelledJob(publicId: Uuid, submittedAt: Instant, startedAt: Option<Instant>, finishedAt: Instant)

  const QUEUE_TIMEOUT_MESSAGE := "The transcription job did not begin processing before its queue deadline."
  const WORKER_INTERRUPTED_MESSAGE := "The transcription job was interrupted before completion."
  const INTERNAL_ERROR_MESSAGE := "An unexpected error occurred."
}
