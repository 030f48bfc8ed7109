/**
 * The status check of the molecule-job component: the decision `handleCheckStatus`
 * makes from the current-job response and the job-log response, and the three
 * pieces of component state it writes (`logStatus`, `isDownloadEnabled`, `isChecking`).
 */
module CheckStatus {
  import opened Wrappers
  import opened Strings
  import opened ErrorScan

  /** The backend function the tracked job runs as. */
  const TrackedFunction: string := "AddMolecule"

  /** The job being tracked: the compound's name, its CAS registry number and its SMILES string. */
  datatype TrackedJob = TrackedJob(material: string, casNumber: string, smiles: string)

  /**
   * `current_job` of the current-job response. `data` is None when the response
   * carries no payload object; a payload key that is absent reads as `undefined`.
   */
  datatype CurrentJob = CurrentJob(functionName: string, data: Option<map<string, string>>)

  /** One record of the `logs` list of the job-log response. */
  datatype LogRecord = LogRecord(task: string, stdout: string, stderr: string)

  /** One awaited request: the response it resolves to, or a rejection. */
  datatype Fetch<T> = Fetched(value: T) | Rejected

  /** What one check concludes; `Aborted` is an exception caught by the `catch`. */
  datatype Outcome =
    | StillRunning
    | Succeeded
    | CompletedWithErrors(errors: seq<string>)
    | NoMatchingLogs
    | Aborted

  /**
   * The current-job test: the tracked job is running, it is not, or reading
   * `data.compoundName` of an absent payload throws a TypeError.
   */
  datatype CurrentJobTest = IsTracked | NotTracked | PayloadMissing

  const RunningStatus: string := "Process is still running..."
  const SuccessStatus: string := "Process completed successfully."
  const NoMatchStatus: string := "No matching logs found for this compound."
  const ErrorsHeader: string := "Process completed with errors:\n"
  const NoErrorsText: string := "No errors found."

  /** `data.<key> === value`. */
  predicate FieldIs(data: map<string, string>, key: string, value: string) {
    key in data && data[key] == value
  }

  /** The `&&` chain on `current_job`, evaluated left to right. */
  function TestCurrentJob(job: TrackedJob, current: Option<CurrentJob>): (t: CurrentJobTest) {
    if current.None? || current.value.functionName != TrackedFunction then
      NotTracked
    else if current.value.data.None? then
      PayloadMissing
    else
      var data := current.value.data.value;
      if && FieldIs(data, "compoundName", job.material)
         && FieldIs(data, "cas", job.casNumber)
         && FieldIs(data, "smiles", job.smiles)
      then IsTracked
      else NotTracked
  }

  /** The `find` callback: the record's `stdout` mentions the material, the SMILES and the CAS number. */
  predicate Qualifies(job: TrackedJob, log: LogRecord) {
    Includes(log.stdout, job.material) && Includes(log.stdout, job.smiles) && Includes(log.stdout, job.casNumber)
  }

  /** `logs.find(...)`, as an index: the first record in list order that qualifies. */
  function FindRelevant(job: TrackedJob, logs: seq<LogRecord>): (r: Option<nat>)
    ensures r.Some? ==> r.value < |logs| && Qualifies(job, logs[r.value])
    ensures r.Some? ==> forall j :: 0 <= j < r.value ==> !Qualifies(job, logs[j])
    ensures r.None? <==> forall j :: 0 <= j < |logs| ==> !Qualifies(job, logs[j])
  {
    if |logs| == 0 then
      None
    else if Qualifies(job, logs[0]) then
      Some(0)
    else
      match FindRelevant(job, logs[1..])
      case None => None
      case Some(i) => Some(i + 1)
  }

  /** `JOB ${material} SUCCESSFUL`. */
  function SuccessMarker(job: TrackedJob): (marker: string) {
    "JOB " + job.material + " SUCCESSFUL"
  }

  /**
   * What `handleCheckStatus` concludes from the two responses: `currentJob` is
   * the `current_job` field of the first (None when it is absent or null), and
   * `logs` the `logs` field of the second (None when it is absent, so that
   * `.find` throws a TypeError).
   */
  function Classify(job: TrackedJob, currentJob: Fetch<Option<CurrentJob>>, logs: Fetch<Option<seq<LogRecord>>>): (outcome: Outcome) {
    match currentJob
    case Rejected => Aborted
    case Fetched(current) =>
      match TestCurrentJob(job, current)
      case PayloadMissing => Aborted
      case IsTracked => StillRunning
      case NotTracked =>
        match logs
        case Rejected => Aborted
        case Fetched(None) => Aborted
        case Fetched(Some(records)) =>
          match FindRelevant(job, records)
          case None => NoMatchingLogs
          case Some(i) =>
            if Includes(records[i].stdout, SuccessMarker(job)) then Succeeded
            else CompletedWithErrors(Dedup(RawEntries(records[i].stderr)))
  }

  /** The failure text: the entries one per line, or "No errors found." when the joined text is empty. */
  function ErrorReport(errors: seq<string>): (text: string) {
    var joined := JoinLines(errors);
    ErrorsHeader + (if joined == "" then NoErrorsText else joined)
  }

  /** The status text after a check with the given outcome; the `catch` leaves the old one. */
  function StatusAfter(outcome: Outcome, before: string): (status: string) {
    match outcome
    case StillRunning => RunningStatus
    case Succeeded => SuccessStatus
    case CompletedWithErrors(errors) => ErrorReport(errors)
    case NoMatchingLogs => NoMatchStatus
    case Aborted => before
  }

  /** The component's state. */
  class StatusChecker {
    var logStatus: string
    var isDownloadEnabled: bool
    var isChecking: bool

    constructor ()
      ensures logStatus == "" && !isDownloadEnabled && !isChecking
    {
      logStatus := "";
      isDownloadEnabled := false;
      isChecking := false;
    }

    /** The click handler: the check runs with `isChecking` set, and the `finally` clears it. */
    method HandleCheckStatus(job: TrackedJob, currentJob: Fetch<Option<CurrentJob>>, logs: Fetch<Option<seq<LogRecord>>>)
      modifies this
      ensures !isChecking
      ensures logStatus == StatusAfter(Classify(job, currentJob, logs), old(logStatus))
      ensures isDownloadEnabled == (old(isDownloadEnabled) || Classify(job, currentJob, logs) == Succeeded)
    {
      isChecking := true;
      RunCheck(job, currentJob, logs);
      isChecking := false;
    }

    /** The `try` block; each `return` leaves it early. */
    method RunCheck(job: TrackedJob, currentJob: Fetch<Option<CurrentJob>>, logs: Fetch<Option<seq<LogRecord>>>)
      requires isChecking
      modifies this
      ensures isChecking
      ensures logStatus == StatusAfter(Classify(job, currentJob, logs), old(logStatus))
      ensures isDownloadEnabled == (old(isDownloadEnabled) || Classify(job, currentJob, logs) == Succeeded)
    {
      if currentJob.Rejected? {
        return;
      }
      var test := TestCurrentJob(job, currentJob.value);
      if test == PayloadMissing {
        return;
      }
      if test == IsTracked {
        logStatus := RunningStatus;
        return;
      }
      if logs.Rejected? || logs.value.None? {
        return;
      }
      var records := logs.value.value;
      var relevant := FindRelevant(job, records);
      if relevant.Some? {
        var log := records[relevant.value];
        if Includes(log.stdout, SuccessMarker(job)) {
          logStatus := SuccessStatus;
          isDownloadEnabled := true;
        } else {
          var errors := ExtractErrors(log.stderr);
          logStatus := ErrorReport(errors);
        }
      } else {
        logStatus := NoMatchStatus;
      }
    }
  }
}
