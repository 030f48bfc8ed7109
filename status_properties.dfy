/**
 * What a status check promises: which response leads to which status text,
 * what the error report holds, and the outcome for the component's own
 * sample responses.
 */
module StatusProperties {
  import opened Wrappers
  import opened Strings
  import opened ErrorScan
  import opened CheckStatus

  // ---------------------------------------------------------------------
  // The current-job test comes first.
  // ---------------------------------------------------------------------

  /**
   * The check reports "still running" exactly when the current job is an
   * `AddMolecule` job whose payload names the tracked material, CAS number and
   * SMILES, and then whatever the job logs would have said.
   */
  lemma RunningShortCircuit(job: TrackedJob, currentJob: Fetch<Option<CurrentJob>>, logs: Fetch<Option<seq<LogRecord>>>)
    ensures Classify(job, currentJob, logs) == StillRunning <==>
      && currentJob.Fetched? && currentJob.value.Some?
      && currentJob.value.value.functionName == "AddMolecule"
      && currentJob.value.value.data.Some?
      && var data := currentJob.value.value.data.value;
        && "compoundName" in data && data["compoundName"] == job.material
        && "cas" in data && data["cas"] == job.casNumber
        && "smiles" in data && data["smiles"] == job.smiles
  {
  }

  /** The job-log response is consulted only when the current job is another one. */
  lemma LogsConsultedOnlyWhenNotTracked(job: TrackedJob, currentJob: Fetch<Option<CurrentJob>>, logs1: Fetch<Option<seq<LogRecord>>>, logs2: Fetch<Option<seq<LogRecord>>>)
    requires currentJob.Rejected? || TestCurrentJob(job, currentJob.value) != NotTracked
    ensures Classify(job, currentJob, logs1) == Classify(job, currentJob, logs2)
  {
  }

  /**
   * The `catch` is reached exactly when a request is rejected, when the
   * current job runs `AddMolecule` without a payload, or when the log response
   * has no `logs` list.
   */
  lemma AbortedCases(job: TrackedJob, currentJob: Fetch<Option<CurrentJob>>, logs: Fetch<Option<seq<LogRecord>>>)
    ensures Classify(job, currentJob, logs) == Aborted <==>
      || currentJob.Rejected?
      || (currentJob.value.Some? && currentJob.value.value.functionName == "AddMolecule" && currentJob.value.value.data.None?)
      || (TestCurrentJob(job, currentJob.value) == NotTracked && (logs.Rejected? || logs.value.None?))
  {
  }

  // ---------------------------------------------------------------------
  // The relevant log.
  // ---------------------------------------------------------------------

  /** The relevant log is the first record whose `stdout` mentions all three values. */
  lemma RelevantIsFirstQualifying(job: TrackedJob, records: seq<LogRecord>, i: nat)
    requires i < |records| && Qualifies(job, records[i])
    requires forall j :: 0 <= j < i ==> !Qualifies(job, records[j])
    ensures FindRelevant(job, records) == Some(i)
  {
  }

  /** With the current job elsewhere, "No matching logs" comes exactly when no record qualifies. */
  lemma NoMatchingLogsIff(job: TrackedJob, currentJob: Fetch<Option<CurrentJob>>, records: seq<LogRecord>)
    requires currentJob.Fetched? && TestCurrentJob(job, currentJob.value) == NotTracked
    ensures Classify(job, currentJob, Fetched(Some(records))) == NoMatchingLogs <==>
      forall j :: 0 <= j < |records| ==> !Qualifies(job, records[j])
  {
  }

  /** The success test: the relevant log's `stdout` holds `JOB <material> SUCCESSFUL` somewhere. */
  lemma SuccessIffMarker(job: TrackedJob, currentJob: Fetch<Option<CurrentJob>>, records: seq<LogRecord>, i: nat)
    requires currentJob.Fetched? && TestCurrentJob(job, currentJob.value) == NotTracked
    requires FindRelevant(job, records) == Some(i)
    ensures Classify(job, currentJob, Fetched(Some(records))) == Succeeded <==>
      exists k :: OccursAt(records[i].stdout, "JOB " + job.material + " SUCCESSFUL", k)
  {
  }

  // ---------------------------------------------------------------------
  // The failure report.
  // ---------------------------------------------------------------------

  /**
   * When the relevant log lacks the success line, the check fails with the
   * entries the scan of its `stderr` finds: each once, in the order first met,
   * each of the form `[HH:MM:SS] message`.
   */
  lemma FailureReportsScannedErrors(job: TrackedJob, currentJob: Fetch<Option<CurrentJob>>, records: seq<LogRecord>, i: nat)
    requires currentJob.Fetched? && TestCurrentJob(job, currentJob.value) == NotTracked
    requires FindRelevant(job, records) == Some(i)
    requires !Includes(records[i].stdout, SuccessMarker(job))
    ensures Classify(job, currentJob, Fetched(Some(records))).CompletedWithErrors?
    ensures var errors, raw := Classify(job, currentJob, Fetched(Some(records))).errors, RawEntries(records[i].stderr);
      && NoDuplicates(errors)
      && (forall e :: e in errors <==> e in raw)
      && InFirstSeenOrder(raw, errors)
      && (forall k :: 0 <= k < |errors| ==> WellFormedEntry(errors[k]))
  {
    var raw := RawEntries(records[i].stderr);
    var errors := Dedup(raw);
    DedupIsSet(raw);
    DedupFirstSeenOrder(raw);
    RawEntriesWellFormed(records[i].stderr);
    forall k | 0 <= k < |errors| ensures WellFormedEntry(errors[k]) {
      assert errors[k] in raw;
    }
  }

  /**
   * A failed job whose `stderr` holds no `[HH:MM:SS]` followed by white
   * space is still reported as a failure, with the fallback text.
   */
  lemma EmptyErrorsStillFailure(job: TrackedJob, currentJob: Fetch<Option<CurrentJob>>, records: seq<LogRecord>, i: nat, before: string)
    requires currentJob.Fetched? && TestCurrentJob(job, currentJob.value) == NotTracked
    requires FindRelevant(job, records) == Some(i)
    requires !Includes(records[i].stdout, SuccessMarker(job))
    requires forall p :: !HeadAt(records[i].stderr, p)
    ensures Classify(job, currentJob, Fetched(Some(records))) == CompletedWithErrors([])
    ensures StatusAfter(Classify(job, currentJob, Fetched(Some(records))), before)
         == "Process completed with errors:\nNo errors found."
  {
    NoEntriesIffNoMatch(records[i].stderr);
    assert Dedup(RawEntries(records[i].stderr)) == [];
    ErrorReportLines([]);
  }

  /** An entry is on one line. */
  lemma WellFormedEntryHasNoNewline(e: string)
    requires WellFormedEntry(e)
    ensures '\n' !in e
  {
    var t := e[1..9];
    forall k | 0 <= k < |e| ensures e[k] != '\n' {
      if 1 <= k < 9 {
        assert e[k] == t[k - 1];
      }
    }
  }

  /**
   * The failure text read line by line: the header line, then the entries one
   * per line; with no entries, the header and "No errors found.".
   */
  lemma ErrorReportLines(errors: seq<string>)
    requires forall k :: 0 <= k < |errors| ==> WellFormedEntry(errors[k])
    ensures errors == [] ==> ErrorReport(errors) == "Process completed with errors:\nNo errors found."
    ensures errors != [] ==> SplitLines(ErrorReport(errors)) == ["Process completed with errors:"] + errors
  {
    forall k | 0 <= k < |errors| ensures '\n' !in errors[k] && errors[k] != "" {
      WellFormedEntryHasNoNewline(errors[k]);
    }
    JoinLinesEmpty(errors);
    if errors != [] {
      JoinLinesRoundTrip(errors);
      var header := "Process completed with errors:";
      assert ErrorsHeader == header + "\n";
      SplitLinesAfterLine(header, JoinLines(errors));
      assert ErrorReport(errors) == header + "\n" + JoinLines(errors);
    }
  }

  /** The status text of a failure: the header, then the entries of the scan, one per line. */
  lemma FailureStatusLines(job: TrackedJob, currentJob: Fetch<Option<CurrentJob>>, records: seq<LogRecord>, i: nat, before: string)
    requires currentJob.Fetched? && TestCurrentJob(job, currentJob.value) == NotTracked
    requires FindRelevant(job, records) == Some(i)
    requires !Includes(records[i].stdout, SuccessMarker(job))
    requires RawEntries(records[i].stderr) != []
    ensures SplitLines(StatusAfter(Classify(job, currentJob, Fetched(Some(records))), before))
         == ["Process completed with errors:"] + Dedup(RawEntries(records[i].stderr))
  {
    FailureReportsScannedErrors(job, currentJob, records, i);
    var errors := Dedup(RawEntries(records[i].stderr));
    assert RawEntries(records[i].stderr)[0] in errors;
    ErrorReportLines(errors);
  }

  // ---------------------------------------------------------------------
  // The component's sample data.
  // ---------------------------------------------------------------------

  /** The tracked job of the component: Ethanol, CAS 64-17-5, SMILES CCO. */
  function SampleJob(): (job: TrackedJob) {
    TrackedJob("Ethanol", "64-17-5", "CCO")
  }

  /** The component's sample current-job response. */
  function SampleCurrentJob(): (current: CurrentJob) {
    CurrentJob("AddMolecule", Some(map["compoundName" := "Ethanol", "cas" := "64-17-5", "smiles" := "CCO"]))
  }

  /** With the sample current-job response the check always says the process is still running. */
  lemma SampleStillRunning(logs: Fetch<Option<seq<LogRecord>>>, before: string)
    ensures Classify(SampleJob(), Fetched(Some(SampleCurrentJob())), logs) == StillRunning
    ensures StatusAfter(Classify(SampleJob(), Fetched(Some(SampleCurrentJob())), logs), before) == "Process is still running..."
  {
  }

  /**
   * A two-line stand-in for the sample log's `stdout`: the
   * `amspython CreateMolecule.py '<material>' '<smiles>' --CAS='<cas>'` part of
   * its command line, then `JOB <material> SUCCESSFUL` without the
   * `[day.month|time] ` prefix the sample's success line carries.
   */
  function CompletedStdout(job: TrackedJob): (out: string) {
    "amspython CreateMolecule.py '" + job.material + "' '" + job.smiles + "' --CAS='" + job.casNumber + "'\n"
      + SuccessMarker(job) + "\n"
  }

  /** That `stdout` mentions the material, the SMILES, the CAS number and the success line. */
  lemma CompletedStdoutMentions(job: TrackedJob)
    ensures var out := CompletedStdout(job);
      && OccursAt(out, job.material, 29)
      && OccursAt(out, job.smiles, 32 + |job.material|)
      && OccursAt(out, job.casNumber, 41 + |job.material| + |job.smiles|)
      && OccursAt(out, SuccessMarker(job), 43 + |job.material| + |job.smiles| + |job.casNumber|)
  {
    var p1, p2, p3, p4 := "amspython CreateMolecule.py '", "' '", "' --CAS='", "'\n";
    assert |p1| == 29 && |p2| == 3 && |p3| == 9 && |p4| == 2;
    assert CompletedStdout(job) == p1 + job.material + p2 + job.smiles + p3 + job.casNumber + p4 + SuccessMarker(job) + "\n";
  }

  /** Once the tracked job has left the queue, a log of its completed run makes the check succeed. */
  lemma CompletedLogSucceeds(job: TrackedJob, before: string)
    ensures Classify(job, Fetched(None), Fetched(Some([LogRecord("AddMolecule", CompletedStdout(job), "")]))) == Succeeded
    ensures StatusAfter(Classify(job, Fetched(None), Fetched(Some([LogRecord("AddMolecule", CompletedStdout(job), "")]))), before)
         == "Process completed successfully."
  {
    CompletedStdoutMentions(job);
  }

  /** With no job running, the two-line stand-in for a completed run of the sample's Ethanol job makes the check succeed. */
  lemma SampleLogSucceeds(before: string)
    ensures Classify(SampleJob(), Fetched(None), Fetched(Some([LogRecord("AddMolecule", CompletedStdout(SampleJob()), "")])))
         == Succeeded
    ensures StatusAfter(Classify(SampleJob(), Fetched(None), Fetched(Some([LogRecord("AddMolecule", CompletedStdout(SampleJob()), "")]))), before)
         == "Process completed successfully."
  {
    CompletedLogSucceeds(SampleJob(), before);
  }

  /**
   * An error line with one space after its timestamp, the same line again and
   * another error line: three raw entries, each the whole of its line.
   */
  lemma RepeatedLineScan(ts1: string, msg1: string, ts2: string, msg2: string)
    requires IsTimestamp(ts1) && |msg1| > 0 && !IsSpace(msg1[0]) && (forall k :: 0 <= k < |msg1| ==> !IsLineTerminator(msg1[k]))
    requires IsTimestamp(ts2) && |msg2| > 0 && !IsSpace(msg2[0]) && (forall k :: 0 <= k < |msg2| ==> !IsLineTerminator(msg2[k]))
    ensures var a, b := "[" + ts1 + "] " + msg1, "[" + ts2 + "] " + msg2;
      RawEntries(a + "\n" + a + "\n" + b) == [a, a, b]
  {
    var a, b := "[" + ts1 + "] " + msg1, "[" + ts2 + "] " + msg2;
    assert ErrorLine(ts1, " ", msg1) == a;
    assert ErrorLine(ts2, " ", msg2) == b;
    LastErrorLineScan(ts2, " ", msg2);
    ErrorLineScan(ts1, " ", msg1, b);
    ErrorLineScan(ts1, " ", msg1, a + "\n" + b);
    assert a + "\n" + a + "\n" + b == a + "\n" + (a + "\n" + b);
  }

  /**
   * The two sample error lines are the entries the scan builds from their
   * captures; proved apart, where no other fact is in scope.
   */
  lemma DiskFullLines()
    ensures "[" + "10:00:00" + "] " + "Disk full" == "[10:00:00] Disk full"
    ensures "[" + "10:00:05" + "] " + "Timeout" == "[10:00:05] Timeout"
  {
  }

  /** `[10:00:00] Disk full` twice, then `[10:00:05] Timeout`: two errors, in that order. */
  lemma DiskFullExample(job: TrackedJob, currentJob: Fetch<Option<CurrentJob>>, stdout: string)
    requires currentJob.Fetched? && TestCurrentJob(job, currentJob.value) == NotTracked
    requires Qualifies(job, LogRecord("AddMolecule", stdout, "")) && !Includes(stdout, SuccessMarker(job))
    ensures var a, b := "[10:00:00] Disk full", "[10:00:05] Timeout";
      Classify(job, currentJob, Fetched(Some([LogRecord("AddMolecule", stdout, a + "\n" + a + "\n" + b)])))
        == CompletedWithErrors([a, b])
  {
    var a, b := "[10:00:00] Disk full", "[10:00:05] Timeout";
    DiskFullLines();
    RepeatedLineScan("10:00:00", "Disk full", "10:00:05", "Timeout");
    assert a[8] != b[8];
    DedupRepeatThenOther(a, b);
  }

  /**
   * `\s+` crosses a newline: a timestamp alone on its line swallows the next
   * line, which becomes the message of one entry.
   */
  lemma TimestampAloneOnLine(ts: string, next: string)
    requires IsTimestamp(ts)
    requires |next| > 0 && !IsSpace(next[0]) && (forall k :: 0 <= k < |next| ==> !IsLineTerminator(next[k]))
    ensures RawEntries("[" + ts + "]\n" + next) == ["[" + ts + "] " + next]
  {
    LastErrorLineScan(ts, "\n", next);
    assert ErrorLine(ts, "\n", next) == "[" + ts + "]\n" + next;
  }
}
