# Job-status check of the molecule test component

This project models `handleCheckStatus`, the "Check Status" handler of the
React test component in `css/src/Test.tsx`. The handler tracks one
`AddMolecule` job, given by its material name, CAS registry number and SMILES
string. It asks for the backend's current job and then for the job logs, and
decides among four outcomes:

- the job is still running;
- it completed successfully, which enables the download;
- it completed with errors, listing the timestamped errors found in its `stderr`;
- no log mentions the compound.

It writes that decision into the component's three pieces of state:
`logStatus`, `isDownloadEnabled` and `isChecking`.

The model has four modules:

- `Strings`: JavaScript's `String.prototype.includes`, and `join("\n")` on a
  list of lines with its inverse, splitting at newlines.
- `ErrorScan`: an exact model of the global regular expression
  `/\[(\d{2}:\d{2}:\d{2})\]\s+(.*)/g` as `RegExp.prototype.exec` runs it
  from `lastIndex`:
  - `\d` is an ASCII digit.
  - `\s+` is JavaScript's white-space set, line terminators included, taken
    greedily.
  - `.*` runs greedily up to a line terminator.
  - Each call resumes at the end of the previous match.

  The module also models the `Set` that collects the entries in first-seen
  order, and `ExtractErrors`, the `while` loop itself, proved against the
  specification functions.
- `CheckStatus`: the decision as a function `Classify` of the two responses.
  The class `StatusChecker` holds the three state variables; its method
  `HandleCheckStatus` sets `isChecking`, runs the `try` block (`RunCheck`,
  with its early returns), and clears `isChecking` as the `finally` does.
- `StatusProperties`: what a check promises, in these cases:
  - the running short-circuit;
  - the path to the `catch` and what it leaves unchanged;
  - the choice of the relevant log;
  - the success test;
  - the error report;
  - the component's own sample data.

The two awaited responses are inputs of type `Fetch<...>`. `Rejected` stands
for a rejected promise. A response whose shape makes the code throw a
TypeError ends in `Aborted`. Either way control goes to the `catch`, which
leaves `logStatus` and `isDownloadEnabled` as they were. The TypeError cases
are:

- a `current_job` that names `AddMolecule` but has no `data`;
- a log response without `logs`.

Modelling choices, stated about the code:

- The success line is built from the material name, `JOB <material>
  SUCCESSFUL` (css/src/Test.tsx:95).
- The current job is compared on exactly `function_name`, `compoundName`,
  `cas` and `smiles` (lines 71-75).
- A rejected request ends in the `catch` (lines 121-123), which leaves
  `logStatus` and `isDownloadEnabled` unchanged.
- The `Set` at line 103 deduplicates the formatted strings
  `[HH:MM:SS] message` that line 109 adds.

## Model

| member | source | states |
|---|---|---|
| `Strings.Includes` | css/src/Test.tsx:88-92 | `includes` is true exactly when the needle occurs at some position of the text; the empty needle always occurs |
| `Strings.JoinLinesRoundTrip` | css/src/Test.tsx:113 | splitting the `join("\n")` of a non-empty list of newline-free entries at newlines gives back exactly that list |
| `Strings.JoinLinesEmpty` | css/src/Test.tsx:113 | the joined text of non-empty entries is empty exactly when there are no entries, so the fallback to "No errors found." fires exactly for an empty set |
| `ErrorScan.MatchAt` | css/src/Test.tsx:102 | the pattern matches at a position exactly when `[`, two digits, `:`, two digits, `:`, two digits, `]` and a white-space character start there; a match spans at least eleven characters and ends inside the text |
| `ErrorScan.MatchAtMeaning` | css/src/Test.tsx:102 | capture 1 is an `HH:MM:SS` timestamp; `\s+` takes every white-space character after the bracket; capture 2 starts at a non-space character or at the end of the text, holds no line terminator and stops at a line terminator or at the end of the text |
| `ErrorScan.Exec` | css/src/Test.tsx:106 | `exec` from `lastIndex` returns a match that starts at or after `lastIndex` |
| `ErrorScan.ExecMeaning` | css/src/Test.tsx:106 | the match `exec` returns is the leftmost one at or after `lastIndex`, and it returns null only when the pattern matches nowhere at or after it |
| `ErrorScan.Matches` | css/src/Test.tsx:106-110 | every match the loop visits is a real match at its own start position |
| `ErrorScan.MatchesOrdered` | css/src/Test.tsx:106 | the matches the loop visits run left to right and do not overlap |
| `ErrorScan.MatchesCover` | css/src/Test.tsx:106-110 | no match is skipped: every position where the pattern matches lies inside one of the visited matches |
| `ErrorScan.EntryWellFormed` | css/src/Test.tsx:107-109 | each entry built from a match has the form `[HH:MM:SS] message`, with a single space and a message on one line |
| `ErrorScan.EntriesFromMatches` | css/src/Test.tsx:106-109 | the loop adds one entry per visited match, in match order, each built from that match's two captures |
| `ErrorScan.RawEntriesWellFormed` | css/src/Test.tsx:106-109 | every entry the loop adds has the form `[HH:MM:SS] message` |
| `ErrorScan.NoEntriesIffNoMatch` | css/src/Test.tsx:102-110 | the loop finds no entry exactly when no position of `stderr` starts a bracketed timestamp followed by white space |
| `ErrorScan.EntriesFromShift` | css/src/Test.tsx:106 | when `exec` resumes at a `lastIndex` inside the second part of a text, the entries found from there on do not depend on the first part |
| `ErrorScan.LineMatch` | css/src/Test.tsx:102-109 | a line `[ts]<white space>msg` followed by nothing or a line terminator is one match, and its entry is `[ts] msg`, where the white space is non-empty and the message is non-empty and starts with a character other than white space |
| `ErrorScan.LastErrorLineScan` | css/src/Test.tsx:102-110 | a `stderr` that is a single error line `[ts]<white space>msg` yields exactly its entry `[ts] msg`, where the white space is non-empty and the message is non-empty and starts with a character other than white space |
| `ErrorScan.ErrorLineScan` | css/src/Test.tsx:102-110 | an error line `[ts]<white space>msg` and a newline yield its entry `[ts] msg` and then the entries of the rest of `stderr`, alone, where the white space is non-empty and the message is non-empty and starts with a character other than white space |
| `ErrorScan.DedupIsSet` | css/src/Test.tsx:103-109 | the `Set` holds each added entry exactly once and nothing that was not added |
| `ErrorScan.DedupFirstSeenOrder` | css/src/Test.tsx:109-113 | `Array.from` lists the `Set`'s entries in the order of their first insertion |
| `ErrorScan.DedupRepeatThenOther` | css/src/Test.tsx:109 | adding `a`, `a`, then a different `b` leaves `[a, b]` |
| `ErrorScan.ExtractErrors` | css/src/Test.tsx:102-110 | the `exec` loop with its `Set` yields the scan's entries without repeats, in first-seen order, and exactly the entries the scan finds |
| `CheckStatus.FindRelevant` | css/src/Test.tsx:88-92 | `find` returns the first record whose `stdout` includes the material, the SMILES and the CAS number; it returns nothing exactly when no record does |
| `CheckStatus.StatusChecker.constructor` | css/src/Test.tsx:6-8 | the component starts with an empty status, the download disabled and no check running |
| `CheckStatus.StatusChecker.HandleCheckStatus` | css/src/Test.tsx:61-127 | after a check, `isChecking` is false on every path; the status is the text of the outcome, and is unchanged when the `catch` runs; the download flag is set exactly on success and never cleared |
| `CheckStatus.StatusChecker.RunCheck` | css/src/Test.tsx:63-120 | the `try` block runs with `isChecking` true and leaves it true; each early return and each branch writes the status the outcome calls for, and only the success branch enables the download |
| `StatusProperties.RunningShortCircuit` | css/src/Test.tsx:70-80 | the check says "still running" exactly when the current job is `AddMolecule` with the tracked `compoundName`, `cas` and `smiles`, whatever the log response |
| `StatusProperties.LogsConsultedOnlyWhenNotTracked` | css/src/Test.tsx:70-85 | when the first request fails, the tracked job is running, or its payload is missing, the log response does not affect the outcome |
| `StatusProperties.AbortedCases` | css/src/Test.tsx:63-123 | the `catch` runs exactly when a request is rejected, an `AddMolecule` current job has no payload, or the log response has no `logs` list |
| `StatusProperties.RelevantIsFirstQualifying` | css/src/Test.tsx:88-92 | a record that qualifies, with no qualifying record before it, is the relevant log |
| `StatusProperties.NoMatchingLogsIff` | css/src/Test.tsx:88-119 | once the current job is another one, "No matching logs found for this compound." is reported exactly when no record mentions all three values |
| `StatusProperties.SuccessIffMarker` | css/src/Test.tsx:94-99 | the check succeeds exactly when the relevant log's `stdout` contains `JOB <material> SUCCESSFUL` at some position |
| `StatusProperties.FailureReportsScannedErrors` | css/src/Test.tsx:100-113 | without the success line, the check fails with the entries of the relevant log's `stderr`: no repeats, the same entries as the scan, in first-seen order, each `[HH:MM:SS] message` |
| `StatusProperties.EmptyErrorsStillFailure` | css/src/Test.tsx:112-114 | a failed job whose `stderr` has no timestamped line still ends as a failure with no errors, and the status is "Process completed with errors:\nNo errors found." |
| `StatusProperties.ErrorReportLines` | css/src/Test.tsx:112-114 | read line by line, the failure status is the header line and then the entries one per line; with no entries it is the header and "No errors found." |
| `StatusProperties.FailureStatusLines` | css/src/Test.tsx:112-114 | when the scan finds entries, the failure status read line by line is the header and then each distinct entry once, in first-seen order |
| `StatusProperties.SampleStillRunning` | css/src/Test.tsx:16-25 | with the component's own sample current-job response, every check reports "Process is still running..." |
| `StatusProperties.CompletedLogSucceeds` | css/src/Test.tsx:94-98 | with no job running, a log whose `stdout` is `CompletedStdout`, the job's `amspython CreateMolecule.py` arguments and then its `JOB <material> SUCCESSFUL` line, makes the check succeed with the status "Process completed successfully." |
| `StatusProperties.SampleLogSucceeds` | css/src/Test.tsx:27-59 | for the sample Ethanol job, the two-line stand-in log succeeds once the job has left the queue, with the status "Process completed successfully." |
| `StatusProperties.RepeatedLineScan` | css/src/Test.tsx:102-110 | a line repeated and then another line give three entries, each the whole of its line |
| `StatusProperties.DiskFullExample` | css/src/Test.tsx:100-110 | `stderr` `[10:00:00] Disk full` twice and then `[10:00:05] Timeout` fails with exactly those two errors, in that order |
| `StatusProperties.TimestampAloneOnLine` | css/src/Test.tsx:102 | because `\s+` crosses newlines, a timestamp alone on its line takes the next line as its message: one entry `[ts] <next line>` |

## Left out

- Rendering, the button and its `disabled={isChecking}` guard, toasts and `console.error` (css/src/Test.tsx:78, 99, 115, 119, 122-123, 129-158) are left out. They show messages and change none of the modelled state; any guarding of overlapping clicks is a UI matter.
- The two simulated requests (`setTimeout` promises, lines 65-67 and 83-85) are not modelled. Their results are inputs; in the source they always resolve with the sample data, and `Rejected` stands for a promise that rejects.
- React's state updates are asynchronous and batched. The model writes the fields at the point where the code calls the setters.
- Log records whose `stdout` or `stderr` is not a string are not modelled. In the source, a record that `find` reaches throws a TypeError at line 89 when its `stdout` is missing, null, or a value without an `includes` method (a number, a boolean, a plain object); an array `stdout` does not throw, but its `includes` tests element membership rather than substrings. A non-string `stderr` is converted to text by `exec` before the scan at line 106, so a missing one is scanned as `"undefined"` and yields "No errors found." rather than an exception.
- Payload values that are not strings are not modelled (`data` is a map from strings to strings). A missing key or a missing `function_name` reads as `undefined`, which never equals a string, so the model treats it like any other mismatch. A `current_job` that is falsy but present is treated as absent.
- JavaScript strings are sequences of UTF-16 code units; the model uses Dafny characters, which are Unicode scalar values. Every character the pattern tests lies in the Basic Multilingual Plane, so matches and entries agree; only positions inside strings with astral characters would count differently.
- The sample log's full `stdout` (lines 31-55) is not modelled. `CompletedStdout` is a two-line stand-in for it: the `amspython CreateMolecule.py '<material>' '<smiles>' --CAS='<cas>'` part of line 32, then `JOB <material> SUCCESSFUL` from line 53 without its `[29.01|00:55:08] ` prefix.
