# glacierman, modelled in Dafny

glacierman backs up files to Amazon S3 Glacier vaults and brings them back.
This project models its core:

- **Archive retrieval.** The downloader asks Glacier to stage an archive.
  It does this by starting a retrieval job, or by resuming one recorded in a
  local job file that is less than 18 hours old. It polls the job until it
  completes, downloads the output, and then deletes the job file.
- **Older variants.** The older downloader always starts a fresh job. Two
  inventory tools fetch a vault's inventory and save it without line
  terminators.
- **Progress logger.** It turns byte counts into 5% milestones, with start
  and completion markers.
- **Small value builders.** The archive description, the job-file and
  inventory file names, the `ArchiveInfo` factories and the command-line
  argument check.
- **Two Python maintenance scripts.** One compares a local listing of
  archives with a vault inventory. The other watches a directory and routes
  finished `.zip` files to the "Movies" or "TVShows" vault.

The Amazon SDK is not modelled. Each answer it gives is an input:

- the job id that `initiateJob` returns;
- the sequence of `describeJob` answers;
- the job output's text;
- whether a transfer returned or threw;
- the progress events a transfer reports.

The calls a run makes are returned as a sequence of `Call` values, so their
order and arguments can be stated. Console output of the progress logger is
a sequence of `Mark`s. Clocks are integers of milliseconds. The job files on
disk are a map from path to the recorded `{archiveId, jobId}` and the
modification time.

Objects whose fields the source updates are classes:

- `Utilities.ProgressLogger`
- `GlacierDownload.JobFileStore` and `GlacierDownload.GlacierDownloader`
- `Entrypoint.Cli`
- `LegacyInventory.Inventory`
- `GlUpload.Uploader`
- `WatchNUpload.Watcher`

Their loops are methods with invariants, each proved against a
specification function:

- `Polling.Poll` against `PollFrom`
- `LineCopy.CopyLines` against `Lines`/`StripTerminators`
- `DiffChecker.LoadLocal`, `LoadRemote` and `CompareArchives`
- `WatchNUpload.Watcher.Tick` against `HandleAll`

Python's insertion-ordered `dict` is `OrderedDict.Dict`.

Files:

| file | models |
|---|---|
| wrappers.dfy | `Option`, `Result` |
| strings.dfy | string helpers: `replace`, digits, `int()`, whitespace, `rstrip`, `File.getName` |
| archive_info.dfy | common/ArchiveInfo.java, `Long.parseLong` |
| utilities.dfy | common/Utilities.java |
| glacier_api.dfy | the job requests and `describeJob` answers the Java classes exchange with Glacier |
| polling.dfy | the `describeJob` loop of the four job classes |
| glacier_download.dfy | glacier/GlacierDownload.java |
| gl_download.dfy | glacier/GlDownload.java |
| line_copy.dfy | the `readLine`/`write` copy loop of both inventory classes |
| glacier_inventory.dfy | glacier/GlacierInventory.java |
| legacy_inventory.dfy | GlacierInventory.java (top-level package) |
| gl_upload.dfy | GlUpload.java |
| entrypoint.dfy | cli/Entrypoint.java |
| ordered_dict.dfy | Python `dict` with string keys |
| diff_checker.dfy | python/diff_checker.py |
| watch_n_upload.dfy | python/watch_n_upload.py |

The model keeps these behaviours of the code, which depart from the tool's stated intent:

- A job file that records no archive id is not treated as absent.
  `readIdFromJobFile` dereferences the missing id and throws, so
  `prepareArchive` fails (`ReadFailed(NullArchiveId)`).
- The completion marker is not independent of the percentage logic. A
  completion event whose bytes land on the percentage already logged
  returns early, and "Done!" is not printed
  (`Utilities.CompletionMarkerSwallowed`).
- "Started..." is printed for every start event, not only the first.
- The same percentage is never logged twice only while deltas are positive
  (`Utilities.MilestonesIncrease`). The de-duplication compares with the
  last logged percentage only.
- `ofRemote` accepts a negative size; nothing checks it.

## Model

| member | source | states |
|---|---|---|
| Archive.ParseLong | src/main/java/com/rdas/common/ArchiveInfo.java:38 | a text is accepted iff it is an optional '-' or '+' followed by at least one decimal digit (so "+7", "007" and "-0" are accepted) and its value fits in a `long`; the value is that of the digits, negated after a '-' |
| Archive.ParseLongRoundTrip | src/main/java/com/rdas/common/ArchiveInfo.java:38 | every `long` written in decimal parses back to itself |
| Archive.OfLocal | src/main/java/com/rdas/common/ArchiveInfo.java:26-28 | an upload source has no remote id; its size is the file's length; vault and path are kept |
| Archive.OfRemote | src/main/java/com/rdas/common/ArchiveInfo.java:37-39 | vault, archive id and path are kept; the size is exactly the value `Long.parseLong` gives the text; unparsable text is a `NumberFormatException` carrying that text |
| Archive.OfRemoteSizeRoundTrip | src/main/java/com/rdas/common/ArchiveInfo.java:37-39 | any `long`, negative ones included, written as the size is read back exactly |
| Utilities.GenerateArchiveDescription | src/main/java/com/rdas/common/Utilities.java:10-21 | the description starts with "Glacier backup of " and the rest is the path, unchanged |
| Utilities.CompletionPercentRounds | src/main/java/com/rdas/common/Utilities.java:39-40 | `CompletionPercent`: for a transfer within a positive total, the percentage lies in 0..100, is 100 * transferred / total rounded half up, and is 100 at the total |
| Utilities.CompletionPercentMonotone | src/main/java/com/rdas/common/Utilities.java:39-40 | `CompletionPercent`: more bytes never give a smaller percentage |
| Utilities.Step | src/main/java/com/rdas/common/Utilities.java:33-52 | one `logProgress` call adds the event's bytes to the transferred count; the last logged percentage either stays or becomes the percentage of the new count |
| Utilities.Run | src/main/java/com/rdas/common/Utilities.java:33-52 | a logger fed a transfer's events has transferred the sum of their bytes |
| Utilities.StepSpec | src/main/java/com/rdas/common/Utilities.java:33-52 | a zero-byte event changes no field and logs no percentage; a nonzero one adds its bytes; a percentage is logged iff it is a multiple of 5 other than the last logged one, and it becomes the last logged one |
| Utilities.StepMarkers | src/main/java/com/rdas/common/Utilities.java:33-52 | "Started..." is printed once iff the event is a start event; "Done!" is printed once iff it is a completion event not cut off by the early return |
| Utilities.StepReachingHundred | src/main/java/com/rdas/common/Utilities.java:37-47 | a nonzero delta that brings the percentage to 100 leaves 100 as the last logged percentage, whether it logs it now or had logged it already |
| Utilities.MilestonesIncrease | src/main/java/com/rdas/common/Utilities.java:37-47 | with positive deltas, the logged percentages strictly increase, are multiples of 5, and never exceed the current percentage |
| Utilities.CompleteTransferEndsAtHundred | src/main/java/com/rdas/common/Utilities.java:37-47 | a transfer of positive deltas that reaches the total logs 100 as its last percentage |
| Utilities.MarkersFollowEvents | src/main/java/com/rdas/common/Utilities.java:34-51 | "Started..." is printed once per start event; when completion events carry no bytes, "Done!" is printed once per completion event |
| Utilities.CompletionMarkerSwallowed | src/main/java/com/rdas/common/Utilities.java:42-51 | 996 then 4 bytes of a 1000-byte transfer: the completion event lands on the logged 100%, and "Done!" is never printed |
| Utilities.ProgressLogger.constructor | src/main/java/com/rdas/common/Utilities.java:24-31 | a new logger keeps its total, has transferred 0 bytes and has logged no percentage (-1) |
| Utilities.ProgressLogger.LogProgress | src/main/java/com/rdas/common/Utilities.java:33-52 | the two fields and the printed marks are those of one `Step` of the state machine whose properties `StepSpec` states |
| Utilities.DeliverEvents | src/main/java/com/rdas/common/Utilities.java:33-52 | a logger fed a transfer's events in order ends in the state, and prints the marks, of `Run` over them |
| GlacierApi.ArchiveRetrievalRequest | src/main/java/com/rdas/glacier/GlacierDownload.java:28-41 | the request is on the archive's vault, of type "archive-retrieval", for the requested archive id, tier "Standard", described as "Downloading " + the local file's last path segment |
| GlacierApi.InventoryRequest | src/main/java/com/rdas/glacier/GlacierInventory.java:27-37 | an inventory request is on the given vault, of type "inventory-retrieval", with no archive id, tier or description |
| GlacierApi.DescribeCalls | src/main/java/com/rdas/glacier/GlacierDownload.java:52 | n polls are n `describeJob` calls on the same vault and job |
| Polling.PollFrom | src/main/java/com/rdas/glacier/GlacierDownload.java:47-63 | polling either runs out of answers after consuming all of them, or stops within them |
| Polling.FirstStopDecides | src/main/java/com/rdas/glacier/GlacierDownload.java:47-63 | the outcome is decided by the first answer on which polling stops, and every earlier answer let it continue; it runs out iff no answer stops it |
| Polling.ReadyIffFirstCompletion | src/main/java/com/rdas/glacier/GlacierDownload.java:59-63 | polling is ready after n calls iff the n-th answer is a completed, non-failed status and all earlier answers let it continue |
| Polling.TransientsThenCompleted | src/main/java/com/rdas/glacier/GlacierDownload.java:53-63 | with retries, N throttling or unavailability errors then a completed status is ready after N+1 calls |
| Polling.RetryMattersOnlyForTransientErrors | src/main/java/com/rdas/glacier/GlDownload.java:39-47 | without throttling or unavailability errors, the retrying loop and the plain loop end the same way |
| Polling.NoStatusCheckNeverFails | src/main/java/com/rdas/GlacierInventory.java:55-63 | a loop that never looks at the status code never reports a failed job |
| Polling.FailedCheckCaseSensitivity | src/main/java/com/rdas/glacier/GlacierInventory.java:46-48 | "failed" stops the case-blind check but not the exact one; "FAILED" stops the case-blind one; whatever the exact check rejects, the case-blind check rejects too |
| Polling.Poll | src/main/java/com/rdas/glacier/GlacierDownload.java:43-63 | the do-while loop over the answers ends with the outcome and call count that `PollFrom` specifies |
| GlacierDownload.JobFileName | src/main/java/com/rdas/glacier/GlacierDownload.java:69-71 | the name is "job_", the local archive path, ".json", and the path can be read back from between them |
| GlacierDownload.JobFileNameShared | src/main/java/com/rdas/glacier/GlacierDownload.java:69-71 | two archives share a job file iff they have the same local path |
| GlacierDownload.ReadIdFromJobFile | src/main/java/com/rdas/glacier/GlacierDownload.java:82-91 | a missing file throws `FileNotFound` and a file with no archive id throws; the recorded job id comes back iff the recorded archive id is the requested one; any other id gives `None` |
| GlacierDownload.WriteReadRoundTrip | src/main/java/com/rdas/glacier/GlacierDownload.java:73-91 | after writing a job id for an archive with a remote id, reading gives that job id back; without a remote id, reading throws |
| GlacierDownload.JobFileFreshFor18Hours | src/main/java/com/rdas/glacier/GlacierDownload.java:93-102 | `JobFileExists`: a job file written at t counts as present iff now < t + 18 h, so not at exactly 18 hours |
| GlacierDownload.JobFileExistsEarlier | src/main/java/com/rdas/glacier/GlacierDownload.java:93-102 | `JobFileExists`: a file present at some time is present at every earlier time |
| GlacierDownload.ChooseJob | src/main/java/com/rdas/glacier/GlacierDownload.java:121-130 | a missing or stale job file starts a new job; a resumed job is the one the file records for the requested archive; a read failure is the error reading the file raises |
| GlacierDownload.ChooseJobCases | src/main/java/com/rdas/glacier/GlacierDownload.java:121-130 | the recorded job is resumed iff the file is fresh, records the requested archive id and records a job id; reading fails iff a fresh file records no archive id; a missing file is never read |
| GlacierDownload.RecordedJobResumed | src/main/java/com/rdas/glacier/GlacierDownload.java:110-130 | a job recorded for an archive with a remote id is resumed by any `prepareArchive` within 18 hours |
| GlacierDownload.OtherArchiveNotResumed | src/main/java/com/rdas/glacier/GlacierDownload.java:82-91 | an archive with the same local path but another remote id never resumes the recorded job |
| GlacierDownload.JobFileStore.constructor | src/main/java/com/rdas/glacier/GlacierDownload.java:93-108 | the store starts with the given job files |
| GlacierDownload.GlacierDownloader.constructor | src/main/java/com/rdas/glacier/GlacierDownload.java:24-26 | the downloader keeps its archive and its job-file store |
| GlacierDownload.GlacierDownloader.WriteJobFile | src/main/java/com/rdas/glacier/GlacierDownload.java:73-80 | the archive's job file now records the requested archive id and the job id, written now; other files are unchanged |
| GlacierDownload.GlacierDownloader.DeleteJobFile | src/main/java/com/rdas/glacier/GlacierDownload.java:104-108 | the archive's job file is gone, the rest is unchanged, and the result says whether it existed |
| GlacierDownload.GlacierDownloader.StartNewJob | src/main/java/com/rdas/glacier/GlacierDownload.java:110-114 | exactly one retrieval job is initiated, with the archive's request, and recorded in the job file |
| GlacierDownload.GlacierDownloader.ObtainJobId | src/main/java/com/rdas/glacier/GlacierDownload.java:122-130 | an unreadable job file throws with no call; a resumable job's id is returned with no call and the files unchanged; otherwise one retrieval job is initiated with the archive's request and recorded in its job file |
| GlacierDownload.GlacierDownloader.PrepareArchive | src/main/java/com/rdas/glacier/GlacierDownload.java:121-135 | a resumed job initiates nothing and leaves the files unchanged; otherwise exactly one job is initiated and recorded before polling, so a failed job keeps its file; an unreadable file throws before any call; the job id is returned iff polling is ready; nothing is downloaded |
| GlacierDownload.GlacierDownloader.Download | src/main/java/com/rdas/glacier/GlacierDownload.java:141-155 | one transfer of the job's output to the local file, reported to a logger sized by the archive; the job file is deleted iff the transfer returned |
| GlDownload.PrepareArchive | src/main/java/com/rdas/glacier/GlDownload.java:59-65 | exactly one job is initiated and then only polled; its id is returned iff polling without retries is ready |
| GlDownload.FirstErrorEndsPolling | src/main/java/com/rdas/glacier/GlDownload.java:42 | the first `describeJob` error ends polling with that error, throttling included |
| GlDownload.Download | src/main/java/com/rdas/glacier/GlDownload.java:70-83 | one transfer with a logger sized by the archive, and no job-file cleanup; it succeeds iff the transfer returned, and otherwise its exception escapes |
| LineCopy.ReadLine | src/main/java/com/rdas/glacier/GlacierInventory.java:62 | `readLine` consumes at least one character; the line it returns holds no terminator and is the consumed text with its terminator removed |
| LineCopy.StripTerminatorsConcat | src/main/java/com/rdas/glacier/GlacierInventory.java:62-64 | removing terminators distributes over concatenation |
| LineCopy.LinesFromStrip | src/main/java/com/rdas/glacier/GlacierInventory.java:62-64 | writing every line `readLine` returns, without terminators, gives the body with all '\n' and '\r' removed |
| LineCopy.ReadLinesOfTerminated | src/main/java/com/rdas/glacier/GlacierInventory.java:62 | reading back lines each followed by '\n' gives exactly those lines, empty ones included |
| LineCopy.CopyLines | src/main/java/com/rdas/glacier/GlacierInventory.java:61-67 | the copy succeeds iff no read or write fails; on success the file holds the body without terminators; on failure it holds the lines copied so far, and the error is "Unable to save archive" |
| GlacierInventory.Start | src/main/java/com/rdas/glacier/GlacierInventory.java:27-37 | one "inventory-retrieval" job on the vault; the returned job holds that vault and the returned id |
| GlacierInventory.PollStatus | src/main/java/com/rdas/glacier/GlacierInventory.java:39-51 | polling without retries, failing only on exactly "Failed", all on the job's vault and id |
| GlacierInventory.DateForFileName | src/main/java/com/rdas/glacier/GlacierInventory.java:54 | every ' ' becomes '_', every ':' becomes '.', every other character stays, and no ' ' or ':' remains |
| GlacierInventory.OutputFileName | src/main/java/com/rdas/glacier/GlacierInventory.java:54 | the name is vault + "_inventory_" + the adjusted date + ".json" |
| GlacierInventory.OutputFileNameDistinguishesDates | src/main/java/com/rdas/glacier/GlacierInventory.java:54 | dates without '_' or '.' give equal names for a vault iff they are equal |
| GlacierInventory.GetOutput | src/main/java/com/rdas/glacier/GlacierInventory.java:53-69 | the output of the job is fetched once and saved under the dated name; the outcome of the copy is as `CopyLines` states |
| GlacierInventory.Inventory | src/main/java/com/rdas/glacier/GlacierInventory.java:71-79 | start, poll, then fetch, in that order and on the started job; the output is fetched and saved only once polling is ready; then it succeeds iff no read or write fails, the file holding the body without terminators, and otherwise fails with "Unable to save archive", the file holding the lines copied before the failure |
| LegacyInventory.Inventory.constructor | src/main/java/com/rdas/GlacierInventory.java:19-31 | the vault is fixed at construction |
| LegacyInventory.Inventory.Start | src/main/java/com/rdas/GlacierInventory.java:41-53 | one "inventory-retrieval" job on the object's vault; its id is returned |
| LegacyInventory.Inventory.PollStatus | src/main/java/com/rdas/GlacierInventory.java:55-63 | polling that stops at the first completed answer or the first error, and never reports a failed job |
| LegacyInventory.Inventory.GetOutput | src/main/java/com/rdas/GlacierInventory.java:65-80 | the job output is saved to the named file as `CopyLines` states |
| LegacyInventory.RunMain | src/main/java/com/rdas/GlacierInventory.java:33-39 | start, poll, then fetch on the returned job id, for the vault "Movies"; a file "Movies_Vault.json" is saved iff polling was ready; then it succeeds iff no read or write fails, the file holding the body without terminators, and otherwise fails with "Unable to save archive", the file holding the lines copied before the failure |
| GlUpload.CheckProperties | src/main/java/com/rdas/GlUpload.java:56-62 | a missing property throws (vault checked first); an empty value exits with status 1; the upload proceeds iff both are present and non-empty |
| GlUpload.Uploader.constructor | src/main/java/com/rdas/GlUpload.java:32-34 | the uploader keeps the archive path and the vault |
| GlUpload.Uploader.Upload | src/main/java/com/rdas/GlUpload.java:88-98 | one upload to the vault, described as `generateArchiveDescription` describes the path, reported to a logger sized by the file's length; the service's archive id is returned iff the transfer returned, and otherwise its exception escapes |
| Entrypoint.ParseArgs | src/main/java/com/rdas/cli/Entrypoint.java:90-128 | the first failing check decides the message ("Need at least 2 arguments", the action message, "Vault name must be provided", then for transfers "Need 3 arguments" and "Argument file must exist & be a file"); accepted iff all checks pass; upload sets only the upload file and download only the request file |
| Entrypoint.InventoryIgnoresExtraArguments | src/main/java/com/rdas/cli/Entrypoint.java:113-114 | an inventory with a vault is accepted whatever follows |
| Entrypoint.TransferNeedsRegularFile | src/main/java/com/rdas/cli/Entrypoint.java:113-120 | upload and download are accepted iff a third argument names a regular file |
| Entrypoint.Dispatch | src/main/java/com/rdas/cli/Entrypoint.java:37-49 | `execute`'s switch: the plan is an upload, a download or an inventory exactly when the action is, on the parsed vault and, for transfers, the parsed file |
| Entrypoint.AcceptedArgumentsDispatch | src/main/java/com/rdas/cli/Entrypoint.java:34-50 | every accepted command line dispatches to the action it names, on its vault and, for transfers, its file |
| Entrypoint.Cli.constructor | src/main/java/com/rdas/cli/Entrypoint.java:18-28 | a new entry point has no field set |
| Entrypoint.Cli.ParseArgsInto | src/main/java/com/rdas/cli/Entrypoint.java:90-128 | accepts and rejects as `ParseArgs`, with its message; each field is set as soon as its check passes, so a rejected vault leaves the action set |
| Entrypoint.DoDownload | src/main/java/com/rdas/cli/Entrypoint.java:68-82 | a bad size fails before any call; the archive is downloaded, as the last call and on the prepared job, iff the job file is readable, polling is ready and the transfer returns; then the job file is gone; a new job that does not become ready keeps its file |
| OrderedDict.Put | src/main/python/diff_checker.py:13 | the key gets the value, other keys keep theirs, and earlier keys keep their order |
| OrderedDict.FromPairs | src/main/python/diff_checker.py:13 | assigning the pairs in turn gives a well-formed dict: distinct keys, exactly those with a value |
| OrderedDict.FromPairsKeys | src/main/python/diff_checker.py:13 | a name is a key iff some pair carries it |
| OrderedDict.LastValueWins | src/main/python/diff_checker.py:13 | a duplicated name keeps the value of its last pair |
| OrderedDict.FromPairsKeysExtend | src/main/python/diff_checker.py:13 | keys stay in the order of their first assignment |
| Strings.ParseInteger | src/main/python/diff_checker.py:11 | `int()` of a size: accepted iff an optional '-' or '+' is followed by at least one decimal digit; the value is that of the digits, negated after a '-' |
| DiffChecker.SplitOnce | src/main/python/diff_checker.py:10 | at most two non-empty parts; the first has no whitespace; the second starts with non-whitespace and ends the text; no parts iff the text is all whitespace |
| DiffChecker.SplitOnceJoin | src/main/python/diff_checker.py:10 | word, whitespace, rest splits into exactly the word and the rest, spaces inside the rest kept |
| DiffChecker.Normalise | src/main/python/diff_checker.py:12 | no '$' or '"' is left and the name does not end in whitespace |
| DiffChecker.NormaliseKeepsNormalName | src/main/python/diff_checker.py:12 | a name without "./", '$', '"' or trailing whitespace is unchanged |
| DiffChecker.NormaliseReplacesQuotes | src/main/python/diff_checker.py:12 | for a name with no "./" and no '$', normalising turns every '"' into '-', strips trailing whitespace, and changes nothing else |
| DiffChecker.NormaliseNotIdempotent | src/main/python/diff_checker.py:12 | ".$/" normalises to "./", which normalises again to "" |
| DiffChecker.LocalPair | src/main/python/diff_checker.py:11-12 | the size is the KiB count times 1024, exactly; the name has no '$' or '"' |
| DiffChecker.ParseLocalLine | src/main/python/diff_checker.py:10-12 | a line that does not split in two raises `ValueError`; one that does is accepted iff its first part is an integer, and then reads as the normalised second part and 1024 times that integer |
| DiffChecker.LocalLineRoundTrip | src/main/python/diff_checker.py:10-12 | "<kib> <name>\n" for a normal name reads back as the name and kib * 1024 |
| DiffChecker.ParseLocalLines | src/main/python/diff_checker.py:9-13 | a listing that parses gives one pair per line |
| DiffChecker.ParseLocalLinesEach | src/main/python/diff_checker.py:9-13 | each pair is the parse of its own line |
| DiffChecker.FirstErrorStops | src/main/python/diff_checker.py:9-13 | once a line fails, the whole listing fails with that line's error |
| DiffChecker.LoadLocal | src/main/python/diff_checker.py:6-14 | the loop builds the dict of all parsed lines, or stops at the first bad line |
| DiffChecker.LocalLastLineWins | src/main/python/diff_checker.py:13 | a name listed on several lines gets the size of the last of them |
| DiffChecker.RemotePairs | src/main/python/diff_checker.py:20-24 | one (name, size) pair per archive, in inventory order, the name derived from the description |
| DiffChecker.LoadRemote | src/main/python/diff_checker.py:16-25 | the loop builds the dict of those pairs, later duplicates winning |
| DiffChecker.StripZipSuffix | src/main/python/diff_checker.py:23 | removing ".zip" from "<stem>.zip" gives the stem when the stem holds no ".zip" |
| DiffChecker.RemoteNameOfGeneratedDescription | src/main/python/diff_checker.py:23 | `RemoteName`: the name recovered from a generated description is the path with every ".zip" removed, and exactly the stem for "<stem>.zip" |
| DiffChecker.RemoteNameOfPlainPath | src/main/python/diff_checker.py:23 | `RemoteName`: a path without the prefix text or ".zip" is recovered unchanged |
| DiffChecker.LocalReports | src/main/python/diff_checker.py:28-34 | the first loop reports nothing missing from local |
| DiffChecker.RemoteReports | src/main/python/diff_checker.py:35-37 | the second loop reports only names missing from local |
| DiffChecker.CompareArchives | src/main/python/diff_checker.py:27-37 | the two loops print exactly the reports `Reports` specifies, in order |
| DiffChecker.CompareLocal | src/main/python/diff_checker.py:28-34 | the first loop prints, in the local dict's order, exactly the reports `LocalReports` gives for its names |
| DiffChecker.CompareRemote | src/main/python/diff_checker.py:35-37 | the second loop prints, in the remote dict's order, exactly the reports `RemoteReports` gives for its names |
| DiffChecker.ReportsCharacterised | src/main/python/diff_checker.py:27-37 | `Reports`: missing-from-remote iff local only; size warning iff in both and differing by strictly more than 2 MiB; missing-from-local iff remote only |
| DiffChecker.LocalReportsFirst | src/main/python/diff_checker.py:28-37 | every report about a local name comes before every remote-only report |
| DiffChecker.NoReportsForEqualDicts | src/main/python/diff_checker.py:27-37 | comparing a listing with itself reports nothing |
| WatchNUpload.LastDot | src/main/python/watch_n_upload.py:7 | the index of the last '.', absent iff there is none |
| WatchNUpload.StemOf | src/main/python/watch_n_upload.py:7 | the unpacking fails iff the name has no '.' |
| WatchNUpload.StemOfStripsLastExtension | src/main/python/watch_n_upload.py:7 | only the last extension is removed |
| WatchNUpload.MovieStemIffRegex | src/main/python/watch_n_upload.py:8 | the scan from the end accepts exactly the names `^.* \(\d+\)$` matches, `$` allowing one final newline |
| WatchNUpload.ShowStemIffRegex | src/main/python/watch_n_upload.py:10 | the scan from the end accepts exactly the names the show pattern matches (" - Specials" or " - Season <digits>" at the end), `$` allowing one final newline |
| WatchNUpload.PatternsDisjoint | src/main/python/watch_n_upload.py:8-11 | no stem matches both patterns |
| WatchNUpload.DecideVault | src/main/python/watch_n_upload.py:6-12 | the vault is "Movies" or "TVShows"; no '.' raises the unpacking error; routed iff the stem matches a pattern; "Movies" iff it matches the film pattern |
| WatchNUpload.DecideVaultByPattern | src/main/python/watch_n_upload.py:6-12 | "<stem>.<ext>" goes to "Movies" iff the film pattern matches, to "TVShows" iff the show pattern matches, and fails iff neither does |
| WatchNUpload.MovieRouted | src/main/python/watch_n_upload.py:7-9 | "<title> (<digits>).<ext>", for a title without a newline and an extension without '.', goes to "Movies" |
| WatchNUpload.SeasonRouted | src/main/python/watch_n_upload.py:7-11 | "<title> - Season <digits>.<ext>" goes to "TVShows" |
| WatchNUpload.SpecialsRouted | src/main/python/watch_n_upload.py:7-11 | "<title> - Specials.<ext>" goes to "TVShows" |
| WatchNUpload.RoutedByStem | src/main/python/watch_n_upload.py:6-11 | a stem the film scan accepts goes to "Movies" and one the show scan accepts goes to "TVShows", whatever the extension without '.' |
| WatchNUpload.DecideVaultUnmatched | src/main/python/watch_n_upload.py:12 | an unmatched stem raises "Couldn't match " + the stem |
| WatchNUpload.PendingArchives | src/main/python/watch_n_upload.py:18-20 | a name is pending iff it is listed, ends in ".zip", does not start with "done", has no ".part" companion and was not uploaded |
| WatchNUpload.HandleAll | src/main/python/watch_n_upload.py:25-38 | handling archives only adds to the uploaded set |
| WatchNUpload.RecordedOnlyOnSuccess | src/main/python/watch_n_upload.py:28-37 | an archive joins the uploaded set only if it was pending, routed and uploaded with status 0 |
| WatchNUpload.AllRoutedTick | src/main/python/watch_n_upload.py:25-38 | when all names route, the tick ends normally, records exactly the successful uploads whatever the renames did, and uploads each to its decided vault |
| WatchNUpload.NotPendingAfterUpload | src/main/python/watch_n_upload.py:18-37 | after a successful upload neither the archive nor "done_" + it is pending again, whether or not the rename worked |
| WatchNUpload.RetriedAfterFailure | src/main/python/watch_n_upload.py:28-31 | a failed upload that is still listed and complete is pending again next tick |
| WatchNUpload.FailureStops | src/main/python/watch_n_upload.py:26 | once an archive cannot be routed, the archives after it are not handled |
| WatchNUpload.Watcher.constructor | src/main/python/watch_n_upload.py:14 | the uploaded set starts empty |
| WatchNUpload.Watcher.Tick | src/main/python/watch_n_upload.py:16-38 | one pass of the loop: the error, the uploaded set and the uploader and rename actions are those `HandleAll` gives for the pending archives |
| WatchNUpload.Watcher.HandlePending | src/main/python/watch_n_upload.py:25-38 | the `for` loop over a pending list ends with the error, uploaded set and actions `HandleAll` gives for that list |

## Left out

- The Amazon SDK is not modelled: `initiateJob`, `describeJob`, `getJobOutput`, the transfer manager's `upload` and `downloadJobOutput`, and client construction. Their answers are inputs.
- `GlacierTransfer`, `GlTransfer`, `GlacierUpload`, `GlacierDelete`, `Credentials` and `DownloadArchiveRequest` are not part of this model. They hold no logic beyond SDK wiring and plain fields. The request triple is `Entrypoint.DownloadArchiveRequest`.
- Gson and JSON text are not modelled. A job file is its `{archiveId, jobId}` record, and the request file and the inventory arrive parsed.
- Loading `credentials.json` is not modelled. Neither is `loadDownloadRequest` reading its file.
- Real time is not modelled. Sleeps are omitted, and `Instant.now`, `System.currentTimeMillis` and file modification times are integer inputs.
- Duration and MB/s reports are omitted. They use `double` and only print.
- Console text is omitted, except for the progress marks.
- `Utilities.CompletionPercent` rounds the exact ratio half up, in integer arithmetic. Java computes `Math.round` of a `double` product, which differs at exact halves that binary floating point cannot represent: 29 of 200 bytes is 14.499999999999998 in `double`, so Java logs 14 where the model gives 15. `double` precision loss for very large byte counts is not captured either.
- `Utilities.Step` does not model 64-bit wrap-around of `transferredBytes`, because byte counts are unbounded integers.
- `Polling.PollFrom` runs over a finite sequence of answers, because the source's loop need not terminate. Running out of answers is the outcome `StillPolling`.
- `Polling.EqualsIgnoreCase` folds ASCII letters only. Java's `equalsIgnoreCase` also folds other Unicode letters.
- `Strings.IsDigit` accepts ASCII digits only, for `\d`, `int()` and `Long.parseLong`. Python and Java also accept other Unicode decimal digits, and Python's `int()` also accepts surrounding whitespace and underscores.
- `java.io.File` is a path string. Path normalisation is not modelled, and `getName` is the text after the last '/'.
- IOExceptions when creating the job file or the inventory output file are not modelled. The exception is the copy loop's read and write failures.
- An exception thrown by `initiateJob` is not modelled.
- `execute` is modelled as `Entrypoint.Dispatch` together with `Entrypoint.DoDownload`. `doUpload` goes through `GlacierUpload`, which is not part of this model; its only logic is the description and logger wiring that `GlUpload.Uploader.Upload` models. `doInventory` is `GlacierInventory.Inventory`.
- `GlUpload`'s nested `ProgressLogger` is the same code as `Utilities.ProgressLogger` and is modelled by that class.
- `GlUpload.main` is modelled only through its argument check `GlUpload.CheckProperties`.
- `WatchNUpload.Watcher.Tick` is one pass of the endless `while True` loop. An error it returns is the `ValueError` that ends the script; the model has no state for "stopped", and a caller runs no further pass after it. `os.listdir`, `os.path.exists`, `os.system`'s exit status and `os.rename`'s outcome are inputs.
- The hard-coded file names in `diff_checker.py`'s `__main__` are not modelled. `load_local` takes its lines already read.
- `WatchNUpload.DecideVaultUnmatched` is stated for all unmatched stems. A concrete unmatched name is not given as a separate example.
