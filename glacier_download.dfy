/**
  Archive retrieval with a persisted job (glacier/GlacierDownload.java).

  `prepareArchive` resumes the retrieval job recorded in the job file
  "job_<local path>.json" when that file is younger than 18 hours and was
  written for the same remote archive; otherwise it initiates a new job and
  records it. It then polls the job, retrying throttling and unavailability
  errors. `download` transfers the job output and deletes the job file only
  once the transfer has returned.

  The job files are a map from path to their parsed content and modification
  time; times are milliseconds on an abstract clock passed in as `now`.
*/
module GlacierDownload {
  import opened Wrappers
  import opened Strings
  import opened Archive
  import opened GlacierApi
  import opened Polling
  import Utilities

  /** A job file is trusted for 18 hours after it was last modified. */
  const JOB_FILE_MAX_AGE_MS: int := 18 * 60 * 60 * 1000

  const JOB_FILE_PREFIX: string := "job_"
  const JOB_FILE_SUFFIX: string := ".json"

  /** `GlacierDownload.JobInfo`, as Gson reads it back; a missing JSON field is `None`. */
  datatype JobInfo = JobInfo(archiveId: Option<string>, jobId: Option<string>)

  datatype JobFile = JobFile(info: JobInfo, lastModified: int)

  type JobFiles = map<string, JobFile>

  /** Why reading the job file throws. */
  datatype JobFileError =
    | FileNotFound(path: string)   // FileNotFoundException from the FileReader
    | NullArchiveId                // NullPointerException: the file has no archiveId

  /** Why retrieving an archive ends without the file being downloaded. */
  datatype DownloadError =
    | JobFileUnreadable(error: JobFileError)
    | JobNotReady(outcome: PollOutcome)   // polling threw, or the answers ran out
    | TransferFailed                      // downloadJobOutput threw

  /** The policy of `waitForJobCompletion`: retry transient errors, "Failed" in any case. */
  const RETRIEVAL_POLICY: PollPolicy := PollPolicy(true, FailedIgnoringCase)

  /** `jobFileName`: the local archive path between "job_" and ".json". */
  function JobFileName(info: ArchiveInfo): (name: string)
    ensures StartsWith(name, JOB_FILE_PREFIX) && EndsWith(name, JOB_FILE_SUFFIX)
    ensures |name| == |JOB_FILE_PREFIX| + |info.localArchiveFile| + |JOB_FILE_SUFFIX|
    ensures name[|JOB_FILE_PREFIX|..|name| - |JOB_FILE_SUFFIX|] == info.localArchiveFile
  {
    JOB_FILE_PREFIX + info.localArchiveFile + JOB_FILE_SUFFIX
  }

  /** Two archives share a job file exactly when they are saved to the same local path. */
  lemma JobFileNameShared(a: ArchiveInfo, b: ArchiveInfo)
    ensures JobFileName(a) == JobFileName(b) <==> a.localArchiveFile == b.localArchiveFile
  {
    if JobFileName(a) == JobFileName(b) {
      var n := JobFileName(a);
      assert a.localArchiveFile == n[|JOB_FILE_PREFIX|..|n| - |JOB_FILE_SUFFIX|];
    }
  }

  /**
    `jobFileExists`: the file exists and `now - 18h` is strictly before its
    modification time.
  */
  predicate JobFileExists(files: JobFiles, info: ArchiveInfo, now: int) {
    var path := JobFileName(info);
    path in files && now - JOB_FILE_MAX_AGE_MS < files[path].lastModified
  }

  /**
    `readIdFromJobFile`: the recorded job id when the recorded archive id is
    the requested one, `None` when they differ (the requested id may itself
    be absent), and an exception when the file is missing or records no
    archive id.
  */
  function ReadIdFromJobFile(files: JobFiles, info: ArchiveInfo): (r: Result<Option<string>, JobFileError>)
    ensures r == Err(FileNotFound(JobFileName(info))) <==> JobFileName(info) !in files
    ensures r == Err(NullArchiveId) <==>
      JobFileName(info) in files && files[JobFileName(info)].info.archiveId == None
    ensures r.Ok? && r.value.Some? <==>
      && JobFileName(info) in files
      && files[JobFileName(info)].info.archiveId.Some?
      && files[JobFileName(info)].info.archiveId == info.remoteArchiveId
      && files[JobFileName(info)].info.jobId.Some?
    ensures r.Ok? && r.value.Some? ==> r.value == files[JobFileName(info)].info.jobId
  {
    var path := JobFileName(info);
    if path !in files then Err(FileNotFound(path))
    else
      var stored := files[path].info;
      match stored.archiveId
      case None => Err(NullArchiveId)
      case Some(id) =>
        if Some(id) != info.remoteArchiveId then Ok(None) else Ok(stored.jobId)
  }

  /** The job file `writeJobFile` leaves behind: the requested archive id and the job id, written at `now`. */
  function WrittenJobFile(info: ArchiveInfo, jobId: string, now: int): JobFile {
    JobFile(JobInfo(info.remoteArchiveId, Some(jobId)), now)
  }

  /**
    Writing a job file and reading it back for the same archive gives the
    job id, provided the archive has a remote id; without one the written
    file records no archive id and reading it throws.
  */
  lemma WriteReadRoundTrip(files: JobFiles, info: ArchiveInfo, jobId: string, now: int)
    ensures var written := files[JobFileName(info) := WrittenJobFile(info, jobId, now)];
      && (info.remoteArchiveId.Some? ==> ReadIdFromJobFile(written, info) == Ok(Some(jobId)))
      && (info.remoteArchiveId.None? ==> ReadIdFromJobFile(written, info) == Err(NullArchiveId))
  {
  }

  /**
    A job file written at `written` counts as present at `now` exactly while
    less than 18 hours have passed; at exactly 18 hours it counts as absent.
  */
  lemma JobFileFreshFor18Hours(files: JobFiles, info: ArchiveInfo, jobId: string, written: int, now: int)
    ensures var f := files[JobFileName(info) := WrittenJobFile(info, jobId, written)];
      JobFileExists(f, info, now) <==> now < written + JOB_FILE_MAX_AGE_MS
    ensures !JobFileExists(files[JobFileName(info) := WrittenJobFile(info, jobId, written)],
                           info, written + 64_800_000)
  {
  }

  /** A file that counts as present at some time also counts as present at every earlier time. */
  lemma JobFileExistsEarlier(files: JobFiles, info: ArchiveInfo, earlier: int, now: int)
    requires earlier <= now && JobFileExists(files, info, now)
    ensures JobFileExists(files, info, earlier)
  {
  }

  /** How `prepareArchive` obtains its job id. */
  datatype JobChoice =
    | Resume(jobId: string)            // the recorded job is reused
    | StartNew                         // a new job is initiated and recorded
    | ReadFailed(error: JobFileError)  // reading the job file throws

  /** The branches of `prepareArchive` before polling. */
  function ChooseJob(files: JobFiles, info: ArchiveInfo, now: int): (c: JobChoice)
    ensures !JobFileExists(files, info, now) ==> c == StartNew
    ensures c.Resume? ==> ReadIdFromJobFile(files, info) == Ok(Some(c.jobId))
    ensures c.ReadFailed? ==> ReadIdFromJobFile(files, info) == Err(c.error)
  {
    if !JobFileExists(files, info, now) then StartNew
    else
      match ReadIdFromJobFile(files, info)
      case Err(e) => ReadFailed(e)
      case Ok(None) => StartNew
      case Ok(Some(jobId)) => Resume(jobId)
  }

  /**
    The recorded job is reused exactly when the job file is fresh, records
    the requested archive id, and records a job id. A file that is present
    but records no archive id makes `prepareArchive` throw; a missing file is
    never read.
  */
  lemma ChooseJobCases(files: JobFiles, info: ArchiveInfo, now: int, jobId: string)
    ensures var path := JobFileName(info);
      ChooseJob(files, info, now) == Resume(jobId) <==>
        && JobFileExists(files, info, now)
        && files[path].info.archiveId.Some?
        && files[path].info.archiveId == info.remoteArchiveId
        && files[path].info.jobId == Some(jobId)
    ensures ChooseJob(files, info, now).ReadFailed? <==>
      JobFileExists(files, info, now) && files[JobFileName(info)].info.archiveId == None
    ensures ChooseJob(files, info, now) != ReadFailed(FileNotFound(JobFileName(info)))
  {
  }

  /**
    A job recorded for an archive with a remote id is resumed by any
    `prepareArchive` of that archive within the next 18 hours.
  */
  lemma RecordedJobResumed(files: JobFiles, info: ArchiveInfo, jobId: string, written: int, now: int)
    requires info.remoteArchiveId.Some?
    requires now < written + JOB_FILE_MAX_AGE_MS
    ensures ChooseJob(files[JobFileName(info) := WrittenJobFile(info, jobId, written)], info, now) == Resume(jobId)
  {
    WriteReadRoundTrip(files, info, jobId, written);
    JobFileFreshFor18Hours(files, info, jobId, written, now);
  }

  /**
    An archive saved to the same local path but with a different remote id
    never resumes another archive's job.
  */
  lemma OtherArchiveNotResumed(files: JobFiles, info: ArchiveInfo, other: ArchiveInfo, jobId: string, written: int, now: int)
    requires other.localArchiveFile == info.localArchiveFile
    requires other.remoteArchiveId != info.remoteArchiveId && info.remoteArchiveId.Some?
    ensures !ChooseJob(files[JobFileName(info) := WrittenJobFile(info, jobId, written)], other, now).Resume?
  {
    JobFileNameShared(info, other);
  }

  /** The job files on disk, changed in place by writing and deleting. */
  class JobFileStore {
    var files: JobFiles

    constructor (files: JobFiles)
      ensures this.files == files
    {
      this.files := files;
    }
  }

  /** `GlacierDownload`: one archive to retrieve and the job files it keeps. */
  class GlacierDownloader {
    const archiveInfo: ArchiveInfo
    const store: JobFileStore

    constructor (archiveInfo: ArchiveInfo, store: JobFileStore)
      ensures this.archiveInfo == archiveInfo && this.store == store
    {
      this.archiveInfo := archiveInfo;
      this.store := store;
    }

    /** `writeJobFile`: (over)writes this archive's job file and nothing else. */
    method WriteJobFile(jobId: string, now: int)
      modifies store
      ensures store.files == old(store.files)[JobFileName(archiveInfo) := WrittenJobFile(archiveInfo, jobId, now)]
    {
      store.files := store.files[JobFileName(archiveInfo) := WrittenJobFile(archiveInfo, jobId, now)];
    }

    /** `deleteJobFile`: removes this archive's job file if there is one; reports whether it did. */
    method DeleteJobFile() returns (deleted: bool)
      modifies store
      ensures deleted <==> JobFileName(archiveInfo) in old(store.files)
      ensures store.files == old(store.files) - {JobFileName(archiveInfo)}
    {
      var path := JobFileName(archiveInfo);
      deleted := path in store.files;
      store.files := store.files - {path};
    }

    /** `startNewJob`: initiates a retrieval job (the service answers `newJobId`) and records it. */
    method StartNewJob(newJobId: string, now: int) returns (jobId: string, calls: seq<Call>)
      modifies store
      ensures jobId == newJobId
      ensures calls == [InitiateJob(ArchiveRetrievalRequest(archiveInfo))]
      ensures store.files == old(store.files)[JobFileName(archiveInfo) := WrittenJobFile(archiveInfo, newJobId, now)]
    {
      calls := [InitiateJob(ArchiveRetrievalRequest(archiveInfo))];
      jobId := newJobId;
      WriteJobFile(jobId, now);
    }

    /** An initiation followed by polls holds no download. */
    static lemma NoDownloadIn(initiate: seq<Call>, describes: seq<Call>)
      requires |initiate| <= 1 && (initiate != [] ==> initiate[0].InitiateJob?)
      requires forall k :: 0 <= k < |describes| ==> describes[k].DescribeJob?
      ensures forall k :: 0 <= k < |initiate + describes| ==> !(initiate + describes)[k].DownloadJobOutput?
    {
      forall k | 0 <= k < |initiate + describes|
        ensures !(initiate + describes)[k].DownloadJobOutput?
      {
        if k < |initiate| {
          assert (initiate + describes)[k] == initiate[k];
        } else {
          assert (initiate + describes)[k] == describes[k - |initiate|];
        }
      }
    }

    /**
      The first part of `prepareArchive`: the recorded job id, or a newly
      initiated and recorded job, or the exception reading the job file throws.
    */
    method ObtainJobId(now: int, newJobId: string) returns (r: Result<string, DownloadError>, calls: seq<Call>)
      modifies store
      ensures |calls| <= 1 && (calls != [] ==> calls[0].InitiateJob?)
      ensures match ChooseJob(old(store.files), archiveInfo, now)
        case ReadFailed(e) => r == Err(JobFileUnreadable(e)) && calls == [] && store.files == old(store.files)
        case Resume(recorded) => r == Ok(recorded) && calls == [] && store.files == old(store.files)
        case StartNew =>
          && r == Ok(newJobId)
          && calls == [InitiateJob(ArchiveRetrievalRequest(archiveInfo))]
          && store.files == old(store.files)[JobFileName(archiveInfo) := WrittenJobFile(archiveInfo, newJobId, now)]
    {
      calls := [];
      match ChooseJob(store.files, archiveInfo, now) {
        case ReadFailed(e) =>
          r := Err(JobFileUnreadable(e));
        case Resume(recorded) =>
          r := Ok(recorded);
        case StartNew =>
          var jobId;
          jobId, calls := StartNewJob(newJobId, now);
          r := Ok(jobId);
      }
    }

    /**
      `prepareArchive` at time `now`: a new job, if one is initiated, gets the
      id `newJobId`; `responses` are the answers to `describeJob`. The job
      file is written before polling, so a job that fails keeps its file.
    */
    method PrepareArchive(now: int, newJobId: string, responses: seq<DescribeResponse>)
      returns (result: Result<string, DownloadError>, calls: seq<Call>)
      modifies store
      ensures var choice := ChooseJob(old(store.files), archiveInfo, now);
        var jobId := if choice.Resume? then choice.jobId else newJobId;
        var outcome := PollFrom(RETRIEVAL_POLICY, responses, 0);
        match choice
        case ReadFailed(e) =>
          result == Err(JobFileUnreadable(e)) && calls == [] && store.files == old(store.files)
        case Resume(_) =>
          && store.files == old(store.files)
          && calls == DescribeCalls(archiveInfo.vaultName, jobId, outcome.calls)
          && result == (if outcome.Ready? then Ok(jobId) else Err(JobNotReady(outcome)))
        case StartNew =>
          && store.files == old(store.files)[JobFileName(archiveInfo) := WrittenJobFile(archiveInfo, newJobId, now)]
          && calls == [InitiateJob(ArchiveRetrievalRequest(archiveInfo))]
                      + DescribeCalls(archiveInfo.vaultName, jobId, outcome.calls)
          && result == (if outcome.Ready? then Ok(jobId) else Err(JobNotReady(outcome)))
      ensures forall k :: 0 <= k < |calls| ==> !calls[k].DownloadJobOutput?
      ensures var choice := ChooseJob(old(store.files), archiveInfo, now);
        && (result.Ok? <==> !choice.ReadFailed? && PollFrom(RETRIEVAL_POLICY, responses, 0).Ready?)
        && (result.Ok? ==> result.value == (if choice.Resume? then choice.jobId else newJobId))
        && (choice.StartNew? ==> store.files[JobFileName(archiveInfo)] == WrittenJobFile(archiveInfo, newJobId, now))
    {
      var obtained;
      obtained, calls := ObtainJobId(now, newJobId);
      if obtained.Err? {
        return Err(obtained.error), calls;
      }
      var jobId := obtained.value;
      var outcome := Poll(RETRIEVAL_POLICY, responses);
      var describes := DescribeCalls(archiveInfo.vaultName, jobId, outcome.calls);
      NoDownloadIn(calls, describes);
      calls := calls + describes;
      if outcome.Ready? {
        result := Ok(jobId);
      } else {
        result := Err(JobNotReady(outcome));
      }
    }

    /**
      `download(jobId)`: the transfer manager saves the job output to the
      local file, reporting `events` to a fresh progress logger sized by the
      archive; `transferOk` says whether it returned or threw. The job file is
      deleted only after it returned.
    */
    method Download(jobId: string, events: seq<Utilities.ProgressEvent>, transferOk: bool)
      returns (result: Result<(), DownloadError>, printed: seq<Utilities.Mark>, calls: seq<Call>)
      modifies store
      ensures calls == [DownloadJobOutput(archiveInfo.vaultName, jobId, archiveInfo.localArchiveFile)]
      ensures printed == Utilities.Run(archiveInfo.fileSizeBytes, Utilities.INITIAL_STATE, events).1
      ensures result.Ok? <==> transferOk
      ensures result.Err? ==> result.error == TransferFailed
      ensures store.files == if transferOk then old(store.files) - {JobFileName(archiveInfo)} else old(store.files)
    {
      var progressLogger := new Utilities.ProgressLogger(archiveInfo.fileSizeBytes);
      calls := [DownloadJobOutput(archiveInfo.vaultName, jobId, archiveInfo.localArchiveFile)];
      printed := Utilities.DeliverEvents(progressLogger, events);
      if !transferOk {
        return Err(TransferFailed), printed, calls;
      }
      var _ := DeleteJobFile();
      result := Ok(());
    }
  }
}
