/**
  The older downloader (glacier/GlDownload.java): it always initiates a new
  retrieval job, keeps no job file, and its polling loop lets every
  `describeJob` exception through.
*/
module GlDownload {
  import opened Wrappers
  import opened Archive
  import opened GlacierApi
  import opened Polling
  import Utilities

  /** The policy of its `waitForJobCompletion`: no retries, "Failed" in any case. */
  const POLICY: PollPolicy := PollPolicy(false, FailedIgnoringCase)

  /**
    `prepareArchive`: initiates exactly one job (the service answers
    `newJobId`) and polls it; the job id is returned once polling is ready.
  */
  method PrepareArchive(archiveInfo: ArchiveInfo, newJobId: string, responses: seq<DescribeResponse>)
    returns (result: Result<string, PollOutcome>, calls: seq<Call>)
    ensures var outcome := PollFrom(POLICY, responses, 0);
      && calls == [InitiateJob(ArchiveRetrievalRequest(archiveInfo))]
                  + DescribeCalls(archiveInfo.vaultName, newJobId, outcome.calls)
      && result == (if outcome.Ready? then Ok(newJobId) else Err(outcome))
    ensures |calls| >= 1 && calls[0].InitiateJob?
    ensures forall k :: 1 <= k < |calls| ==> calls[k] == DescribeJob(archiveInfo.vaultName, newJobId)
  {
    var jobId := newJobId;
    calls := [InitiateJob(ArchiveRetrievalRequest(archiveInfo))];
    var outcome := Poll(POLICY, responses);
    calls := calls + DescribeCalls(archiveInfo.vaultName, jobId, outcome.calls);
    if outcome.Ready? {
      result := Ok(jobId);
    } else {
      result := Err(outcome);
    }
  }

  /**
    Without retries, the first `describeJob` exception ends polling, whatever
    its error code, throttling and unavailability included.
  */
  lemma {:induction false} FirstErrorEndsPolling(responses: seq<DescribeResponse>, i: nat)
    requires i < |responses| && responses[i].DescribeError?
    requires forall j :: 0 <= j < i ==> Continues(POLICY, responses[j])
    ensures PollFrom(POLICY, responses, 0) == DescribeFailed(responses[i].errorCode, i + 1)
  {
    FirstStopDecides(POLICY, responses, 0);
    var o := PollFrom(POLICY, responses, 0);
    assert !Continues(POLICY, responses[i]);
    assert !o.StillPolling?;
    assert !Continues(POLICY, responses[o.calls - 1]);
    assert o.calls == i + 1;
  }

  /**
    `download(jobId)`: the transfer with a progress logger sized by the
    archive, and nothing else; `transferOk` says whether `downloadJobOutput`
    returned or threw, and there is no job state to clean up either way.
  */
  method Download(archiveInfo: ArchiveInfo, jobId: string, events: seq<Utilities.ProgressEvent>, transferOk: bool)
    returns (result: Result<(), TransferError>, printed: seq<Utilities.Mark>, calls: seq<Call>)
    ensures result.Ok? <==> transferOk
    ensures result.Err? ==> result.error == TransferThrew
    ensures calls == [DownloadJobOutput(archiveInfo.vaultName, jobId, archiveInfo.localArchiveFile)]
    ensures printed == Utilities.Run(archiveInfo.fileSizeBytes, Utilities.INITIAL_STATE, events).1
  {
    var progressLogger := new Utilities.ProgressLogger(archiveInfo.fileSizeBytes);
    calls := [DownloadJobOutput(archiveInfo.vaultName, jobId, archiveInfo.localArchiveFile)];
    printed := Utilities.DeliverEvents(progressLogger, events);
    result := if transferOk then Ok(()) else Err(TransferThrew);
  }
}
