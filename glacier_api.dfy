/**
  The part of the Glacier SDK the core talks to, as values: job requests,
  `describeJob` responses, and the calls a run makes, in order. The SDK
  itself is not modelled; its answers are inputs of the operations that use it.
*/
module GlacierApi {
  import opened Wrappers
  import opened Strings
  import opened Archive

  const ARCHIVE_RETRIEVAL: string := "archive-retrieval"
  const INVENTORY_RETRIEVAL: string := "inventory-retrieval"
  const STANDARD_TIER: string := "Standard"
  const DOWNLOADING_PREFIX: string := "Downloading "

  /** `JobParameters`; a field the request builder does not set is `None`. */
  datatype JobParameters = JobParameters(
    jobType: string,
    archiveId: Option<string>,
    tier: Option<string>,
    description: Option<string>)

  datatype InitiateJobRequest = InitiateJobRequest(vaultName: string, parameters: JobParameters)

  /**
    The request `startJob` sends (glacier/GlacierDownload.java and
    glacier/GlDownload.java build the same one): a standard-tier retrieval of
    the archive, described by the name of the local file it will be saved to.
  */
  function ArchiveRetrievalRequest(info: ArchiveInfo): (r: InitiateJobRequest)
    ensures r.vaultName == info.vaultName
    ensures r.parameters.jobType == ARCHIVE_RETRIEVAL
    ensures r.parameters.archiveId == info.remoteArchiveId
    ensures r.parameters.tier == Some(STANDARD_TIER)
    ensures r.parameters.description == Some(DOWNLOADING_PREFIX + LastSegment(info.localArchiveFile))
    ensures var d := r.parameters.description.value;
      StartsWith(d, DOWNLOADING_PREFIX)
      && '/' !in d[|DOWNLOADING_PREFIX|..]
      && EndsWith(info.localArchiveFile, d[|DOWNLOADING_PREFIX|..])
  {
    InitiateJobRequest(
      info.vaultName,
      JobParameters(
        ARCHIVE_RETRIEVAL,
        info.remoteArchiveId,
        Some(STANDARD_TIER),
        Some(DOWNLOADING_PREFIX + LastSegment(info.localArchiveFile))))
  }

  /**
    The request both inventory classes send: an inventory retrieval of the
    vault, with no archive, tier or description.
  */
  function InventoryRequest(vaultName: string): (r: InitiateJobRequest)
    ensures r.vaultName == vaultName
    ensures r.parameters == JobParameters(INVENTORY_RETRIEVAL, None, None, None)
  {
    InitiateJobRequest(vaultName, JobParameters(INVENTORY_RETRIEVAL, None, None, None))
  }

  /** One answer of `describeJob`: the service's exception (its error code) or the job's status. */
  datatype DescribeResponse =
    | DescribeError(errorCode: string)
    | Described(completed: bool, statusCode: string, statusMessage: string)

  /** A transfer manager call (`upload` or `downloadJobOutput`) that threw instead of returning. */
  datatype TransferError = TransferThrew

  /** A call on the Glacier client or the transfer manager. */
  datatype Call =
    | InitiateJob(request: InitiateJobRequest)
    | DescribeJob(vaultName: string, jobId: string)
    | GetJobOutput(vaultName: string, jobId: string)
    | DownloadJobOutput(vaultName: string, jobId: string, file: string)
    | UploadArchive(vaultName: string, description: string, file: string)

  /** `n` consecutive `describeJob` calls on one job. */
  function DescribeCalls(vaultName: string, jobId: string, n: nat): (calls: seq<Call>)
    ensures |calls| == n
    ensures forall i :: 0 <= i < n ==> calls[i] == DescribeJob(vaultName, jobId)
  {
    if n == 0 then [] else DescribeCalls(vaultName, jobId, n - 1) + [DescribeJob(vaultName, jobId)]
  }
}
