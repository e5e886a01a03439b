/**
  The first inventory tool (GlacierInventory.java in the top-level package):
  the vault is fixed when the object is built, `pollStatus` waits for
  `completed` without ever looking at the status code, and `getOutput`
  saves the job output, without line terminators, to a file named by its
  caller. Its `main` inventories the vault "Movies" into "Movies_Vault.json".
*/
module LegacyInventory {
  import opened Wrappers
  import opened GlacierApi
  import opened Polling
  import opened LineCopy

  /** The policy of `pollStatus`: no retries and no status check. */
  const POLICY: PollPolicy := PollPolicy(false, NoStatusCheck)

  const MAIN_VAULT: string := "Movies"
  const MAIN_OUTPUT_FILE: string := "Movies_Vault.json"

  class Inventory {
    const vault: string

    constructor (vault: string)
      ensures this.vault == vault
    {
      this.vault := vault;
    }

    /** `start`: initiates an inventory job on the object's vault and returns its id. */
    method Start(newJobId: string) returns (jobId: string, calls: seq<Call>)
      ensures jobId == newJobId
      ensures calls == [InitiateJob(InventoryRequest(vault))]
    {
      calls := [InitiateJob(InventoryRequest(vault))];
      jobId := newJobId;
    }

    /**
      `pollStatus`: returns at the first completed answer; a failed job is
      never reported, and any `describeJob` exception ends polling.
    */
    method PollStatus(jobId: string, responses: seq<DescribeResponse>) returns (outcome: PollOutcome, calls: seq<Call>)
      ensures outcome == PollFrom(POLICY, responses, 0)
      ensures !outcome.JobFailed?
      ensures calls == DescribeCalls(vault, jobId, outcome.calls)
    {
      outcome := Poll(POLICY, responses);
      NoStatusCheckNeverFails(false, responses, 0);
      calls := DescribeCalls(vault, jobId, outcome.calls);
    }

    /** `getOutput(jobId, fileName)`: the copy loop into the named file. */
    method GetOutput(jobId: string, fileName: string, body: string, failingRead: Option<nat>)
      returns (result: Result<(), CopyError>, saved: (string, string), calls: seq<Call>)
      ensures calls == [GetJobOutput(vault, jobId)]
      ensures saved.0 == fileName
      ensures result.Ok? <==> failingRead.None? || failingRead.value > |Lines(body)|
      ensures result.Ok? ==> saved.1 == StripTerminators(body)
      ensures result.Err? ==> saved.1 == Concat(Lines(body)[..failingRead.value])
      ensures result.Err? ==> result.error == UnableToSaveArchive
    {
      calls := [GetJobOutput(vault, jobId)];
      var written;
      result, written := CopyLines(body, failingRead);
      saved := (fileName, written);
    }
  }

  /** Why `main` ends with an exception. */
  datatype MainError =
    | PollingStopped(outcome: PollOutcome)
    | SaveFailed(error: CopyError)

  /**
    `main`: start, poll and save, in that order, all on the job id `start`
    returned; the output is only fetched once polling is ready.
  */
  method RunMain(newJobId: string, responses: seq<DescribeResponse>, body: string, failingRead: Option<nat>)
    returns (result: Result<(), MainError>, calls: seq<Call>, saved: Option<(string, string)>)
    ensures var outcome := PollFrom(POLICY, responses, 0);
      && calls == [InitiateJob(InventoryRequest(MAIN_VAULT))]
                  + DescribeCalls(MAIN_VAULT, newJobId, outcome.calls)
                  + (if outcome.Ready? then [GetJobOutput(MAIN_VAULT, newJobId)] else [])
      && (outcome.Ready? <==> saved.Some?)
      && (!outcome.Ready? ==> result == Err(PollingStopped(outcome)))
    ensures saved.Some? ==> saved.value.0 == MAIN_OUTPUT_FILE
    ensures PollFrom(POLICY, responses, 0).Ready? ==>
      && (result.Ok? <==> failingRead.None? || failingRead.value > |Lines(body)|)
      && (result.Err? ==> result == Err(SaveFailed(UnableToSaveArchive))
                          && saved.value.1 == Concat(Lines(body)[..failingRead.value]))
    ensures result.Ok? && saved.Some? ==> saved.value.1 == StripTerminators(body)
  {
    var inventory := new Inventory(MAIN_VAULT);
    var jobId, startCalls := inventory.Start(newJobId);
    var outcome, pollCalls := inventory.PollStatus(jobId, responses);
    calls := startCalls + pollCalls;
    if !outcome.Ready? {
      return Err(PollingStopped(outcome)), calls, None;
    }
    var copied, file, outputCalls := inventory.GetOutput(jobId, MAIN_OUTPUT_FILE, body, failingRead);
    calls := calls + outputCalls;
    saved := Some(file);
    result := if copied.Ok? then Ok(()) else Err(SaveFailed(copied.error));
  }
}
