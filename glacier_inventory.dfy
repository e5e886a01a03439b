/**
  Vault inventory retrieval (glacier/GlacierInventory.java): initiate an
  inventory job, poll it until completed (a status of exactly "Failed"
  throws; `describeJob` exceptions are not caught), then save the job output
  to "<vault>_inventory_<date>.json" without line terminators.

  The current date's `toString()` is an input string.
*/
module GlacierInventory {
  import opened Wrappers
  import opened Strings
  import opened GlacierApi
  import opened Polling
  import opened LineCopy

  datatype InventoryJob = InventoryJob(vault: string, jobId: string)

  /** The policy of `pollStatus`: no retries, "Failed" only in exactly that case. */
  const POLICY: PollPolicy := PollPolicy(false, FailedExactCase)

  const INVENTORY_INFIX: string := "_inventory_"
  const OUTPUT_SUFFIX: string := ".json"

  /** `start`: initiates an inventory job on `vault`; the service answers `newJobId`. */
  method Start(vault: string, newJobId: string) returns (job: InventoryJob, calls: seq<Call>)
    ensures job.vault == vault && job.jobId == newJobId
    ensures calls == [InitiateJob(InventoryRequest(vault))]
    ensures calls[0].request.parameters.jobType == INVENTORY_RETRIEVAL
  {
    calls := [InitiateJob(InventoryRequest(vault))];
    job := InventoryJob(vault, newJobId);
  }

  /** `pollStatus`: the loop over the job's `describeJob` answers. */
  method PollStatus(job: InventoryJob, responses: seq<DescribeResponse>) returns (outcome: PollOutcome, calls: seq<Call>)
    ensures outcome == PollFrom(POLICY, responses, 0)
    ensures calls == DescribeCalls(job.vault, job.jobId, outcome.calls)
  {
    outcome := Poll(POLICY, responses);
    calls := DescribeCalls(job.vault, job.jobId, outcome.calls);
  }

  /** The date part of the file name: every ' ' becomes '_' and every ':' becomes '.'. */
  function DateForFileName(date: string): (r: string)
    ensures |r| == |date|
    ensures forall k :: 0 <= k < |date| ==>
      r[k] == (if date[k] == ' ' then '_' else if date[k] == ':' then '.' else date[k])
    ensures ' ' !in r && ':' !in r
  {
    ReplaceChar(ReplaceChar(date, ' ', '_'), ':', '.')
  }

  /** The output file of `getOutput`: vault, "_inventory_", the adjusted date, ".json". */
  function OutputFileName(vault: string, date: string): (name: string)
    ensures StartsWith(name, vault + INVENTORY_INFIX) && EndsWith(name, OUTPUT_SUFFIX)
    ensures |name| == |vault| + |INVENTORY_INFIX| + |date| + |OUTPUT_SUFFIX|
    ensures name[|vault| + |INVENTORY_INFIX|..|name| - |OUTPUT_SUFFIX|] == DateForFileName(date)
  {
    var name := vault + INVENTORY_INFIX + DateForFileName(date) + OUTPUT_SUFFIX;
    assert name[..|vault + INVENTORY_INFIX|] == vault + INVENTORY_INFIX;
    name
  }

  /**
    Dates in which neither '_' nor '.' occurs (as `Date.toString()` writes
    them) give different file names for one vault exactly when they differ.
  */
  lemma OutputFileNameDistinguishesDates(vault: string, d1: string, d2: string)
    requires '_' !in d1 && '.' !in d1 && '_' !in d2 && '.' !in d2
    ensures OutputFileName(vault, d1) == OutputFileName(vault, d2) <==> d1 == d2
  {
    if OutputFileName(vault, d1) == OutputFileName(vault, d2) {
      var r1, r2 := DateForFileName(d1), DateForFileName(d2);
      assert r1 == r2;
      forall k | 0 <= k < |d1| ensures d1[k] == d2[k] {
        assert d1[k] in d1 && d2[k] in d2;
      }
    }
  }

  /**
    `getOutput`: creates the output file, asks for the job output and copies
    it line by line. The file exists even when the copy fails, holding the
    lines copied before the failure.
  */
  method GetOutput(job: InventoryJob, date: string, body: string, failingRead: Option<nat>)
    returns (result: Result<(), CopyError>, fileName: string, written: string, calls: seq<Call>)
    ensures fileName == OutputFileName(job.vault, date)
    ensures calls == [GetJobOutput(job.vault, job.jobId)]
    ensures result.Ok? <==> failingRead.None? || failingRead.value > |Lines(body)|
    ensures result.Ok? ==> written == StripTerminators(body)
    ensures result.Err? ==> written == Concat(Lines(body)[..failingRead.value])
    ensures result.Err? ==> result.error == UnableToSaveArchive
  {
    fileName := OutputFileName(job.vault, date);
    calls := [GetJobOutput(job.vault, job.jobId)];
    result, written := CopyLines(body, failingRead);
  }

  /** Why `inventory` ends without a complete output file. */
  datatype InventoryError =
    | PollingStopped(outcome: PollOutcome)
    | SaveFailed(error: CopyError)

  /**
    `inventory(vault)`: start, then poll, then save the output, in that order
    and on the job `start` returned; the output is fetched only once polling
    is ready. `saved` is the output file's name and content, if it was created.
  */
  method Inventory(
    vault: string, newJobId: string, responses: seq<DescribeResponse>,
    date: string, body: string, failingRead: Option<nat>)
    returns (result: Result<(), InventoryError>, calls: seq<Call>, saved: Option<(string, string)>)
    ensures var outcome := PollFrom(POLICY, responses, 0);
      && calls == [InitiateJob(InventoryRequest(vault))]
                  + DescribeCalls(vault, newJobId, outcome.calls)
                  + (if outcome.Ready? then [GetJobOutput(vault, newJobId)] else [])
      && (!outcome.Ready? ==> result == Err(PollingStopped(outcome)) && saved == None)
      && (outcome.Ready? ==> saved.Some? && saved.value.0 == OutputFileName(vault, date))
    ensures PollFrom(POLICY, responses, 0).Ready? ==>
      && (result.Ok? <==> failingRead.None? || failingRead.value > |Lines(body)|)
      && (result.Err? ==> result == Err(SaveFailed(UnableToSaveArchive))
                          && saved.value.1 == Concat(Lines(body)[..failingRead.value]))
    ensures result.Ok? ==> saved == Some((OutputFileName(vault, date), StripTerminators(body)))
  {
    var job, startCalls := Start(vault, newJobId);
    var outcome, pollCalls := PollStatus(job, responses);
    calls := startCalls + pollCalls;
    if !outcome.Ready? {
      return Err(PollingStopped(outcome)), calls, None;
    }
    var copied, fileName, written, outputCalls := GetOutput(job, date, body, failingRead);
    calls := calls + outputCalls;
    saved := Some((fileName, written));
    result := if copied.Ok? then Ok(()) else Err(SaveFailed(copied.error));
  }
}
