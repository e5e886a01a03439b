/**
  The command-line entry point (cli/Entrypoint.java): `parseArgs` checks
  `<action> <vault> [<file>]` and fills the object's fields one check at a
  time; `execute` dispatches on the action, and a download builds the
  archive description from the request file and runs `prepareArchive`, then
  `download`.

  "The file exists and is a regular file" is the input set `regularFiles`;
  reading credentials and the request's JSON is not modelled (the request
  arrives parsed).
*/
module Entrypoint {
  import opened Wrappers
  import opened Archive
  import opened GlacierApi
  import opened Polling
  import opened GlacierDownload
  import Utilities

  const UPLOAD: string := "upload"
  const DOWNLOAD: string := "download"
  const INVENTORY: string := "inventory"

  const NEED_TWO_ARGUMENTS: string := "Need at least 2 arguments"
  const BAD_ACTION: string := "action must be 'upload' or 'download' or 'inventory'"
  const NO_VAULT: string := "Vault name must be provided"
  const NEED_THREE_ARGUMENTS: string := "Need 3 arguments"
  const NOT_A_FILE: string := "Argument file must exist & be a file"

  predicate IsAction(s: string) {
    s == UPLOAD || s == DOWNLOAD || s == INVENTORY
  }

  /** `IllegalArgumentException` with its message. */
  datatype IllegalArgument = IllegalArgument(message: string)

  /** The fields a successful `parseArgs` leaves set. */
  datatype Arguments = Arguments(
    action: string,
    vaultName: string,
    uploadArchive: Option<string>,
    downloadRequestsFile: Option<string>)

  /**
    `parseArgs`: the argument count, then the action, then the vault name,
    then (for upload and download only) the file argument; the first failing
    check decides the message.
  */
  function ParseArgs(args: seq<string>, regularFiles: set<string>): (r: Result<Arguments, IllegalArgument>)
    ensures |args| < 2 ==> r == Err(IllegalArgument(NEED_TWO_ARGUMENTS))
    ensures |args| >= 2 && !IsAction(args[0]) ==> r == Err(IllegalArgument(BAD_ACTION))
    ensures |args| >= 2 && IsAction(args[0]) && args[1] == "" ==> r == Err(IllegalArgument(NO_VAULT))
    ensures |args| == 2 && (args[0] == UPLOAD || args[0] == DOWNLOAD) && args[1] != ""
            ==> r == Err(IllegalArgument(NEED_THREE_ARGUMENTS))
    ensures |args| >= 3 && (args[0] == UPLOAD || args[0] == DOWNLOAD) && args[1] != "" && args[2] !in regularFiles
            ==> r == Err(IllegalArgument(NOT_A_FILE))
    ensures r.Ok? <==>
      && |args| >= 2 && IsAction(args[0]) && args[1] != ""
      && (args[0] != INVENTORY ==> |args| >= 3 && args[2] in regularFiles)
    ensures r.Ok? ==> r.value.action == args[0] && r.value.vaultName == args[1]
    ensures r.Ok? ==> r.value.uploadArchive == (if args[0] == UPLOAD then Some(args[2]) else None)
    ensures r.Ok? ==> r.value.downloadRequestsFile == (if args[0] == DOWNLOAD then Some(args[2]) else None)
  {
    if |args| < 2 then Err(IllegalArgument(NEED_TWO_ARGUMENTS))
    else if !IsAction(args[0]) then Err(IllegalArgument(BAD_ACTION))
    else if args[1] == "" then Err(IllegalArgument(NO_VAULT))
    else if args[0] == INVENTORY then Ok(Arguments(args[0], args[1], None, None))
    else if |args| < 3 then Err(IllegalArgument(NEED_THREE_ARGUMENTS))
    else if args[2] !in regularFiles then Err(IllegalArgument(NOT_A_FILE))
    else if args[0] == UPLOAD then Ok(Arguments(args[0], args[1], Some(args[2]), None))
    else Ok(Arguments(args[0], args[1], None, Some(args[2])))
  }

  /** An inventory needs no file argument and ignores everything after the vault name. */
  lemma InventoryIgnoresExtraArguments(vault: string, extra: seq<string>, regularFiles: set<string>)
    requires vault != ""
    ensures ParseArgs([INVENTORY, vault] + extra, regularFiles) == Ok(Arguments(INVENTORY, vault, None, None))
  {
    var args := [INVENTORY, vault] + extra;
    assert args[0] == INVENTORY && args[1] == vault;
  }

  /** Upload and download accept exactly a third argument naming a regular file; more arguments are ignored. */
  lemma TransferNeedsRegularFile(action: string, vault: string, rest: seq<string>, regularFiles: set<string>)
    requires action == UPLOAD || action == DOWNLOAD
    requires vault != ""
    ensures ParseArgs([action, vault] + rest, regularFiles).Ok? <==> |rest| >= 1 && rest[0] in regularFiles
  {
    var args := [action, vault] + rest;
    assert args[0] == action && args[1] == vault;
    if |rest| >= 1 {
      assert args[2] == rest[0];
    }
  }

  /** What `execute` does once the arguments are parsed. */
  datatype Plan =
    | UploadPlan(vaultName: string, archive: string)
    | DownloadPlan(vaultName: string, requestsFile: string)
    | InventoryPlan(vaultName: string)

  /** `execute`'s switch on the parsed action. */
  function Dispatch(a: Arguments): (p: Plan)
    requires IsAction(a.action)
    requires a.action == UPLOAD ==> a.uploadArchive.Some?
    requires a.action == DOWNLOAD ==> a.downloadRequestsFile.Some?
    ensures p.vaultName == a.vaultName
    ensures p.UploadPlan? <==> a.action == UPLOAD
    ensures p.DownloadPlan? <==> a.action == DOWNLOAD
    ensures p.InventoryPlan? <==> a.action == INVENTORY
    ensures p.UploadPlan? ==> Some(p.archive) == a.uploadArchive
    ensures p.DownloadPlan? ==> Some(p.requestsFile) == a.downloadRequestsFile
  {
    if a.action == UPLOAD then UploadPlan(a.vaultName, a.uploadArchive.value)
    else if a.action == DOWNLOAD then DownloadPlan(a.vaultName, a.downloadRequestsFile.value)
    else InventoryPlan(a.vaultName)
  }

  /**
    Every accepted command line leads to the operation it names, on the
    vault it names and, for transfers, on the regular file it names.
  */
  lemma AcceptedArgumentsDispatch(args: seq<string>, regularFiles: set<string>)
    requires ParseArgs(args, regularFiles).Ok?
    ensures var a := ParseArgs(args, regularFiles).value;
      IsAction(a.action)
      && (a.action == UPLOAD ==> a.uploadArchive.Some?)
      && (a.action == DOWNLOAD ==> a.downloadRequestsFile.Some?)
      && match Dispatch(a)
         case UploadPlan(v, f) => args[0] == UPLOAD && v == args[1] && f == args[2] && f in regularFiles
         case DownloadPlan(v, f) => args[0] == DOWNLOAD && v == args[1] && f == args[2] && f in regularFiles
         case InventoryPlan(v) => args[0] == INVENTORY && v == args[1]
  {
  }

  /** `DownloadArchiveRequest` as read from the request file. */
  datatype DownloadArchiveRequest = DownloadArchiveRequest(archiveId: string, localFileName: string, fileSize: string)

  /** Why a download run ends without the archive. */
  datatype DownloadRunError =
    | BadFileSize(sizeError: NumberFormatException)
    | RetrievalFailed(retrievalError: DownloadError)

  /** The object `execute` works on: the four fields `parseArgs` assigns, `null` being `None`. */
  class Cli {
    var action: Option<string>
    var vaultName: Option<string>
    var uploadArchive: Option<string>
    var downloadRequestsFile: Option<string>

    constructor ()
      ensures action == None && vaultName == None && uploadArchive == None && downloadRequestsFile == None
    {
      action := None;
      vaultName := None;
      uploadArchive := None;
      downloadRequestsFile := None;
    }

    /**
      `parseArgs` on the object: each field is assigned as soon as its check
      passes, so a rejected vault name leaves the action set, and a rejected
      file leaves action and vault set. A transfer sets only its own file field.
    */
    method ParseArgsInto(args: seq<string>, regularFiles: set<string>) returns (r: Result<(), IllegalArgument>)
      modifies this
      ensures var spec := ParseArgs(args, regularFiles);
        && (r.Ok? <==> spec.Ok?)
        && (r.Err? ==> r.error == spec.error)
      ensures action == (if |args| >= 2 && IsAction(args[0]) then Some(args[0]) else old(action))
      ensures vaultName == (if |args| >= 2 && IsAction(args[0]) && args[1] != "" then Some(args[1]) else old(vaultName))
      ensures uploadArchive == (if r.Ok? && args[0] == UPLOAD then Some(args[2]) else old(uploadArchive))
      ensures downloadRequestsFile == (if r.Ok? && args[0] == DOWNLOAD then Some(args[2]) else old(downloadRequestsFile))
    {
      if |args| < 2 {
        return Err(IllegalArgument(NEED_TWO_ARGUMENTS));
      }
      var a := args[0];
      if !IsAction(a) {
        return Err(IllegalArgument(BAD_ACTION));
      }
      action := Some(a);
      var v := args[1];
      if v == "" {
        return Err(IllegalArgument(NO_VAULT));
      }
      vaultName := Some(v);
      if a == UPLOAD || a == DOWNLOAD {
        if |args| < 3 {
          return Err(IllegalArgument(NEED_THREE_ARGUMENTS));
        }
        var argFile := args[2];
        if argFile !in regularFiles {
          return Err(IllegalArgument(NOT_A_FILE));
        }
        if a == UPLOAD {
          uploadArchive := Some(argFile);
        } else {
          downloadRequestsFile := Some(argFile);
        }
      }
      r := Ok(());
    }
  }

  /**
    `doDownload`: the archive description comes from the parsed request,
    then `prepareArchive` and, once it returned a job id, `download` of that
    job. The archive is downloaded, and its job file deleted, only when
    every step succeeds; a job that does not become ready downloads nothing.
  */
  method DoDownload(
    vaultName: string, request: DownloadArchiveRequest, store: JobFileStore,
    now: int, newJobId: string, responses: seq<DescribeResponse>,
    events: seq<Utilities.ProgressEvent>, transferOk: bool)
    returns (result: Result<string, DownloadRunError>, calls: seq<Call>)
    modifies store
    ensures match OfRemote(vaultName, request.archiveId, request.localFileName, request.fileSize)
      case Err(e) => result == Err(BadFileSize(e)) && calls == [] && store.files == old(store.files)
      case Ok(info) =>
        var choice := ChooseJob(old(store.files), info, now);
        var outcome := PollFrom(RETRIEVAL_POLICY, responses, 0);
        var ready := !choice.ReadFailed? && outcome.Ready?;
        && (result.Ok? <==> ready && transferOk)
        && (result.Ok? ==> result.value == (if choice.Resume? then choice.jobId else newJobId))
        && (result.Ok? ==> |calls| > 0 && calls[|calls| - 1] == DownloadJobOutput(vaultName, result.value, request.localFileName))
        && (result.Ok? ==> JobFileName(info) !in store.files)
        && (forall k :: 0 <= k < |calls| && calls[k].DownloadJobOutput? ==> ready)
        && (choice.StartNew? && !outcome.Ready? ==>
              JobFileName(info) in store.files && store.files[JobFileName(info)] == WrittenJobFile(info, newJobId, now))
  {
    calls := [];
    var parsed := OfRemote(vaultName, request.archiveId, request.localFileName, request.fileSize);
    if parsed.Err? {
      return Err(BadFileSize(parsed.error)), calls;
    }
    var info := parsed.value;
    var glacierDownload := new GlacierDownloader(info, store);
    ghost var choice := ChooseJob(old(store.files), info, now);
    var prepared, prepareCalls := glacierDownload.PrepareArchive(now, newJobId, responses);
    calls := prepareCalls;
    if prepared.Err? {
      return Err(RetrievalFailed(prepared.error)), calls;
    }
    var jobId := prepared.value;
    var downloaded, _, downloadCalls := glacierDownload.Download(jobId, events, transferOk);
    calls := calls + downloadCalls;
    if downloaded.Err? {
      return Err(RetrievalFailed(downloaded.error)), calls;
    }
    result := Ok(jobId);
  }
}
