/**
  The stand-alone uploader (GlUpload.java): `main` reads the system
  properties "vault" and "archive", and `upload` sends the archive with the
  description "Glacier backup of <path>" while a progress logger, sized by
  the archive file's length, reports the transfer.

  Its nested `ProgressLogger` is the same code as `Utilities.ProgressLogger`
  and is modelled by that class.
*/
module GlUpload {
  import opened Wrappers
  import opened Strings
  import opened GlacierApi
  import Utilities

  /** How `main`'s argument check ends. */
  datatype PropertyCheck =
    | MissingProperty(name: string)   // NullPointerException from requireNonNull
    | Exit(status: int)               // System.exit after the error message
    | Proceed(vaultName: string, archivePath: string)

  /**
    `main`'s check of the "vault" and "archive" properties (an absent one is
    `None`): each must be present, else `requireNonNull` throws, vault first;
    an empty value ends the program with status 1 before anything is uploaded.
  */
  function CheckProperties(vault: Option<string>, archive: Option<string>): (r: PropertyCheck)
    ensures r.MissingProperty? <==> vault.None? || archive.None?
    ensures r.MissingProperty? ==> r.name == (if vault.None? then "vault" else "archive")
    ensures r.Exit? <==> vault.Some? && archive.Some? && (vault.value == "" || archive.value == "")
    ensures r.Exit? ==> r.status == 1
    ensures r.Proceed? ==> Some(r.vaultName) == vault && Some(r.archivePath) == archive
    ensures r.Proceed? ==> r.vaultName != "" && r.archivePath != ""
  {
    if vault.None? then MissingProperty("vault")
    else if archive.None? then MissingProperty("archive")
    else if vault.value == "" || archive.value == "" then Exit(1)
    else Proceed(vault.value, archive.value)
  }

  class Uploader {
    const archivePath: string
    const glacierVault: string

    constructor (archivePath: string, glacierVault: string)
      ensures this.archivePath == archivePath && this.glacierVault == glacierVault
    {
      this.archivePath := archivePath;
      this.glacierVault := glacierVault;
    }

    /**
      `upload`: the archive file's length is `fileLength`, the transfer
      manager reports `events` and then either answers `newArchiveId` or
      throws (`transferOk` is false), the exception leaving `upload` as it
      is. The description is the one `Utilities.generateArchiveDescription`
      builds for the path.
    */
    method Upload(fileLength: nat, events: seq<Utilities.ProgressEvent>, transferOk: bool, newArchiveId: string)
      returns (result: Result<string, TransferError>, printed: seq<Utilities.Mark>, calls: seq<Call>)
      ensures result.Ok? <==> transferOk
      ensures result.Ok? ==> result.value == newArchiveId
      ensures result.Err? ==> result.error == TransferThrew
      ensures calls == [UploadArchive(glacierVault, Utilities.GenerateArchiveDescription(archivePath), archivePath)]
      ensures printed == Utilities.Run(fileLength, Utilities.INITIAL_STATE, events).1
    {
      var progressLogger := new Utilities.ProgressLogger(fileLength);
      calls := [UploadArchive(glacierVault, "Glacier backup of " + archivePath, archivePath)];
      printed := Utilities.DeliverEvents(progressLogger, events);
      result := if transferOk then Ok(newArchiveId) else Err(TransferThrew);
    }
  }
}
