/**
  The immutable description of one transfer (common/ArchiveInfo.java): the
  vault, the remote archive id (absent for uploads), the local file and its
  size in bytes, with the two factories `ofLocal` and `ofRemote`.

  A `java.io.File` is modelled by its path string; `File.length()` is an input.
*/
module Archive {
  import opened Wrappers
  import opened Strings

  const LONG_MIN: int := -0x8000_0000_0000_0000
  const LONG_MAX: int := 0x7FFF_FFFF_FFFF_FFFF

  predicate IsLong(n: int) {
    LONG_MIN <= n <= LONG_MAX
  }

  /** Java's `NumberFormatException` raised by `Long.parseLong`, with the rejected text. */
  datatype NumberFormatException = NumberFormatException(input: string)

  /**
    Java's `Long.parseLong(s)` in radix 10: an optional sign, then at least
    one digit, and a value that fits in a `long`. A leading '-' negates; a
    leading '+' is accepted and ignored.
  */
  function ParseLong(s: string): (r: Option<int>)
    ensures r.Some? <==> IsSignedDecimal(s) && IsLong(SignedDecimalValue(s))
    ensures r.Some? ==> r.value == SignedDecimalValue(s)
    ensures r.Some? ==> IsLong(r.value)
    ensures r.Some? ==> |s| > 0 && forall i :: 0 < i < |s| ==> IsDigit(s[i])
    ensures r.Some? ==> IsDigit(s[0]) || ((s[0] == '-' || s[0] == '+') && |s| > 1)
  {
    match ParseInteger(s)
    case Some(value) => if IsLong(value) then Some(value) else None
    case None => None
  }

  /** Java's `Long.toString(n)`: a '-' for negative values, then the shortest decimal digits. */
  function LongToString(n: int): (s: string)
    ensures |s| > 0
  {
    if n < 0 then "-" + NatToDecimal(-n) else NatToDecimal(n)
  }

  /** Every `long`, written in decimal, is parsed back to itself. */
  lemma ParseLongRoundTrip(n: int)
    requires IsLong(n)
    ensures ParseLong(LongToString(n)) == Some(n)
  {
    var s := LongToString(n);
    if n < 0 {
      DecimalRoundTrip(-n);
      assert s[1..] == NatToDecimal(-n);
    } else {
      DecimalRoundTrip(n);
    }
  }

  datatype ArchiveInfo = ArchiveInfo(
    vaultName: string,
    remoteArchiveId: Option<string>,
    localArchiveFile: string,
    fileSizeBytes: int)

  /** `ofLocal`: an upload source; no remote id, and the size is the file's current length. */
  function OfLocal(vaultName: string, archivePath: string, fileLength: nat): (info: ArchiveInfo)
    ensures info.remoteArchiveId == None
    ensures info.vaultName == vaultName && info.localArchiveFile == archivePath
    ensures info.fileSizeBytes == fileLength
  {
    ArchiveInfo(vaultName, None, archivePath, fileLength)
  }

  /**
    `ofRemote`: a download target; the archive id and the path are kept as
    given and the size is parsed from its decimal text, so text that is not
    a `long` is a `NumberFormatException` and negative sizes are accepted.
  */
  function OfRemote(vaultName: string, archiveId: string, archivePath: string, fileSizeBytes: string)
    : (r: Result<ArchiveInfo, NumberFormatException>)
    ensures r.Ok? <==> ParseLong(fileSizeBytes).Some?
    ensures r.Ok? ==> r.value.remoteArchiveId == Some(archiveId)
    ensures r.Ok? ==> r.value.vaultName == vaultName && r.value.localArchiveFile == archivePath
    ensures r.Ok? ==> r.value.fileSizeBytes == ParseLong(fileSizeBytes).value
    ensures r.Ok? ==> IsLong(r.value.fileSizeBytes)
    ensures r.Err? ==> r.error == NumberFormatException(fileSizeBytes)
  {
    match ParseLong(fileSizeBytes)
    case Some(size) => Ok(ArchiveInfo(vaultName, Some(archiveId), archivePath, size))
    case None => Err(NumberFormatException(fileSizeBytes))
  }

  /** A size written in decimal by the request's author is read back exactly, negative ones included. */
  lemma {:induction false} OfRemoteSizeRoundTrip(vaultName: string, archiveId: string, archivePath: string, size: int)
    requires IsLong(size)
    ensures OfRemote(vaultName, archiveId, archivePath, LongToString(size))
         == Ok(ArchiveInfo(vaultName, Some(archiveId), archivePath, size))
  {
    ParseLongRoundTrip(size);
  }
}
