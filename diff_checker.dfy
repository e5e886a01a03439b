/**
  The inventory comparison script (python/diff_checker.py). `load_local`
  reads lines "<KiB> <name>" into a dict from normalised names to bytes;
  `load_remote` reads a vault inventory's archives into a dict from the
  description, with the backup prefix and ".zip" removed, to the size;
  `compare_archives` reports local archives missing remotely or differing in
  size by more than 2 MiB, then remote archives missing locally.

  The files arrive already read: the local listing as its lines (each with
  its terminator, as iterating a text file yields them) and the inventory as
  its list of (description, size) entries. The printed lines are `Report`s.
*/
module DiffChecker {
  import opened Wrappers
  import opened Strings
  import opened OrderedDict
  import Utilities

  /** `SIZE_DIFF_THRESHOLD`: 2 MiB. */
  const SIZE_DIFF_THRESHOLD: int := 2 * 1024 * 1024

  /** Python's `ValueError`, with the text it was raised for. */
  datatype ValueError = ValueError(input: string)

  // `str.split(maxsplit=1)`

  function SkipSpace(s: string, i: nat): (j: nat)
    requires i <= |s|
    ensures i <= j <= |s|
    ensures forall k :: i <= k < j ==> IsPythonWhitespace(s[k])
    ensures j < |s| ==> !IsPythonWhitespace(s[j])
    decreases |s| - i
  {
    if i == |s| || !IsPythonWhitespace(s[i]) then i else SkipSpace(s, i + 1)
  }

  function WordEnd(s: string, i: nat): (j: nat)
    requires i <= |s|
    ensures i <= j <= |s|
    ensures forall k :: i <= k < j ==> !IsPythonWhitespace(s[k])
    ensures j < |s| ==> IsPythonWhitespace(s[j])
    decreases |s| - i
  {
    if i == |s| || IsPythonWhitespace(s[i]) then i else WordEnd(s, i + 1)
  }

  /**
    `s.split(maxsplit=1)`: leading whitespace is skipped, the first word ends
    at the next whitespace, and what follows the whitespace after it, if
    anything, is the second part, trailing whitespace included.
  */
  function SplitOnce(s: string): (parts: seq<string>)
    ensures |parts| <= 2
    ensures forall i :: 0 <= i < |parts| ==> parts[i] != []
    ensures |parts| >= 1 ==> forall k :: 0 <= k < |parts[0]| ==> !IsPythonWhitespace(parts[0][k])
    ensures |parts| == 2 ==> !IsPythonWhitespace(parts[1][0]) && EndsWith(s, parts[1])
    ensures parts == [] <==> forall k :: 0 <= k < |s| ==> IsPythonWhitespace(s[k])
  {
    var start := SkipSpace(s, 0);
    if start == |s| then []
    else
      var e := WordEnd(s, start);
      var rest := SkipSpace(s, e);
      if rest == |s| then [s[start..e]] else [s[start..e], s[rest..]]
  }

  lemma WordEndAt(s: string, i: nat, j: nat)
    requires i <= j < |s| && IsPythonWhitespace(s[j])
    requires forall k :: i <= k < j ==> !IsPythonWhitespace(s[k])
    ensures WordEnd(s, i) == j
  {
  }

  lemma SkipSpaceAt(s: string, i: nat, j: nat)
    requires i <= j < |s| && !IsPythonWhitespace(s[j])
    requires forall k :: i <= k < j ==> IsPythonWhitespace(s[k])
    ensures SkipSpace(s, i) == j
  {
  }

  /**
    A word, a run of whitespace and a rest that starts with a non-space
    split back into the word and the rest, whatever spaces the rest holds.
  */
  lemma SplitOnceJoin(word: string, gap: string, rest: string)
    requires word != [] && forall k :: 0 <= k < |word| ==> !IsPythonWhitespace(word[k])
    requires gap != [] && forall k :: 0 <= k < |gap| ==> IsPythonWhitespace(gap[k])
    requires rest != [] && !IsPythonWhitespace(rest[0])
    ensures SplitOnce(word + gap + rest) == [word, rest]
  {
    var s := word + gap + rest;
    assert s[0] == word[0];
    assert forall k :: 0 <= k < |word| ==> s[k] == word[k];
    assert forall k :: |word| <= k < |word| + |gap| ==> s[k] == gap[k - |word|];
    assert s[|word| + |gap|] == rest[0];
    WordEndAt(s, 0, |word|);
    SkipSpaceAt(s, |word|, |word| + |gap|);
    assert s[0..|word|] == word;
    assert s[|word| + |gap|..] == rest;
  }

  // Name normalisation

  /** A character that is not in a text is not in any prefix of it. */
  lemma AbsentFromPrefix(s: string, r: string, c: char)
    requires StartsWith(s, r) && c !in s
    ensures c !in r
  {
    assert r == s[..|r|];
  }

  /**
    `name.replace('./', '').replace('$', '').replace('"', '-').rstrip()`:
    no '$' or '"' is left and the name does not end in whitespace.
  */
  function Normalise(name: string): (r: string)
    ensures '$' !in r && '"' !in r
    ensures r == [] || !IsPythonWhitespace(r[|r| - 1])
  {
    var noDotSlash := ReplaceAll(name, "./", "");
    var noDollar := ReplaceAll(noDotSlash, "$", "");
    var dashed := ReplaceAll(noDollar, "\"", "-");
    ReplaceAllRemovesChar(noDotSlash, '$', "");
    ReplaceAllKeepsAbsent(noDollar, "\"", "-", '$');
    ReplaceAllRemovesChar(noDollar, '"', "-");
    AbsentFromPrefix(dashed, RStrip(dashed), '$');
    AbsentFromPrefix(dashed, RStrip(dashed), '"');
    RStrip(dashed)
  }

  predicate IsNormalName(name: string) {
    && !Contains(name, "./") && '$' !in name && '"' !in name
    && (name == [] || !IsPythonWhitespace(name[|name| - 1]))
  }

  lemma CharNotContained(s: string, c: char)
    requires c !in s
    ensures !Contains(s, [c])
  {
    forall i: nat | i <= |s| ensures !OccursAt(s, [c], i) {
      if i + 1 <= |s| {
        assert s[i..i + 1][0] == s[i];
      }
    }
  }

  /** A name that is already normal is left as it is. */
  lemma NormaliseKeepsNormalName(name: string)
    requires IsNormalName(name)
    ensures Normalise(name) == name
  {
    ReplaceAllAbsent(name, "./", "");
    CharNotContained(name, '$');
    ReplaceAllAbsent(name, "$", "");
    CharNotContained(name, '"');
    ReplaceAllAbsent(name, "\"", "-");
  }

  /**
    For a name with no "./" and no '$', normalising turns each '"' into '-'
    and strips trailing whitespace, and does nothing else.
  */
  lemma NormaliseReplacesQuotes(name: string)
    requires !Contains(name, "./") && '$' !in name
    ensures Normalise(name) == RStrip(ReplaceChar(name, '"', '-'))
  {
    ReplaceAllAbsent(name, "./", "");
    CharNotContained(name, '$');
    ReplaceAllAbsent(name, "$", "");
    ReplaceAllOneChar(name, '"', '-');
  }

  lemma DotSlashKeptApart()
    ensures ReplaceAll(".$/", "./", "") == ".$/"
  {
    assert ReplaceAll("/", "./", "") == "/";
    assert ReplaceAll("$/", "./", "") == "$/" by {
      assert "$/"[..2] != "./" by { assert "$/"[..2][0] == '$'; }
      assert "$/"[1..] == "/";
    }
    assert ".$/"[..2] != "./" by { assert ".$/"[..2][1] == '$'; }
    assert ".$/"[1..] == "$/";
  }

  lemma DollarRemoved()
    ensures ReplaceAll(".$/", "$", "") == "./"
  {
    assert ReplaceAll("/", "$", "") == "/" by {
      assert "/"[..1] != "$" by { assert "/"[..1][0] == '/'; }
      assert "/"[1..] == "";
    }
    assert ReplaceAll("$/", "$", "") == "/" by {
      assert "$/"[..1] == "$";
      assert "$/"[1..] == "/";
    }
    assert ".$/"[..1] != "$" by { assert ".$/"[..1][0] == '.'; }
    assert ".$/"[1..] == "$/";
  }

  lemma NoQuoteInDotSlash()
    ensures ReplaceAll("./", "\"", "-") == "./"
    ensures RStrip("./") == "./"
  {
    CharNotContained("./", '"');
    ReplaceAllAbsent("./", "\"", "-");
  }

  lemma DotSlashRemoved()
    ensures Normalise("./") == ""
  {
    ReplaceAllLeading("./", "", "");
    assert "./" + "" == "./";
  }

  /**
    Normalising is not idempotent: removing '$' can bring a "./" together
    that a second normalisation would remove.
  */
  lemma NormaliseNotIdempotent()
    ensures Normalise(".$/") == "./"
    ensures Normalise(Normalise(".$/")) == ""
  {
    DotSlashKeptApart();
    DollarRemoved();
    NoQuoteInDotSlash();
    DotSlashRemoved();
  }

  // load_local

  /**
    One local line: split into the size in KiB and the rest; `int()` of the
    size, times 1024 bytes, and the normalised rest as the name. A line
    without two parts, or whose first part is not an integer, raises
    `ValueError`.
  */
  function ParseLocalLine(line: string): (r: Result<(string, int), ValueError>)
    ensures r.Ok? ==> r.value.1 % 1024 == 0
    ensures r.Ok? ==> '$' !in r.value.0 && '"' !in r.value.0
    ensures |SplitOnce(line)| != 2 ==> r == Err(ValueError(line))
    ensures var parts := SplitOnce(line);
      |parts| == 2 ==> (r.Ok? <==> IsSignedDecimal(parts[0]))
    ensures var parts := SplitOnce(line);
      r.Ok? ==> |parts| == 2 && r.value == (Normalise(parts[1]), 1024 * SignedDecimalValue(parts[0]))
  {
    var parts := SplitOnce(line);
    if |parts| != 2 then Err(ValueError(line))
    else
      match ParseInteger(parts[0])
      case None => Err(ValueError(parts[0]))
      case Some(kib) => Ok(LocalPair(kib, parts[1]))
  }

  /** The pair of a line read as KiB and name: bytes are whole KiB, the name is normalised. */
  function LocalPair(kib: int, rest: string): (p: (string, int))
    ensures p.1 % 1024 == 0 && p.1 / 1024 == kib
    ensures '$' !in p.0 && '"' !in p.0
  {
    (Normalise(rest), kib * 1024)
  }

  /**
    A line written as "<KiB> <name>\n", for a normal name that does not start
    with whitespace, is read back as that name and KiB times 1024 bytes;
    spaces inside the name are kept.
  */
  lemma LocalLineRoundTrip(kib: nat, name: string)
    requires name != [] && !IsPythonWhitespace(name[0]) && IsNormalName(name)
    ensures ParseLocalLine(NatToDecimal(kib) + " " + name + "\n") == Ok((name, kib * 1024))
  {
    var digits := NatToDecimal(kib);
    var rest := name + "\n";
    assert rest[0] == name[0];
    SplitOnceJoin(digits, " ", rest);
    assert digits + " " + name + "\n" == digits + " " + rest;
    DecimalRoundTrip(kib);
    // the trailing newline adds no "./", '$' or '"', and `rstrip` removes it
    NotContainsAppend(name, "./", '\n');
    assert rest == name + ['\n'];
    NormaliseKeepsTrailingNewline(name);
  }

  lemma NormaliseKeepsTrailingNewline(name: string)
    requires name != [] && IsNormalName(name) && !Contains(name + "\n", "./")
    ensures Normalise(name + "\n") == name
  {
    var s := name + "\n";
    ReplaceAllAbsent(s, "./", "");
    CharNotContained(s, '$');
    ReplaceAllAbsent(s, "$", "");
    CharNotContained(s, '"');
    ReplaceAllAbsent(s, "\"", "-");
    assert s[..|s| - 1] == name;
  }

  /** The pairs of a listing, or the error of its first bad line. */
  function ParseLocalLines(lines: seq<string>): (r: Result<seq<(string, int)>, ValueError>)
    ensures r.Ok? ==> |r.value| == |lines|
  {
    if lines == [] then Ok([])
    else
      match ParseLocalLines(lines[..|lines| - 1])
      case Err(e) => Err(e)
      case Ok(pairs) =>
        match ParseLocalLine(lines[|lines| - 1])
        case Err(e) => Err(e)
        case Ok(p) => Ok(pairs + [p])
  }

  /** A listing that parses gives one pair per line, each the parse of its line. */
  lemma {:induction false} ParseLocalLinesEach(lines: seq<string>, i: nat)
    requires ParseLocalLines(lines).Ok? && i < |lines|
    ensures ParseLocalLine(lines[i]) == Ok(ParseLocalLines(lines).value[i])
  {
    var n := |lines| - 1;
    var init := lines[..n];
    var last := lines[n];
    assert |init| == n;
    var p := ParseLocalLine(last);
    assert ParseLocalLines(init).Ok? && p.Ok?;
    var pairs := ParseLocalLines(init).value;
    var all := pairs + [p.value];
    assert ParseLocalLines(lines) == Ok(all);
    if i < |init| {
      ParseLocalLinesEach(init, i);
      assert init[i] == lines[i];
      assert all[i] == pairs[i];
    } else {
      assert i == n;
      assert all[i] == p.value;
    }
  }

  /** Once a line fails, the whole listing fails with its error. */
  lemma {:induction false} FirstErrorStops(lines: seq<string>, n: nat)
    requires n <= |lines| && ParseLocalLines(lines[..n]).Err?
    ensures ParseLocalLines(lines) == ParseLocalLines(lines[..n])
    decreases |lines| - n
  {
    if n < |lines| {
      assert lines[..n + 1][..n] == lines[..n];
      FirstErrorStops(lines, n + 1);
    } else {
      assert lines[..n] == lines;
    }
  }

  /** What `load_local` returns for a listing. */
  function LoadLocalSpec(lines: seq<string>): Result<Dict, ValueError> {
    match ParseLocalLines(lines)
    case Err(e) => Err(e)
    case Ok(pairs) => Ok(FromPairs(pairs))
  }

  /** `load_local`: one dict assignment per line, stopping at the first bad line. */
  method LoadLocal(lines: seq<string>) returns (r: Result<Dict, ValueError>)
    ensures r == LoadLocalSpec(lines)
  {
    var archives := EMPTY;
    ghost var pairs: seq<(string, int)> := [];
    var i := 0;
    while i < |lines|
      invariant 0 <= i <= |lines|
      invariant ParseLocalLines(lines[..i]) == Ok(pairs)
      invariant archives == FromPairs(pairs)
    {
      assert lines[..i + 1][..i] == lines[..i];
      var parsed := ParseLocalLine(lines[i]);
      if parsed.Err? {
        FirstErrorStops(lines, i + 1);
        return Err(parsed.error);
      }
      archives := Put(archives, parsed.value.0, parsed.value.1);
      FromPairsSnoc(pairs, parsed.value);
      pairs := pairs + [parsed.value];
      i := i + 1;
    }
    assert lines[..i] == lines;
    r := Ok(archives);
  }

  /**
    A name listed on several lines gets the size of the last of them; every
    name of the dict comes from some line.
  */
  lemma LocalLastLineWins(lines: seq<string>, i: nat)
    requires i < |lines| && ParseLocalLines(lines).Ok?
    requires forall j :: i < j < |lines| ==>
      ParseLocalLines(lines).value[j].0 != ParseLocalLines(lines).value[i].0
    ensures ParseLocalLine(lines[i]).Ok?
    ensures var d := LoadLocalSpec(lines).value;
      var (name, size) := ParseLocalLine(lines[i]).value;
      name in d.values && d.values[name] == size
  {
    ParseLocalLinesEach(lines, i);
    LastValueWins(ParseLocalLines(lines).value, i);
  }

  // load_remote

  /** One entry of the inventory's "ArchiveList": its description and size. */
  datatype RemoteArchive = RemoteArchive(description: string, size: int)

  /** `description.replace('Glacier backup of ', '').replace('.zip', '')`. */
  function RemoteName(description: string): string {
    ReplaceAll(ReplaceAll(description, Utilities.BACKUP_DESCRIPTION_PREFIX, ""), ".zip", "")
  }

  function RemotePairs(archives: seq<RemoteArchive>): (pairs: seq<(string, int)>)
    ensures |pairs| == |archives|
    ensures forall i :: 0 <= i < |archives| ==>
      pairs[i] == (RemoteName(archives[i].description), archives[i].size)
  {
    seq(|archives|, i requires 0 <= i < |archives| => (RemoteName(archives[i].description), archives[i].size))
  }

  /** `load_remote`: one dict assignment per archive, in inventory order. */
  method LoadRemote(archives: seq<RemoteArchive>) returns (d: Dict)
    ensures d == FromPairs(RemotePairs(archives))
  {
    ghost var pairs := RemotePairs(archives);
    d := EMPTY;
    var i := 0;
    while i < |archives|
      invariant 0 <= i <= |archives|
      invariant d == FromPairs(pairs[..i])
    {
      var name := RemoteName(archives[i].description);
      var sizeBytes := archives[i].size;
      assert pairs[..i + 1][..i] == pairs[..i];
      assert pairs[..i + 1][i] == (name, sizeBytes);
      assert FromPairs(pairs[..i + 1]) == Put(FromPairs(pairs[..i]), name, sizeBytes);
      d := Put(d, name, sizeBytes);
      i := i + 1;
    }
    assert pairs[..i] == pairs;
  }

  /** A text with no ' ' appended creates no occurrence of a pattern ending in ' '. */
  lemma {:induction false} NotContainsAppendText(s: string, t: string, p: string)
    requires |p| > 0 && p[|p| - 1] !in t && !Contains(s, p)
    ensures !Contains(s + t, p)
    decreases |t|
  {
    if t != [] {
      var init := t[..|t| - 1];
      assert forall k :: 0 <= k < |init| ==> init[k] == t[k];
      NotContainsAppendText(s, init, p);
      NotContainsAppend(s + init, p, t[|t| - 1]);
      assert s + t == (s + init) + [t[|t| - 1]];
    } else {
      assert s + t == s;
    }
  }

  /** Removing ".zip" from a stem followed by ".zip" gives back the stem when it holds no ".zip" itself. */
  lemma {:induction false} StripZipSuffix(stem: string)
    requires !Contains(stem, ".zip")
    ensures ReplaceAll(stem + ".zip", ".zip", "") == stem
    decreases |stem|
  {
    var s := stem + ".zip";
    if stem == [] {
      assert s == ".zip" + "";
      ReplaceAllLeading(".zip", "", "");
    } else {
      assert s[..4] != ".zip" by {
        if |stem| >= 4 {
          assert s[..4] == stem[0..4];
          assert !OccursAt(stem, ".zip", 0);
        } else {
          assert s[|stem|] == '.';
          assert s[..4][|stem|] == '.';
        }
      }
      assert !Contains(stem[1..], ".zip") by {
        forall i: nat | i <= |stem[1..]| && OccursAt(stem[1..], ".zip", i) ensures false {
          assert i + 5 <= |stem|;
          assert stem[1..][i..i + 4] == stem[i + 1..i + 5];
          assert stem[i + 1..i + 5] == ".zip";
          assert OccursAt(stem, ".zip", i + 1);
        }
      }
      StripZipSuffix(stem[1..]);
      assert s[1..] == stem[1..] + ".zip";
      assert [s[0]] + stem[1..] == stem;
    }
  }

  /**
    The name `load_remote` derives from a description made by
    `generateArchiveDescription` for a path that does not contain the backup
    prefix text: the path with every ".zip" removed, and for "<stem>.zip"
    with no ".zip" in the stem, exactly the stem.
  */
  lemma RemoteNameOfGeneratedDescription(path: string, stem: string)
    requires !Contains(path, Utilities.BACKUP_DESCRIPTION_PREFIX)
    ensures RemoteName(Utilities.GenerateArchiveDescription(path)) == ReplaceAll(path, ".zip", "")
    ensures path == stem + ".zip" && !Contains(stem, ".zip") ==>
      RemoteName(Utilities.GenerateArchiveDescription(path)) == stem
  {
    ReplaceAllLeading(Utilities.BACKUP_DESCRIPTION_PREFIX, path, "");
    ReplaceAllAbsent(path, Utilities.BACKUP_DESCRIPTION_PREFIX, "");
    assert ReplaceAll(Utilities.GenerateArchiveDescription(path), Utilities.BACKUP_DESCRIPTION_PREFIX, "") == path by {
      assert "" + path == path;
    }
    if path == stem + ".zip" && !Contains(stem, ".zip") {
      StripZipSuffix(stem);
    }
  }

  /** A name without the prefix text and without ".zip" comes back unchanged. */
  lemma RemoteNameOfPlainPath(path: string)
    requires !Contains(path, Utilities.BACKUP_DESCRIPTION_PREFIX) && !Contains(path, ".zip")
    ensures RemoteName(Utilities.GenerateArchiveDescription(path)) == path
  {
    RemoteNameOfGeneratedDescription(path, path);
    ReplaceAllAbsent(path, ".zip", "");
  }

  // compare_archives

  /** One printed line of `compare_archives`. */
  datatype Report =
    | MissingFromRemote(name: string)   // "[ERROR] <name> is missing from remote"
    | SizeDiffers(name: string)         // "[WARN] <name> size difference is greater than ..."
    | MissingFromLocal(name: string)    // "[WARN] <name> is there in remote, but not in local."

  function Abs(x: int): nat {
    if x < 0 then -x else x
  }

  predicate SizesDiffer(localSize: int, remoteSize: int) {
    Abs(localSize - remoteSize) > SIZE_DIFF_THRESHOLD
  }

  /** The reports of the first loop, over the local names in order. */
  function LocalReports(names: seq<string>, local: Dict, remote: Dict): (r: seq<Report>)
    requires forall i :: 0 <= i < |names| ==> names[i] in local.values
    ensures forall i :: 0 <= i < |r| ==> !r[i].MissingFromLocal?
  {
    if names == [] then []
    else
      var init := names[..|names| - 1];
      var name := names[|names| - 1];
      LocalReports(init, local, remote) +
        (if name !in remote.values then [MissingFromRemote(name)]
         else if SizesDiffer(local.values[name], remote.values[name]) then [SizeDiffers(name)]
         else [])
  }

  /** The reports of the second loop, over the remote names in order. */
  function RemoteReports(names: seq<string>, local: Dict): (r: seq<Report>)
    ensures forall i :: 0 <= i < |r| ==> r[i].MissingFromLocal?
  {
    if names == [] then []
    else
      var init := names[..|names| - 1];
      var name := names[|names| - 1];
      RemoteReports(init, local) + (if name !in local.values then [MissingFromLocal(name)] else [])
  }

  ghost function Reports(local: Dict, remote: Dict): seq<Report>
    requires Valid(local)
  {
    LocalReports(local.keys, local, remote) + RemoteReports(remote.keys, local)
  }

  /** `compare_archives(local, remote)`: the reports it prints, in order. */
  method CompareArchives(local: Dict, remote: Dict) returns (reports: seq<Report>)
    requires Valid(local) && Valid(remote)
    ensures reports == Reports(local, remote)
  {
    var localPart := CompareLocal(local, remote);
    var remotePart := CompareRemote(local, remote);
    reports := localPart + remotePart;
  }

  /** The first loop of `compare_archives`, over the local names. */
  method CompareLocal(local: Dict, remote: Dict) returns (reports: seq<Report>)
    requires Valid(local)
    ensures reports == LocalReports(local.keys, local, remote)
  {
    reports := [];
    var i := 0;
    while i < |local.keys|
      invariant 0 <= i <= |local.keys|
      invariant reports == LocalReports(local.keys[..i], local, remote)
    {
      var name := local.keys[i];
      var localSize := local.values[name];
      assert local.keys[..i + 1][..i] == local.keys[..i];
      i := i + 1;
      if name !in remote.values {
        reports := reports + [MissingFromRemote(name)];
        continue;
      }
      var remoteSize := remote.values[name];
      if Abs(localSize - remoteSize) > SIZE_DIFF_THRESHOLD {
        reports := reports + [SizeDiffers(name)];
      }
    }
    assert local.keys[..i] == local.keys;
  }

  /** The second loop of `compare_archives`, over the remote names. */
  method CompareRemote(local: Dict, remote: Dict) returns (reports: seq<Report>)
    ensures reports == RemoteReports(remote.keys, local)
  {
    reports := [];
    var j := 0;
    while j < |remote.keys|
      invariant 0 <= j <= |remote.keys|
      invariant reports == RemoteReports(remote.keys[..j], local)
    {
      var name := remote.keys[j];
      assert remote.keys[..j + 1][..j] == remote.keys[..j];
      if name !in local.values {
        reports := reports + [MissingFromLocal(name)];
      }
      j := j + 1;
    }
    assert remote.keys[..j] == remote.keys;
  }

  lemma {:induction false} LocalReportsMembers(names: seq<string>, local: Dict, remote: Dict, n: string)
    requires forall i :: 0 <= i < |names| ==> names[i] in local.values
    ensures MissingFromRemote(n) in LocalReports(names, local, remote) <==> n in names && n !in remote.values
    ensures SizeDiffers(n) in LocalReports(names, local, remote) <==>
      n in names && n in remote.values && SizesDiffer(local.values[n], remote.values[n])
  {
    if names != [] {
      var init := names[..|names| - 1];
      assert names == init + [names[|names| - 1]];
      LocalReportsMembers(init, local, remote, n);
    }
  }

  lemma {:induction false} RemoteReportsMembers(names: seq<string>, local: Dict, n: string)
    ensures MissingFromLocal(n) in RemoteReports(names, local) <==> n in names && n !in local.values
  {
    if names != [] {
      var init := names[..|names| - 1];
      assert names == init + [names[|names| - 1]];
      RemoteReportsMembers(init, local, n);
    }
  }

  /**
    What is reported about a name: an error when only the local side has
    it, a size warning when both have it and the sizes differ by more than
    2 MiB (a difference of exactly 2 MiB is silent), a warning when only the
    remote side has it, and nothing else.
  */
  lemma ReportsCharacterised(local: Dict, remote: Dict, n: string)
    requires Valid(local) && Valid(remote)
    ensures MissingFromRemote(n) in Reports(local, remote) <==> n in local.values && n !in remote.values
    ensures SizeDiffers(n) in Reports(local, remote) <==>
      n in local.values && n in remote.values && SizesDiffer(local.values[n], remote.values[n])
    ensures MissingFromLocal(n) in Reports(local, remote) <==> n in remote.values && n !in local.values
  {
    var l := LocalReports(local.keys, local, remote);
    var r := RemoteReports(remote.keys, local);
    LocalReportsMembers(local.keys, local, remote, n);
    RemoteReportsMembers(remote.keys, local, n);
    assert MissingFromRemote(n) in l + r <==> MissingFromRemote(n) in l;
    assert SizeDiffers(n) in l + r <==> SizeDiffers(n) in l;
    assert MissingFromLocal(n) in l + r <==> MissingFromLocal(n) in r;
  }

  /** Every report about a local archive comes before every report about a remote-only one. */
  lemma LocalReportsFirst(local: Dict, remote: Dict)
    requires Valid(local)
    ensures var r := Reports(local, remote);
      forall i, j :: 0 <= i < j < |r| && r[i].MissingFromLocal? ==> r[j].MissingFromLocal?
  {
    var l := LocalReports(local.keys, local, remote);
    var r := RemoteReports(remote.keys, local);
    var all: seq<Report> := l + r;
    forall i, j | 0 <= i < j < |all|
      ensures all[i].MissingFromLocal? ==> all[j].MissingFromLocal?
    {
      if j < |l| {
        assert all[i] == l[i];
      } else {
        assert all[j] == r[j - |l|];
      }
    }
  }

  /** Two equal listings give no report at all. */
  lemma {:induction false} NoReportsForEqualDicts(d: Dict)
    requires Valid(d)
    ensures Reports(d, d) == []
  {
    assert forall i :: 0 <= i < |d.keys| ==> d.keys[i] in d.values;
    LocalReportsNoneForSelf(d.keys, d);
    RemoteReportsNoneForSelf(d.keys, d);
  }

  lemma {:induction false} LocalReportsNoneForSelf(names: seq<string>, d: Dict)
    requires forall i :: 0 <= i < |names| ==> names[i] in d.values
    ensures LocalReports(names, d, d) == []
  {
    if names != [] {
      LocalReportsNoneForSelf(names[..|names| - 1], d);
    }
  }

  lemma {:induction false} RemoteReportsNoneForSelf(names: seq<string>, d: Dict)
    requires forall i :: 0 <= i < |names| ==> names[i] in d.values
    ensures RemoteReports(names, d) == []
  {
    if names != [] {
      RemoteReportsNoneForSelf(names[..|names| - 1], d);
    }
  }
}
