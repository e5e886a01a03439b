/**
  The upload watcher (python/watch_n_upload.py). Every tick it lists the
  directory, keeps the ".zip" files that do not start with "done", have no
  "<name>.part" beside them and were not uploaded before, routes each to the
  "Movies" or "TVShows" vault by its name, runs the uploader, and on success
  renames the file to "done_<name>" and remembers it as uploaded.

  The listing, the existence test, the uploader's exit status and the
  rename's outcome are inputs; the endless loop and its 30-second sleep are
  one `Tick` at a time.
*/
module WatchNUpload {
  import opened Wrappers
  import opened Strings

  const MOVIES: string := "Movies"
  const TV_SHOWS: string := "TVShows"

  /** The two `ValueError`s `decide_vault` can raise. */
  datatype VaultError =
    | NotEnoughValuesToUnpack(archiveName: string)   // the name has no '.'
    | CouldNotMatch(message: string)                 // "Couldn't match <stem>"

  // rsplit('.', 1)

  /** The index of the last '.', if any. */
  function LastDot(s: string): (r: Option<nat>)
    ensures r.None? <==> '.' !in s
    ensures r.Some? ==> r.value < |s| && s[r.value] == '.' && '.' !in s[r.value + 1..]
  {
    if s == [] then None
    else if s[|s| - 1] == '.' then Some(|s| - 1)
    else
      var r := LastDot(s[..|s| - 1]);
      assert forall c :: c in s[..|s| - 1] ==> c in s;
      assert s == s[..|s| - 1] + [s[|s| - 1]];
      if r.Some? then
        assert s[r.value + 1..] == s[..|s| - 1][r.value + 1..] + [s[|s| - 1]];
        r
      else r
  }

  /**
    `name, _ = archive_name.rsplit('.', 1)`: the text before the last '.',
    or the unpacking error when there is no '.'.
  */
  function StemOf(archiveName: string): (r: Result<string, VaultError>)
    ensures r.Err? <==> '.' !in archiveName
    ensures r.Err? ==> r.error == NotEnoughValuesToUnpack(archiveName)
  {
    match LastDot(archiveName)
    case None => Err(NotEnoughValuesToUnpack(archiveName))
    case Some(i) => Ok(archiveName[..i])
  }

  /** Only the last extension is removed: a stem and an extension without '.' give back the stem. */
  lemma StemOfStripsLastExtension(stem: string, ext: string)
    requires '.' !in ext
    ensures StemOf(stem + "." + ext) == Ok(stem)
  {
    var s := stem + "." + ext;
    assert s[|stem|] == '.';
    assert s[..|stem|] == stem;
  }

  // The two patterns

  /**
    The text Python's `$` anchors to: the whole name, or the name without a
    single final newline (`$` also matches just before it).
  */
  function RegexSubject(name: string): (s: string)
    ensures StartsWith(name, s) && IsLineEnd(name[|s|..])
  {
    if |name| > 0 && name[|name| - 1] == '\n' then name[..|name| - 1] else name
  }

  /** The number of ASCII digits at the end of a text. */
  function TrailingDigits(s: string): (d: nat)
    ensures d <= |s|
    ensures AllDigits(s[|s| - d..])
    ensures d < |s| ==> !IsDigit(s[|s| - d - 1])
  {
    if s == [] || !IsDigit(s[|s| - 1]) then 0
    else
      var d := TrailingDigits(s[..|s| - 1]);
      TrailingDigitsExtend(s, d);
      d + 1
  }

  lemma TrailingDigitsExtend(s: string, d: nat)
    requires d < |s| && IsDigit(s[|s| - 1]) && AllDigits(s[..|s| - 1][|s| - 1 - d..])
    ensures AllDigits(s[|s| - d - 1..])
  {
    var t := s[|s| - d - 1..];
    forall i | 0 <= i < |t| ensures IsDigit(t[i]) {
      if i < d {
        assert t[i] == s[..|s| - 1][|s| - 1 - d..][i];
      }
    }
  }

  /** `re.match(r"^.* \(\d+\)$", stem)`, read from the end of the subject. */
  predicate IsMovieStem(stem: string) {
    var s := RegexSubject(stem);
    && '\n' !in s
    && |s| >= 1 && s[|s| - 1] == ')'
    && var body := s[..|s| - 1];
       var d := TrailingDigits(body);
       d >= 1 && EndsWith(body[..|body| - d], " (")
  }

  /** `re.match(r"^.* - (Specials|Season \d+)$", stem)`, read from the end of the subject. */
  predicate IsShowStem(stem: string) {
    var s := RegexSubject(stem);
    && '\n' !in s
    && (|| EndsWith(s, " - Specials")
        || var d := TrailingDigits(s);
           d >= 1 && EndsWith(s[..|s| - d], " - Season "))
  }

  /** What may follow the match before the end of the text: nothing, or one newline. */
  predicate IsLineEnd(end: string) {
    end == "" || end == "\n"
  }

  /**
    The texts `^.* \(\d+\)$` matches: any text without a newline, " (", one
    or more digits, ")" and an optional final newline.
  */
  ghost predicate MovieRegexMatches(stem: string) {
    exists x: string, digits: string, end: string ::
      && stem == x + " (" + digits + ")" + end
      && '\n' !in x && digits != [] && AllDigits(digits) && IsLineEnd(end)
  }

  /** The texts `^.* - (Specials|Season \d+)$` matches. */
  ghost predicate ShowRegexMatches(stem: string) {
    || (exists x: string, end: string ::
          stem == x + " - Specials" + end && '\n' !in x && IsLineEnd(end))
    || (exists x: string, digits: string, end: string ::
          && stem == x + " - Season " + digits + end
          && '\n' !in x && digits != [] && AllDigits(digits) && IsLineEnd(end))
  }

  lemma SubjectOf(core: string, end: string)
    requires IsLineEnd(end) && core != [] && core[|core| - 1] != '\n'
    ensures RegexSubject(core + end) == core
  {
    if end == "\n" {
      assert (core + end)[..|core|] == core;
    } else {
      assert core + end == core;
    }
  }

  lemma {:induction false} TrailingDigitsOf(p: string, digits: string)
    requires AllDigits(digits) && (p == [] || !IsDigit(p[|p| - 1]))
    ensures TrailingDigits(p + digits) == |digits|
    decreases |digits|
  {
    if digits == [] {
      assert p + digits == p;
    } else {
      var init := digits[..|digits| - 1];
      TrailingDigitsOf(p, init);
      assert (p + digits)[..|p + digits| - 1] == p + init;
    }
  }

  lemma MovieStemIfRegex(stem: string, x: string, digits: string, end: string)
    requires stem == x + " (" + digits + ")" + end
    requires '\n' !in x && digits != [] && AllDigits(digits) && IsLineEnd(end)
    ensures IsMovieStem(stem)
  {
    var core := x + " (" + digits + ")";
    assert stem == core + end;
    SubjectOf(core, end);
    var body := x + " (" + digits;
    assert core[..|core| - 1] == body;
    assert (x + " (")[|x + " ("| - 1] == '(';
    TrailingDigitsOf(x + " (", digits);
    assert body[..|body| - |digits|] == x + " (";
    assert '\n' !in digits;
  }

  lemma RegexIfMovieStem(stem: string)
    requires IsMovieStem(stem)
    ensures MovieRegexMatches(stem)
  {
    var s := RegexSubject(stem);
    var end := stem[|s|..];
    assert stem == s + end;
    var x, digits := MovieParts(s);
    assert stem == x + " (" + digits + ")" + end;
  }

  /** The pieces of a subject the movie scan accepts. */
  lemma MovieParts(s: string) returns (x: string, digits: string)
    requires '\n' !in s && |s| >= 1 && s[|s| - 1] == ')'
    requires var body := s[..|s| - 1];
      var d := TrailingDigits(body);
      d >= 1 && EndsWith(body[..|body| - d], " (")
    ensures s == x + " (" + digits + ")" && '\n' !in x && digits != [] && AllDigits(digits)
  {
    var body := s[..|s| - 1];
    var d := TrailingDigits(body);
    x := body[..|body| - d - 2];
    digits := body[|body| - d..];
    assert body[..|body| - d] == x + " (";
    assert body == x + " (" + digits;
    assert s == body + ")";
    assert '\n' !in x by {
      assert forall c :: c in x ==> c in s;
    }
  }

  /** The scan from the end accepts exactly the texts the movie pattern matches. */
  lemma MovieStemIffRegex(stem: string)
    ensures IsMovieStem(stem) <==> MovieRegexMatches(stem)
  {
    if IsMovieStem(stem) {
      RegexIfMovieStem(stem);
    }
    if MovieRegexMatches(stem) {
      var x, digits, end :| stem == x + " (" + digits + ")" + end
        && '\n' !in x && digits != [] && AllDigits(digits) && IsLineEnd(end);
      MovieStemIfRegex(stem, x, digits, end);
    }
  }

  lemma ShowStemIfSpecials(stem: string, x: string, end: string)
    requires stem == x + " - Specials" + end && '\n' !in x && IsLineEnd(end)
    ensures IsShowStem(stem)
  {
    var core := x + " - Specials";
    assert stem == core + end;
    SubjectOf(core, end);
    assert core[|core| - |" - Specials"|..] == " - Specials";
  }

  lemma ShowStemIfSeason(stem: string, x: string, digits: string, end: string)
    requires stem == x + " - Season " + digits + end
    requires '\n' !in x && digits != [] && AllDigits(digits) && IsLineEnd(end)
    ensures IsShowStem(stem)
  {
    var core := x + " - Season " + digits;
    assert stem == core + end;
    SubjectOf(core, end);
    assert (x + " - Season ")[|x + " - Season "| - 1] == ' ';
    TrailingDigitsOf(x + " - Season ", digits);
    assert core[..|core| - |digits|] == x + " - Season ";
    assert '\n' !in digits;
  }

  lemma RegexIfShowStem(stem: string)
    requires IsShowStem(stem)
    ensures ShowRegexMatches(stem)
  {
    var s := RegexSubject(stem);
    var end := stem[|s|..];
    assert stem == s + end;
    assert IsLineEnd(end);
    if EndsWith(s, " - Specials") {
      var x := s[..|s| - 11];
      assert s == x + " - Specials";
      assert '\n' !in x by {
        assert forall c :: c in x ==> c in s;
      }
      assert stem == x + " - Specials" + end;
      ShowRegexWitness(stem, x, [], end);
    } else {
      var d := TrailingDigits(s);
      var x := s[..|s| - d - 10];
      var digits := s[|s| - d..];
      assert s[..|s| - d] == x + " - Season ";
      assert s == x + " - Season " + digits;
      assert '\n' !in x by {
        assert forall c :: c in x ==> c in s;
      }
      assert stem == x + " - Season " + digits + end;
      ShowRegexWitness(stem, x, digits, end);
    }
  }

  /** `x`, `digits` and `end` are the pieces of a show-pattern match; empty digits stand for " - Specials". */
  lemma ShowRegexWitness(stem: string, x: string, digits: string, end: string)
    requires '\n' !in x && IsLineEnd(end) && AllDigits(digits)
    requires if digits == [] then stem == x + " - Specials" + end else stem == x + " - Season " + digits + end
    ensures ShowRegexMatches(stem)
  {
  }

  /** The scan from the end accepts exactly the texts the show pattern matches. */
  lemma ShowStemIffRegex(stem: string)
    ensures IsShowStem(stem) <==> ShowRegexMatches(stem)
  {
    if IsShowStem(stem) {
      RegexIfShowStem(stem);
    }
    if ShowRegexMatches(stem) {
      if exists x: string, end: string :: stem == x + " - Specials" + end && '\n' !in x && IsLineEnd(end) {
        var x, end :| stem == x + " - Specials" + end && '\n' !in x && IsLineEnd(end);
        ShowStemIfSpecials(stem, x, end);
      } else {
        var x, digits, end :| stem == x + " - Season " + digits + end
          && '\n' !in x && digits != [] && AllDigits(digits) && IsLineEnd(end);
        ShowStemIfSeason(stem, x, digits, end);
      }
    }
  }

  lemma EndsWithLast(s: string, p: string)
    requires |s| > 0 && |p| > 0
    ensures EndsWith(s, p) ==> s[|s| - 1] == p[|p| - 1]
  {
    if EndsWith(s, p) {
      assert s[|s| - |p|..][|p| - 1] == s[|s| - 1];
    }
  }

  /** No stem matches both patterns, so the order of the two checks does not matter. */
  lemma PatternsDisjoint(stem: string)
    ensures !(IsMovieStem(stem) && IsShowStem(stem))
  {
    var s := RegexSubject(stem);
    if IsMovieStem(stem) {
      EndsWithLast(s, " - Specials");
      assert TrailingDigits(s) == 0;
    }
  }

  /**
    `decide_vault`: the stem before the last '.' goes to "Movies" when it
    ends in " (<digits>)", to "TVShows" when it ends in " - Specials" or
    " - Season <digits>", and raises `ValueError` otherwise.
  */
  function DecideVault(archiveName: string): (r: Result<string, VaultError>)
    ensures r.Ok? ==> r.value == MOVIES || r.value == TV_SHOWS
    ensures '.' !in archiveName ==> r == Err(NotEnoughValuesToUnpack(archiveName))
    ensures r.Ok? <==> StemOf(archiveName).Ok? && (IsMovieStem(StemOf(archiveName).value) || IsShowStem(StemOf(archiveName).value))
    ensures r == Ok(MOVIES) <==> StemOf(archiveName).Ok? && IsMovieStem(StemOf(archiveName).value)
  {
    match StemOf(archiveName)
    case Err(e) => Err(e)
    case Ok(name) =>
      if IsMovieStem(name) then Ok(MOVIES)
      else if IsShowStem(name) then Ok(TV_SHOWS)
      else Err(CouldNotMatch("Couldn't match " + name))
  }

  /** Routing of "<stem>.<ext>" in terms of the two patterns themselves. */
  lemma DecideVaultByPattern(stem: string, ext: string)
    requires '.' !in ext
    ensures DecideVault(stem + "." + ext) == Ok(MOVIES) <==> MovieRegexMatches(stem)
    ensures DecideVault(stem + "." + ext) == Ok(TV_SHOWS) <==> ShowRegexMatches(stem)
    ensures DecideVault(stem + "." + ext).Err? <==> !MovieRegexMatches(stem) && !ShowRegexMatches(stem)
  {
    StemOfStripsLastExtension(stem, ext);
    MovieStemIffRegex(stem);
    ShowStemIffRegex(stem);
    PatternsDisjoint(stem);
  }

  /** A film with its year goes to "Movies". */
  lemma MovieRouted(x: string, digits: string, ext: string)
    requires '\n' !in x && digits != [] && AllDigits(digits) && '.' !in ext
    ensures DecideVault(x + " (" + digits + ")" + "." + ext) == Ok(MOVIES)
  {
    var stem := x + " (" + digits + ")";
    MovieStemIfRegex(stem, x, digits, "");
    RoutedByStem(stem, ext);
  }

  /** A season of a show, "<title> - Season <digits>.<ext>", goes to "TVShows". */
  lemma SeasonRouted(x: string, digits: string, ext: string)
    requires '\n' !in x && digits != [] && AllDigits(digits) && '.' !in ext
    ensures DecideVault(x + " - Season " + digits + "." + ext) == Ok(TV_SHOWS)
  {
    var stem := x + " - Season " + digits;
    ShowStemIfSeason(stem, x, digits, "");
    RoutedByStem(stem, ext);
  }

  /** The specials of a show, "<title> - Specials.<ext>", go to "TVShows". */
  lemma SpecialsRouted(x: string, ext: string)
    requires '\n' !in x && '.' !in ext
    ensures DecideVault(x + " - Specials" + "." + ext) == Ok(TV_SHOWS)
  {
    var stem := x + " - Specials";
    ShowStemIfSpecials(stem, x, "");
    RoutedByStem(stem, ext);
  }

  /** Routing of "<stem>.<ext>" by the scans of the stem. */
  lemma RoutedByStem(stem: string, ext: string)
    requires '.' !in ext
    ensures IsMovieStem(stem) ==> DecideVault(stem + "." + ext) == Ok(MOVIES)
    ensures IsShowStem(stem) ==> DecideVault(stem + "." + ext) == Ok(TV_SHOWS)
  {
    StemOfStripsLastExtension(stem, ext);
    PatternsDisjoint(stem);
  }

  /** A stem that matches neither pattern raises `ValueError("Couldn't match <stem>")`. */
  lemma DecideVaultUnmatched(stem: string, ext: string)
    requires '.' !in ext && !IsMovieStem(stem) && !IsShowStem(stem)
    ensures DecideVault(stem + "." + ext) == Err(CouldNotMatch("Couldn't match " + stem))
  {
    StemOfStripsLastExtension(stem, ext);
  }

  // The pending list

  /** A list comprehension with a condition: the elements that satisfy it, in order. */
  function Filter(s: seq<string>, keep: string -> bool): (r: seq<string>)
    ensures |r| <= |s|
    ensures forall x :: x in r <==> x in s && keep(x)
  {
    if s == [] then []
    else
      var rest := Filter(s[..|s| - 1], keep);
      assert forall x :: x in s <==> x in s[..|s| - 1] || x == s[|s| - 1];
      if keep(s[|s| - 1]) then rest + [s[|s| - 1]] else rest
  }

  /**
    The three comprehensions: ".zip" files not starting with "done", then
    those with no "<f>.part" present, then those not yet uploaded. `present`
    is what `os.path.exists` finds.
  */
  function PendingArchives(listing: seq<string>, present: set<string>, uploaded: set<string>): (r: seq<string>)
    ensures forall f :: f in r <==>
      && f in listing && EndsWith(f, ".zip") && !StartsWith(f, "done")
      && f + ".part" !in present && f !in uploaded
  {
    var allArchives := Filter(listing, f => !StartsWith(f, "done") && EndsWith(f, ".zip"));
    var completeArchives := Filter(allArchives, f => f + ".part" !in present);
    Filter(completeArchives, f => f !in uploaded)
  }

  // One tick

  /** What a tick does to the outside: runs the uploader, renames an uploaded file. */
  datatype Action =
    | RunUploader(archive: string, vaultName: string)
    | Rename(archive: string, target: string, succeeded: bool)

  /** The script's state after handling some pending archives. */
  datatype TickState = TickState(error: Option<VaultError>, uploaded: set<string>, actions: seq<Action>)

  /** The loop body for one archive. */
  function HandleArchive(st: TickState, archive: string, status: string -> int, renamed: string -> bool): TickState {
    match DecideVault(archive)
    case Err(e) => st.(error := Some(e))
    case Ok(vaultName) =>
      var afterUpload := st.(actions := st.actions + [RunUploader(archive, vaultName)]);
      if status(archive) != 0 then afterUpload
      else
        TickState(None, st.uploaded + {archive},
          afterUpload.actions + [Rename(archive, "done_" + archive, renamed(archive))])
  }

  /** Handling one archive that `decide_vault` routes to `vaultName`. */
  lemma HandleRouted(st: TickState, archive: string, vaultName: string,
      status: string -> int, renamed: string -> bool)
    requires DecideVault(archive) == Ok(vaultName)
    ensures var acts := st.actions + [RunUploader(archive, vaultName)];
      HandleArchive(st, archive, status, renamed) ==
        if status(archive) != 0 then st.(actions := acts)
        else TickState(None, st.uploaded + {archive}, acts + [Rename(archive, "done_" + archive, renamed(archive))])
  {
  }

  /**
    Handling the pending archives in order; a `ValueError` from
    `decide_vault` ends the script, with what was recorded so far.
  */
  function HandleAll(pending: seq<string>, uploaded: set<string>, status: string -> int, renamed: string -> bool): (st: TickState)
    ensures uploaded <= st.uploaded
  {
    if pending == [] then TickState(None, uploaded, [])
    else
      var before := HandleAll(pending[..|pending| - 1], uploaded, status, renamed);
      if before.error.Some? then before
      else HandleArchive(before, pending[|pending| - 1], status, renamed)
  }

  /**
    Only archives that were handled and whose upload exited with status 0
    join the uploaded set: a failed upload stays out and is tried again.
  */
  lemma {:induction false} RecordedOnlyOnSuccess(pending: seq<string>, uploaded: set<string>,
      status: string -> int, renamed: string -> bool, a: string)
    requires a !in uploaded
    ensures a in HandleAll(pending, uploaded, status, renamed).uploaded ==>
      a in pending && status(a) == 0 && DecideVault(a).Ok?
  {
    if pending != [] {
      var init := pending[..|pending| - 1];
      RecordedOnlyOnSuccess(init, uploaded, status, renamed, a);
      assert forall x :: x in init ==> x in pending;
    }
  }

  /**
    When every pending name can be routed, the tick ends normally and
    records exactly the archives whose upload succeeded, whatever the
    renames did; each upload went to the vault `decide_vault` chose.
  */
  lemma {:induction false} AllRoutedTick(pending: seq<string>, uploaded: set<string>,
      status: string -> int, renamed: string -> bool)
    requires forall i :: 0 <= i < |pending| ==> DecideVault(pending[i]).Ok?
    ensures var st := HandleAll(pending, uploaded, status, renamed);
      && st.error == None
      && (forall a :: a in st.uploaded <==> a in uploaded || (a in pending && status(a) == 0))
      && (forall k :: 0 <= k < |st.actions| && st.actions[k].RunUploader? ==>
            DecideVault(st.actions[k].archive) == Ok(st.actions[k].vaultName))
  {
    if pending != [] {
      var init := pending[..|pending| - 1];
      var last := pending[|pending| - 1];
      assert forall i :: 0 <= i < |init| ==> init[i] == pending[i];
      AllRoutedTick(init, uploaded, status, renamed);
      var before := HandleAll(init, uploaded, status, renamed);
      assert DecideVault(last).Ok?;
      var v := DecideVault(last).value;
      HandleRouted(before, last, v, status, renamed);
      var st := HandleAll(pending, uploaded, status, renamed);
      assert st == HandleArchive(before, last, status, renamed);
      assert forall a :: a in pending <==> a in init || a == last;
      assert st.uploaded == if status(last) == 0 then before.uploaded + {last} else before.uploaded;
      var routed := before.actions + [RunUploader(last, v)];
      assert st.actions == if status(last) == 0 then routed + [Rename(last, "done_" + last, renamed(last))] else routed;
      forall k | 0 <= k < |st.actions| && st.actions[k].RunUploader?
        ensures DecideVault(st.actions[k].archive) == Ok(st.actions[k].vaultName)
      {
        if k < |before.actions| {
          assert st.actions[k] == before.actions[k];
        } else {
          assert st.actions[k] == RunUploader(last, v);
        }
      }
    }
  }

  /**
    After a tick that uploaded `a`, neither `a` nor its renamed copy
    "done_<a>" is pending again, whether or not the rename succeeded.
  */
  lemma NotPendingAfterUpload(pending: seq<string>, uploaded: set<string>,
      status: string -> int, renamed: string -> bool, a: string,
      listing: seq<string>, present: set<string>)
    requires forall i :: 0 <= i < |pending| ==> DecideVault(pending[i]).Ok?
    requires a in pending && status(a) == 0
    ensures var next := HandleAll(pending, uploaded, status, renamed).uploaded;
      a !in PendingArchives(listing, present, next) && "done_" + a !in PendingArchives(listing, present, next)
  {
    AllRoutedTick(pending, uploaded, status, renamed);
    assert ("done_" + a)[..4] == "done";
  }

  /** A failed upload of a complete archive that is still listed is pending again on the next tick. */
  lemma RetriedAfterFailure(pending: seq<string>, uploaded: set<string>,
      status: string -> int, renamed: string -> bool, a: string,
      listing: seq<string>, present: set<string>)
    requires forall i :: 0 <= i < |pending| ==> DecideVault(pending[i]).Ok?
    requires a !in uploaded && status(a) != 0
    requires a in listing && EndsWith(a, ".zip") && !StartsWith(a, "done") && a + ".part" !in present
    ensures a in PendingArchives(listing, present, HandleAll(pending, uploaded, status, renamed).uploaded)
  {
    AllRoutedTick(pending, uploaded, status, renamed);
  }

  /** The watcher: the set of archives uploaded since the script started. */
  class Watcher {
    var uploadedArchives: set<string>

    constructor ()
      ensures uploadedArchives == {}
    {
      uploadedArchives := {};
    }

    /**
      One pass of the `while True` loop: compute the pending archives, then
      for each route it, run the uploader (`status` is its exit status),
      and on success rename it (`renamed` says whether that worked) and
      record it. A returned error is the `ValueError` that `decide_vault`
      raises: it escapes the loop and ends the script, so no further pass
      follows it.
    */
    method Tick(listing: seq<string>, present: set<string>, status: string -> int, renamed: string -> bool)
      returns (error: Option<VaultError>, actions: seq<Action>)
      modifies this
      ensures var st := HandleAll(PendingArchives(listing, present, old(uploadedArchives)),
                                  old(uploadedArchives), status, renamed);
        error == st.error && uploadedArchives == st.uploaded && actions == st.actions
    {
      var pending := PendingArchives(listing, present, uploadedArchives);
      error, actions := HandlePending(pending, status, renamed);
    }

    /** The `for archive in pending_archives` loop of one pass. */
    method HandlePending(pending: seq<string>, status: string -> int, renamed: string -> bool)
      returns (error: Option<VaultError>, actions: seq<Action>)
      modifies this
      ensures var st := HandleAll(pending, old(uploadedArchives), status, renamed);
        error == st.error && uploadedArchives == st.uploaded && actions == st.actions
    {
      ghost var uploaded0 := uploadedArchives;
      actions := [];
      error := None;
      var i := 0;
      while i < |pending|
        invariant 0 <= i <= |pending|
        invariant HandleAll(pending[..i], uploaded0, status, renamed) == TickState(None, uploadedArchives, actions)
      {
        var archive := pending[i];
        assert pending[..i + 1][..i] == pending[..i];
        ghost var before := TickState(None, uploadedArchives, actions);
        assert HandleAll(pending[..i + 1], uploaded0, status, renamed) == HandleArchive(before, archive, status, renamed);
        var vault := DecideVault(archive);
        if vault.Err? {
          FailureStops(pending, uploaded0, status, renamed, i + 1);
          return Some(vault.error), actions;
        }
        var vaultName := vault.value;
        HandleRouted(before, archive, vaultName, status, renamed);
        actions := actions + [RunUploader(archive, vaultName)];
        if status(archive) == 0 {
          actions := actions + [Rename(archive, "done_" + archive, renamed(archive))];
          uploadedArchives := uploadedArchives + {archive};
        }
        assert HandleArchive(before, archive, status, renamed) == TickState(None, uploadedArchives, actions);
        i := i + 1;
      }
      assert pending[..i] == pending;
    }
  }

  /** Once an archive cannot be routed, the archives after it are not handled. */
  lemma {:induction false} FailureStops(pending: seq<string>, uploaded: set<string>,
      status: string -> int, renamed: string -> bool, n: nat)
    requires n <= |pending| && HandleAll(pending[..n], uploaded, status, renamed).error.Some?
    ensures HandleAll(pending, uploaded, status, renamed) == HandleAll(pending[..n], uploaded, status, renamed)
    decreases |pending| - n
  {
    if n < |pending| {
      assert pending[..n + 1][..n] == pending[..n];
      FailureStops(pending, uploaded, status, renamed, n + 1);
    } else {
      assert pending[..n] == pending;
    }
  }
}
