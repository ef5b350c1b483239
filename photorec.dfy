/**
 * src/sd_recovery/core/photorec_wrapper.py: locating PhotoRec, reading its
 * version, building its command line, running it while capturing its output,
 * and reading back what it recovered. The child process, `shutil.which` and
 * the output directory's contents are inputs: `Process` is what the child
 * printed and how it exited, `Entry` is one directory entry.
 */
module PhotoRec {
  import opened Wrappers
  import opened Text
  import opened Errors
  import opened Device

  /** `_find_photorec` behind `photorec_path or ...`: an empty given path falls through to the search. */
  function FindPhotoRec(given: Option<string>, which: Option<string>): (r: Result<string, ErrorKind>)
    ensures r.Success? <==> (given.Some? && given.value != "") || (which.Some? && which.value != "")
    ensures r.Success? && given.Some? && given.value != "" ==> r.value == given.value
    ensures r.Success? && !(given.Some? && given.value != "") ==> r.value == which.value
    ensures r.Failure? ==> r.error == PhotoRecNotFound
  {
    if given.Some? && given.value != "" then Success(given.value)
    else if which.Some? && which.value != "" then Success(which.value)
    else Failure(PhotoRecNotFound)
  }

  // ----------------------------------------------------------------- version

  /** Where `PhotoRec\s+([\d.]+)` matches starting exactly at `i`, the captured version. */
  function VersionAt(s: string, i: nat): Option<string>
    requires i <= |s|
  {
    if i + 8 <= |s| && s[i..i + 8] == "PhotoRec" then
      var j := RunEnd(s, i + 8, Spaces);
      var k := RunEnd(s, j, NumberChars);
      if j > i + 8 && k > j then Some(s[j..k]) else None
    else None
  }

  function FindVersion(s: string, i: nat): (r: Option<string>)
    requires i <= |s|
    ensures r.Some? ==> |r.value| > 0 && forall k | 0 <= k < |r.value| :: IsNumberChar(r.value[k])
    decreases |s| - i
  {
    if i == |s| then None
    else if VersionAt(s, i).Some? then VersionAt(s, i)
    else FindVersion(s, i + 1)
  }

  /** The search finds nothing exactly when no position from `i` on starts a match. */
  lemma {:induction false} FindVersionNone(s: string, i: nat)
    requires i <= |s|
    ensures FindVersion(s, i).None? <==> forall k | i <= k <= |s| :: VersionAt(s, k).None?
    decreases |s| - i
  {
    if i < |s| {
      FindVersionNone(s, i + 1);
    }
  }

  /** The search returns the version at the leftmost position from `i` on that starts a match. */
  lemma {:induction false} FindVersionLeftmost(s: string, i: nat)
    requires i <= |s|
    ensures forall k | i <= k <= |s| && VersionAt(s, k).Some? && (forall j | i <= j < k :: VersionAt(s, j).None?) ::
      FindVersion(s, i) == VersionAt(s, k)
    decreases |s| - i
  {
    if i < |s| {
      FindVersionLeftmost(s, i + 1);
    }
  }

  /** The version `check_version` reports for a given `/version` output. */
  function VersionOf(stdout: string): (v: string)
    ensures v == "unknown" || (|v| > 0 && forall k | 0 <= k < |v| :: IsNumberChar(v[k]))
    ensures v == "unknown" <==> forall k | 0 <= k <= |stdout| :: VersionAt(stdout, k).None?
    ensures forall k | 0 <= k <= |stdout| && VersionAt(stdout, k).Some? && (forall j | 0 <= j < k :: VersionAt(stdout, j).None?) ::
      v == VersionAt(stdout, k).value
  {
    FindVersionNone(stdout, 0);
    FindVersionLeftmost(stdout, 0);
    match FindVersion(stdout, 0)
    case Some(v) =>
      assert v[0] != "unknown"[0] by { assert IsNumberChar(v[0]); }
      v
    case None => "unknown"
  }

  /** Output that opens with "PhotoRec", a space and a version reports that version. */
  lemma VersionOfBanner(version: string, rest: string)
    requires |version| > 0 && forall k | 0 <= k < |version| :: IsNumberChar(version[k])
    requires rest == [] || !IsNumberChar(rest[0])
    ensures VersionOf("PhotoRec " + version + rest) == version
  {
    var s := "PhotoRec " + version + rest;
    assert s[..8] == "PhotoRec";
    assert s[8] == ' ' && s[9] == version[0];
    var j := RunEnd(s, 8, Spaces);
    assert j == 9;
    forall k | 9 <= k < 9 + |version| ensures IsNumberChar(s[k]) {
      assert s[k] == version[k - 9];
    }
    if rest != [] {
      assert s[9 + |version|] == rest[0];
    }
    var k := RunEnd(s, 9, NumberChars);
    assert k == 9 + |version|;
    assert s[9..k] == version;
  }

  /**
   * `check_version` given the outcome of `photorec /version`: None when the
   * command exited with an error status.
   */
  function CheckVersion(stdout: Option<string>): (r: Result<string, ErrorKind>)
    ensures stdout.None? <==> r == Failure(PhotoRecExecution)
    ensures stdout.Some? ==> r == Success(VersionOf(stdout.value))
  {
    match stdout
    case None => Failure(PhotoRecExecution)
    case Some(out) => Success(VersionOf(out))
  }

  // ----------------------------------------------------------------- command

  /** One `fileopt,<type>,enable` option per file type, in order. */
  function EnableOptions(fileTypes: seq<string>): (options: seq<string>)
    ensures |options| == |fileTypes|
    ensures forall i | 0 <= i < |fileTypes| :: options[i] == "fileopt," + fileTypes[i] + ",enable"
    decreases |fileTypes|
  {
    if fileTypes == [] then []
    else EnableOptions(fileTypes[..|fileTypes| - 1]) + ["fileopt," + fileTypes[|fileTypes| - 1] + ",enable"]
  }

  /**
   * The option list: everything disabled first, then one enable per type in
   * list order, then paranoid mode when asked for, and the search last.
   */
  function Options(paranoid: bool, fileTypes: seq<string>): seq<string> {
    ["fileopt,everything,disable"] + EnableOptions(fileTypes)
      + (if paranoid then ["options,paranoid"] else []) + ["search"]
  }

  /** Where each option sits in the list. */
  lemma OptionsLayout(paranoid: bool, fileTypes: seq<string>)
    ensures var options := Options(paranoid, fileTypes);
      && |options| == |fileTypes| + (if paranoid then 3 else 2)
      && options[0] == "fileopt,everything,disable"
      && (forall i | 0 <= i < |fileTypes| :: options[1 + i] == "fileopt," + fileTypes[i] + ",enable")
      && (paranoid ==> options[|fileTypes| + 1] == "options,paranoid")
      && options[|options| - 1] == "search"
  {
    var enable := EnableOptions(fileTypes);
    forall i | 0 <= i < |fileTypes|
      ensures Options(paranoid, fileTypes)[1 + i] == "fileopt," + fileTypes[i] + ",enable"
    {
      assert Options(paranoid, fileTypes)[1 + i] == enable[i];
    }
  }

  /** An absent type list means JPEG only; an explicit empty list stays empty. */
  function TypesOrDefault(fileTypes: Option<seq<string>>): seq<string> {
    if fileTypes.None? then ["jpg"] else fileTypes.value
  }

  /** The default options disable everything, enable JPEG and search. */
  lemma DefaultOptions()
    ensures Options(false, TypesOrDefault(None)) ==
      ["fileopt,everything,disable", "fileopt,jpg,enable", "search"]
  {
    var o := Options(false, TypesOrDefault(None));
    OptionsLayout(false, ["jpg"]);
    assert |o| == 3 && o[1] == "fileopt," + ["jpg"][0] + ",enable";
    assert "fileopt," + "jpg" + ",enable" == "fileopt,jpg,enable";
    assert o == [o[0], o[1], o[2]];
  }

  /**
   * `build_command` (without creating the output directory): the executable,
   * the output directory after `/d`, the device after `/cmd`, and every
   * option in one comma-joined argument.
   */
  method BuildCommand(exe: string, devicePath: string, outputDir: string, paranoid: bool,
                      fileTypes: Option<seq<string>>) returns (cmd: seq<string>)
    ensures cmd == [exe, "/d", outputDir, "/cmd", devicePath,
                    Join(Options(paranoid, TypesOrDefault(fileTypes)), ",")]
  {
    var types := if fileTypes.None? then ["jpg"] else fileTypes.value;
    var options := ["fileopt,everything,disable"];
    for i := 0 to |types|
      invariant options == ["fileopt,everything,disable"] + EnableOptions(types[..i])
    {
      assert types[..i + 1][..i] == types[..i];
      options := options + ["fileopt," + types[i] + ",enable"];
    }
    assert types[..|types|] == types;
    if paranoid {
      options := options + ["options,paranoid"];
    }
    options := options + ["search"];
    assert types == TypesOrDefault(fileTypes);
    assert options == Options(paranoid, types);
    cmd := [exe, "/d", outputDir, "/cmd", devicePath, Join(options, ",")];
  }

  // ----------------------------------------------------------------- results

  /** A directory entry of the output directory: its name, whether it is a directory, and the names inside it. */
  datatype Entry = Entry(name: string, isDir: bool, children: seq<string>)

  /** `PhotoRecResult`, with paths as strings. */
  datatype PhotoRecResult = PhotoRecResult(
    outputDir: string,
    recupDirs: seq<string>,
    filesRecovered: nat,
    recoveredFiles: seq<string>,
    outputLines: seq<string>)

  /** The entries `recup_dir.*` matches, in listing order. */
  function RecupEntries(listing: seq<Entry>): (r: seq<Entry>)
    ensures |r| <= |listing|
    decreases |listing|
  {
    if listing == [] then []
    else
      var rest := RecupEntries(listing[..|listing| - 1]);
      var e := listing[|listing| - 1];
      if "recup_dir." <= e.name then rest + [e] else rest
  }

  /** An entry is kept exactly when it is in the listing and its name starts with `recup_dir.`. */
  lemma {:induction false} RecupEntriesSelects(listing: seq<Entry>)
    ensures forall e | e in RecupEntries(listing) :: e in listing && "recup_dir." <= e.name
    ensures forall e | e in listing && "recup_dir." <= e.name :: e in RecupEntries(listing)
    decreases |listing|
  {
    if listing != [] {
      var init := listing[..|listing| - 1];
      RecupEntriesSelects(init);
      assert listing == init + [listing[|listing| - 1]];
    }
  }

  function Paths(dir: string, entries: seq<Entry>): (r: seq<string>)
    ensures |r| == |entries|
    decreases |entries|
  {
    if entries == [] then [] else [PathJoin(dir, entries[0].name)] + Paths(dir, entries[1..])
  }

  /** `Paths` joins every entry's name to the directory, position by position. */
  lemma {:induction false} PathsJoin(dir: string, entries: seq<Entry>)
    ensures forall i | 0 <= i < |entries| :: Paths(dir, entries)[i] == PathJoin(dir, entries[i].name)
    decreases |entries|
  {
    if entries != [] {
      PathsJoin(dir, entries[1..]);
      forall i | 0 < i < |entries|
        ensures Paths(dir, entries)[i] == PathJoin(dir, entries[i].name)
      {
        assert Paths(dir, entries)[i] == Paths(dir, entries[1..])[i - 1];
      }
    }
  }

  /** The names `*<ext>` matches inside `dir`, as paths, in listing order. */
  function Glob(dir: string, names: seq<string>, ext: string): (r: seq<string>)
    ensures |r| <= |names|
    decreases |names|
  {
    if names == [] then []
    else
      var rest := Glob(dir, names[..|names| - 1], ext);
      var c := names[|names| - 1];
      if HasSuffix(c, ext) then rest + [PathJoin(dir, c)] else rest
  }

  /** `Glob` yields a path for every name with the extension and for nothing else. */
  lemma {:induction false} GlobMatches(dir: string, names: seq<string>, ext: string)
    ensures forall f | f in Glob(dir, names, ext) :: exists c | c in names :: HasSuffix(c, ext) && f == PathJoin(dir, c)
    ensures forall c | c in names && HasSuffix(c, ext) :: PathJoin(dir, c) in Glob(dir, names, ext)
    decreases |names|
  {
    if names != [] {
      var init := names[..|names| - 1];
      GlobMatches(dir, init, ext);
      assert names == init + [names[|names| - 1]];
    }
  }

  /** What one `recup_dir.*` entry contributes: its `*.jpg` then its `*.JPG` files, nothing unless a directory. */
  function FilesOf(outputDir: string, e: Entry): seq<string> {
    if e.isDir then
      var dir := PathJoin(outputDir, e.name);
      Glob(dir, e.children, ".jpg") + Glob(dir, e.children, ".JPG")
    else []
  }

  /** The recovered files of a sequence of recup directories, directory by directory. */
  function RecoveredFiles(outputDir: string, recup: seq<Entry>): (r: seq<string>)
    decreases |recup|
  {
    if recup == [] then []
    else RecoveredFiles(outputDir, recup[..|recup| - 1]) + FilesOf(outputDir, recup[|recup| - 1])
  }

  /**
   * Every recovered file comes from a recup entry that is a directory, and
   * every `.jpg` or `.JPG` name inside such a directory is recovered.
   */
  lemma {:induction false} RecoveredFilesFromRecup(outputDir: string, recup: seq<Entry>)
    ensures forall f | f in RecoveredFiles(outputDir, recup) :: exists e | e in recup :: e.isDir && f in FilesOf(outputDir, e)
    ensures forall e, c | e in recup && e.isDir && c in e.children && (HasSuffix(c, ".jpg") || HasSuffix(c, ".JPG")) ::
      PathJoin(PathJoin(outputDir, e.name), c) in RecoveredFiles(outputDir, recup)
    decreases |recup|
  {
    if recup != [] {
      var init, last := recup[..|recup| - 1], recup[|recup| - 1];
      RecoveredFilesFromRecup(outputDir, init);
      assert recup == init + [last];
      GlobMatches(PathJoin(outputDir, last.name), last.children, ".jpg");
      GlobMatches(PathJoin(outputDir, last.name), last.children, ".JPG");
    }
  }

  /** The count in a "N files recovered" line when the match starts exactly at `i`. */
  function CountAt(line: string, i: nat): Option<nat>
    requires i <= |line|
  {
    if i == |line| || !IsDigit(line[i]) then None
    else
      var j := RunEnd(line, i, Digits);
      var k := RunEnd(line, j, Spaces);
      if k == j || k + 4 > |line| || Lower(line[k..k + 4]) != "file" then None
      else
        var m := if k + 4 < |line| && LowerChar(line[k + 4]) == 's' then k + 5 else k + 4;
        var l := RunEnd(line, m, Spaces);
        if l == m || l + 9 > |line| || Lower(line[l..l + 9]) != "recovered" then None
        else
          assert AllDigits(line[i..j]) by {
            forall p | 0 <= p < j - i ensures IsDigit(line[i..j][p]) {
              assert line[i..j][p] == line[i + p];
            }
          }
          Some(DigitsValue(line[i..j]))
  }

  function FindCount(line: string, i: nat): Option<nat>
    requires i <= |line|
    decreases |line| - i
  {
    if i == |line| then None
    else if CountAt(line, i).Some? then CountAt(line, i)
    else FindCount(line, i + 1)
  }

  /** The N of the leftmost `(\d+)\s+files?\s+recovered`, letters compared case-insensitively. */
  function ReportedCount(line: string): Option<nat> {
    FindCount(line, 0)
  }

  lemma LowerWords()
    ensures Lower("file") == "file" && Lower("recovered") == "recovered"
  {
    var x := Lower("file");
    assert x[0] == 'f' && x[1] == 'i' && x[2] == 'l' && x[3] == 'e';
    var y := Lower("recovered");
    assert y[0] == 'r' && y[1] == 'e' && y[2] == 'c' && y[3] == 'o' && y[4] == 'v'
      && y[5] == 'e' && y[6] == 'r' && y[7] == 'e' && y[8] == 'd';
  }

  /** The words of `<digits> files recovered`, found by position. */
  lemma SummaryWords(line: string, j: nat)
    requires j + 16 == |line| && line[j..] == " files recovered"
    ensures line[j] == ' ' && line[j + 6] == ' ' && line[j + 5] == 's'
    ensures line[j + 1..j + 5] == "file" && line[j + 7..] == "recovered"
  {
    var t := line[j..];
    assert line[j] == t[0] && line[j + 5] == t[5] && line[j + 6] == t[6];
    assert line[j + 1..j + 5] == t[1..5];
    assert line[j + 7..] == t[7..];
  }

  /** Where the runs of digits and of spaces of `<digits> files recovered` end. */
  lemma SummaryRuns(line: string, j: nat)
    requires 0 < j && j + 16 == |line|
    requires forall p | 0 <= p < j :: IsDigit(line[p])
    requires line[j] == ' ' && line[j + 6] == ' '
    requires line[j + 1..j + 5] == "file" && line[j + 7..] == "recovered"
    ensures RunEnd(line, 0, Digits) == j && RunEnd(line, j, Spaces) == j + 1
    ensures RunEnd(line, j + 6, Spaces) == j + 7
  {
    assert line[j + 1] == line[j + 1..j + 5][0] == 'f';
    assert line[j + 7] == line[j + 7..][0] == 'r';
    RunEndAt(line, 0, j, Digits);
    RunEndAt(line, j, j + 1, Spaces);
    RunEndAt(line, j + 6, j + 7, Spaces);
  }

  /** Digits followed by " files recovered" match at the start, capturing the digits. */
  lemma CountAtSummary(line: string, j: nat)
    requires 0 < j && j + 16 == |line|
    requires forall p | 0 <= p < j :: IsDigit(line[p])
    requires line[j..] == " files recovered"
    ensures AllDigits(line[..j]) && CountAt(line, 0) == Some(DigitsValue(line[..j]))
  {
    SummaryWords(line, j);
    SummaryRuns(line, j);
    LowerWords();
    assert line[j + 7..j + 16] == line[j + 7..];
    assert line[0..j] == line[..j];
  }

  /** PhotoRec's summary line "<n> files recovered" reports `n`. */
  lemma ReportedCountOfSummary(n: nat, line: string)
    requires line == Decimal(n) + " files recovered"
    ensures ReportedCount(line) == Some(n)
  {
    var d := Decimal(n);
    forall p | 0 <= p < |d| ensures IsDigit(line[p]) {
      assert line[p] == d[p];
    }
    assert line[|d|..] == " files recovered";
    assert line[..|d|] == d;
    CountAtSummary(line, |d|);
  }

  /**
   * What `_parse_results` promises: the recup directories and their files as
   * listed, and a count that is the largest of the number of files found and
   * every count PhotoRec reported.
   */
  predicate ParsedFrom(r: PhotoRecResult, outputDir: string, listing: seq<Entry>, lines: seq<string>) {
    && r.outputDir == outputDir
    && r.outputLines == lines
    && r.recupDirs == Paths(outputDir, RecupEntries(listing))
    && r.recoveredFiles == RecoveredFiles(outputDir, RecupEntries(listing))
    && r.filesRecovered >= |r.recoveredFiles|
    && (forall i | 0 <= i < |lines| && ReportedCount(lines[i]).Some? ::
          r.filesRecovered >= ReportedCount(lines[i]).value)
    && (r.filesRecovered == |r.recoveredFiles|
        || exists i | 0 <= i < |lines| :: ReportedCount(lines[i]) == Some(r.filesRecovered))
  }

  /** The first loop of `_parse_results`: the `*.jpg` and `*.JPG` files of every recup entry that is a directory. */
  method CollectFiles(outputDir: string, recup: seq<Entry>) returns (files: seq<string>)
    ensures files == RecoveredFiles(outputDir, recup)
  {
    files := [];
    for i := 0 to |recup|
      invariant files == RecoveredFiles(outputDir, recup[..i])
    {
      assert recup[..i + 1][..i] == recup[..i];
      assert RecoveredFiles(outputDir, recup[..i + 1]) == files + FilesOf(outputDir, recup[i]);
      if recup[i].isDir {
        var dir := PathJoin(outputDir, recup[i].name);
        files := files + Glob(dir, recup[i].children, ".jpg");
        files := files + Glob(dir, recup[i].children, ".JPG");
      }
    }
    assert recup[..|recup|] == recup;
  }

  /**
   * The second loop of `_parse_results`: starting from the number of files
   * found, the largest of it and every count a line reports.
   */
  method LargestCount(found: nat, lines: seq<string>) returns (n: nat)
    ensures n >= found
    ensures forall i | 0 <= i < |lines| && ReportedCount(lines[i]).Some? :: n >= ReportedCount(lines[i]).value
    ensures n == found || exists i | 0 <= i < |lines| :: ReportedCount(lines[i]) == Some(n)
  {
    n := found;
    ghost var source := -1;  // the line whose count was taken, if any
    for i := 0 to |lines|
      invariant n >= found
      invariant forall k | 0 <= k < i && ReportedCount(lines[k]).Some? :: n >= ReportedCount(lines[k]).value
      invariant source == -1 ==> n == found
      invariant source != -1 ==> 0 <= source < i && ReportedCount(lines[source]) == Some(n)
    {
      var reported := ReportedCount(lines[i]);
      if reported.Some? && reported.value > n {
        n := reported.value;
        source := i;
      }
    }
  }

  /** `_parse_results` over a listing of the output directory, taken in the order given. */
  method ParseResults(outputDir: string, listing: seq<Entry>, lines: seq<string>) returns (r: PhotoRecResult)
    ensures ParsedFrom(r, outputDir, listing, lines)
  {
    var recup := RecupEntries(listing);
    var recoveredFiles := CollectFiles(outputDir, recup);
    var filesRecovered := LargestCount(|recoveredFiles|, lines);
    r := PhotoRecResult(outputDir, Paths(outputDir, recup), filesRecovered, recoveredFiles, lines);
  }

  // ----------------------------------------------------------------- execute

  /** The child process: it could not be started, or it printed these lines and exited with this status. */
  datatype Process = LaunchFailed | Ran(stdout: seq<string>, exitCode: int)

  /** Why `execute` failed. */
  datatype ExecError =
    | OutputDirUnavailable                 // creating the output directory raised (outside the try)
    | StartFailed                          // starting PhotoRec raised
    | NonZeroExit(code: int, tail: seq<string>)

  /** The exception class each failure surfaces as. */
  function KindOf(e: ExecError): ErrorKind {
    if e.OutputDirUnavailable? then OsError else PhotoRecExecution
  }

  /** `output_lines[-20:]`: the last min(20, n) lines. */
  function Tail(lines: seq<string>): (t: seq<string>)
    ensures |t| == if |lines| < 20 then |lines| else 20
    ensures forall k | 0 <= k < |t| :: t[k] == lines[|lines| - |t| + k]
  {
    if |lines| <= 20 then lines else lines[|lines| - 20..]
  }

  /** The captured output: every line the child printed, right-stripped, in order. */
  function Captured(stdout: seq<string>): (lines: seq<string>)
    ensures |lines| == |stdout|
  {
    seq(|stdout|, i requires 0 <= i < |stdout| => RStrip(stdout[i]))
  }

  /** The reading loop of `execute`: each line right-stripped, kept, and handed to the callback if there is one. */
  method StreamOutput(stdout: seq<string>, hasCallback: bool) returns (outputLines: seq<string>, delivered: seq<string>)
    ensures outputLines == Captured(stdout)
    ensures delivered == (if hasCallback then outputLines else [])
  {
    outputLines, delivered := [], [];
    for i := 0 to |stdout|
      invariant |outputLines| == i
      invariant forall k | 0 <= k < i :: outputLines[k] == RStrip(stdout[k])
      invariant delivered == (if hasCallback then outputLines else [])
    {
      var line := RStrip(stdout[i]);
      outputLines := outputLines + [line];
      if hasCallback {
        delivered := delivered + [line];
      }
    }
  }

  /**
   * `execute`. `dirCreated` says whether creating the output directory
   * succeeded, `listing` is the output directory afterwards and `hasCallback`
   * whether a progress callback was given; `delivered` is what the callback
   * received and `launched` the command handed to the child, if any. Every
   * line is right-stripped and captured in order; a non-zero exit keeps only
   * the last twenty lines and parses nothing.
   */
  method Execute(exe: string, devicePath: string, outputDir: string, paranoid: bool,
                 fileTypes: Option<seq<string>>, dirCreated: bool, process: Process,
                 listing: seq<Entry>, hasCallback: bool)
    returns (launched: Option<seq<string>>, r: Result<PhotoRecResult, ExecError>, delivered: seq<string>)
    ensures !dirCreated ==> launched.None? && r == Failure(OutputDirUnavailable) && delivered == []
    ensures dirCreated ==> launched == Some([exe, "/d", outputDir, "/cmd", devicePath,
                                            Join(Options(paranoid, TypesOrDefault(fileTypes)), ",")])
    ensures dirCreated && process.LaunchFailed? ==> r == Failure(StartFailed) && delivered == []
    ensures dirCreated && process.Ran? ==>
      var lines := Captured(process.stdout);
      && delivered == (if hasCallback then lines else [])
      && (process.exitCode != 0 ==> r == Failure(NonZeroExit(process.exitCode, Tail(lines))))
      && (process.exitCode == 0 ==> r.Success? && ParsedFrom(r.value, outputDir, listing, lines))
  {
    delivered := [];
    if !dirCreated {
      return None, Failure(OutputDirUnavailable), [];
    }
    var cmd := BuildCommand(exe, devicePath, outputDir, paranoid, fileTypes);
    launched := Some(cmd);
    if process.LaunchFailed? {
      return launched, Failure(StartFailed), [];
    }
    var outputLines;
    outputLines, delivered := StreamOutput(process.stdout, hasCallback);
    if process.exitCode != 0 {
      r := Failure(NonZeroExit(process.exitCode, Tail(outputLines)));
      return;
    }
    var result := ParseResults(outputDir, listing, outputLines);
    r := Success(result);
  }
}
