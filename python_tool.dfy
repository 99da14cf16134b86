/**
 * The Python environment manager: how an embedded CPython release is laid
 * out from its version string, the `._pth` patch that enables site-packages,
 * the rules that decide when provisioning, pip bootstrapping, cloning and a
 * child process count as successful, the ordered search for an installed
 * interpreter and the all-must-pass dependency probe.
 *
 * Downloads, archive extraction and child processes are not performed: each
 * appears as an oracle argument saying how that effect turned out.
 */
module PythonTool {
  import opened Text
  import opened FileSystem

  /** How an external process ended: with an exit code, or with an exception
    * (it could not be started, or reading its streams failed). */
  datatype ProcessOutcome = Exited(code: int) | Threw

  /** One `python -c "import m"` probe: its exit code and standard error. */
  datatype Probe = Ran(exitCode: int, stderr: string) | ProbeThrew

  // ---------------------------------------------------------------------
  // Names derived from the version string (PythonTool.cs:61-64, 107)
  // ---------------------------------------------------------------------

  const PythonFtp := "https://www.python.org/ftp/python/"

  /** The name of the embeddable archive, `python-{v}-embed-amd64.zip`. */
  function ZipFileName(v: string): string
  {
    "python-" + v + "-embed-amd64.zip"
  }

  /** `https://www.python.org/ftp/python/{v}/python-{v}-embed-amd64.zip` */
  function DownloadUrl(v: string): string
  {
    "https://www.python.org/ftp/python/" + v + "/python-" + v + "-embed-amd64.zip"
  }

  /** Where the archive is saved: in the target directory, under its name. */
  function ZipPath(v: string, tempDir: Path): Path
  {
    tempDir + [ZipFileName(v)]
  }

  /** The directory name `"python" + v` with every '.' removed. */
  function ExtractDirName(v: string): string
  {
    "python" + Replace(v, ".", "")
  }

  function ExtractDir(v: string, tempDir: Path): Path
  {
    tempDir + [ExtractDirName(v)]
  }

  /** The interpreter that provisioning expects after extraction. */
  function ExePath(v: string, tempDir: Path): Path
  {
    ExtractDir(v, tempDir) + ["python.exe"]
  }

  /** `python{major}{minor}._pth` from the first two dot-separated parts;
    * None when the version has no second part, where the source's index
    * into the split array throws. */
  function PthFileName(v: string): Option<string>
  {
    var parts := Split(v, '.');
    if |parts| < 2 then None else Some("python" + parts[0] + parts[1] + "._pth")
  }

  /** The archive is saved under the last segment of the download URL, and
    * the URL sits in the release's own folder on python.org. */
  lemma UrlEndsWithZipName(v: string)
    ensures DownloadUrl(v) == PythonFtp + v + "/" + ZipFileName(v)
    ensures PythonFtp + v + "/" <= DownloadUrl(v)
  {
  }

  /** Different versions are fetched from different URLs. */
  lemma DownloadUrlInjective(v1: string, v2: string)
    requires DownloadUrl(v1) == DownloadUrl(v2)
    ensures v1 == v2
  {
    var u := DownloadUrl(v1);
    assert |u| == |PythonFtp| + 2 * |v1| + 24;
    assert |u| == |PythonFtp| + 2 * |v2| + 24;
    assert u[|PythonFtp|..|PythonFtp| + |v1|] == v1;
    assert DownloadUrl(v2)[|PythonFtp|..|PythonFtp| + |v2|] == v2;
  }

  lemma {:induction false} ConcatWithout(parts: seq<string>, c: char)
    requires forall k :: 0 <= k < |parts| ==> c !in parts[k]
    ensures c !in Concat(parts)
    decreases |parts|
  {
    if |parts| > 0 {
      ConcatWithout(parts[1..], c);
    }
  }

  /** The extract directory is "python" followed by the dot-separated parts
    * of the version run together, and its name holds no '.'. */
  lemma ExtractDirNameParts(v: string)
    ensures ExtractDirName(v) == "python" + Concat(Split(v, '.'))
    ensures '.' !in ExtractDirName(v)
  {
    RemoveIsConcatOfSplit(v, '.');
    SplitPieces(v, '.');
    ConcatWithout(Split(v, '.'), '.');
    assert '.' !in "python";
  }

  /** The `._pth` file exists as a name exactly when the version has a dot,
    * and its stem is a prefix of the extract directory's name. */
  lemma PthNameMatchesExtractDir(v: string)
    ensures PthFileName(v).Some? <==> '.' in v
    ensures PthFileName(v).Some? ==>
              var n := PthFileName(v).value;
              |n| >= 5 && n[|n| - 5..] == "._pth" && n[..|n| - 5] <= ExtractDirName(v)
  {
    if '.' in v {
      PthStem(v);
    } else {
      IndexOfAbsent(v, '.');
      assert Split(v, '.') == [v];
    }
  }

  /** The stem of the `._pth` name of a dotted version. */
  lemma PthStem(v: string)
    requires '.' in v
    ensures PthFileName(v).Some?
    ensures var n := PthFileName(v).value;
      |n| >= 5 && n[|n| - 5..] == "._pth" && n[..|n| - 5] <= ExtractDirName(v)
  {
    var parts := DottedParts(v);
    var stem := "python" + parts[0] + parts[1];
    StemBeforeSuffix(stem, "._pth");
    StemOfExtractDir(v, parts);
  }

  lemma StemBeforeSuffix(stem: string, suffix: string)
    ensures var n := stem + suffix;
      n[..|stem|] == stem && n[|stem|..] == suffix
  {
  }

  /** "python" and the first two parts start the extract directory's name. */
  lemma StemOfExtractDir(v: string, parts: seq<string>)
    requires parts == Split(v, '.') && |parts| >= 2
    ensures "python" + parts[0] + parts[1] <= ExtractDirName(v)
  {
    var c := Concat(parts);
    assert ExtractDirName(v) == "python" + c by {
      ExtractDirNameParts(v);
    }
    ConcatFirstTwo(parts);
    var tail := Concat(parts[2..]);
    assert "python" + c == ("python" + parts[0] + parts[1]) + tail;
  }

  /** A version with a dot has at least two parts. */
  lemma DottedParts(v: string) returns (parts: seq<string>)
    requires '.' in v
    ensures parts == Split(v, '.') && |parts| >= 2
  {
    parts := Split(v, '.');
    var i := IndexOf(v, '.');
    assert i < |v|;
    SplitPieces(v[i + 1..], '.');
  }

  lemma ConcatFirstTwo(parts: seq<string>)
    requires |parts| >= 2
    ensures Concat(parts) == parts[0] + parts[1] + Concat(parts[2..])
  {
    assert parts[1..][0] == parts[1] && parts[1..][1..] == parts[2..];
  }

  // ---------------------------------------------------------------------
  // The `._pth` patch (PythonTool.cs:111-113)
  // ---------------------------------------------------------------------

  /** Every non-overlapping `#import site`, left to right, becomes
    * `import site`. */
  function PatchSite(content: string): string
  {
    Replace(content, "#import site", "import site")
  }

  /** The patch leaves a file alone exactly when it has no `#import site`,
    * and otherwise makes it shorter. */
  lemma PatchUnchangedIff(content: string)
    ensures PatchSite(content) == content <==> !Contains(content, "#import site")
    ensures Contains(content, "#import site") ==> |PatchSite(content)| < |content|
  {
    ReplaceUnchangedIff(content, "#import site", "import site");
    ReplaceShorter(content, "#import site", "import site");
  }

  /** The patch is not idempotent: a doubled comment mark loses one mark per
    * run. */
  lemma PatchNotIdempotent()
    ensures PatchSite("##import site") == "#import site"
    ensures PatchSite(PatchSite("##import site")) == "import site"
  {
    var s := "##import site";
    assert !("#import site" <= s) by { assert s[1] != "#import site"[1]; }
    assert s[1..] == "#import site";
    assert "#import site"[12..] == [];
    assert "import site" + [] == "import site";
  }

  // ---------------------------------------------------------------------
  // Success rules
  // ---------------------------------------------------------------------

  /** RunProcessAsync's rule: only a zero exit code does not raise. */
  predicate Succeeded(o: ProcessOutcome)
  {
    o.Exited? && o.code == 0
  }

  /** EnsurePipInstalledAsync: `fetched` says whether get-pip.py was
    * downloaded and written, `install` how running it ended and `check`
    * how `python -m pip --version` ended. */
  function PipInstalled(fetched: bool, install: ProcessOutcome, check: ProcessOutcome): (ok: bool)
    ensures ok <==> fetched && Succeeded(install) && !check.Threw?
  {
    if !fetched then false
    else match install
      case Threw => false
      case Exited(code) =>
        if code != 0 then false
        else match check
          case Threw => false
          // The exit code of `pip --version` is only logged.
          case Exited(_) => true
  }

  /** The name the previous contents of the target are moved to:
    * `{targetDir}_backup_{yyyyMMdd_HHmmss}`. */
  function BackupName(targetDir: string, now: DateTime): string
    requires now.Valid()
  {
    targetDir + "_backup_" + FormatStamp(now)
  }

  /** The backup name names the target it came from and the moment of the
    * backup, so backups made at different times never collide. */
  lemma BackupNameRecoversTime(targetDir: string, now: DateTime)
    requires now.Valid()
    ensures var b := BackupName(targetDir, now);
      && b[..|targetDir|] == targetDir
      && ParseStamp(b[|targetDir| + 8..]) == Some(now)
  {
    var b := BackupName(targetDir, now);
    assert b[|targetDir| + 8..] == FormatStamp(now);
    StampRoundTrip(now);
  }

  lemma BackupNamesDistinct(targetDir: string, t1: DateTime, t2: DateTime)
    requires t1.Valid() && t2.Valid() && t1 != t2
    ensures BackupName(targetDir, t1) != BackupName(targetDir, t2)
  {
    BackupNameRecoversTime(targetDir, t1);
    BackupNameRecoversTime(targetDir, t2);
  }

  /** What CloneRepositoryAsync did: whether it reports success, and the
    * backup directory the old contents were moved to, if any. */
  datatype CloneResult = CloneResult(ok: bool, backup: Option<string>)

  /** CloneRepositoryAsync (PythonTool.cs:219-326). `gitVersion` is how
    * `git --version` ended, `nonEmpty` whether the target has entries,
    * `moved` whether Directory.Move to the backup worked, `clone` how
    * `git clone` ended and `hasFiles` whether the target holds files
    * afterwards. A failing move, or a failing re-creation of the target
    * after a move, is only logged; the backup exists exactly when the move
    * worked. */
  function CloneRepository(targetDir: string, gitVersion: ProcessOutcome, nonEmpty: bool, now: DateTime,
                           moved: bool, clone: ProcessOutcome, hasFiles: bool): (r: CloneResult)
    requires now.Valid()
    ensures r.ok <==> Succeeded(gitVersion) && Succeeded(clone) && hasFiles
    ensures r.backup.Some? <==> Succeeded(gitVersion) && nonEmpty && moved
    ensures r.backup.Some? ==> r.backup.value == BackupName(targetDir, now)
  {
    match gitVersion
    case Threw => CloneResult(false, None)
    case Exited(code) =>
      if code != 0 then CloneResult(false, None)
      else
        var backup := if nonEmpty && moved then Some(BackupName(targetDir, now)) else None;
        match clone
        case Threw => CloneResult(false, backup)
        case Exited(c) => CloneResult(c == 0 && hasFiles, backup)
  }

  // ---------------------------------------------------------------------
  // The dependency probe (PythonTool.cs:718-765)
  // ---------------------------------------------------------------------

  /** A module counts as installed when importing it exits 0 and writes
    * nothing to standard error. */
  predicate ProbePasses(p: Probe)
  {
    p.Ran? && p.exitCode == 0 && p.stderr == ""
  }

  /** The index of the first failing probe, or the number of probes when
    * all pass. */
  function FirstFailure(probes: seq<Probe>): (i: nat)
    ensures i <= |probes|
    ensures forall k :: 0 <= k < i ==> ProbePasses(probes[k])
    ensures i < |probes| ==> !ProbePasses(probes[i])
    decreases |probes|
  {
    if |probes| == 0 then 0
    else if !ProbePasses(probes[0]) then 0
    else 1 + FirstFailure(probes[1..])
  }

  /** The outcome of CheckDependenciesInstalledAsync with interpreter
    * `exe`: None where it throws for want of an interpreter, otherwise
    * whether every probe passes. */
  function DependencyVerdict(exe: string, probes: seq<Probe>): (r: Option<bool>)
    ensures r.None? <==> exe == ""
    ensures r == Some(true) <==> exe != "" && forall k :: 0 <= k < |probes| ==> ProbePasses(probes[k])
  {
    if exe == "" then None else Some(FirstFailure(probes) == |probes|)
  }

  /** How many probes run: all of them when they pass, otherwise up to and
    * including the first failing one. */
  function ProbesLaunched(exe: string, probes: seq<Probe>): nat
  {
    if exe == "" then 0
    else if FirstFailure(probes) == |probes| then |probes|
    else FirstFailure(probes) + 1
  }

  // ---------------------------------------------------------------------
  // The ordered interpreter search (PythonTool.cs:614-699)
  // ---------------------------------------------------------------------

  /** The two places looked at inside a directory, in order. */
  function DirCandidates(dir: Path): seq<Path>
  {
    [dir + ["python.exe"], dir + ["Scripts", "python.exe"]]
  }

  /** The places looked at inside the listed subdirectories, in listing
    * order, for those whose full path contains "python". */
  function SubdirCandidates(subdirs: seq<Path>): seq<Path>
    decreases |subdirs|
  {
    if subdirs == [] then []
    else (if Contains(Render(subdirs[0]), "python") then DirCandidates(subdirs[0]) else [])
         + SubdirCandidates(subdirs[1..])
  }

  /** The same places without the name filter. */
  function AllSubdirCandidates(subdirs: seq<Path>): seq<Path>
    decreases |subdirs|
  {
    if subdirs == [] then [] else DirCandidates(subdirs[0]) + AllSubdirCandidates(subdirs[1..])
  }

  /** The index of the first candidate that is a file, or the number of
    * candidates when none is. */
  function FirstExisting(files: set<Path>, cands: seq<Path>): (i: nat)
    ensures i <= |cands|
    ensures forall k :: 0 <= k < i ==> cands[k] !in files
    ensures i < |cands| ==> cands[i] in files
    decreases |cands|
  {
    if |cands| == 0 then 0
    else if cands[0] in files then 0
    else 1 + FirstExisting(files, cands[1..])
  }

  /** File.Exists on a path given as text. */
  predicate IsFileNamed(files: set<Path>, s: string)
  {
    s != "" && Split(s, '\\') in files
  }

  /** A listing of `pythonDir`'s subdirectories at every depth, in some
    * order. */
  ghost predicate ListsBelow(dirs: set<Path>, pythonDir: Path, subdirs: seq<Path>)
  {
    forall x :: x in subdirs <==> x in dirs && Below(pythonDir, x)
  }

  /** Every subdirectory path of the tool's `.python` directory contains
    * "python", so the name filter of the subdirectory search lets all of
    * them through. */
  lemma PythonFilterVacuous(pythonDir: Path, subdirs: seq<Path>)
    requires |pythonDir| > 0 && pythonDir[|pythonDir| - 1] == ".python"
    requires forall k :: 0 <= k < |subdirs| ==> Below(pythonDir, subdirs[k])
    ensures SubdirCandidates(subdirs) == AllSubdirCandidates(subdirs)
    decreases |subdirs|
  {
    if subdirs != [] {
      SubdirNameContainsPython(pythonDir, subdirs[0]);
      PythonFilterVacuous(pythonDir, subdirs[1..]);
    }
  }

  lemma SubdirNameContainsPython(pythonDir: Path, x: Path)
    requires |pythonDir| > 0 && pythonDir[|pythonDir| - 1] == ".python"
    requires Below(pythonDir, x)
    ensures Contains(Render(x), "python")
  {
    DirNameContainsPython(pythonDir);
    RenderBelow(pythonDir, x);
    var r := Render(x);
    var head := Render(pythonDir);
    assert head <= r;
    assert r == head + r[|head|..];
    ContainsInside([], head, r[|head|..], "python");
    assert [] + head + r[|head|..] == r;
  }

  lemma DirNameContainsPython(pythonDir: Path)
    requires |pythonDir| > 0 && pythonDir[|pythonDir| - 1] == ".python"
    ensures Contains(Render(pythonDir), "python")
  {
    var dot := ".python";
    assert dot[1..] == "python";
    assert Contains(dot[1..], "python");
    assert Contains(dot, "python");
    if |pythonDir| == 1 {
      assert Render(pythonDir) == dot;
    } else {
      var front := pythonDir[..|pythonDir| - 1];
      assert pythonDir == front + [dot];
      JoinSnoc(front, dot, "\\");
      ContainsInside(Render(front) + "\\", dot, [], "python");
      assert Render(front) + "\\" + dot + [] == Render(pythonDir);
    }
  }

  /** The saved interpreter path is readable and names an existing file. */
  predicate SavedHit(saved: Option<string>, configReadable: bool, files: set<Path>)
  {
    saved.Some? && configReadable && IsFileNamed(files, Trim(saved.value))
  }

  /** The interpreter an ordered search finds: the saved path if it names a
    * file; nothing when the saved path cannot be read or `pythonDir` is
    * missing; else the first of `python.exe` and `Scripts\python.exe` in
    * `pythonDir`; else, when the listing succeeds, the first such file in a
    * listed subdirectory whose path contains "python". */
  function Detected(saved: Option<string>, configReadable: bool, files: set<Path>, dirs: set<Path>,
                    pythonDir: Path, listing: Option<seq<Path>>): Option<string>
  {
    if SavedHit(saved, configReadable, files) then Some(Trim(saved.value))
    else if saved.Some? && !configReadable then None
    else if pythonDir !in dirs then None
    else
      var within := DirCandidates(pythonDir);
      var i := FirstExisting(files, within);
      if i < |within| then Some(Render(within[i]))
      else if listing.None? then None
      else
        var cands := SubdirCandidates(listing.value);
        var j := FirstExisting(files, cands);
        if j < |cands| then Some(Render(cands[j])) else None
  }

  /** What the search finds is an existing file: the saved path, or a
    * `python.exe` at or below `pythonDir`. */
  lemma DetectedNamesFile(saved: Option<string>, configReadable: bool, files: set<Path>, dirs: set<Path>,
                          pythonDir: Path, listing: Option<seq<Path>>)
    requires listing.Some? ==> forall k :: 0 <= k < |listing.value| ==> Below(pythonDir, listing.value[k])
    ensures var d := Detected(saved, configReadable, files, dirs, pythonDir, listing);
      d.Some? ==> exists f :: f in files && Render(f) == d.value
                    && (SavedHit(saved, configReadable, files) || ExeBelow(pythonDir, f))
  {
    var d := Detected(saved, configReadable, files, dirs, pythonDir, listing);
    if SavedHit(saved, configReadable, files) {
      var f := Split(Trim(saved.value), '\\');
      JoinSplit(Trim(saved.value), '\\');
      assert f in files && Render(f) == d.value;
    } else if d.Some? {
      var within := DirCandidates(pythonDir);
      var i := FirstExisting(files, within);
      if i < |within| {
        DirCandidatesBelow(pythonDir, pythonDir);
        assert within[i] in within;
      } else {
        var cands := SubdirCandidates(listing.value);
        var j := FirstExisting(files, cands);
        assert j < |cands|;
        CandidatesBelow(pythonDir, listing.value);
        assert cands[j] in cands;
      }
    }
  }

  /** `f` is a `python.exe` strictly below `top`. */
  predicate ExeBelow(top: Path, f: Path)
  {
    Below(top, f) && f[|f| - 1] == "python.exe"
  }

  /** Every candidate of the subdirectory search is a `python.exe` below
    * `pythonDir`. */
  lemma {:induction false} CandidatesBelow(pythonDir: Path, subdirs: seq<Path>)
    requires forall k :: 0 <= k < |subdirs| ==> Below(pythonDir, subdirs[k])
    ensures forall f :: f in SubdirCandidates(subdirs) ==> ExeBelow(pythonDir, f)
    decreases |subdirs|
  {
    if subdirs != [] {
      CandidatesBelow(pythonDir, subdirs[1..]);
      var x := subdirs[0];
      assert Below(pythonDir, x);
      DirCandidatesBelow(pythonDir, x);
      var head := if Contains(Render(x), "python") then DirCandidates(x) else [];
      assert SubdirCandidates(subdirs) == head + SubdirCandidates(subdirs[1..]);
    }
  }

  lemma DirCandidatesBelow(pythonDir: Path, x: Path)
    requires pythonDir <= x
    ensures forall f :: f in DirCandidates(x) ==> ExeBelow(pythonDir, f)
  {
    var a, b := x + ["python.exe"], x + ["Scripts", "python.exe"];
    assert a[..|pythonDir|] == pythonDir && b[..|pythonDir|] == pythonDir;
  }

  // ---------------------------------------------------------------------
  // The manager
  // ---------------------------------------------------------------------

  class EnvironmentManager {
    /** _pythonExecutablePath */
    var executablePath: string
    /** The text of python_config.txt in the start-up directory; None while
      * that file does not exist. */
    var config: Option<string>

    constructor (config: Option<string>)
      ensures executablePath == "" && this.config == config
    {
      executablePath := "";
      this.config := config;
    }

    /** SavePythonPath: python_config.txt now holds exactly `p`. */
    method SavePythonPath(p: string)
      modifies this
      ensures config == Some(p)
      ensures executablePath == old(executablePath)
    {
      config := Some(p);
    }

    /** DownloadPythonAsync (PythonTool.cs:34-160) for `version` into
      * `tempDir`. `fetched` says whether the HTTP download succeeded,
      * `extracted` whether unzipping did, `exePresent` whether python.exe
      * exists afterwards and `pth` the text of the `._pth` file if there
      * is one; the three pip arguments are those of PipInstalled. Result
      * None where the source throws; `patched` is the text written back to
      * the `._pth` file, if any. */
    method DownloadPython(version: string, tempDir: Path, fetched: bool, extracted: bool, exePresent: bool,
                          pth: Option<string>, pipFetched: bool, pipRun: ProcessOutcome, pipCheck: ProcessOutcome)
      returns (r: Option<string>, patched: Option<string>)
      modifies this
      ensures r.Some? <==> fetched && extracted && exePresent
      ensures r.Some? ==> r.value == Render(ExePath(version, tempDir))
      ensures executablePath == if fetched && extracted then Render(ExePath(version, tempDir))
                                else old(executablePath)
      ensures config == if r.Some? then r else old(config)
      ensures patched == if r.Some? && PthFileName(version).Some? && pth.Some?
                         then Some(PatchSite(pth.value)) else None
    {
      patched := None;
      if !fetched || !extracted {
        return None, None;
      }
      // The path is recorded before the executable is looked for.
      executablePath := Render(ExePath(version, tempDir));
      if !exePresent {
        return None, None;
      }
      // `python{major}{minor}._pth`: a version without a second part
      // throws here, which the surrounding handler swallows.
      var name := PthFileName(version);
      if name.Some? && pth.Some? {
        patched := Some(PatchSite(pth.value));
      }
      // The outcome of installing pip is not looked at.
      var _ := PipInstalled(pipFetched, pipRun, pipCheck);
      SavePythonPath(executablePath);
      r := Some(executablePath);
    }

    /** CheckDependenciesInstalledAsync: probes `modules` in order (probe
      * `probes[k]` for module `modules[k]`), stopping at the first one that
      * fails. Result None where it throws for want of an interpreter;
      * `launched` is the number of probes started. */
    method CheckDependenciesInstalled(modules: seq<string>, probes: seq<Probe>)
      returns (r: Option<bool>, launched: nat)
      requires |probes| == |modules|
      ensures r == DependencyVerdict(executablePath, probes)
      ensures launched == ProbesLaunched(executablePath, probes)
    {
      launched := 0;
      if executablePath == "" {
        return None, 0;
      }
      var i := 0;
      while i < |modules|
        invariant 0 <= i <= |modules|
        invariant forall k :: 0 <= k < i ==> ProbePasses(probes[k])
      {
        launched := i + 1;
        var p := probes[i];
        if !(p.Ran? && p.exitCode == 0 && p.stderr == "") {
          return Some(false), launched;
        }
        i := i + 1;
      }
      return Some(true), |modules|;
    }

    /** TryDetectExistingPython (PythonTool.cs:614-699). `configReadable`
      * says whether reading python_config.txt succeeds and `listing` is the
      * recursive listing of `pythonDir`'s subdirectories (None where that
      * listing throws). The result is the one Detected gives; a hit other
      * than the saved path is saved. */
    method TryDetectExistingPython(disk: Disk, pythonDir: Path, configReadable: bool, listing: Option<seq<Path>>)
      returns (found: bool, pythonPath: string)
      requires listing.Some? ==> ListsBelow(disk.dirs, pythonDir, listing.value)
      modifies this
      ensures var d := Detected(old(config), configReadable, disk.files, disk.dirs, pythonDir, listing);
        && found == d.Some?
        && pythonPath == (if found then d.value else "")
        && executablePath == (if found then pythonPath else old(executablePath))
        && config == (if found && !SavedHit(old(config), configReadable, disk.files) then Some(pythonPath)
                      else old(config))
    {
      found, pythonPath := false, "";
      if config.Some? {
        if !configReadable {
          return;
        }
        var savedPath := Trim(config.value);
        if savedPath != "" && Split(savedPath, '\\') in disk.files {
          executablePath := savedPath;
          return true, savedPath;
        }
      }
      if pythonDir !in disk.dirs {
        return;
      }
      var hit := FindIn(disk, DirCandidates(pythonDir));
      if hit.Some? {
        found, pythonPath := true, Render(hit.value);
      } else if listing.Some? {
        hit := FindInSubdirectories(disk, listing.value);
        if hit.Some? {
          found, pythonPath := true, Render(hit.value);
        }
      }
      if found {
        executablePath := pythonPath;
        SavePythonPath(pythonPath);
      }
    }

    /** The first of `cands` that exists, looked at in order. */
    method FindIn(disk: Disk, cands: seq<Path>) returns (hit: Option<Path>)
      ensures var i := FirstExisting(disk.files, cands);
        hit == if i < |cands| then Some(cands[i]) else None
    {
      var i := 0;
      while i < |cands|
        invariant 0 <= i <= |cands|
        invariant forall k :: 0 <= k < i ==> cands[k] !in disk.files
      {
        if cands[i] in disk.files {
          FirstExistingAt(disk.files, cands, i);
          return Some(cands[i]);
        }
        i := i + 1;
      }
      FirstExistingAt(disk.files, cands, i);
      return None;
    }

    /** The loop over the listed subdirectories: the first whose full path
      * contains "python" and that holds `python.exe` or
      * `Scripts\python.exe` gives the hit. */
    method FindInSubdirectories(disk: Disk, subdirs: seq<Path>) returns (hit: Option<Path>)
      ensures var cands := SubdirCandidates(subdirs);
        var j := FirstExisting(disk.files, cands);
        hit == if j < |cands| then Some(cands[j]) else None
    {
      var i := 0;
      while i < |subdirs|
        invariant 0 <= i <= |subdirs|
        invariant forall k :: 0 <= k < |SubdirCandidates(subdirs[..i])| ==>
                    SubdirCandidates(subdirs[..i])[k] !in disk.files
      {
        var dir := subdirs[i];
        SubdirCandidatesSnoc(subdirs[..i], dir);
        assert subdirs[..i + 1] == subdirs[..i] + [dir];
        if Contains(Render(dir), "python") {
          hit := FindIn(disk, DirCandidates(dir));
          if hit.Some? {
            assert subdirs[i..][0] == dir && subdirs[i..][1..] == subdirs[i + 1..];
            assert SubdirCandidates(subdirs[i..]) == DirCandidates(dir) + SubdirCandidates(subdirs[i + 1..]);
            FirstExistingWithin(disk.files, DirCandidates(dir), SubdirCandidates(subdirs[i + 1..]));
            SubdirCandidatesSplit(subdirs, i);
            FirstExistingAfter(disk.files, SubdirCandidates(subdirs[..i]), SubdirCandidates(subdirs[i..]));
            return;
          }
        }
        i := i + 1;
      }
      assert subdirs[..i] == subdirs;
      FirstExistingAt(disk.files, SubdirCandidates(subdirs), |SubdirCandidates(subdirs)|);
      return None;
    }

    /** RunProcessAsync (PythonTool.cs:559-611): creates a missing working
      * directory, then raises exactly when the process does not exit 0. */
    method RunProcess(disk: Disk, workDir: Path, outcome: ProcessOutcome) returns (threw: bool)
      requires disk.Valid()
      modifies disk
      ensures disk.Valid()
      ensures disk.dirs == old(disk.dirs) + Prefixes(workDir)
      ensures disk.files == old(disk.files)
      ensures threw <==> !Succeeded(outcome)
    {
      if !disk.DirectoryExists(workDir) {
        disk.CreateDirectory(workDir);
      } else {
        ExistingKeepsPrefixes(disk.files, disk.dirs, workDir);
      }
      threw := !(outcome.Exited? && outcome.code == 0);
    }
  }

  lemma ExistingKeepsPrefixes(files: set<Path>, dirs: set<Path>, d: Path)
    requires Tree(files, dirs) && d in dirs
    ensures dirs + Prefixes(d) == dirs
  {
    forall x | x in Prefixes(d) ensures x in dirs {
      var k :| 0 <= k <= |d| && x == d[..k];
      if k < |d| {
        AncestorExists(files, dirs, d, k);
      } else {
        assert x == d;
      }
    }
  }

  lemma {:induction false} FirstExistingAt(files: set<Path>, cands: seq<Path>, i: nat)
    requires i <= |cands|
    requires forall k :: 0 <= k < i ==> cands[k] !in files
    requires i == |cands| || cands[i] in files
    ensures FirstExisting(files, cands) == i
    decreases i
  {
    if i > 0 {
      FirstExistingAt(files, cands[1..], i - 1);
    }
  }

  /** Searching a concatenation finds the first part's hit when it has one. */
  lemma FirstExistingWithin(files: set<Path>, b: seq<Path>, c: seq<Path>)
    requires FirstExisting(files, b) < |b|
    ensures FirstExisting(files, b + c) == FirstExisting(files, b)
  {
    FirstExistingAt(files, b + c, FirstExisting(files, b));
  }

  /** Searching a concatenation finds the first hit of the second part when
    * the first part has none. */
  lemma FirstExistingAfter(files: set<Path>, a: seq<Path>, b: seq<Path>)
    requires forall k :: 0 <= k < |a| ==> a[k] !in files
    requires FirstExisting(files, b) < |b|
    ensures FirstExisting(files, a + b) == |a| + FirstExisting(files, b)
    ensures (a + b)[FirstExisting(files, a + b)] == b[FirstExisting(files, b)]
  {
    var j := FirstExisting(files, b);
    FirstExistingAt(files, a + b, |a| + j);
  }

  lemma {:induction false} SubdirCandidatesSnoc(subdirs: seq<Path>, dir: Path)
    ensures SubdirCandidates(subdirs + [dir])
         == SubdirCandidates(subdirs) + (if Contains(Render(dir), "python") then DirCandidates(dir) else [])
    decreases |subdirs|
  {
    if subdirs == [] {
      assert [dir][1..] == [];
    } else {
      assert (subdirs + [dir])[1..] == subdirs[1..] + [dir];
      SubdirCandidatesSnoc(subdirs[1..], dir);
    }
  }

  lemma {:induction false} SubdirCandidatesSplit(subdirs: seq<Path>, i: nat)
    requires i <= |subdirs|
    ensures SubdirCandidates(subdirs) == SubdirCandidates(subdirs[..i]) + SubdirCandidates(subdirs[i..])
    decreases i
  {
    if i > 0 {
      SubdirCandidatesSplit(subdirs[1..], i - 1);
      assert subdirs[1..][..i - 1] == subdirs[..i][1..];
      assert subdirs[1..][i - 1..] == subdirs[i..];
    } else {
      assert subdirs[..0] == [] && subdirs[0..] == subdirs;
    }
  }
}
