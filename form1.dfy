/**
 * The deployment form: the three stage flags and the interpreter path it
 * keeps, the stage controller behind the deploy button, the start-up probe,
 * the clean-up button with its best-effort recursive delete, the dependency
 * installation with its verification fallback, and the update button.
 */
module Form1 {
  import opened Text
  import opened FileSystem
  import opened PythonTool

  // ---------------------------------------------------------------------
  // SafeDeleteDirectory: best-effort recursive delete
  // ---------------------------------------------------------------------

  /** The files of `done`'s subtrees, for `done` a set of child directories
    * of `d`, that are not locked. */
  ghost function DeletedUnder(files: set<Path>, locked: set<Path>, d: Path, done: set<Path>): set<Path>
  {
    set f | f in files && f !in locked && |f| > |d| + 1 && d <= f && f[..|d| + 1] in done
  }

  /** The directories in the subtrees of `done` (child directories of `d`)
    * that hold no locked file. */
  ghost function CleanedUnder(dirs: set<Path>, files: set<Path>, locked: set<Path>, d: Path, done: set<Path>): set<Path>
  {
    set x | x in dirs && |x| > |d| && d <= x && x[..|d| + 1] in done && !HasLockedBelow(files, locked, x)
  }

  /** In a tree, a directory that has an entry below it exists. */
  lemma AncestorIsDir(files: set<Path>, dirs: set<Path>, d: Path, p: Path)
    requires Tree(files, dirs)
    requires p in files || p in dirs
    requires Below(d, p)
    ensures d in dirs
  {
    AncestorExists(files, dirs, p, |d|);
    assert p[..|d|] == d;
  }

  /** In a tree, anything at or below `d` requires `d` to exist. */
  lemma EntriesNeedDirectory(files: set<Path>, dirs: set<Path>, d: Path)
    requires Tree(files, dirs)
    ensures forall f :: f in files && Below(d, f) ==> d in dirs
    ensures forall x :: x in dirs && d <= x ==> d in dirs
  {
    forall f | f in files && Below(d, f) ensures d in dirs {
      AncestorIsDir(files, dirs, d, f);
    }
    forall x | x in dirs && d <= x ensures d in dirs {
      PrefixCases(d, x);
      if x != d {
        AncestorIsDir(files, dirs, d, x);
      }
    }
  }

  lemma MissingDirectoryHasNothingBelow(files: set<Path>, dirs: set<Path>, locked: set<Path>, d: Path)
    requires Tree(files, dirs)
    requires d !in dirs
    ensures DeletableBelow(files, locked, d) == {}
    ensures CleanDirs(dirs, files, locked, d) == {}
    ensures !HasLockedBelow(files, locked, d)
  {
    EntriesNeedDirectory(files, dirs, d);
  }

  /** One more child directory `s` done adds exactly its subtree. */
  lemma StepSets(F0: set<Path>, D0: set<Path>, locked: set<Path>, d: Path, done: set<Path>, s: Path)
    requires ChildOf(d, s)
    ensures DeletedUnder(F0, locked, d, done + {s})
         == DeletedUnder(F0, locked, d, done) + DeletableBelow(F0, locked, s)
    ensures CleanedUnder(D0, F0, locked, d, done + {s})
         == CleanedUnder(D0, F0, locked, d, done) + CleanDirs(D0, F0, locked, s)
  {
    var A := DeletedUnder(F0, locked, d, done + {s});
    var B := DeletedUnder(F0, locked, d, done) + DeletableBelow(F0, locked, s);
    forall f | f in A ensures f in B {
      if f[..|d| + 1] == s {
        assert s <= f;
      }
    }
    forall f | f in B ensures f in A {
      if f in DeletableBelow(F0, locked, s) {
        assert f[..|d| + 1] == s;
      }
    }
    var C := CleanedUnder(D0, F0, locked, d, done + {s});
    var E := CleanedUnder(D0, F0, locked, d, done) + CleanDirs(D0, F0, locked, s);
    forall x | x in C ensures x in E {
      if x[..|d| + 1] == s {
        assert s <= x;
      }
    }
    forall x | x in E ensures x in C {
      if x in CleanDirs(D0, F0, locked, s) {
        assert x[..|d| + 1] == s;
      }
    }
  }

  /** What the recursive call on child `s` removes is exactly the part of
    * the original tree under `s`. */
  lemma SubtreeUntouched(F0: set<Path>, D0: set<Path>, files: set<Path>, dirs: set<Path>,
                         locked: set<Path>, d: Path, done: set<Path>, s: Path)
    requires files == F0 - DeletedUnder(F0, locked, d, done)
    requires dirs == D0 - CleanedUnder(D0, F0, locked, d, done)
    requires ChildOf(d, s) && s !in done
    ensures DeletableBelow(files, locked, s) == DeletableBelow(F0, locked, s)
    ensures forall x :: HasLockedBelow(files, locked, x) <==> HasLockedBelow(F0, locked, x)
    ensures CleanDirs(dirs, files, locked, s) == CleanDirs(D0, F0, locked, s)
  {
    forall x ensures HasLockedBelow(files, locked, x) <==> HasLockedBelow(F0, locked, x) {
      if HasLockedBelow(F0, locked, x) {
        var f :| f in F0 && f in locked && Below(x, f);
        assert f in files;
      }
    }
    forall f | f in F0 && f !in locked && Below(s, f) ensures f in files {
      assert f[..|d| + 1] == s;
    }
    forall x | x in D0 && s <= x ensures x in dirs {
      assert x[..|d| + 1] == s;
    }
  }

  /** The recursive call on a subdirectory `s` has a smaller measure. */
  lemma SubtreeShrinks(D0: set<Path>, dirs: set<Path>, d: Path, s: Path)
    requires d in D0 && dirs <= D0 && ChildOf(d, s)
    ensures Subtree(dirs, s) < Subtree(D0, d)
  {
    assert d in Subtree(D0, d) && d !in Subtree(dirs, s);
  }

  /** The state of the disk once the subdirectories `done` of `d` have
    * been deleted recursively, starting from files `F0` and dirs `D0`. */
  ghost predicate WalkedSoFar(F0: set<Path>, D0: set<Path>, locked: set<Path>, d: Path, done: set<Path>,
                              files: set<Path>, dirs: set<Path>)
  {
    && files == F0 - DeletedUnder(F0, locked, d, done)
    && dirs == D0 - CleanedUnder(D0, F0, locked, d, done)
  }

  /** Recursing into one more subdirectory `s` keeps the walk's invariant. */
  lemma WalkStep(F0: set<Path>, D0: set<Path>, locked: set<Path>, d: Path, done: set<Path>, s: Path,
                 files: set<Path>, dirs: set<Path>, files': set<Path>, dirs': set<Path>)
    requires ChildOf(d, s) && s !in done
    requires WalkedSoFar(F0, D0, locked, d, done, files, dirs)
    requires files' == files - DeletableBelow(files, locked, s)
    requires dirs' == dirs - CleanDirs(dirs, files, locked, s)
    ensures WalkedSoFar(F0, D0, locked, d, done + {s}, files', dirs')
  {
    SubtreeUntouched(F0, D0, files, dirs, locked, d, done, s);
    StepSets(F0, D0, locked, d, done, s);
  }

  /** Deleting the unlocked files directly in `d` changes neither which
    * files of the subtrees of its subdirectories there are to delete nor
    * which directories hold a locked file. */
  lemma ChildFilesIrrelevant(F0: set<Path>, F1: set<Path>, locked: set<Path>, d: Path,
                             childFiles: set<Path>, D0: set<Path>, childDirs: set<Path>)
    requires childFiles == ChildrenIn(F0, d)
    requires F1 == F0 - (childFiles - locked)
    ensures DeletedUnder(F1, locked, d, childDirs) == DeletedUnder(F0, locked, d, childDirs)
    ensures CleanedUnder(D0, F1, locked, d, childDirs) == CleanedUnder(D0, F0, locked, d, childDirs)
    ensures F1 - DeletedUnder(F1, locked, d, childDirs)
            == F0 - ((childFiles - locked) + DeletedUnder(F0, locked, d, childDirs))
  {
    forall x ensures HasLockedBelow(F1, locked, x) <==> HasLockedBelow(F0, locked, x) {
      if HasLockedBelow(F0, locked, x) {
        var f :| f in F0 && f in locked && Below(x, f);
        assert f in F1;
      }
    }
  }

  /** The unlocked files below `d` are the unlocked direct children and the
    * unlocked files in the subtrees of its subdirectories. */
  lemma FilesBelowSplit(F0: set<Path>, D0: set<Path>, locked: set<Path>, d: Path,
                        childFiles: set<Path>, childDirs: set<Path>)
    requires Tree(F0, D0)
    requires childFiles == ChildrenIn(F0, d)
    requires childDirs == ChildrenIn(D0, d)
    ensures DeletableBelow(F0, locked, d) == (childFiles - locked) + DeletedUnder(F0, locked, d, childDirs)
  {
    forall f | f in F0 && f !in locked && Below(d, f) && |f| > |d| + 1
      ensures f[..|d| + 1] in childDirs
    {
      AncestorExists(F0, D0, f, |d| + 1);
    }
  }

  /** The clean directories strictly below `d` are those of the subtrees of
    * its subdirectories. */
  lemma DirsBelowSplit(F0: set<Path>, D0: set<Path>, locked: set<Path>, d: Path, childDirs: set<Path>)
    requires Tree(F0, D0)
    requires childDirs == ChildrenIn(D0, d)
    ensures CleanDirs(D0, F0, locked, d) - {d} == CleanedUnder(D0, F0, locked, d, childDirs)
  {
    forall x | x in D0 && d <= x && x != d
      ensures |x| > |d| && x[..|d| + 1] in childDirs
    {
      PrefixCases(d, x);
      if |x| > |d| + 1 {
        AncestorExists(F0, D0, x, |d| + 1);
      } else {
        assert x[..|d| + 1] == x;
      }
    }
  }

  /** After both loops `d` has no entry left exactly when no locked file
    * lies below it. */
  lemma EmptyAfterWalk(F0: set<Path>, D0: set<Path>, files: set<Path>, dirs: set<Path>,
                       locked: set<Path>, d: Path, childFiles: set<Path>, childDirs: set<Path>)
    requires Tree(F0, D0)
    requires childFiles == ChildrenIn(F0, d)
    requires childDirs == ChildrenIn(D0, d)
    requires files == F0 - ((childFiles - locked) + DeletedUnder(F0, locked, d, childDirs))
    requires dirs == D0 - CleanedUnder(D0, F0, locked, d, childDirs)
    ensures !HasLockedBelow(F0, locked, d) <==>
              (forall p :: p in files ==> !ChildOf(d, p)) && (forall p :: p in dirs ==> !ChildOf(d, p))
  {
    // An entry left directly in `d` witnesses a locked file below `d`.
    forall p | p in files && ChildOf(d, p) ensures HasLockedBelow(F0, locked, d) {
      assert p in F0 && p in childFiles;
      assert p in locked && Below(d, p);
    }
    forall p | p in dirs && ChildOf(d, p) ensures HasLockedBelow(F0, locked, d) {
      assert p[..|d| + 1] == p;
      assert p in childDirs;
      assert HasLockedBelow(F0, locked, p);
      var f :| f in F0 && f in locked && Below(p, f);
      assert Below(d, f);
    }
    // A locked file below `d` keeps an entry in `d`.
    if HasLockedBelow(F0, locked, d) {
      var f :| f in F0 && f in locked && Below(d, f);
      assert f in files;
      if |f| > |d| + 1 {
        AncestorExists(F0, D0, f, |d| + 1);
        var c := f[..|d| + 1];
        assert Below(c, f);
        assert HasLockedBelow(F0, locked, c);
        assert c in dirs && ChildOf(d, c);
      } else {
        assert ChildOf(d, f);
      }
    }
  }

  /** Removing `d` itself exactly when it holds no locked file completes
    * the removal of the clean directories at or below it. */
  lemma FinalDirs(F0: set<Path>, D0: set<Path>, locked: set<Path>, d: Path, childDirs: set<Path>, ok: bool)
    requires d in D0
    requires CleanDirs(D0, F0, locked, d) - {d} == CleanedUnder(D0, F0, locked, d, childDirs)
    requires ok <==> !HasLockedBelow(F0, locked, d)
    ensures (if ok then (D0 - CleanedUnder(D0, F0, locked, d, childDirs)) - {d}
             else D0 - CleanedUnder(D0, F0, locked, d, childDirs))
            == D0 - CleanDirs(D0, F0, locked, d)
  {
    if ok {
      assert d in CleanDirs(D0, F0, locked, d);
    } else {
      assert d !in CleanDirs(D0, F0, locked, d);
    }
  }

  /** The first loop of Form1.SafeDeleteDirectory: every file directly in
    * `d` goes, except a locked one, whose failure is swallowed. */
  method DeleteChildFiles(disk: Disk, d: Path)
    requires disk.Valid()
    modifies disk
    ensures disk.Valid()
    ensures disk.dirs == old(disk.dirs)
    ensures disk.files == old(disk.files) - (ChildrenIn(old(disk.files), d) - disk.locked)
  {
    var pending := set f | f in disk.files && ChildOf(d, f);
    ghost var childFiles := pending;
    ghost var F0 := disk.files;
    while pending != {}
      invariant disk.Valid()
      invariant pending <= childFiles
      invariant disk.dirs == old(disk.dirs)
      invariant disk.files == F0 - ((childFiles - pending) - disk.locked)
      decreases pending
    {
      var f :| f in pending;
      var _ := disk.DeleteFile(f);
      pending := pending - {f};
    }
  }

  /** Form1.SafeDeleteDirectory: deletes every file directly in `d` (a
    * locked one is skipped), recurses into every subdirectory (a failing one
    * is skipped), then deletes `d` itself, re-throwing if that fails.
    * Result: every unlocked file below `d` is gone, the directories that go
    * are exactly those holding no locked file, and the call throws exactly
    * when `d` is missing or keeps a locked file. */
  method SafeDeleteDirectory(disk: Disk, d: Path) returns (threw: bool)
    requires disk.Valid()
    modifies disk
    ensures disk.Valid()
    ensures disk.files == old(disk.files) - DeletableBelow(old(disk.files), disk.locked, d)
    ensures disk.dirs == old(disk.dirs) - CleanDirs(old(disk.dirs), old(disk.files), disk.locked, d)
    ensures threw <==> d !in old(disk.dirs) || HasLockedBelow(old(disk.files), disk.locked, d)
    decreases Subtree(disk.dirs, d), 1
  {
    if d !in disk.dirs {
      // Directory.GetFiles throws DirectoryNotFoundException.
      MissingDirectoryHasNothingBelow(disk.files, disk.dirs, disk.locked, d);
      return true;
    }
    ghost var F0, D0, L := disk.files, disk.dirs, disk.locked;
    ghost var childFiles := ChildrenIn(F0, d);
    ghost var childDirs := ChildrenIn(D0, d);

    DeleteChildFiles(disk, d);
    ghost var F1 := disk.files;
    ChildFilesIrrelevant(F0, F1, L, d, childFiles, D0, childDirs);
    DeleteSubdirectories(disk, d);

    FilesBelowSplit(F0, D0, L, d, childFiles, childDirs);
    DirsBelowSplit(F0, D0, L, d, childDirs);
    EmptyAfterWalk(F0, D0, disk.files, disk.dirs, L, d, childFiles, childDirs);
    var ok := disk.DeleteEmptyDirectory(d);
    FinalDirs(F0, D0, L, d, childDirs, ok);
    threw := !ok;
  }

  /** The second loop of Form1.SafeDeleteDirectory: recurses into every
    * subdirectory of `d`, swallowing a failure of any one of them. */
  method DeleteSubdirectories(disk: Disk, d: Path)
    requires disk.Valid() && d in disk.dirs
    modifies disk
    ensures disk.Valid()
    ensures disk.files == old(disk.files)
                          - DeletedUnder(old(disk.files), disk.locked, d, ChildrenIn(old(disk.dirs), d))
    ensures disk.dirs == old(disk.dirs)
                         - CleanedUnder(old(disk.dirs), old(disk.files), disk.locked, d,
                                        ChildrenIn(old(disk.dirs), d))
    decreases Subtree(disk.dirs, d), 0
  {
    ghost var F0, D0 := disk.files, disk.dirs;
    var todo := set x | x in disk.dirs && ChildOf(d, x);
    ghost var done: set<Path> := {};
    while todo != {}
      invariant disk.Valid()
      invariant WalkedSoFar(F0, D0, disk.locked, d, done, disk.files, disk.dirs)
      invariant done + todo == ChildrenIn(D0, d) && done !! todo
      decreases todo
    {
      var s :| s in todo;
      ghost var F, D := disk.files, disk.dirs;
      SubtreeShrinks(D0, D, d, s);
      var _ := SafeDeleteDirectory(disk, s);
      WalkStep(F0, D0, disk.locked, d, done, s, F, D, disk.files, disk.dirs);
      todo, done := todo - {s}, done + {s};
    }
  }

  // ---------------------------------------------------------------------
  // Layout under the start-up directory
  // ---------------------------------------------------------------------

  function PythonDir(baseDir: Path): Path
  {
    baseDir + [".python"]
  }

  function ProjectDir(baseDir: Path): Path
  {
    baseDir + ["KouriChat"]
  }

  /** The directories Path.GetDirectoryName gives for an interpreter path,
    * taken apart at the separators. */
  function InterpreterDir(pythonPath: string): Path
  {
    SplitPieces(pythonPath, '\\');
    Parent(Split(pythonPath, '\\'))
  }

  /** The site-packages directory next to the interpreter. */
  function SitePackages(pythonPath: string): Path
  {
    InterpreterDir(pythonPath) + ["Lib", "site-packages"]
  }

  /** Every directory above a path is also above its extensions. */
  lemma PrefixesGrow(d: Path, e: Path)
    ensures Prefixes(d) <= Prefixes(d + e)
  {
    forall x | x in Prefixes(d) ensures x in Prefixes(d + e) {
      var k :| 0 <= k <= |d| && x == d[..k];
      assert (d + e)[..k] == x;
    }
  }

  // ---------------------------------------------------------------------
  // Best-effort deletes of sibling trees do not interfere
  // ---------------------------------------------------------------------

  /** Deleting unlocked files never changes where locked files are. */
  lemma LockedIgnoresDeletes(F: set<Path>, L: set<Path>, gone: set<Path>, x: Path)
    requires gone !! L
    ensures HasLockedBelow(F - gone, L, x) <==> HasLockedBelow(F, L, x)
  {
    if HasLockedBelow(F, L, x) {
      var f :| f in F && f in L && Below(x, f);
      assert f in F - gone;
    }
  }

  /** A best-effort delete of one directory leaves the outcome of deleting
    * a directory beside it unchanged. */
  lemma SiblingDeleteUnaffected(F: set<Path>, D: set<Path>, L: set<Path>, a: Path, b: Path)
    requires |a| == |b| && a != b
    ensures var F1, D1 := F - DeletableBelow(F, L, a), D - CleanDirs(D, F, L, a);
      && DeletableBelow(F1, L, b) == DeletableBelow(F, L, b)
      && CleanDirs(D1, F1, L, b) == CleanDirs(D, F, L, b)
      && HasLockedBelow(F1, L, b) == HasLockedBelow(F, L, b)
      && (b in D1 <==> b in D)
  {
    var gone := DeletableBelow(F, L, a);
    var F1, D1 := F - gone, D - CleanDirs(D, F, L, a);
    LockedIgnoresDeletes(F, L, gone, b);
    forall x | x in D && b <= x ensures HasLockedBelow(F1, L, x) == HasLockedBelow(F, L, x) {
      LockedIgnoresDeletes(F, L, gone, x);
    }
    forall f | f in F && Below(b, f) ensures f !in gone {
      assert f[..|a|] == b;
    }
    forall x | x in D && b <= x ensures x !in CleanDirs(D, F, L, a) {
      assert x[..|a|] == b;
    }
  }

  // ---------------------------------------------------------------------
  // The dependency installation (Form1.cs:672-748)
  // ---------------------------------------------------------------------

  /** The modules whose import is checked after installation. */
  const CheckedModules := ["flask", "requests"]
  /** The packages installed one by one when the check fails. */
  const CorePackages := ["flask", "requests", "werkzeug"]

  /** How the external steps of an installation end: whether the project
    * has requirements.txt, how the bulk install ended (only logged), the
    * import probes of the first and the second check and the individual
    * installs. */
  datatype DependencyOracle = DependencyOracle(requirementsExists: bool, bulkOk: bool, check1: seq<Probe>,
                                               installs: seq<ProcessOutcome>, check2: seq<Probe>)
  {
    predicate WellFormed()
    {
      |check1| == |CheckedModules| && |check2| == |CheckedModules| && |installs| == |CorePackages|
    }
  }

  predicate AllPass(probes: seq<Probe>)
  {
    forall k :: 0 <= k < |probes| ==> ProbePasses(probes[k])
  }

  /** The index of the first install that fails, or the number of installs. */
  function FirstFailedInstall(installs: seq<ProcessOutcome>): (i: nat)
    ensures i <= |installs|
    ensures forall k :: 0 <= k < i ==> Succeeded(installs[k])
    ensures i < |installs| ==> !Succeeded(installs[i])
    decreases |installs|
  {
    if |installs| == 0 || !Succeeded(installs[0]) then 0 else 1 + FirstFailedInstall(installs[1..])
  }

  /** The outcome of an installation and how many individual installs it
    * started. */
  datatype InstallRun = InstallRun(ok: bool, individual: nat)

  /** InstallDependenciesAsync with interpreter path `pythonPath` on the form
    * and `exe` in the manager. The bulk install's result plays no part:
    * success is decided by the import checks. A failing individual install
    * throws, which the handler turns into failure. */
  function InstallDependenciesSpec(pythonPath: string, exe: string, o: DependencyOracle): InstallRun
    requires o.WellFormed()
  {
    if !o.requirementsExists then InstallRun(true, 0)
    // Path.GetDirectoryName("") is null and Path.Combine throws.
    else if pythonPath == "" then InstallRun(false, 0)
    else match DependencyVerdict(exe, o.check1)
      case None => InstallRun(false, 0)
      case Some(passed) =>
        if passed then InstallRun(true, 0)
        else
          var k := FirstFailedInstall(o.installs);
          if k < |o.installs| then InstallRun(false, k + 1)
          else InstallRun(DependencyVerdict(exe, o.check2) == Some(true), |o.installs|)
  }

  /** An installation succeeds exactly when requirements.txt is missing, or
    * there is an interpreter and either the first check passes or every
    * individual install and the second check do; the individual installs
    * run only after a failed first check, in order, up to the first one
    * that fails. */
  lemma InstallDependenciesOutcome(pythonPath: string, exe: string, o: DependencyOracle)
    requires o.WellFormed()
    ensures var r := InstallDependenciesSpec(pythonPath, exe, o);
      && (r.ok <==> !o.requirementsExists
                    || (pythonPath != "" && exe != ""
                        && (AllPass(o.check1)
                            || ((forall k :: 0 <= k < |o.installs| ==> Succeeded(o.installs[k])) && AllPass(o.check2)))))
      && r.individual <= |CorePackages|
      && (r.individual > 0 <==> o.requirementsExists && pythonPath != "" && exe != "" && !AllPass(o.check1))
      && (forall k :: 0 <= k < r.individual - 1 ==> Succeeded(o.installs[k]))
      && (0 < r.individual < |CorePackages| ==> !Succeeded(o.installs[r.individual - 1]))
  {
    if o.requirementsExists && pythonPath != "" && exe != "" && !AllPass(o.check1) {
      var k := FirstFailedInstall(o.installs);
      if k == |o.installs| {
        assert forall j :: 0 <= j < |o.installs| ==> Succeeded(o.installs[j]);
      }
    }
  }

  // ---------------------------------------------------------------------
  // The update button (Form1.cs:928-1131)
  // ---------------------------------------------------------------------

  /** How `git rev-parse --is-inside-work-tree` ended. */
  datatype RevParse = RevParseRan(exitCode: int, output: string) | RevParseThrew

  /** CheckIsGitRepositoryAsync: exit code 0 and the trimmed output is
    * exactly "true". */
  predicate IsGitRepository(p: RevParse)
  {
    p.RevParseRan? && p.exitCode == 0 && Trim(p.output) == "true"
  }

  /** Any white space around "true" (git ends its output with a newline)
    * still counts. */
  lemma PaddedTrueIsRepository(a: string, b: string)
    requires forall k :: 0 <= k < |a| ==> IsSpace(a[k])
    requires forall k :: 0 <= k < |b| ==> IsSpace(b[k])
    ensures IsGitRepository(RevParseRan(0, a + "true" + b))
  {
    TrimPadded(a, "true", b);
  }

  /** Nothing but white space around "true" counts. */
  lemma RepositoryOutputIsPaddedTrue(output: string)
    requires Trim(output) == "true"
    ensures var lead := |output| - |TrimStart(output)|;
      && lead + 4 <= |output| && output[lead..lead + 4] == "true"
      && (forall k :: 0 <= k < lead ==> IsSpace(output[k]))
      && (forall k :: lead + 4 <= k < |output| ==> IsSpace(output[k]))
  {
    TrimSpec(output);
  }

  datatype GitCommand = GitVersion | GitRevParse | GitFetch | GitPull

  /** The commands an update runs, in order, when each one passes. */
  const UpdateCommands := [GitVersion, GitRevParse, GitFetch, GitPull]

  datatype UpdateOutcome = NoProject | NoGit | NotRepository | Updated | UpdateFailed

  // ---------------------------------------------------------------------
  // The launcher files (Form1.cs:760-764)
  // ---------------------------------------------------------------------

  function LauncherName(scriptName: string): string
  {
    "_launcher_" + scriptName + "_downloader.py"
  }

  function BatchName(scriptName: string): string
  {
    "run_" + scriptName + "_downloader.bat"
  }

  /** The two generated files never clash with each other or with the
    * script, and each names the script it launches. */
  lemma LauncherNamesDistinct(s1: string, s2: string)
    ensures LauncherName(s1) != BatchName(s2)
    ensures LauncherName(s1) != s1 && BatchName(s1) != s1
    ensures LauncherName(s1) == LauncherName(s2) ==> s1 == s2
    ensures BatchName(s1) == BatchName(s2) ==> s1 == s2
  {
    assert LauncherName(s1)[0] == '_' && BatchName(s2)[0] == 'r';
    if LauncherName(s1) == LauncherName(s2) {
      assert s1 == LauncherName(s1)[10..|LauncherName(s1)| - 14];
    }
    if BatchName(s1) == BatchName(s2) {
      assert s1 == BatchName(s1)[4..|BatchName(s1)| - 15];
    }
  }

  // ---------------------------------------------------------------------
  // The deploy button (Form1.cs:174-332)
  // ---------------------------------------------------------------------

  datatype Stage = Runtime | Source | Dependencies

  datatype DeployOutcome = Rejected | GitMissing | Failed(at: Stage) | Completed

  /** How the external steps of provisioning end (the arguments of
    * EnvironmentManager.DownloadPython). */
  datatype RuntimeOracle = RuntimeOracle(fetched: bool, extracted: bool, exePresent: bool, pth: Option<string>,
                                         pipFetched: bool, pipRun: ProcessOutcome, pipCheck: ProcessOutcome)

  /** Provisioning returns a path exactly when download, extraction and the
    * executable are all there. */
  predicate Provisions(o: RuntimeOracle)
  {
    o.fetched && o.extracted && o.exePresent
  }

  /** How the external steps of fetching the source end: the `git
    * --version` of CheckGitInstalledAsync, then the arguments of
    * CloneRepository. */
  datatype SourceOracle = SourceOracle(gitCheck: ProcessOutcome, gitVersion: ProcessOutcome, nonEmpty: bool, now: DateTime,
                                       moved: bool, clone: ProcessOutcome, hasFiles: bool)

  function Clone(baseDir: Path, o: SourceOracle): CloneResult
    requires o.now.Valid()
  {
    CloneRepository(Render(ProjectDir(baseDir)), o.gitVersion, o.nonEmpty, o.now, o.moved, o.clone, o.hasFiles)
  }

  /** A combo-box choice that is present and not empty. */
  predicate Chosen(choice: Option<string>)
  {
    choice.Some? && choice.value != ""
  }

  /** The stages whose flag is not yet set, in the order a deploy runs them. */
  function Pending(pythonInstalled: bool, repoCloned: bool, dependenciesInstalled: bool): seq<Stage>
  {
    (if pythonInstalled then [] else [Runtime])
    + (if repoCloned then [] else [Source])
    + (if dependenciesInstalled then [] else [Dependencies])
  }

  /** The source and dependency stages of a deploy: outcome and stages
    * started, from the two flags and how each step would end if run (git
    * is found, the clone succeeds, the installation succeeds). */
  function ProjectRun(repoCloned: bool, dependenciesInstalled: bool, gitFound: bool, cloned: bool, installs: bool)
    : (DeployOutcome, seq<Stage>)
  {
    if !repoCloned && !gitFound then (GitMissing, [Source])
    else if !repoCloned && !cloned then (Failed(Source), [Source])
    else
      var t: seq<Stage> := if repoCloned then [] else [Source];
      if !dependenciesInstalled && !installs then (Failed(Dependencies), t + [Dependencies])
      else (Completed, t + (if dependenciesInstalled then [] else [Dependencies]))
  }

  /** The stage sequence of a deploy: its outcome and the stages started,
    * from whether a branch and a version are chosen, the three flags, and
    * how each stage would end if run. */
  function DeployRun(chosen: bool, pythonInstalled: bool, repoCloned: bool, dependenciesInstalled: bool,
                     provisions: bool, gitFound: bool, cloned: bool, installs: bool): (DeployOutcome, seq<Stage>)
  {
    if !chosen then (Rejected, [])
    else if !pythonInstalled && !provisions then (Failed(Runtime), [Runtime])
    else
      var rest := ProjectRun(repoCloned, dependenciesInstalled, gitFound, cloned, installs);
      (rest.0, (if pythonInstalled then [] else [Runtime]) + rest.1)
  }

  /** A deploy starts a prefix of the pending stages, in order; it ends at
    * the first stage that fails, and completes exactly when every stage is
    * either skipped or succeeds. */
  lemma DeployRunOrder(chosen: bool, p: bool, r: bool, d: bool, provisions: bool, gitFound: bool, cloned: bool, installs: bool)
    ensures var (outcome, ran) := DeployRun(chosen, p, r, d, provisions, gitFound, cloned, installs);
      var pending := Pending(p, r, d);
      && |ran| <= |pending| && ran == pending[..|ran|]
      && (outcome == Completed ==> ran == pending)
      && (outcome == Rejected ==> ran == [])
      && (outcome.Failed? ==> |ran| > 0 && ran[|ran| - 1] == outcome.at)
      && (outcome == GitMissing ==> |ran| > 0 && ran[|ran| - 1] == Source)
  {
  }

  /** What decides a deploy's outcome. */
  lemma DeployRunOutcome(chosen: bool, p: bool, r: bool, d: bool, provisions: bool, gitFound: bool, cloned: bool, installs: bool)
    ensures var (outcome, ran) := DeployRun(chosen, p, r, d, provisions, gitFound, cloned, installs);
      var runtimeOk, sourceOk, depsOk := p || provisions, r || (gitFound && cloned), d || installs;
      && (outcome == Rejected <==> !chosen)
      && (outcome == Failed(Runtime) <==> chosen && !runtimeOk)
      && (outcome == GitMissing <==> chosen && runtimeOk && !r && !gitFound)
      && (outcome == Failed(Source) <==> chosen && runtimeOk && !sourceOk && gitFound)
      && (outcome == Failed(Dependencies) <==> chosen && runtimeOk && sourceOk && !depsOk)
      && (outcome == Completed <==> chosen && runtimeOk && sourceOk && depsOk)
  {
  }

  /** Deploying again after a completed deploy does nothing and completes. */
  lemma RedeployIsIdle(chosen: bool, provisions: bool, gitFound: bool, cloned: bool, installs: bool)
    requires chosen
    ensures DeployRun(chosen, true, true, true, provisions, gitFound, cloned, installs) == (Completed, [])
  {
    var empty: seq<Stage> := [];
    assert empty + empty == empty;
    assert ProjectRun(true, true, gitFound, cloned, installs) == (Completed, empty);
  }

  class Form {
    /** _pythonInstalled */
    var pythonInstalled: bool
    /** _repoCloned */
    var repoCloned: bool
    /** _dependenciesInstalled */
    var dependenciesInstalled: bool
    /** _pythonPath */
    var pythonPath: string
    const manager: EnvironmentManager
    const disk: Disk
    /** Application.StartupPath */
    const baseDir: Path

    /** The disk is a tree, and dependencies count as installed only for a
      * project that is there. */
    ghost predicate Valid()
      reads this, disk
    {
      disk.Valid() && (dependenciesInstalled ==> repoCloned)
    }

    constructor (manager: EnvironmentManager, disk: Disk, baseDir: Path)
      requires disk.Valid()
      ensures Valid()
      ensures !pythonInstalled && !repoCloned && !dependenciesInstalled && pythonPath == ""
      ensures this.manager == manager && this.disk == disk && this.baseDir == baseDir
    {
      this.manager, this.disk, this.baseDir := manager, disk, baseDir;
      pythonInstalled, repoCloned, dependenciesInstalled, pythonPath := false, false, false, "";
    }

    /** The project directory exists and holds at least one file. */
    predicate ProjectPresent()
      reads this, disk
    {
      disk.DirectoryExists(ProjectDir(baseDir)) && disk.HasFilesBelow(ProjectDir(baseDir))
    }

    // -------------------------------------------------------------------
    // Start-up probe (Form1.cs:424-482)
    // -------------------------------------------------------------------

    /** The `allFound` loop: every indicator has a directory in `site`. */
    method IndicatorsPresent(site: Path) returns (allFound: bool)
      ensures allFound <==> forall k :: 0 <= k < |CorePackages| ==> site + [CorePackages[k]] in disk.dirs
    {
      allFound := true;
      var i := 0;
      while i < |CorePackages|
        invariant 0 <= i <= |CorePackages|
        invariant forall k :: 0 <= k < i ==> site + [CorePackages[k]] in disk.dirs
      {
        if !disk.DirectoryExists(site + [CorePackages[i]]) {
          allFound := false;
          break;
        }
        i := i + 1;
      }
    }

    /** The start-up test for installed dependencies: the project has
      * requirements.txt and `.python\Lib\site-packages` holds a directory
      * for every indicator package. */
    predicate DependenciesPresent()
      reads this, disk
    {
      var site := PythonDir(baseDir) + ["Lib", "site-packages"];
      && ProjectDir(baseDir) + ["requirements.txt"] in disk.files
      && site in disk.dirs
      && forall k :: 0 <= k < |CorePackages| ==> site + [CorePackages[k]] in disk.dirs
    }

    /** CheckExistingComponents: looks for an interpreter (with the
      * arguments of TryDetectExistingPython), then for a project with
      * files and its dependencies. Flags are only ever set here. */
    method CheckExistingComponents(configReadable: bool, listing: Option<seq<Path>>) returns (found: bool)
      requires Valid()
      requires listing.Some? ==> ListsBelow(disk.dirs, PythonDir(baseDir), listing.value)
      modifies this, manager
      ensures Valid()
      ensures var d := Detected(old(manager.config), configReadable, disk.files, disk.dirs, PythonDir(baseDir), listing);
        && found == d.Some?
        && pythonInstalled == (old(pythonInstalled) || found)
        && pythonPath == (if found then d.value else old(pythonPath))
        && manager.executablePath == (if found then d.value else old(manager.executablePath))
        && manager.config == (if found && !SavedHit(old(manager.config), configReadable, disk.files)
                              then d else old(manager.config))
      ensures repoCloned == (old(repoCloned) || ProjectPresent())
      ensures dependenciesInstalled == (old(dependenciesInstalled) || (ProjectPresent() && DependenciesPresent()))
    {
      found := DetectRuntime(configReadable, listing);
      ProbeProject();
    }

    /** The interpreter part of CheckExistingComponents. */
    method DetectRuntime(configReadable: bool, listing: Option<seq<Path>>) returns (found: bool)
      requires listing.Some? ==> ListsBelow(disk.dirs, PythonDir(baseDir), listing.value)
      modifies this, manager
      ensures var d := Detected(old(manager.config), configReadable, disk.files, disk.dirs, PythonDir(baseDir), listing);
        && found == d.Some?
        && pythonInstalled == (old(pythonInstalled) || found)
        && pythonPath == (if found then d.value else old(pythonPath))
        && manager.executablePath == (if found then d.value else old(manager.executablePath))
        && manager.config == (if found && !SavedHit(old(manager.config), configReadable, disk.files)
                              then d else old(manager.config))
      ensures repoCloned == old(repoCloned) && dependenciesInstalled == old(dependenciesInstalled)
    {
      var path;
      found, path := manager.TryDetectExistingPython(disk, PythonDir(baseDir), configReadable, listing);
      if found {
        pythonInstalled := true;
        pythonPath := path;
      }
    }

    /** The project part of CheckExistingComponents. */
    method ProbeProject()
      requires Valid()
      modifies this
      ensures Valid()
      ensures pythonInstalled == old(pythonInstalled) && pythonPath == old(pythonPath)
      ensures repoCloned == (old(repoCloned) || ProjectPresent())
      ensures dependenciesInstalled == (old(dependenciesInstalled) || (ProjectPresent() && DependenciesPresent()))
    {
      var projectDir := ProjectDir(baseDir);
      if disk.DirectoryExists(projectDir) && disk.HasFilesBelow(projectDir) {
        repoCloned := true;
        if disk.FileExists(projectDir + ["requirements.txt"]) {
          var site := PythonDir(baseDir) + ["Lib", "site-packages"];
          if disk.DirectoryExists(site) {
            var allFound := IndicatorsPresent(site);
            if allFound {
              dependenciesInstalled := true;
            }
          }
        }
      }
    }

    // -------------------------------------------------------------------
    // Clean-up (Form1.cs:491-631)
    // -------------------------------------------------------------------

    /** CleanupProject: deletes the interpreter directory (and the saved
      * interpreter path with it) and then the project directory, each only
      * if it exists. A flag is reset only when its delete ran to the end;
      * `cleaned` says whether any did. */
    method CleanupProject() returns (cleaned: bool)
      requires Valid()
      modifies this, disk, manager
      ensures Valid()
      ensures var py, pj := PythonDir(baseDir), ProjectDir(baseDir);
        var F, D, L := old(disk.files), old(disk.dirs), disk.locked;
        var pyDone := py in D && !HasLockedBelow(F, L, py);
        var pjDone := pj in D && !HasLockedBelow(F, L, pj);
        && pythonInstalled == (!pyDone && old(pythonInstalled))
        && pythonPath == (if pyDone then "" else old(pythonPath))
        && repoCloned == (!pjDone && old(repoCloned))
        && dependenciesInstalled == (!pjDone && old(dependenciesInstalled))
        && (cleaned <==> pyDone || pjDone)
        && manager.config == (if py in D then None else old(manager.config))
        && manager.executablePath == old(manager.executablePath)
        && disk.files == F - DeletableBelow(F, L, py) - DeletableBelow(F, L, pj)
        && disk.dirs == D - CleanDirs(D, F, L, py) - CleanDirs(D, F, L, pj)
    {
      ghost var F, D, L := disk.files, disk.dirs, disk.locked;
      var pyDone := CleanRuntime();
      SiblingDeleteUnaffected(F, D, L, PythonDir(baseDir), ProjectDir(baseDir));
      var pjDone := CleanProject();
      cleaned := pyDone || pjDone;
    }

    /** The interpreter half of CleanupProject. */
    method CleanRuntime() returns (done: bool)
      requires Valid()
      modifies this, disk, manager
      ensures Valid()
      ensures var py := PythonDir(baseDir);
        var F, D, L := old(disk.files), old(disk.dirs), disk.locked;
        && (done <==> py in D && !HasLockedBelow(F, L, py))
        && pythonInstalled == (!done && old(pythonInstalled))
        && pythonPath == (if done then "" else old(pythonPath))
        && repoCloned == old(repoCloned) && dependenciesInstalled == old(dependenciesInstalled)
        && manager.config == (if py in D then None else old(manager.config))
        && manager.executablePath == old(manager.executablePath)
        && disk.files == F - DeletableBelow(F, L, py)
        && disk.dirs == D - CleanDirs(D, F, L, py)
    {
      var py := PythonDir(baseDir);
      done := false;
      if disk.DirectoryExists(py) {
        var threw := SafeDeleteDirectory(disk, py);
        if !threw {
          pythonInstalled, pythonPath := false, "";
          done := true;
        }
        // python_config.txt goes whether or not the delete completed.
        manager.config := None;
      } else {
        MissingDirectoryHasNothingBelow(disk.files, disk.dirs, disk.locked, py);
      }
    }

    /** The project half of CleanupProject. */
    method CleanProject() returns (done: bool)
      requires Valid()
      modifies this, disk
      ensures Valid()
      ensures var pj := ProjectDir(baseDir);
        var F, D, L := old(disk.files), old(disk.dirs), disk.locked;
        && (done <==> pj in D && !HasLockedBelow(F, L, pj))
        && pythonInstalled == old(pythonInstalled) && pythonPath == old(pythonPath)
        && repoCloned == (!done && old(repoCloned))
        && dependenciesInstalled == (!done && old(dependenciesInstalled))
        && disk.files == F - DeletableBelow(F, L, pj)
        && disk.dirs == D - CleanDirs(D, F, L, pj)
    {
      var pj := ProjectDir(baseDir);
      done := false;
      if disk.DirectoryExists(pj) {
        var threw := SafeDeleteDirectory(disk, pj);
        if !threw {
          repoCloned, dependenciesInstalled := false, false;
          done := true;
        }
      } else {
        MissingDirectoryHasNothingBelow(disk.files, disk.dirs, disk.locked, pj);
      }
    }

    // -------------------------------------------------------------------
    // Dependencies (Form1.cs:672-748)
    // -------------------------------------------------------------------

    /** The fallback of InstallDependencies: the indicator packages are
      * installed one at a time, in order, stopping at the first install
      * that fails; `individual` counts the installs started. */
    method InstallCorePackages(pythonDir: Path, installs: seq<ProcessOutcome>) returns (individual: nat, allOk: bool)
      requires disk.Valid() && |installs| == |CorePackages| && Prefixes(pythonDir) <= disk.dirs
      modifies disk
      ensures disk.Valid() && disk.dirs == old(disk.dirs) && disk.files == old(disk.files)
      ensures var k := FirstFailedInstall(installs);
        && allOk == (k == |installs|)
        && individual == if allOk then |installs| else k + 1
    {
      individual := 0;
      var i := 0;
      while i < |installs|
        invariant 0 <= i <= |installs| && individual == i
        invariant forall k :: 0 <= k < i ==> Succeeded(installs[k])
        invariant disk.Valid() && disk.dirs == old(disk.dirs) && disk.files == old(disk.files)
      {
        individual := i + 1;
        var threw := manager.RunProcess(disk, pythonDir, installs[i]);
        if threw {
          return individual, false;
        }
        i := i + 1;
      }
      allOk := true;
    }

    /** InstallDependenciesAsync, with the external steps as oracles; the
      * only lasting effects are the directories it creates. */
    method InstallDependencies(o: DependencyOracle) returns (ok: bool, individual: nat)
      requires disk.Valid() && o.WellFormed()
      modifies disk
      ensures disk.Valid()
      ensures InstallRun(ok, individual) == InstallDependenciesSpec(pythonPath, manager.executablePath, o)
      ensures disk.files == old(disk.files)
      ensures disk.dirs == old(disk.dirs)
                           + (if o.requirementsExists && pythonPath != "" then Prefixes(SitePackages(pythonPath)) else {})
    {
      individual := 0;
      if !o.requirementsExists {
        return true, 0;
      }
      if pythonPath == "" {
        return false, 0;
      }
      var pythonDir := InterpreterDir(pythonPath);
      var site := SitePackages(pythonPath);
      disk.CreateDirectory(site);
      PrefixesGrow(pythonDir, ["Lib", "site-packages"]);
      ghost var D1 := disk.dirs;
      // The bulk install's result is only logged.
      var check, launched := manager.CheckDependenciesInstalled(CheckedModules, o.check1);
      if check.None? {
        return false, 0;
      }
      if check.value {
        return true, 0;
      }
      var allOk;
      individual, allOk := InstallCorePackages(pythonDir, o.installs);
      if !allOk {
        return false, individual;
      }
      check, launched := manager.CheckDependenciesInstalled(CheckedModules, o.check2);
      ok := check == Some(true);
    }

    // -------------------------------------------------------------------
    // Deploy (Form1.cs:174-332)
    // -------------------------------------------------------------------

    /** The runtime stage: DownloadPythonAsync into `.python`. */
    method ProvisionRuntime(version: string, o: RuntimeOracle) returns (ok: bool)
      modifies this, manager
      ensures ok <==> Provisions(o)
      ensures pythonInstalled == (ok || old(pythonInstalled))
      ensures pythonPath == if ok then Render(ExePath(version, PythonDir(baseDir))) else old(pythonPath)
      ensures repoCloned == old(repoCloned) && dependenciesInstalled == old(dependenciesInstalled)
      ensures manager.executablePath == if o.fetched && o.extracted then Render(ExePath(version, PythonDir(baseDir)))
                                        else old(manager.executablePath)
      ensures manager.config == if ok then Some(Render(ExePath(version, PythonDir(baseDir)))) else old(manager.config)
    {
      var r, _ := manager.DownloadPython(version, PythonDir(baseDir), o.fetched, o.extracted, o.exePresent, o.pth,
                                         o.pipFetched, o.pipRun, o.pipCheck);
      ok := r.Some?;
      if ok {
        pythonPath := r.value;
        pythonInstalled := true;
      }
    }

    /** The source stage: creates the project directory, checks for git
      * (CheckAndInstallDependenciesAsync) and clones. */
    method FetchSource(o: SourceOracle) returns (gitFound: bool, ok: bool)
      requires disk.Valid() && o.now.Valid()
      modifies this, disk
      ensures disk.Valid()
      ensures disk.dirs == old(disk.dirs) + Prefixes(ProjectDir(baseDir)) && disk.files == old(disk.files)
      ensures gitFound <==> Succeeded(o.gitCheck)
      ensures ok <==> gitFound && Clone(baseDir, o).ok
      ensures repoCloned == (ok || old(repoCloned))
      ensures pythonInstalled == old(pythonInstalled) && pythonPath == old(pythonPath)
      ensures dependenciesInstalled == old(dependenciesInstalled)
    {
      disk.CreateDirectory(ProjectDir(baseDir));
      gitFound := o.gitCheck.Exited? && o.gitCheck.code == 0;
      ok := false;
      if !gitFound {
        return;
      }
      ok := Clone(baseDir, o).ok;
      if ok {
        repoCloned := true;
      }
    }

    /** The source and dependency stages of button1_Click (ProjectRun). */
    method DeployProject(source: SourceOracle, deps: DependencyOracle) returns (outcome: DeployOutcome, ran: seq<Stage>)
      requires Valid() && source.now.Valid() && deps.WellFormed()
      modifies this, disk
      ensures Valid()
      ensures (outcome, ran) == ProjectRun(old(repoCloned), old(dependenciesInstalled),
                                           Succeeded(source.gitCheck), Clone(baseDir, source).ok,
                                           InstallDependenciesSpec(pythonPath, manager.executablePath, deps).ok)
      ensures var sourceOk := old(repoCloned) || (Succeeded(source.gitCheck) && Clone(baseDir, source).ok);
        && pythonInstalled == old(pythonInstalled) && pythonPath == old(pythonPath)
        && repoCloned == sourceOk
        && dependenciesInstalled == (old(dependenciesInstalled) || outcome == Completed)
        && disk.files == old(disk.files)
        && disk.dirs == old(disk.dirs)
                        + (if !old(repoCloned) then Prefixes(ProjectDir(baseDir)) else {})
                        + (if sourceOk && !old(dependenciesInstalled) && deps.requirementsExists && pythonPath != ""
                           then Prefixes(SitePackages(pythonPath)) else {})
    {
      ran := [];
      if !repoCloned {
        ran := [Source];
        var gitFound, ok := FetchSource(source);
        if !gitFound {
          return GitMissing, ran;
        }
        if !ok {
          return Failed(Source), ran;
        }
      }
      var ok, more := DependencyStage(deps);
      outcome := if ok then Completed else Failed(Dependencies);
      ran := ran + more;
    }

    /** The dependency stage of button1_Click: skipped when its flag is
      * set, otherwise InstallDependencies, which sets the flag when it
      * succeeds. */
    method DependencyStage(deps: DependencyOracle) returns (ok: bool, ran: seq<Stage>)
      requires Valid() && repoCloned && deps.WellFormed()
      modifies this, disk
      ensures Valid()
      ensures ok == (old(dependenciesInstalled) || InstallDependenciesSpec(pythonPath, manager.executablePath, deps).ok)
      ensures ran == if old(dependenciesInstalled) then [] else [Dependencies]
      ensures dependenciesInstalled == ok
      ensures pythonInstalled == old(pythonInstalled) && pythonPath == old(pythonPath) && repoCloned
      ensures disk.files == old(disk.files)
      ensures disk.dirs == old(disk.dirs)
                           + (if !old(dependenciesInstalled) && deps.requirementsExists && pythonPath != ""
                              then Prefixes(SitePackages(pythonPath)) else {})
    {
      if dependenciesInstalled {
        return true, [];
      }
      ran := [Dependencies];
      var individual;
      ok, individual := InstallDependencies(deps);
      if ok {
        dependenciesInstalled := true;
      }
    }

    /** button1_Click: with a branch and a version chosen, runs the stages
      * in order, skipping those whose flag is set and stopping at the first
      * that fails (DeployRun). A flag is set only by its own stage and
      * never cleared. */
    method Deploy(branch: Option<string>, version: Option<string>,
                  runtime: RuntimeOracle, source: SourceOracle, deps: DependencyOracle)
      returns (outcome: DeployOutcome, ran: seq<Stage>)
      requires Valid() && source.now.Valid() && deps.WellFormed()
      modifies this, manager, disk
      ensures Valid()
      ensures (outcome, ran) == DeployRun(Chosen(branch) && Chosen(version),
                                          old(pythonInstalled), old(repoCloned), old(dependenciesInstalled),
                                          Provisions(runtime), Succeeded(source.gitCheck), Clone(baseDir, source).ok,
                                          InstallDependenciesSpec(pythonPath, manager.executablePath, deps).ok)
      ensures var chosen := Chosen(branch) && Chosen(version);
        var runtimeOk := old(pythonInstalled) || Provisions(runtime);
        var sourceOk := old(repoCloned) || (Succeeded(source.gitCheck) && Clone(baseDir, source).ok);
        && pythonInstalled == (old(pythonInstalled) || (chosen && Provisions(runtime)))
        && repoCloned == (old(repoCloned) || (chosen && runtimeOk && sourceOk))
        && dependenciesInstalled == (old(dependenciesInstalled) || outcome == Completed)
        && pythonPath == (if chosen && !old(pythonInstalled) && Provisions(runtime)
                          then Render(ExePath(version.value, PythonDir(baseDir))) else old(pythonPath))
        && manager.executablePath == (if chosen && !old(pythonInstalled) && runtime.fetched && runtime.extracted
                                      then Render(ExePath(version.value, PythonDir(baseDir)))
                                      else old(manager.executablePath))
        && manager.config == (if chosen && !old(pythonInstalled) && Provisions(runtime)
                              then Some(Render(ExePath(version.value, PythonDir(baseDir)))) else old(manager.config))
        && disk.files == old(disk.files)
        && disk.dirs == old(disk.dirs)
                        + (if chosen && runtimeOk && !old(repoCloned) then Prefixes(ProjectDir(baseDir)) else {})
                        + (if chosen && runtimeOk && sourceOk && !old(dependenciesInstalled)
                              && deps.requirementsExists && pythonPath != ""
                           then Prefixes(SitePackages(pythonPath)) else {})
    {
      if !Chosen(branch) || !Chosen(version) {
        return Rejected, [];
      }
      outcome, ran := DeployChosen(version.value, runtime, source, deps);
    }

    /** Deploy once a branch and a version are chosen. */
    method DeployChosen(version: string, runtime: RuntimeOracle, source: SourceOracle, deps: DependencyOracle)
      returns (outcome: DeployOutcome, ran: seq<Stage>)
      requires Valid() && source.now.Valid() && deps.WellFormed()
      modifies this, manager, disk
      ensures Valid()
      ensures (outcome, ran) == DeployRun(true, old(pythonInstalled), old(repoCloned), old(dependenciesInstalled),
                                          Provisions(runtime), Succeeded(source.gitCheck), Clone(baseDir, source).ok,
                                          InstallDependenciesSpec(pythonPath, manager.executablePath, deps).ok)
      ensures var runtimeOk := old(pythonInstalled) || Provisions(runtime);
        var sourceOk := old(repoCloned) || (Succeeded(source.gitCheck) && Clone(baseDir, source).ok);
        var provisioned := !old(pythonInstalled) && Provisions(runtime);
        && pythonInstalled == runtimeOk
        && repoCloned == (old(repoCloned) || (runtimeOk && sourceOk))
        && dependenciesInstalled == (old(dependenciesInstalled) || outcome == Completed)
        && pythonPath == (if provisioned then Render(ExePath(version, PythonDir(baseDir))) else old(pythonPath))
        && manager.executablePath == (if !old(pythonInstalled) && runtime.fetched && runtime.extracted
                                      then Render(ExePath(version, PythonDir(baseDir)))
                                      else old(manager.executablePath))
        && manager.config == (if provisioned then Some(Render(ExePath(version, PythonDir(baseDir))))
                              else old(manager.config))
        && disk.files == old(disk.files)
        && disk.dirs == old(disk.dirs)
                        + (if runtimeOk && !old(repoCloned) then Prefixes(ProjectDir(baseDir)) else {})
                        + (if runtimeOk && sourceOk && !old(dependenciesInstalled)
                              && deps.requirementsExists && pythonPath != ""
                           then Prefixes(SitePackages(pythonPath)) else {})
    {
      var first: seq<Stage> := [];
      if !pythonInstalled {
        first := [Runtime];
        var ok := ProvisionRuntime(version, runtime);
        if !ok {
          return Failed(Runtime), first;
        }
      }
      var rest;
      outcome, rest := DeployProject(source, deps);
      ran := first + rest;
    }

    // -------------------------------------------------------------------
    // Update (Form1.cs:928-1131)
    // -------------------------------------------------------------------

    /** button3_Click with UpdateRepositoryAsync: refuses without a project,
      * then runs the git commands of UpdateCommands in order until one does
      * not pass; `ran` is the part of UpdateCommands that was started. */
    method Update(gitCheck: ProcessOutcome, revParse: RevParse, fetch: ProcessOutcome, pull: ProcessOutcome)
      returns (outcome: UpdateOutcome, ran: seq<GitCommand>)
      ensures |ran| <= |UpdateCommands| && ran == UpdateCommands[..|ran|]
      ensures outcome == NoProject <==> !ProjectPresent()
      ensures outcome == NoProject <==> |ran| == 0
      ensures outcome == NoGit <==> ProjectPresent() && !Succeeded(gitCheck)
      ensures outcome == NotRepository <==> ProjectPresent() && Succeeded(gitCheck) && !IsGitRepository(revParse)
      // `git fetch` is the third command, `git pull` the fourth.
      ensures |ran| >= 3 <==> ProjectPresent() && Succeeded(gitCheck) && IsGitRepository(revParse)
      ensures |ran| == 4 <==> |ran| >= 3 && Succeeded(fetch)
      ensures outcome == Updated <==> |ran| == 4 && Succeeded(pull)
      ensures outcome == UpdateFailed <==> |ran| >= 3 && !(Succeeded(fetch) && Succeeded(pull))
    {
      var projectDir := ProjectDir(baseDir);
      if !disk.DirectoryExists(projectDir) || !disk.HasFilesBelow(projectDir) {
        return NoProject, UpdateCommands[..0];
      }
      ran := UpdateCommands[..1];
      if !(gitCheck.Exited? && gitCheck.code == 0) {
        return NoGit, ran;
      }
      ran := UpdateCommands[..2];
      var isRepo := revParse.RevParseRan? && revParse.exitCode == 0 && Trim(revParse.output) == "true";
      if !isRepo {
        return NotRepository, ran;
      }
      ran := UpdateCommands[..3];
      if !(fetch.Exited? && fetch.code == 0) {
        return UpdateFailed, ran;
      }
      ran := UpdateCommands;
      outcome := if pull.Exited? && pull.code == 0 then Updated else UpdateFailed;
    }
  }
}
