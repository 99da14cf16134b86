# KouriChat-Downloader: a verified model of the deployment logic

KouriChat-Downloader is a Windows Forms tool. It provisions an embedded
CPython next to itself (`.python`), clones the KouriChat project
(`KouriChat`) and installs the project's Python dependencies. It can then
update the clone with git or delete both trees again. This project models
the decisions behind those buttons in Dafny and proves what each one
guarantees:

- `text.dfy` (module `Text`): the .NET string operations the tool relies
  on. These are `Replace`, `Split`, `String.Join`, `Trim` and `Contains`,
  plus the `yyyyMMdd_HHmmss` and `HH:mm:ss` time stamps as the invariant
  culture writes them.
- `filesystem.dfy` (module `FileSystem`): a local disk as a tree of
  directory and file paths, with a set of files held open elsewhere, whose
  deletion fails.
- `python_tool.dfy` (module `PythonTool`): `PythonEnvironmentManager`.
  It covers the names derived from a Python version, the `._pth` patch, the
  success rules for provisioning, pip, clone and child processes, the
  ordered interpreter search and the dependency probe.
- `logger.dfy` (module `Logger`): the static `Logger`. Its state is the
  entry list, the lines of the log panel and the text of `program.log`;
  the model also covers session separators and the clean-up on exit.
- `form1.dfy` (module `Form1`): the form. It holds the three stage flags
  and the deploy stage controller. It also holds the start-up probe, the
  clean-up button with its best-effort recursive delete, the dependency
  installation with its fallback, and the update button.

Every download, archive extraction, HTTP call and child process becomes an
argument that says how that effect turned out (`ProcessOutcome`, `Probe`,
`RevParse`, `RuntimeOracle`, `SourceOracle`, `DependencyOracle`). The
clock is an argument too. The model then states, for every combination of
those outcomes, which flags, files, directories and saved paths result.

## Model

| member | source | states |
|---|---|---|
| FileSystem.Disk.CreateDirectory | Form1.cs:234 | Creates the directory and every missing directory above it; files and existing directories stay; the tree stays a tree |
| FileSystem.Disk.DeleteFile | Form1.cs:640-648 | Deleting a file fails exactly when it is held open; otherwise only that file goes |
| FileSystem.Disk.DeleteEmptyDirectory | Form1.cs:663 | A non-recursive delete removes the directory exactly when it exists and has no entry |
| Form1.DeleteChildFiles | Form1.cs:638-649 | Every file directly in the directory goes except the locked ones; directories stay |
| Form1.DeleteSubdirectories | Form1.cs:651-661 | After recursing into every subdirectory, the unlocked files of those subtrees are gone, and so is every directory in them that holds no locked file |
| Form1.SafeDeleteDirectory | Form1.cs:634-670 | Every unlocked file below the directory is deleted; the directories deleted are exactly those at or below it that hold no locked file; it throws exactly when the directory is missing or keeps a locked file |
| Form1.SiblingDeleteUnaffected | Form1.cs:538-590 | A best-effort delete of `.python` does not change what a later delete of the sibling `KouriChat` removes or whether it throws |
| Form1.Form.CleanRuntime | Form1.cs:538-570 | The runtime flag and interpreter path are reset exactly when `.python` existed and held no locked file; the saved interpreter file goes whenever `.python` existed |
| Form1.Form.CleanProject | Form1.cs:573-590 | The project and dependency flags are reset exactly when `KouriChat` existed and held no locked file |
| Form1.Form.CleanupProject | Form1.cs:491-631 | Both halves in order: the final disk is the old one minus both deletable sets; each flag is reset only by a complete delete; `cleaned` says whether either delete completed |
| Form1.Form.IndicatorsPresent | Form1.cs:457-466 | The result is true exactly when site-packages has a directory for each of flask, requests and werkzeug |
| Form1.Form.DetectRuntime | Form1.cs:433-439 | The runtime flag is set exactly when the ordered search `Detected` finds an interpreter on the disk; the form's path, the manager's path and the saved configuration then follow that hit |
| Form1.Form.ProbeProject | Form1.cs:441-476 | The project flag is set exactly when `KouriChat` holds a file; the dependency flag is set exactly when, in addition, requirements.txt and all three indicator directories exist |
| Form1.Form.CheckExistingComponents | Form1.cs:424-482 | The start-up probe only ever sets flags: the runtime flag exactly when `Detected` finds an interpreter, the other two by the disk conditions of ProbeProject; it keeps "dependencies imply project" |
| Form1.FirstFailedInstall | Form1.cs:723-730 | The index of the first failing individual install: all before it succeed, the one at it fails |
| Form1.Form.InstallCorePackages | Form1.cs:723-730 | The packages are installed in order up to and including the first failing one; the result says whether all succeeded and how many ran; the disk is unchanged |
| Form1.InterpreterDir | Form1.cs:685 | The directory of the interpreter path: its backslash-separated components without the last |
| Form1.SitePackages | Form1.cs:686 | `Lib\site-packages` inside the interpreter's directory |
| Form1.InstallDependenciesSpec | Form1.cs:672-748 | Reference definition of InstallDependenciesAsync's outcome and install count; characterised by InstallDependenciesOutcome |
| Form1.InstallDependenciesOutcome | Form1.cs:672-748 | Installing succeeds exactly when requirements.txt is missing, or there is an interpreter and either the first import check or every individual install and the second check pass; individual installs run only after a failed first check, in order, stopping at the first failure |
| Form1.Form.InstallDependencies | Form1.cs:672-748 | The method's outcome and install count equal that specification; its only effect is creating site-packages next to the interpreter |
| Form1.IsGitRepository | Form1.cs:1037-1066 | Reference definition of CheckIsGitRepositoryAsync: git ran, exited 0 and printed "true" once trimmed; a thrown exception means no; characterised by the next two lemmas |
| Form1.PaddedTrueIsRepository | Form1.cs:1058 | Exit code 0 with "true" surrounded by any white space counts as a git work tree |
| Form1.RepositoryOutputIsPaddedTrue | Form1.cs:1058 | Conversely, only white space may surround "true" in an output that counts |
| Form1.Form.Update | Form1.cs:928-1131 | Without a project nothing runs; otherwise `git --version`, `rev-parse`, `fetch` and `pull` run in that order until one fails; the outcome names the first failure, and "updated" means all four passed |
| Form1.LauncherNamesDistinct | Form1.cs:763-764 | The launcher and batch file names differ from each other and from the script, and each determines its script |
| Form1.ProjectRun | Form1.cs:231-275 | Reference definition of the source and dependency stages: outcome and stages started from the two flags and the stage results |
| Form1.DeployRun | Form1.cs:174-332 | Reference definition of the whole deploy; characterised by DeployRunOrder, DeployRunOutcome and RedeployIsIdle |
| Form1.DeployRunOrder | Form1.cs:218-275 | A deploy starts a prefix of the stages whose flags are unset, in runtime, source, dependencies order; it stops at the stage that fails and completes only after all of them |
| Form1.DeployRunOutcome | Form1.cs:177-275 | Each outcome (rejected, runtime failed, git missing, source failed, dependencies failed, completed) holds exactly under its condition on the choices, flags and stage results |
| Form1.RedeployIsIdle | Form1.cs:218-275 | With all three flags set, a deploy does nothing and completes |
| Form1.Form.ProvisionRuntime | Form1.cs:218-224 | The runtime flag and path are set exactly when provisioning returns the interpreter under `.python` |
| Form1.Form.FetchSource | Form1.cs:231-251 | The project directory is created; the project flag is set exactly when git is found and the clone reports success |
| Form1.Form.DependencyStage | Form1.cs:258-271 | Skipped when its flag is set; otherwise the flag becomes the installation's outcome |
| Form1.Form.DeployProject | Form1.cs:231-275 | The source and dependency stages follow `ProjectRun` and leave the flags and directories it implies |
| Form1.Form.DeployChosen | Form1.cs:213-275 | With a branch and version chosen, the three stages follow `DeployRun`; each flag is set only by its own stage; the saved interpreter path and the created directories are as the stages imply |
| Form1.Form.Deploy | Form1.cs:174-332 | The button follows `DeployRun`: without a branch and a version nothing changes; no flag is ever cleared |
| PythonTool.UrlEndsWithZipName | Utils/PythonTool.cs:61-63 | The archive is stored under the last segment of its URL, which lies in the release's folder |
| PythonTool.DownloadUrlInjective | Utils/PythonTool.cs:62 | Different versions have different download URLs |
| PythonTool.ExtractDirNameParts | Utils/PythonTool.cs:64 | The extract directory is "python" followed by the version's dot-separated parts, and its name holds no dot |
| PythonTool.PthNameMatchesExtractDir | Utils/PythonTool.cs:64-107 | The `._pth` name exists exactly for a version with a dot, and its stem starts the extract directory's name |
| PythonTool.PatchSite | Utils/PythonTool.cs:112 | Every `#import site` becomes `import site`; characterised by the next two lemmas |
| PythonTool.PatchUnchangedIff | Utils/PythonTool.cs:111-113 | The patch leaves the file unchanged exactly when it has no `#import site`, and otherwise shortens it |
| PythonTool.PatchNotIdempotent | Utils/PythonTool.cs:112 | Running the patch twice can change a file twice (`##import site`) |
| PythonTool.PipInstalled | Utils/PythonTool.cs:768-850 | Pip counts as installed exactly when get-pip.py was fetched, ran with exit 0 and the version check did not throw |
| PythonTool.BackupNameRecoversTime | Utils/PythonTool.cs:264 | The backup name starts with the target and its stamp parses back to the moment of the backup |
| PythonTool.BackupNamesDistinct | Utils/PythonTool.cs:264 | Backups made at different moments get different names |
| PythonTool.CloneRepository | Utils/PythonTool.cs:219-326 | A clone succeeds exactly when git runs, `git clone` exits 0 and files exist afterwards; a backup is made exactly when git runs, the target is non-empty and the move works, and it is named by the stamp |
| PythonTool.FirstFailure | Utils/PythonTool.cs:725-762 | The index of the first failing import probe: all before it pass, the one at it fails |
| PythonTool.DependencyVerdict | Utils/PythonTool.cs:718-765 | Without an interpreter the check throws; otherwise it passes exactly when every probe exits 0 with empty standard error |
| PythonTool.EnvironmentManager.CheckDependenciesInstalled | Utils/PythonTool.cs:718-765 | The probe loop returns that verdict and starts the probes up to the first failing one |
| PythonTool.FirstExisting | Utils/PythonTool.cs:639-686 | The first candidate path that is a file: none before it is, the one at it is |
| PythonTool.PythonFilterVacuous | Utils/PythonTool.cs:661-664 | Below `.python` every subdirectory path contains "python", so the name filter never skips one |
| PythonTool.EnvironmentManager.FindIn | Utils/PythonTool.cs:639-658 | The loop finds the first existing candidate, in order |
| PythonTool.EnvironmentManager.FindInSubdirectories | Utils/PythonTool.cs:661-688 | The loop over the listing finds the first existing candidate of the filtered subdirectories, in listing order |
| PythonTool.Detected | Utils/PythonTool.cs:614-699 | Reference definition of the search order: a saved path that names a file; nothing after a read error or without `.python`; then `python.exe` and `Scripts\python.exe`; then the listed subdirectories whose path contains "python"; nothing after a listing error |
| PythonTool.DetectedNamesFile | Utils/PythonTool.cs:625-686 | Whatever the search finds is the rendering of an existing file: the saved path, or a `python.exe` below `.python` |
| PythonTool.EnvironmentManager.TryDetectExistingPython | Utils/PythonTool.cs:614-699 | The method finds exactly what `Detected` finds; a hit other than the saved path is recorded and saved, and nothing changes when it finds nothing |
| PythonTool.EnvironmentManager.SavePythonPath | Utils/PythonTool.cs:701-713 | python_config.txt then holds exactly the path |
| PythonTool.EnvironmentManager.DownloadPython | Utils/PythonTool.cs:34-160 | Provisioning returns the interpreter path exactly when download, extraction and the executable succeed; the path is recorded once extraction succeeds and saved only on success; the `._pth` text is patched when it exists |
| PythonTool.EnvironmentManager.RunProcess | Utils/PythonTool.cs:559-611 | A missing working directory is created; the call throws exactly when the process does not exit 0 |
| Logger.PiecesOfJoin | Utils/Logger.cs:31 | Lines without breaks joined with CR LF split back into the same lines |
| Logger.ShownLines | Utils/Logger.cs:29-34 | The panel shows the loaded lines unchanged, except that an empty or single empty list shows nothing |
| Logger.AppendTextIsTextAppend | Utils/Logger.cs:93 | The panel's line view of an append agrees with appending to its text |
| Logger.DisplayBounded | Utils/Logger.cs:90-103 | A panel of at most 500 lines stays within 500 after an entry of at most 100 lines; short of the limit, a one-line entry continues the last line and an empty line follows |
| Logger.DisplayOverflow | Utils/Logger.cs:90-103 | An entry of 101 lines shown on a full panel leaves 501 lines, so the bound needs the entry size |
| Logger.TrimKeepsSuffix | Utils/Logger.cs:98-102 | A trim keeps the newest lines, in order: over 500 lines exactly the first 100 go, otherwise nothing |
| Logger.Entry | Utils/Logger.cs:62 | An entry is the clock in brackets, a space and the message; characterised by EntryShape |
| Logger.EntryShape | Utils/Logger.cs:62 | An entry is `[HH:mm:ss] message`, its clock parses back to the time, and it never starts like a separator |
| Logger.LastMarker | Utils/Logger.cs:115-123 | The index of the last entry holding the session marker: it holds it, none after it does |
| Logger.CurrentSession | Utils/Logger.cs:125-133 | Reference definition of the kept entries: from the last separator on, else all; characterised by CurrentSessionSpec |
| Logger.CurrentSessionSpec | Utils/Logger.cs:125-133 | The kept entries are a suffix starting with the last separator and holding no other; with no separator all are kept |
| Logger.Separator | Utils/Logger.cs:37 | The session separator contains the session marker |
| Logger.SeparatorStartsSession | Utils/Logger.cs:37-38 | After a separator is appended, the current session is exactly it |
| Logger.SessionAfterSeparator | Utils/Logger.cs:37-38 | The current session is that separator plus the later entries, as long as none of them mentions the marker |
| Logger.ReadBack | Utils/Logger.cs:25 | Text written line by line with CR LF is read back line for line |
| Logger.ClearThenLogJoinsLastLine | Utils/Logger.cs:136-137 | The rewritten log has no final newline, so the closing entry is read back on the same line as the last kept entry |
| Logger.SessionLog.Initialize | Utils/Logger.cs:16-58 | An existing log is loaded, shown and followed by a separator in the list, the file and the panel; a missing one is created with a start line; a read or write error ends the method |
| Logger.SessionLog.Log | Utils/Logger.cs:60-88 | The entry is always listed; it is appended to the file and shown only when those succeed |
| Logger.SessionLog.UpdateLogTextBox | Utils/Logger.cs:90-103 | The panel gets the entry and a newline, then is trimmed |
| Logger.SessionLog.GetLogEntries | Utils/Logger.cs:105-108 | A fresh array holding the entries |
| Logger.SessionLog.FindCurrentSession | Utils/Logger.cs:115-123 | The loop finds the last separator's index, or -1 |
| Logger.SessionLog.ClearLogFile | Utils/Logger.cs:110-143 | The file becomes the current session joined by CR LF, then one entry is logged; after a write error nothing changes |
| Text.ReplaceUnchangedIff | Utils/PythonTool.cs:112 | A replacement by a shorter text changes a text exactly when the pattern occurs in it |
| Text.JoinSplit | Utils/PythonTool.cs:107 | Splitting at a character and joining with it gives the text back |
| Text.TrimSpec | Utils/PythonTool.cs:624 | Trim removes exactly the leading and trailing white space and keeps the middle |
| Text.StampRoundTrip | Utils/PythonTool.cs:264 | A `yyyyMMdd_HHmmss` stamp parses back to its date and time |

## Left out

- The user interface is left out: message boxes, button enabling, the
  combo boxes beyond whether a choice is made, and `Invoke`
  marshalling. Asynchrony (`Task.Run`, `await`) is modelled as running in
  order.
- Logging is not modelled for the form and the environment manager. Their
  `Logger.Log` and `LogMessage` calls only write text, and the logger is
  modelled on its own.
- Killing python processes and the one-second wait before clean-up
  (Form1.cs:512-535) are left out. Their effect, files that stay locked,
  appears as the disk's `locked` set.
- HTTP downloads, archive extraction, `Directory.Move` and `git clone` do
  not change the model's disk. Their outcomes, and whether files exist
  afterwards, are arguments.
- The constant URLs of the repository and of `get-pip.py`, and the branch
  passed to `git clone`, are not modelled.
- The list of package mirrors passed at Form1.cs:692-704 is not modelled.
  That call passes four arguments to `InstallPackagesWithLogging`, which is
  declared with three (Utils/PythonTool.cs:853).
- `InstallPackagesWithLogging` (Utils/PythonTool.cs:853-903) is not
  modelled. Its result is only logged, so it appears as the unused
  `bulkOk` argument.
- Form1.Form.InstallDependencies: whether requirements.txt exists is an
  argument rather than a look at the disk. The requirements file itself is
  not modelled.
- Form1.SitePackages: `Path.GetDirectoryName` is modelled as cutting the
  path at its last backslash.
- The start-up probe looks in `.python\Lib\site-packages`, while the
  installation writes next to the interpreter. Both directories are
  modelled as the source names them.
- PythonTool.EnvironmentManager.DownloadPython is weaker than the source
  in four ways. It does not model deleting an earlier install
  (Utils/PythonTool.cs:36-53), creating the target and extract
  directories, writing `sitecustomize.py`, or creating `Lib\site-packages`
  and `Scripts`.
- PythonTool.EnvironmentManager.SavePythonPath does not model a failing
  write of python_config.txt, which the source only logs.
- Form1.Form.CleanRuntime does not model a failing delete of
  python_config.txt, which the source only logs.
- Form1.Form.CheckExistingComponents does not model its catch-all
  handler. No modelled step of it throws.
- `CreateVirtualEnvironmentAsync`, `ExecutePythonCommandAsync`,
  `InstallPythonAsync` and the helpers used only by them are not modelled.
  The form never calls them.
- The run button (`button2_Click` and `RunPythonScriptInTerminal`) is not
  modelled beyond the names of the launcher files
  (`Form1.LauncherNamesDistinct`). Their contents and the terminal that
  runs them are outside the decision logic.
- `CheckAndInstallDependenciesAsync` / `CheckGitInstalledAsync`
  (Form1.cs:334-393) is modelled only as whether `git --version` exits 0
  (`SourceOracle.gitCheck`).
- Logger.Entry and PythonTool.BackupName assume the invariant culture:
  `HH:mm:ss` is written with ':' and `yyyyMMdd` with the Gregorian year,
  while .NET uses the current culture's time separator and calendar.
- PythonTool.CloneRepository: whether the target has entries (`nonEmpty`)
  is an argument rather than read from the disk, and the move to the
  backup does not change the model's disk.
- Logger.SessionLog.Initialize: the separator's time is an argument
  (`nowText`), because `DateTime.Now` prints in the current culture's
  format.
- Logger.SessionLog.Initialize assumes a log panel is present. The
  null checks on `_logTextBox` are not modelled.
- Logger.Pieces: only CR LF counts as a line break. Bare CR or LF, which
  `File.ReadAllLines` and `TextBox.Lines` also split at, are not modelled.
- Text.Trim: only ASCII white space is modelled. The other Unicode white
  space that .NET's `Trim` removes is not.
- The scrolling of the panel (`SelectionStart`, `ScrollToCaret`) is not
  modelled.
