# repo2md workspace and session core, modelled in Dafny

repo2md is a small web service. It clones a git repository, or unpacks an
uploaded archive, into a per-session workspace directory. It then shows the
repository's file tree and extensions, and exports the selected files as one
Markdown document. A websocket per browser session sends "ping" heartbeats.
A periodic sweep drops sessions that have gone silent for more than 120
seconds.

This project models three parts of that core and proves properties about them:

- **The session registry** (`registry.dfy`): the in-place dictionary of
  connected sessions. The model covers connect, ping, disconnect, the analyze
  update, `cleanup_session`, and one pass of the liveness sweep. The class
  `SessionRegistry` holds the map. Its methods are proved against pure
  functions (`Connected`, `Pinged`, `WithRepo`, `Cleanup`, `Live`, `Run`).
- **Workspace path and tree logic** (`paths.dfy`, `disk.dfy`, `workspace.dfy`,
  `names.dfy`, `inventory.dfy`, `sorting.dfy`, `strings.dfy`):
  - the containment check of `session_dir_path` on resolved paths;
  - `session_dir` and the never-raising `clean_session`, over an abstract
    filesystem;
  - the repository-name guess and `safe_filename`;
  - the ordered inventory tree and its extension list;
  - the export filter;
  - the root-selection rule of `unzip_to`.
- **The workspace populator** (`services.dfy`): a clone into a named child of
  the session directory, and an upload that empties the session directory and
  then extracts into it. Both are proved against the same filesystem model.
  Git and the archive reader are opaque: what they produce is a parameter.

The filesystem (`Disk`) is a map from resolved absolute paths to a directory
or a file. It is well formed when every entry's parent is a directory. The
class `Disk.Disk` changes that map in place with the primitives the code uses:
- `mkdir(parents=True, exist_ok=True)`;
- `rmtree`;
- `unlink`;
- writing an extracted or checked-out subtree.

Every filesystem-changing operation is a method. Its `ensures` ties the new
map and the result to a specification function of the old map. The lemmas
then state containment ("nothing outside the target changes"), replacement
("the target holds exactly the new subtree"), idempotence and the error
cases.

Integer time stands for `time.time()`. `lower()` and the `\w` class are
modelled on ASCII letters and digits. `str.isspace()` is modelled with its
full character set.

Three behaviours of the code are worth stating plainly, and the model keeps
each of them:
- `session_dir_path` accepts the workspace root itself for the ids "" and
  ".", because its check is `root not in d.parents and d != root`.
- A ping for an id with no record raises KeyError, and `analyze` never
  creates a record: only the websocket handler does.
- `unzip_to` does not validate archive entry names. The model's extracted
  content is already a set of relative, resolved paths. That stands for
  `zipfile`'s own handling of member names, which drops a leading "/" and
  ".." components. So `Workspace.UnzipToStaysInside` is a property of that
  library behaviour, not of a check in the code.

## Model

| member | source | states |
|---|---|---|
| Registry.Connected | app/main.py:51 | the id's record becomes an empty repo set with `last_ping` = now, replacing any earlier one; the id joins the keys; every other record is unchanged |
| Registry.SessionRegistry.Connect | app/main.py:51 | the registry becomes `Connected(old, id, now)`; the cleanup log is untouched |
| Registry.Pinged | app/main.py:56-57 | an unknown id is `KeyError(id)`, never a new record; for a known id the keys are unchanged, only that record's `last_ping` becomes now, and its repos and all other records are unchanged |
| Registry.SessionRegistry.Receive | app/main.py:54-62 | "ping" gives Pinged's new registry and "pong", or KeyError with nothing changed; "disconnect" cleans the session up and closes; any other message changes nothing and gets no answer |
| Registry.RunNeverFails | app/main.py:54-58 | while the session's own record exists, none of its pings fails |
| Registry.RunClosing | app/main.py:59-64 | a conversation containing "disconnect" or a transport disconnect ends with the record gone and the directory cleanup requested last |
| Registry.RunOpen | app/main.py:54-58 | a conversation without a close event keeps every key; the session's repos are kept; its `last_ping` is the last ping's time; all other records and the cleanup log are unchanged |
| Registry.Run | app/main.py:54-64 | the receive loop answers each message at most once; every reply but the last is "pong", since a close or an escaping KeyError ends the loop; it never creates a record; the cleanup log only grows |
| Registry.SessionRegistry.Serve | app/main.py:48-64 | accepting and serving a websocket leaves the registry and replies that `Run` gives on `Connected(old, id, t)` |
| Registry.WithRepo | app/main.py:26-27 | never creates a record (keys unchanged); a registered session gains the repo with `last_ping` kept; other records are unchanged |
| Registry.SessionRegistry.Analyze | app/main.py:24-27 | an empty repo name is error 400 and changes nothing; otherwise the registry becomes `WithRepo(old, id, name)` and the name is returned |
| Registry.Cleanup | app/main.py:67-69 | the record is removed if present and the others are unchanged; the directory cleanup is always requested |
| Registry.SessionRegistry.CleanupSession | app/main.py:67-69 | the state becomes `Cleanup(old, id)` |
| Registry.CleanupIdempotent | app/main.py:67-69 | cleaning up twice leaves the registry as cleaning up once; only the directory cleanup is requested again |
| Registry.ExpiryBoundary | app/main.py:80-83 | a session pinged 120 s ago survives the sweep, one pinged 121 s ago does not |
| Registry.Live | app/main.py:79-85 | an id survives a sweep iff its record is not expired (`now - last_ping > 120`), with its record unchanged |
| Registry.CollectExpired | app/main.py:79-83 | the list holds exactly the ids whose records are expired, each once |
| Registry.SessionRegistry.CheckSessions | app/main.py:79-85 | after one sweep the registry is `Live(old, now)`; the cleanup log is extended by exactly the expired ids, each requested once |
| Registry.SweepLeavesOnlyLive | app/main.py:79-85 | after a sweep no remaining session is expired, and every non-expired session's record is unchanged |
| Paths.Join | app/utils.py:18 | resolving `root / id` yields a path with no empty, "." or ".." component |
| Paths.CheckSessionDir | app/utils.py:18-21 | an id holding a NUL character is refused (ValueError from `resolve()`); otherwise the id is accepted iff `root / id` resolves to the root or below it, and the accepted value is that resolved path |
| Paths.SessionDirOfName | app/utils.py:18-21 | a plain name without NUL is the directory directly below the root |
| Paths.SessionDirOfRootItself | app/utils.py:19 | the ids "" and "." resolve to the root itself and are accepted |
| Paths.ParentIdRejected | app/utils.py:18-20 | the id ".." is rejected |
| Paths.SiblingIdRejected | app/utils.py:18-20 | "../sibling" is rejected |
| Paths.AbsoluteIdRejected | app/utils.py:18-20 | an absolute id is rejected when the root is two or more levels deep |
| Paths.RelativeIdAccepted | app/utils.py:18-21 | a relative id without NUL and with no ".." component is always accepted |
| Paths.NullInNameRejected | app/utils.py:18 | a plain name holding NUL resolves directly below the root, yet `resolve()` raises on it, so the id is refused |
| Disk.Disk.MakeDirs | app/utils.py:13 | `mkdir(parents=True, exist_ok=True)` succeeds iff no prefix of the path is a file; on success the disk gains exactly the missing prefixes, all directories |
| Disk.Disk.RemoveTree | app/utils.py:41 | `rmtree` succeeds iff the path is a directory and then removes it and everything below; otherwise nothing changes |
| Disk.Disk.Unlink | app/services.py:57 | `unlink` succeeds iff the path is a file and removes only it |
| Disk.Disk.Graft | app/utils.py:99-100 | writing a subtree below a directory adds or overwrites exactly the subtree's entries |
| Disk.MakeDirsExisting | app/utils.py:26 | `mkdir(exist_ok=True)` on an existing directory changes nothing |
| Disk.RemovalStaysInside | app/utils.py:41 | `rmtree` changes nothing outside the removed path |
| Disk.GraftOntoEmpty | app/utils.py:99-100 | writing a subtree where nothing lay below leaves exactly that subtree there |
| Workspace.EnsureSafeRoot | app/utils.py:11-14 | the root is created with its missing ancestors, and failure happens iff a prefix is a file |
| Workspace.SessionDirPathOf | app/utils.py:16-21 | succeeds iff the root can be created, the id holds no NUL and `root / id` resolves to the root or below it; the value is that resolved path; otherwise the error is `CannotCreate(root)`, the NUL ValueError or the "Invalid session path" ValueError, in that order |
| Workspace.SessionDirPath | app/utils.py:16-21 | creates only the root and returns or raises as `SessionDirPathOf` says |
| Workspace.SessionDirOf | app/utils.py:23-27 | succeeds iff `session_dir_path` does and the session directory can then be created; on failure only the root was created; only directories are added and nothing existing changes; on success the session directory exists, lies inside the root and is the checked path |
| Workspace.SessionDir | app/utils.py:23-27 | the disk and result are `SessionDirOf(old, root, id)` |
| Workspace.CleanSession | app/utils.py:29-46 | never raises: reports removal, absence or the caught error, with the disk as `CleanSessionOf` says |
| Workspace.CleanSessionLeavesNoDirectory | app/utils.py:29-44 | after cleaning, nothing is left below the session directory; anything left at it is the file that was already there |
| Workspace.CleanMissingIsNoOp | app/utils.py:32-43 | a session directory that does not exist is reported missing, and only the root is created |
| Workspace.CleanSessionStaysInside | app/utils.py:32-41 | cleaning changes nothing outside the session directory, apart from creating the root |
| Workspace.CleanSessionIdempotent | app/utils.py:29-46 | cleaning a session twice leaves the disk as cleaning it once |
| Workspace.CleanRootSessionEmptiesWorkspace | app/utils.py:29-41 | the id "" or "." names the root, so cleaning it removes every session's directory |
| Workspace.RepoRoot | app/utils.py:102-105 | the root is the extraction directory, or its only listed child when that child is a directory |
| Workspace.RepoRootOfSingleDirectory | app/utils.py:102-104 | a single listed top-level entry that is a directory is chosen |
| Workspace.RepoRootOtherwise | app/utils.py:102-105 | with several listed entries, none, or a single file, the extraction directory is chosen |
| Workspace.UnzipToOf | app/utils.py:93-105 | succeeds iff the archive exists, is not a directory, is not empty, is readable and its content fits below the directory; a missing archive is `ZipNotFound` and a zero-size one `ZipEmpty`, both iff; errors change nothing; on success every entry is extracted below the directory and the root rule is applied |
| Workspace.UnzipTo | app/utils.py:93-105 | the disk and result are `UnzipToOf(old, dir, zip, extraction)` |
| Workspace.UnzipToStaysInside | app/utils.py:99-100 | extraction writes only below the target directory, which stays a directory |
| Names.UrlBase | app/utils.py:50 | the last part of the stripped URL contains no slash |
| Names.DropGitSuffix | app/utils.py:51-52 | exactly four characters are dropped iff the name ends in ".git", the rest is a prefix, and a name without ".git" is unchanged |
| Names.GuessRepoName | app/utils.py:48-53 | the guessed name is never empty and contains no slash |
| Names.GuessIgnoresWhitespace | app/utils.py:50 | whitespace around the URL does not change the name |
| Names.GuessIgnoresTrailingSlash | app/utils.py:50 | a trailing slash does not change the name |
| Names.GuessOfGitUrl | app/utils.py:50-53 | for ".../name.git" the name is `name`; exactly one ".git" is removed |
| Names.GuessOfPlainUrl | app/utils.py:50-53 | for ".../name" without ".git" the name is `name` itself |
| Names.GuessOfBareGitSuffix | app/utils.py:50-53 | a URL whose last part is ".git" alone falls back to "repository" |
| Names.GuessOfBlankUrl | app/utils.py:50-53 | a URL of whitespace only falls back to "repository" |
| Names.CheckoutName | app/services.py:17 | the directory name of a clone: never empty, ".", ".." or containing a slash; equal to the guess otherwise |
| Names.CollapseRuns | app/utils.py:193 | the result has only `[\w.-]` characters, is no longer than the input, and is empty iff the input is |
| Names.CollapseRunsKeepsSafe | app/utils.py:193 | a string of allowed characters is unchanged |
| Names.CollapseOneRun | app/utils.py:193 | one maximal run of disallowed characters becomes a single "_" |
| Names.SafeFilename | app/utils.py:191-194 | the result is never empty and has only `[\w.-]` characters |
| Names.SafeFilenameIdempotent | app/utils.py:191-194 | applying it twice equals applying it once |
| Sorting.SortBy | app/utils.py:138 | `sorted` with a key: a permutation of the input, ordered by the key |
| Sorting.SortByStable | app/utils.py:138 | `sorted` is stable: for every key, the elements with that key appear in the result in their input order |
| Sorting.StrictlySorted | app/utils.py:90 | a sorted list of distinct strings is strictly increasing |
| Inventory.Visible | app/utils.py:65 | keeps exactly the entries whose name does not start with "." |
| Inventory.VisibleCounts | app/utils.py:65 | each visible entry is kept as often as it is listed, and no hidden entry is kept |
| Inventory.Arrange | app/utils.py:65 | a permutation of the visible entries, ordered by `(is_file, lower(name))` |
| Inventory.KeyOrder | app/utils.py:65 | in key order a directory never follows a file, and entries of one kind are in lower-cased name order |
| Inventory.Suffix | app/utils.py:72 | `Path.suffix`: empty iff there is no dot after the first character or the name ends in a dot; otherwise a dot-led ending of the name with no other dot |
| Inventory.Forest | app/utils.py:67-79 | one node per child, each the node `walk` builds for it |
| Inventory.Walk | app/utils.py:62-86 | the node built is `TreeOf(entry)`, and the shared extension set gains exactly the tree's extensions |
| Inventory.SortedList | app/utils.py:90 | `sorted(list(set))`: exactly the set's elements, strictly increasing |
| Inventory.ListFilesAndExtensions | app/utils.py:55-90 | the tree is the base's `TreeOf`, with path ""; the extension list is sorted, duplicate-free and equals the tree's extensions |
| Inventory.DirectoryFromChildren | app/utils.py:81-86 | a directory node is its name, its relative path ("" at the base) and its arranged children |
| Inventory.TreeWellOrdered | app/utils.py:64-65 | at every level no child name starts with ".", and directories come first, then lower-cased name order |
| Inventory.TreeKeepsVisible | app/utils.py:65-79 | every visible entry has a child node and every child node comes from a visible entry; the child count equals the number of visible entries |
| Inventory.TreePaths | app/utils.py:77-83 | every node's path is the names from the base joined with "/"; the base's own path is "" |
| Inventory.ExtensionsAreSuffixes | app/utils.py:72-74 | every listed extension starts with "." and has at least one more character |
| Inventory.FilesIn | app/utils.py:125-126 | every file `rglob("*")` meets lies at or below its starting path, and strictly below it when that is a directory |
| Inventory.Exported | app/utils.py:125-136 | a file is exported iff it passes the directory filter and the extension filter |
| Inventory.CollectFilesForExport | app/utils.py:107-138 | the result holds exactly the files that pass both filters, each as often as met, sorted by lower-cased path |
| Inventory.FilterFiles | app/utils.py:125-136 | the loop keeps, in the order met, exactly the files in a selected directory whose suffix is selected (every suffix when none is) |
| Inventory.SiblingNotSelected | app/utils.py:123 | selecting "src" does not select "src2/a" |
| Inventory.InSelectedDir | app/utils.py:114-123 | everything is selected when nothing or "" is selected; a selected directory covers its own path and every path below it |
| Inventory.SelectedDirIgnoresSlashes | app/utils.py:112 | surrounding slashes of a selected directory do not matter |
| Inventory.SelectedDirsOne | app/utils.py:112 | a selected directory is stripped of slashes at both ends |
| Services.FailureMessage | app/services.py:34 | the error text is stripped stderr if non-empty, else stripped stdout if non-empty, else "git clone failed"; never empty |
| Services.ClearedTarget | app/services.py:20-21 | after the `rmtree` with errors ignored, no directory is at the target, and nothing outside it changed |
| Services.TargetReady | app/services.py:23-29 | with the session directory present and the target cleared, git can create the target and nothing lies below it |
| Services.RunGit | app/services.py:23-35 | running git on the cleared target: a checkout is written there, or what a failed clone wrote is removed and the error raised |
| Services.CloneInto | app/services.py:18-35 | clearing the target and running git give the disk and result that `CloneIntoOf` describes |
| Services.CloneRepoToSession | app/services.py:11-36 | the disk and result are `CloneOf(old, root, id, url, git)` |
| Services.CloneReplacesTarget | app/services.py:16-36 | for a URL without NUL, after success the session directory exists; the target is a directory holding exactly the checkout; the result is the target and its name |
| Services.CloneStaysInside | app/services.py:16-36 | whatever git does, and also when the URL is refused, nothing outside the target changes, so other checkouts and other sessions survive |
| Services.CloneFailureRemovesTarget | app/services.py:30-35 | for a URL without NUL, after a failed clone nothing is below or at the target, unless a file was already there; the error carries the failure message |
| Services.NullUrlRefused | app/services.py:19-29 | a URL holding NUL raises ValueError before git runs; only the target's clearing has happened, and it is skipped when the name itself holds NUL |
| Services.UrlRefusedNodes | app/services.py:19-21 | the disk when the URL is refused: the target cleared unless its name holds NUL, and nothing outside it changed |
| Services.ClearTarget | app/services.py:20-21 | the disk becomes `ClearedTarget(old, target)`: a directory at the target is removed, a file stays |
| Services.ClimbingUrlTargetsWorkspaceRoot | app/services.py:17-21 | as written, a URL ending in "/...git" is guessed as ".."; the target is then the workspace root, whose removal deletes every other session's directory |
| Services.CorrectedTargetStaysInSession | app/services.py:17-18 | with the corrected name the target is always a direct child of the session directory |
| Services.CloneTargetAsWritten | app/services.py:16-18 | `session_dir / repo_name`: for every guess other than "." and ".." it is the direct child named by the corrected name |
| Services.DotUrlEmptiesSessionDir | app/services.py:17-21 | as written, a URL ending in "/..git" is guessed as "."; the target is the session directory itself, whose removal deletes every other checkout in it; the corrected name is "repository" |
| Services.ClearedExcept | app/services.py:52-59 | keeps exactly the entries outside the directory's contents or below a kept child, unchanged |
| Services.ClearDirectoryChild | app/services.py:53-54 | removing a child directory with `rmtree` drops exactly that child's subtree |
| Services.ClearFileChild | app/services.py:55-59 | unlinking a child file drops exactly that file |
| Services.EmptyDirectory | app/services.py:52-59 | every entry below the session directory is removed, and the directory itself stays |
| Services.UnpackZipToSession | app/services.py:46-63 | the disk and result are `UnpackOf(old, root, id, zip, extraction)` |
| Services.UnpackReplacesSession | app/services.py:50-61 | after a successful upload the session directory holds exactly the extracted archive |
| Services.UnzipOntoEmpty | app/utils.py:99-100 | extracting into an emptied directory leaves exactly the archive's entries below it |
| Services.UnpackStaysInside | app/services.py:50-61 | an upload changes nothing outside the session directory, which is kept |
| Services.UnpackReturnsRoot | app/services.py:61-63 | the result is `unzip_to`'s root and its last component: the only listed top-level directory, or the session directory |
| Services.UploadInsideSessionIsLost | app/services.py:52-61 | an archive stored inside the session directory is deleted before it is read, so the upload fails with `ZipNotFound` |
| Services.NameOf | app/services.py:62 | `Path.name`: the last component, or "" for "/" |
| Services.AnalyzeRepoPath | app/services.py:38-44 | the name is passed through unchanged, with the tree and sorted extension list of `list_files_and_extensions` |

## Left out

- Symbolic links: resolution is modelled on "." and ".." components only. `resolve()` following links, and `is_dir()` on a link, are not modelled.
- POSIX allows a leading "//" to differ from "/". Here both are "/".
- `lower()` and `\w` are modelled for ASCII only. Unicode case mapping and Unicode word characters are not modelled.
- Listing order: the inventory reads a snapshot (`Inventory.Entry`) whose sequence order stands for `iterdir()` order. Ties between equal lower-cased names keep that order, since `sorted` is stable (`Sorting.SortByStable`). The snapshot is not derived from the `Disk` map.
- `rglob` order is modelled as the snapshot's depth-first order, children in listing order. This is a modelling choice: the actual order depends on the Python version, and some versions visit sibling directories last-first. The export list's ties keep whichever order `rglob` gives.
- Disk.Disk.RemoveTree: models `rmtree` as all or nothing. A partial removal, and the read-only retry of `clean_session`'s error handler, are not modelled. Removing "/" empties it and keeps "/" itself.
- Disk.Disk.Unlink: the only failure modelled is "not a file". Permission errors are not modelled.
- Workspace.UnzipTo: requires that the extraction directory exists. The code only calls it after `session_dir`. A partial extraction is not modelled: a conflicting archive changes nothing.
- Workspace.UnzipToOf: a directory given as the archive fails with its own error, `ZipIsADirectory`. The code's `stat().st_size` and `ZipFile` would report this differently.
- Services.CloneRepoToSession: requires that git never reports success when a file already sits at the target. This is a property of git, not a demand on callers.
- Services.CloneRepoToSession: clones into the corrected name `CheckoutName`, not the raw guess. For a guess of "." or ".." the code removes and reuses the session directory or the workspace root instead; that behaviour is shown by the two rows under "## Findings" and not modelled further.
- A NUL character in the workspace root itself is not modelled: the root is taken as an already resolved path, and only the session id is checked for NUL.
- Services.CloneOf: the outputs of `git clone` and of the archive reader are parameters, and their contents are not modelled. A file already at the target is modelled as git failing without writing anything.
- Registry.SessionRegistry.Analyze: the analysis helper `analyze_repo` (app/main.py:9) is not part of this model. Its repo name is a parameter and its other response fields are not modelled.
- `cleanup_session_dir` (app/main.py:10) is not part of this model. Each call is recorded in the registry's cleanup log.
- `cleanup_all_repos` (app/main.py:1-2, app/main.py:75) is not part of this model.
- `export_repo` and the export routes (app/main.py:9, app/main.py:30-46) are not part of this model.
- `render_markdown` (app/utils.py:140-189) is not modelled. It reads file contents and builds text.
- `/config`, static files and the browser client are not modelled: they are presentation.
- Timers: the `asyncio` task, `sleep(30)`, the websocket transport and `print` logging are left out. One sweep is a method taking `now`.
- Time is a whole number of seconds. Floating-point time is not modelled.
- Pydantic models are not modelled, apart from the `TreeNode` shape (app/models.py:13-17). Its `type` field is the constructor, `FileNode` or `DirectoryNode`.

## Findings

| source | as written | input that shows it | evidently intended | confidence | as-written member | corrected member |
|---|---|---|---|---|---|---|
| app/services.py:17-21 | the clone target is `session_dir / guess_repo_name_from_git_url(url)`, and the guess can be ".." | a URL ending in "/...git" is guessed as ".."; the target then resolves to the workspace root, and `rmtree(target)` deletes every session's directory before cloning | a clone writes only into a child of its own session directory | not executed | Services.ClimbingUrlTargetsWorkspaceRoot | Services.CorrectedTargetStaysInSession |
| app/services.py:17-21 | the clone target is `session_dir / guess_repo_name_from_git_url(url)`, and the guess can be "." | a URL ending in "/..git" is guessed as "."; `base / "."` is the session directory itself, so `rmtree(target)` deletes the whole session directory, every other checkout and upload included, before git clones over it under the name "." | a clone writes only into a child of its own session directory | not executed | Services.DotUrlEmptiesSessionDir | Services.CorrectedTargetStaysInSession |
