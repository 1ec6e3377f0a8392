/**
 * The session workspace on the filesystem: the workspace root, the
 * per-session directory, its best-effort deletion, and the extraction
 * of an uploaded archive with the choice of the repository root.
 */
module Workspace {
  import opened Wrappers
  import opened Strings
  import opened Paths
  import opened Disk

  datatype FsError =
    | CannotCreate(path: Path)      // `mkdir` failed: a prefix of `path` is a file
    | InvalidPath                   // ValueError("Invalid session path")
    | NullInPath                    // ValueError from `resolve()`: the id holds "\0"
    | NullInArgument                // ValueError from `subprocess.run`: an argument holds "\0"
    | NotADirectory(path: Path)     // `rmtree` refused a path that is not a directory
    | ZipNotFound(zip: Path)        // FileNotFoundError("ZIP not found: ...")
    | ZipEmpty(zip: Path)           // FileNotFoundError("ZIP empty: ...")
    | ZipIsADirectory(zip: Path)    // opening a directory as an archive
    | BadArchive(reason: string)    // the archive could not be read
    | ExtractConflict                // an entry clashes with a file or directory already there
    | CloneFailed(message: string)  // RuntimeError raised after a failed `git clone`

  /** The state of the disk after an operation, and what the operation returned or raised. */
  datatype Outcome<T> = Outcome(nodes: Nodes, result: Result<T, FsError>)

  /** The disk after `ensure_safe_root`: the root and its missing ancestors created when possible. */
  function Prepared(nodes: Nodes, root: Path): (r: Nodes)
    requires WellFormed(nodes) && IsResolved(root)
    ensures WellFormed(r)
    ensures forall q :: q in nodes ==> q in r && r[q] == nodes[q]
    ensures forall q :: q in r && q !in nodes ==> r[q] == Dir
    ensures CanMakeDirs(nodes, root) ==> IsDir(r, root)
  {
    if CanMakeDirs(nodes, root) then WithDirs(nodes, root) else nodes
  }

  /** `ensure_safe_root`: creates the workspace root; fails when a prefix of it is a file. */
  method EnsureSafeRoot(disk: Disk, root: Path) returns (r: Result<Path, FsError>)
    requires disk.Valid() && IsResolved(root)
    modifies disk
    ensures disk.Valid()
    ensures disk.nodes == Prepared(old(disk.nodes), root)
    ensures r.Ok? <==> CanMakeDirs(old(disk.nodes), root)
    ensures r.Ok? ==> r.value == root && IsDir(disk.nodes, root)
    ensures r.Err? ==> r.error == CannotCreate(root)
  {
    var ok := disk.MakeDirs(root);
    if ok {
      r := Ok(root);
    } else {
      r := Err(CannotCreate(root));
    }
  }

  /** What `session_dir_path` returns or raises for a disk and a session id. */
  function SessionDirPathOf(nodes: Nodes, root: Path, sessionId: string): (r: Result<Path, FsError>)
    requires IsResolved(root)
    ensures r.Ok? ==> root <= r.value && IsResolved(r.value) && CanMakeDirs(nodes, root)
    ensures r.Ok? <==> CanMakeDirs(nodes, root) && '\0' !in sessionId && root <= Join(root, sessionId)
    ensures r.Ok? ==> r.value == Join(root, sessionId)
    ensures !CanMakeDirs(nodes, root) ==> r == Err(CannotCreate(root))
    ensures CanMakeDirs(nodes, root) && '\0' in sessionId ==> r == Err(NullInPath)
    ensures CanMakeDirs(nodes, root) && '\0' !in sessionId && !(root <= Join(root, sessionId)) ==> r == Err(InvalidPath)
  {
    if !CanMakeDirs(nodes, root) then Err(CannotCreate(root))
    else match CheckSessionDir(root, sessionId)
      case Ok(d) => Ok(d)
      case Err(EmbeddedNull) => Err(NullInPath)
      case Err(InvalidSessionPath) => Err(InvalidPath)
  }

  /** `session_dir_path`: creates only the root; the session directory itself is not created. */
  method SessionDirPath(disk: Disk, root: Path, sessionId: string) returns (r: Result<Path, FsError>)
    requires disk.Valid() && IsResolved(root)
    modifies disk
    ensures disk.Valid()
    ensures disk.nodes == Prepared(old(disk.nodes), root)
    ensures r == SessionDirPathOf(old(disk.nodes), root, sessionId)
  {
    r := EnsureSafeRoot(disk, root);
    if r.Ok? {
      var checked := CheckSessionDir(root, sessionId);
      match checked
      case Ok(d) => r := Ok(d);
      case Err(EmbeddedNull) => r := Err(NullInPath);
      case Err(InvalidSessionPath) => r := Err(InvalidPath);
    }
  }

  /** What `session_dir` leaves on the disk and returns. */
  function SessionDirOf(nodes: Nodes, root: Path, sessionId: string): (o: Outcome<Path>)
    requires WellFormed(nodes) && IsResolved(root)
    ensures WellFormed(o.nodes)
    ensures forall q :: q in nodes ==> q in o.nodes && o.nodes[q] == nodes[q]
    ensures forall q :: q in o.nodes && q !in nodes ==> o.nodes[q] == Dir
    ensures o.result.Ok? ==> root <= o.result.value && IsResolved(o.result.value) && IsDir(o.nodes, o.result.value)
    ensures o.result.Ok? ==> SessionDirPathOf(nodes, root, sessionId) == o.result
    ensures o.result.Ok? <==> SessionDirPathOf(nodes, root, sessionId).Ok?
                              && CanMakeDirs(Prepared(nodes, root), SessionDirPathOf(nodes, root, sessionId).value)
    ensures SessionDirPathOf(nodes, root, sessionId).Err? ==> o.result == SessionDirPathOf(nodes, root, sessionId)
    ensures o.result.Err? ==> o.nodes == Prepared(nodes, root)
  {
    var n1 := Prepared(nodes, root);
    match SessionDirPathOf(nodes, root, sessionId)
    case Err(e) => Outcome(n1, Err(e))
    case Ok(d) =>
      if CanMakeDirs(n1, d) then Outcome(WithDirs(n1, d), Ok(d)) else Outcome(n1, Err(CannotCreate(d)))
  }

  /** `session_dir`: the checked session directory, created if absent. */
  method SessionDir(disk: Disk, root: Path, sessionId: string) returns (r: Result<Path, FsError>)
    requires disk.Valid() && IsResolved(root)
    modifies disk
    ensures disk.Valid()
    ensures Outcome(disk.nodes, r) == SessionDirOf(old(disk.nodes), root, sessionId)
  {
    r := SessionDirPath(disk, root, sessionId);
    if r.Ok? {
      var d := r.value;
      var ok := disk.MakeDirs(d);
      if !ok {
        r := Err(CannotCreate(d));
      }
    }
  }

  /** What `clean_session` logs: it never raises. */
  datatype CleanReport = Removed(dir: Path) | Missing(dir: Path) | Failed(error: FsError)

  datatype Cleaned = Cleaned(nodes: Nodes, report: CleanReport)

  /**
   * What `clean_session` leaves on the disk. The directory is removed when
   * it is one; a file in its place makes `rmtree` fail, which is logged.
   */
  function CleanSessionOf(nodes: Nodes, root: Path, sessionId: string): (c: Cleaned)
    requires WellFormed(nodes) && IsResolved(root)
    ensures WellFormed(c.nodes)
  {
    var n1 := Prepared(nodes, root);
    match SessionDirPathOf(nodes, root, sessionId)
    case Err(e) => Cleaned(n1, Failed(e))
    case Ok(d) =>
      if IsDir(n1, d) then Cleaned(WithoutTree(n1, d), Removed(d))
      else if d in n1 then Cleaned(n1, Failed(NotADirectory(d)))
      else Cleaned(n1, Missing(d))
  }

  /** `clean_session`: deletes the session directory without recreating it; errors are reported, not raised. */
  method CleanSession(disk: Disk, root: Path, sessionId: string) returns (report: CleanReport)
    requires disk.Valid() && IsResolved(root)
    modifies disk
    ensures disk.Valid()
    ensures Cleaned(disk.nodes, report) == CleanSessionOf(old(disk.nodes), root, sessionId)
  {
    var r := SessionDirPath(disk, root, sessionId);
    if r.Err? {
      return Failed(r.error);
    }
    var d := r.value;
    if IsDir(disk.nodes, d) {
      var ok := disk.RemoveTree(d);
      report := Removed(d);
    } else if d in disk.nodes {
      report := Failed(NotADirectory(d));
    } else {
      report := Missing(d);
    }
  }

  /**
   * The session directory is gone after `clean_session` (unless it is "/"),
   * nothing is left below it, and it is not recreated.
   */
  lemma CleanSessionLeavesNoDirectory(nodes: Nodes, root: Path, sessionId: string)
    requires WellFormed(nodes) && IsResolved(root)
    requires SessionDirPathOf(nodes, root, sessionId).Ok?
    ensures var d := SessionDirPathOf(nodes, root, sessionId).value;
            var after := CleanSessionOf(nodes, root, sessionId).nodes;
            && NothingBelow(after, d)
            && (d in after ==> d in Prepared(nodes, root) && after[d] == Prepared(nodes, root)[d] && after[d].File?)
  {
    var d := SessionDirPathOf(nodes, root, sessionId).value;
    var n1 := Prepared(nodes, root);
    if !IsDir(n1, d) {
      NothingBelowNonDir(n1, d);
    } else {
      assert d <= d;
    }
  }

  /** A session directory that does not exist is reported missing, and nothing beyond the root is created. */
  lemma CleanMissingIsNoOp(nodes: Nodes, root: Path, sessionId: string)
    requires WellFormed(nodes) && IsResolved(root)
    requires SessionDirPathOf(nodes, root, sessionId).Ok?
    requires !Exists(Prepared(nodes, root), SessionDirPathOf(nodes, root, sessionId).value)
    ensures CleanSessionOf(nodes, root, sessionId)
            == Cleaned(Prepared(nodes, root), Missing(SessionDirPathOf(nodes, root, sessionId).value))
  {
  }

  /** `clean_session` changes nothing outside the session directory, apart from creating the root. */
  lemma CleanSessionStaysInside(nodes: Nodes, root: Path, sessionId: string)
    requires WellFormed(nodes) && IsResolved(root)
    ensures var after := CleanSessionOf(nodes, root, sessionId).nodes;
            match SessionDirPathOf(nodes, root, sessionId)
            case Ok(d) => SameOutside(Prepared(nodes, root), after, d)
            case Err(_) => after == Prepared(nodes, root)
  {
    var n1 := Prepared(nodes, root);
    match SessionDirPathOf(nodes, root, sessionId)
    case Ok(d) =>
      if IsDir(n1, d) {
        RemovalStaysInside(n1, d);
      }
    case Err(_) =>
  }

  /** Cleaning a session twice leaves the disk as cleaning it once does. */
  lemma CleanSessionIdempotent(nodes: Nodes, root: Path, sessionId: string)
    requires WellFormed(nodes) && IsResolved(root)
    ensures var once := CleanSessionOf(nodes, root, sessionId).nodes;
            CleanSessionOf(once, root, sessionId).nodes == once
  {
    var n1 := Prepared(nodes, root);
    var once := CleanSessionOf(nodes, root, sessionId).nodes;
    if !CanMakeDirs(nodes, root) {
      assert once == nodes;
    } else {
      assert CanMakeDirs(once, root) by {
        forall i | 1 <= i <= |root| && root[..i] in once ensures once[root[..i]].Dir? {
          assert once[root[..i]] == n1[root[..i]];
        }
      }
      var n3 := Prepared(once, root);
      assert SessionDirPathOf(once, root, sessionId) == SessionDirPathOf(nodes, root, sessionId);
      match SessionDirPathOf(nodes, root, sessionId)
      case Err(_) =>
        MakeDirsExisting(n1, root);
      case Ok(d) =>
        if IsDir(n1, d) {
          CleanTwiceRemoved(n1, root, d);
        } else {
          MakeDirsExisting(n1, root);
        }
    }
  }

  /** The second `rmtree` of an already removed session directory only undoes the root's recreation. */
  lemma CleanTwiceRemoved(n1: Nodes, root: Path, d: Path)
    requires WellFormed(n1) && IsResolved(root) && IsResolved(d) && root <= d
    requires forall i :: 1 <= i <= |root| ==> root[..i] in n1 && n1[root[..i]].Dir?
    requires IsDir(n1, d)
    ensures var once := WithoutTree(n1, d);
            CanMakeDirs(once, root)
            && (IsDir(WithDirs(once, root), d) ==> WithoutTree(WithDirs(once, root), d) == once)
            && (!IsDir(WithDirs(once, root), d) ==> WithDirs(once, root) == once)
  {
    var once := WithoutTree(n1, d);
    RootSurvivesRemoval(n1, root, d);
    var n3 := WithDirs(once, root);
    if IsDir(n3, d) {
      assert WithoutTree(n3, d).Keys == once.Keys;
    } else {
      assert n3.Keys == once.Keys;
    }
  }

  /** Removing a session directory keeps every proper ancestor of it below and including the root. */
  lemma RootSurvivesRemoval(n1: Nodes, root: Path, d: Path)
    requires WellFormed(n1) && IsResolved(root) && root <= d
    requires forall i :: 1 <= i <= |root| ==> root[..i] in n1 && n1[root[..i]].Dir?
    ensures forall i :: 1 <= i <= |root| ==> root[..i] == d || (root[..i] in WithoutTree(n1, d) && WithoutTree(n1, d)[root[..i]].Dir?)
    ensures CanMakeDirs(WithoutTree(n1, d), root)
  {
    forall i | 1 <= i <= |root| ensures root[..i] == d || root[..i] in WithoutTree(n1, d) {
      if d <= root[..i] {
        assert |d| <= i;
      }
    }
  }

  /** An id of "" or "." names the root itself, so cleaning it empties the whole workspace. */
  lemma CleanRootSessionEmptiesWorkspace(nodes: Nodes, root: Path, sessionId: string)
    requires WellFormed(nodes) && IsResolved(root) && CanMakeDirs(nodes, root)
    requires sessionId == "" || sessionId == "."
    ensures var c := CleanSessionOf(nodes, root, sessionId);
            c.report == Removed(root) && forall q :: q in c.nodes ==> !(root <= q)
  {
    SessionDirOfRootItself(root, sessionId);
  }

  // ---------------------------------------------------------------------
  // `unzip_to`

  /** What reading the uploaded archive yields; the archive format itself is not modelled. */
  datatype Extraction = Extracted(content: Nodes) | Unreadable(reason: string)

  /** Entries named "__MACOSX..." or ".…" are ignored when looking for the repository root. */
  predicate Listed(name: string) {
    !StartsWith(name, "__MACOSX") && !StartsWith(name, ".")
  }

  function ListedChildren(nodes: Nodes, dir: Path): (names: set<string>)
    ensures forall n :: n in names <==> dir + [n] in nodes && Listed(n)
  {
    set n | n in Children(nodes, dir) && Listed(n)
  }

  /**
   * The root rule of `unzip_to`: the sole listed entry of `dir` when there is
   * exactly one and it is a directory, otherwise `dir` itself.
   */
  ghost function RepoRoot(nodes: Nodes, dir: Path): (r: Path)
    ensures r == dir || (|r| == |dir| + 1 && dir <= r && IsDir(nodes, r) && ListedChildren(nodes, dir) == {r[|dir|]})
  {
    var listed := ListedChildren(nodes, dir);
    if |listed| == 1 then
      var n :| n in listed;
      SingletonOf(listed, n);
      if IsDir(nodes, dir + [n]) then dir + [n] else dir
    else dir
  }

  lemma SingletonOf<T>(s: set<T>, x: T)
    requires |s| == 1 && x in s
    ensures s == {x}
  {
    assert |s - {x}| == 0;
  }

  /** A single listed entry that is a directory becomes the repository root. */
  lemma RepoRootOfSingleDirectory(nodes: Nodes, dir: Path, name: string)
    requires ListedChildren(nodes, dir) == {name} && IsDir(nodes, dir + [name])
    ensures RepoRoot(nodes, dir) == dir + [name]
  {
  }

  /** Several listed entries, none, or a single file: the extraction directory is the root. */
  lemma RepoRootOtherwise(nodes: Nodes, dir: Path)
    requires forall n :: ListedChildren(nodes, dir) == {n} ==> !IsDir(nodes, dir + [n])
    ensures RepoRoot(nodes, dir) == dir
  {
  }

  /** What `unzip_to` leaves on the disk and returns or raises. */
  ghost function UnzipToOf(nodes: Nodes, dir: Path, zip: Path, extraction: Extraction): (o: Outcome<Path>)
    requires WellFormed(nodes) && IsResolved(dir) && IsDir(nodes, dir)
    ensures WellFormed(o.nodes)
    ensures o.result == Err(ZipNotFound(zip)) <==> !Exists(nodes, zip)
    ensures o.result == Err(ZipEmpty(zip)) <==> zip in nodes && nodes[zip] == File([])
    ensures o.result.Err? ==> o.nodes == nodes
    ensures o.result.Ok? <==> && Exists(nodes, zip) && !IsDir(nodes, zip) && nodes[zip].bytes != []
                              && extraction.Extracted? && WellFormed(extraction.content)
                              && Compatible(nodes, dir, extraction.content)
    ensures o.result.Ok? ==> extraction.Extracted? && HoldsAtLeast(o.nodes, dir, extraction.content)
    ensures o.result.Ok? ==> dir <= o.result.value && IsDir(o.nodes, o.result.value)
    ensures o.result.Ok? ==> o.result.value == RepoRoot(o.nodes, dir)
  {
    if !Exists(nodes, zip) then Outcome(nodes, Err(ZipNotFound(zip)))
    else if IsDir(nodes, zip) then Outcome(nodes, Err(ZipIsADirectory(zip)))
    else if nodes[zip].bytes == [] then Outcome(nodes, Err(ZipEmpty(zip)))
    else match extraction
      case Unreadable(reason) => Outcome(nodes, Err(BadArchive(reason)))
      case Extracted(content) =>
        if WellFormed(content) && Compatible(nodes, dir, content) then
          var after := WithGraft(nodes, dir, content);
          Outcome(after, Ok(RepoRoot(after, dir)))
        else Outcome(nodes, Err(ExtractConflict))
  }

  /** `unzip_to` writes only below `dir`, and `dir` stays a directory. */
  lemma UnzipToStaysInside(nodes: Nodes, dir: Path, zip: Path, extraction: Extraction)
    requires WellFormed(nodes) && IsResolved(dir) && IsDir(nodes, dir)
    ensures var o := UnzipToOf(nodes, dir, zip, extraction);
            SameOutside(nodes, o.nodes, dir) && IsDir(o.nodes, dir)
  {
    var o := UnzipToOf(nodes, dir, zip, extraction);
    if o.result.Ok? {
      var content := extraction.content;
      forall r | r in content ensures dir < dir + r {
      }
    }
  }

  /** `unzip_to`: checks the archive, extracts it into `dir` and picks the repository root. */
  method UnzipTo(disk: Disk, dir: Path, zip: Path, extraction: Extraction) returns (r: Result<Path, FsError>)
    requires disk.Valid() && IsResolved(dir) && IsDir(disk.nodes, dir)
    modifies disk
    ensures disk.Valid()
    ensures Outcome(disk.nodes, r) == UnzipToOf(old(disk.nodes), dir, zip, extraction)
  {
    if !Exists(disk.nodes, zip) {
      return Err(ZipNotFound(zip));
    }
    if IsDir(disk.nodes, zip) {
      return Err(ZipIsADirectory(zip));
    }
    if disk.nodes[zip].bytes == [] {
      return Err(ZipEmpty(zip));
    }
    if extraction.Unreadable? {
      return Err(BadArchive(extraction.reason));
    }
    var content := extraction.content;
    if !(WellFormed(content) && Compatible(disk.nodes, dir, content)) {
      return Err(ExtractConflict);
    }
    disk.Graft(dir, content);
    var listed := ListedChildren(disk.nodes, dir);
    r := Ok(dir);
    if |listed| == 1 {
      var n :| n in listed;
      SingletonOf(listed, n);
      if IsDir(disk.nodes, dir + [n]) {
        r := Ok(dir + [n]);
      }
    }
  }
}
