/**
 * The workspace populator of app/services.py: a `git clone` into a named
 * child of the session directory, an upload that empties the session
 * directory before extracting into it, and the analysis wrapper. Running
 * git and reading the archive are opaque: their outcome is a parameter.
 */
module Services {
  import opened Wrappers
  import opened Strings
  import opened Paths
  import opened Names
  import opened Disk
  import opened Workspace
  import opened Inventory

  /** What `git clone --depth 1` did: a checkout, or a failure with its output and what it had written. */
  datatype CloneOutcome =
    | Cloned(checkout: Tree)
    | GitFailed(stdout: string, stderr: string, partial: Tree)

  /** The repository path and name returned to the caller. */
  datatype Checkout = Checkout(path: Path, name: string)

  const GitFailedMessage: string := "git clone failed"

  /** The message of the RuntimeError: stripped stderr, else stripped stdout, else a fixed text. */
  function FailureMessage(stdout: string, stderr: string): (m: string)
    ensures m != ""
    ensures Trim(stderr, IsSpace) != "" ==> m == Trim(stderr, IsSpace)
    ensures Trim(stderr, IsSpace) == "" && Trim(stdout, IsSpace) != "" ==> m == Trim(stdout, IsSpace)
    ensures Trim(stderr, IsSpace) == "" && Trim(stdout, IsSpace) == "" ==> m == GitFailedMessage
  {
    var err := Trim(stderr, IsSpace);
    var out := Trim(stdout, IsSpace);
    if err != "" then err else if out != "" then out else GitFailedMessage
  }

  /** The clone target of a session and a URL: a named child of the session directory. */
  function CloneTarget(root: Path, sessionId: string, url: string): Path
    requires IsResolved(root)
  {
    Join(root, sessionId) + [CheckoutName(url)]
  }

  /** A file sits at `p`. */
  predicate IsFile(nodes: Nodes, p: Path) {
    p in nodes && nodes[p].File?
  }

  /** A file already sits where the checkout would go; git refuses to clone onto it. */
  predicate TargetIsFile(nodes: Nodes, root: Path, sessionId: string, url: string)
    requires IsResolved(root)
  {
    IsFile(nodes, CloneTarget(root, sessionId, url))
  }

  /** `if target.exists(): shutil.rmtree(target, ignore_errors=True)`: a file in the way stays. */
  function ClearedTarget(nodes: Nodes, target: Path): (r: Nodes)
    requires WellFormed(nodes)
    ensures WellFormed(r)
    ensures !IsDir(r, target) || target == []
    ensures SameOutside(nodes, r, target)
  {
    if IsDir(nodes, target) then WithoutTree(nodes, target) else nodes
  }

  /**
   * What the clone does once the session directory `base` exists: clear the
   * target `base/name`, run git, and remove what a failed clone left there.
   */
  function CloneIntoOf(nodes: Nodes, base: Path, name: string, git: CloneOutcome): (o: Outcome<Checkout>)
    requires WellFormed(nodes) && IsResolved(base) && IsComponent(name) && IsDir(nodes, base)
    requires git.Cloned? ==> !IsFile(nodes, base + [name])
    ensures WellFormed(o.nodes)
  {
    GitInto(ClearedTarget(nodes, base + [name]), base, name, git)
  }

  /** Running git on the cleared target: a file in the way makes it fail without writing anything. */
  function GitInto(cleared: Nodes, base: Path, name: string, git: CloneOutcome): (o: Outcome<Checkout>)
    requires WellFormed(cleared) && IsResolved(base) && IsComponent(name) && IsDir(cleared, base)
    requires !IsDir(cleared, base + [name])
    requires git.Cloned? ==> base + [name] !in cleared
    ensures WellFormed(o.nodes)
  {
    var target := base + [name];
    if target in cleared then
      Outcome(cleared, Err(CloneFailed(FailureMessage(git.stdout, git.stderr))))
    else
      TargetReady(cleared, base, name);
      var made := WithDirs(cleared, target);
      match git
      case Cloned(checkout) =>
        FreshPlaceCompatible(made, target, checkout);
        Outcome(WithGraft(made, target, checkout), Ok(Checkout(target, name)))
      case GitFailed(out, err, partial) =>
        FreshPlaceCompatible(made, target, partial);
        Outcome(WithoutTree(WithGraft(made, target, partial), target), Err(CloneFailed(FailureMessage(out, err))))
  }

  /**
   * What `clone_repo_to_session` leaves on the disk and returns or raises.
   * The target is named by `CheckoutName`, the corrected form of the guessed
   * name (see `ClimbingUrlTargetsWorkspaceRoot`).
   */
  function CloneOf(nodes: Nodes, root: Path, sessionId: string, url: string, git: CloneOutcome): (o: Outcome<Checkout>)
    requires WellFormed(nodes) && IsResolved(root)
    requires git.Cloned? ==> !TargetIsFile(nodes, root, sessionId, url)
    ensures WellFormed(o.nodes)
  {
    var s := SessionDirOf(nodes, root, sessionId);
    match s.result
    case Err(e) => Outcome(s.nodes, Err(e))
    case Ok(base) =>
      if '\0' in url then Outcome(UrlRefusedNodes(s.nodes, base, CheckoutName(url)), Err(NullInArgument))
      else
        SessionDirKeepsFiles(nodes, root, sessionId, CheckoutName(url));
        CloneIntoOf(s.nodes, base, CheckoutName(url), git)
  }

  /**
   * The disk when `subprocess.run` refuses a URL holding NUL, before git
   * runs: the target was cleared first, except that `target.exists()` is
   * false for a name holding NUL, so nothing was removed then.
   */
  function UrlRefusedNodes(nodes: Nodes, base: Path, name: string): (r: Nodes)
    requires WellFormed(nodes)
    ensures WellFormed(r)
    ensures SameOutside(nodes, r, base + [name])
    ensures '\0' in name ==> r == nodes
    ensures '\0' !in name ==> !IsDir(r, base + [name])
  {
    if '\0' in name then nodes else ClearedTarget(nodes, base + [name])
  }

  /** A file below the session directory after `session_dir` was already there before. */
  lemma SessionDirKeepsFiles(nodes: Nodes, root: Path, sessionId: string, name: string)
    requires WellFormed(nodes) && IsResolved(root)
    requires SessionDirOf(nodes, root, sessionId).result.Ok?
    ensures var s := SessionDirOf(nodes, root, sessionId);
            && s.result.value == Join(root, sessionId)
            && (IsFile(s.nodes, s.result.value + [name]) ==> IsFile(nodes, Join(root, sessionId) + [name]))
  {
  }

  /** With the session directory in place and the target absent, git can create the target and write below it. */
  lemma TargetReady(nodes: Nodes, base: Path, name: string)
    requires WellFormed(nodes) && IsResolved(base) && IsComponent(name) && IsDir(nodes, base)
    requires base + [name] !in nodes
    ensures var target := base + [name];
            && IsResolved(target)
            && CanMakeDirs(nodes, target)
            && WithDirs(nodes, target) == nodes[target := Dir]
            && NothingBelow(nodes[target := Dir], target)
  {
    var target := base + [name];
    ChildPrefixesAreDirs(nodes, base, name);
    var made := WithDirs(nodes, target);
    forall q | q in Prefixes(target) ensures q in nodes || q == target {
      var i :| 1 <= i <= |target| && q == target[..i];
    }
    assert made.Keys == nodes[target := Dir].Keys;
    NothingBelowNonDir(nodes, target);
  }

  /** The proper prefixes of a child of a directory are directories, so `mkdir` can create the child. */
  lemma ChildPrefixesAreDirs(nodes: Nodes, base: Path, name: string)
    requires WellFormed(nodes) && IsResolved(base) && IsDir(nodes, base)
    requires base + [name] !in nodes
    ensures forall i :: 1 <= i <= |base| ==> (base + [name])[..i] in nodes && nodes[(base + [name])[..i]].Dir?
    ensures CanMakeDirs(nodes, base + [name])
  {
    var target := base + [name];
    forall i | 1 <= i <= |base| ensures target[..i] in nodes && nodes[target[..i]].Dir? {
      assert target[..i] == base[..i];
      if i < |base| {
        AncestorIsDir(nodes, base, i);
      }
    }
    assert target[..|target|] == target;
  }

  /** Nothing can clash with a subtree written where nothing lies below. */
  lemma FreshPlaceCompatible(nodes: Nodes, p: Path, content: Tree)
    requires NothingBelow(nodes, p)
    ensures Compatible(nodes, p, content)
  {
    forall r | r in content ensures p + r !in nodes {
      assert p < p + r;
    }
  }

  /** The target part of `clone_repo_to_session`, once the session directory exists. */
  method CloneInto(disk: Disk, base: Path, name: string, git: CloneOutcome) returns (r: Result<Checkout, FsError>)
    requires disk.Valid() && IsResolved(base) && IsComponent(name) && IsDir(disk.nodes, base)
    requires git.Cloned? ==> !IsFile(disk.nodes, base + [name])
    modifies disk
    ensures disk.Valid()
    ensures Outcome(disk.nodes, r) == CloneIntoOf(old(disk.nodes), base, name, git)
  {
    ClearTarget(disk, base + [name]);
    r := RunGit(disk, base, name, git);
  }

  /** `if target.exists(): shutil.rmtree(target, ignore_errors=True)`. */
  method ClearTarget(disk: Disk, target: Path)
    requires disk.Valid() && target != []
    modifies disk
    ensures disk.Valid()
    ensures disk.nodes == ClearedTarget(old(disk.nodes), target)
  {
    if target in disk.nodes {
      var _ := disk.RemoveTree(target);
    }
  }

  /** Runs git on the cleared target and removes what a failed clone wrote. */
  method RunGit(disk: Disk, base: Path, name: string, git: CloneOutcome) returns (r: Result<Checkout, FsError>)
    requires disk.Valid() && IsResolved(base) && IsComponent(name) && IsDir(disk.nodes, base)
    requires !IsDir(disk.nodes, base + [name])
    requires git.Cloned? ==> base + [name] !in disk.nodes
    modifies disk
    ensures disk.Valid()
    ensures Outcome(disk.nodes, r) == GitInto(old(disk.nodes), base, name, git)
  {
    var target := base + [name];
    if target in disk.nodes {
      return Err(CloneFailed(FailureMessage(git.stdout, git.stderr)));
    }
    TargetReady(disk.nodes, base, name);
    var _ := disk.MakeDirs(target);
    match git
    case Cloned(checkout) =>
      FreshPlaceCompatible(disk.nodes, target, checkout);
      disk.Graft(target, checkout);
      r := Ok(Checkout(target, name));
    case GitFailed(out, err, partial) =>
      FreshPlaceCompatible(disk.nodes, target, partial);
      disk.Graft(target, partial);
      var _ := disk.RemoveTree(target);
      r := Err(CloneFailed(FailureMessage(out, err)));
  }

  /** `clone_repo_to_session`: creates the session directory, then clones into its named child. */
  method CloneRepoToSession(disk: Disk, root: Path, sessionId: string, url: string, git: CloneOutcome)
    returns (r: Result<Checkout, FsError>)
    requires disk.Valid() && IsResolved(root)
    requires git.Cloned? ==> !TargetIsFile(disk.nodes, root, sessionId, url)
    modifies disk
    ensures disk.Valid()
    ensures Outcome(disk.nodes, r) == CloneOf(old(disk.nodes), root, sessionId, url, git)
  {
    ghost var before := disk.nodes;
    var b := SessionDir(disk, root, sessionId);
    if b.Err? {
      return Err(b.error);
    }
    var name := CheckoutName(url);
    if '\0' in url {
      if '\0' !in name {
        ClearTarget(disk, b.value + [name]);
      }
      return Err(NullInArgument);
    }
    SessionDirKeepsFiles(before, root, sessionId, name);
    r := CloneInto(disk, b.value, name, git);
  }

  /**
   * A URL holding NUL never reaches git: `subprocess.run` raises ValueError,
   * which is not caught. Only the clearing of the target has happened, and
   * nothing outside the target changed.
   */
  lemma NullUrlRefused(nodes: Nodes, root: Path, sessionId: string, url: string, git: CloneOutcome)
    requires WellFormed(nodes) && IsResolved(root)
    requires git.Cloned? ==> !TargetIsFile(nodes, root, sessionId, url)
    requires SessionDirOf(nodes, root, sessionId).result.Ok?
    requires '\0' in url
    ensures var s := SessionDirOf(nodes, root, sessionId);
            var o := CloneOf(nodes, root, sessionId, url, git);
            var target := CloneTarget(root, sessionId, url);
            && o.result == Err(NullInArgument)
            && SameOutside(s.nodes, o.nodes, target)
            && ('\0' in CheckoutName(url) ==> o.nodes == s.nodes)
            && ('\0' !in CheckoutName(url) ==> !IsDir(o.nodes, target))
  {
    SessionDirKeepsFiles(nodes, root, sessionId, CheckoutName(url));
  }

  /** After a successful clone the target is a directory holding exactly the checkout. */
  lemma CloneReplacesTarget(nodes: Nodes, root: Path, sessionId: string, url: string, checkout: Tree)
    requires WellFormed(nodes) && IsResolved(root) && !TargetIsFile(nodes, root, sessionId, url)
    requires '\0' !in url
    requires SessionDirOf(nodes, root, sessionId).result.Ok?
    ensures var o := CloneOf(nodes, root, sessionId, url, Cloned(checkout));
            var target := CloneTarget(root, sessionId, url);
            && o.result == Ok(Checkout(target, CheckoutName(url)))
            && IsDir(o.nodes, Join(root, sessionId))
            && IsDir(o.nodes, target)
            && HoldsExactly(o.nodes, target, checkout)
  {
    var s := SessionDirOf(nodes, root, sessionId);
    SessionDirKeepsFiles(nodes, root, sessionId, CheckoutName(url));
    CloneIntoReplaces(s.nodes, s.result.value, CheckoutName(url), checkout);
  }

  lemma CloneIntoReplaces(nodes: Nodes, base: Path, name: string, checkout: Tree)
    requires WellFormed(nodes) && IsResolved(base) && IsComponent(name) && IsDir(nodes, base)
    requires !IsFile(nodes, base + [name])
    ensures var o := CloneIntoOf(nodes, base, name, Cloned(checkout));
            && o.result == Ok(Checkout(base + [name], name))
            && IsDir(o.nodes, base)
            && IsDir(o.nodes, base + [name])
            && HoldsExactly(o.nodes, base + [name], checkout)
  {
    var target := base + [name];
    var cleared := ClearedTarget(nodes, target);
    TargetReady(cleared, base, name);
    GraftOntoEmpty(cleared[target := Dir], target, checkout);
    var o := CloneIntoOf(nodes, base, name, Cloned(checkout));
    forall r | r in checkout ensures target + r != base && target + r != target {
      assert |target + r| > |target|;
    }
  }

  /**
   * A clone changes nothing outside its target: other checkouts in the same
   * session directory, and other sessions, survive, whatever git does.
   */
  lemma CloneStaysInside(nodes: Nodes, root: Path, sessionId: string, url: string, git: CloneOutcome)
    requires WellFormed(nodes) && IsResolved(root)
    requires git.Cloned? ==> !TargetIsFile(nodes, root, sessionId, url)
    requires SessionDirOf(nodes, root, sessionId).result.Ok?
    ensures SameOutside(SessionDirOf(nodes, root, sessionId).nodes,
                        CloneOf(nodes, root, sessionId, url, git).nodes,
                        CloneTarget(root, sessionId, url))
  {
    var s := SessionDirOf(nodes, root, sessionId);
    SessionDirKeepsFiles(nodes, root, sessionId, CheckoutName(url));
    if '\0' !in url {
      CloneIntoStaysInside(s.nodes, s.result.value, CheckoutName(url), git);
    }
  }

  lemma CloneIntoStaysInside(nodes: Nodes, base: Path, name: string, git: CloneOutcome)
    requires WellFormed(nodes) && IsResolved(base) && IsComponent(name) && IsDir(nodes, base)
    requires git.Cloned? ==> !IsFile(nodes, base + [name])
    ensures SameOutside(nodes, CloneIntoOf(nodes, base, name, git).nodes, base + [name])
  {
    var target := base + [name];
    var cleared := ClearedTarget(nodes, target);
    if target !in cleared {
      TargetReady(cleared, base, name);
      var o := CloneIntoOf(nodes, base, name, git);
      var content := if git.Cloned? then git.checkout else git.partial;
      forall q | !(target <= q) ensures (q in cleared <==> q in o.nodes) && (q in cleared ==> cleared[q] == o.nodes[q]) {
        assert q !in Placed(target, content);
      }
    }
  }

  /**
   * After a failed clone nothing is below the target and nothing is at it
   * (unless a file was already there), and the error carries stderr, else
   * stdout, else a fixed message.
   */
  lemma CloneFailureRemovesTarget(nodes: Nodes, root: Path, sessionId: string, url: string,
                                  stdout: string, stderr: string, partial: Tree)
    requires WellFormed(nodes) && IsResolved(root) && '\0' !in url
    requires SessionDirOf(nodes, root, sessionId).result.Ok?
    ensures var o := CloneOf(nodes, root, sessionId, url, GitFailed(stdout, stderr, partial));
            var target := CloneTarget(root, sessionId, url);
            && o.result == Err(CloneFailed(FailureMessage(stdout, stderr)))
            && NothingBelow(o.nodes, target)
            && (target in o.nodes ==> TargetIsFile(nodes, root, sessionId, url))
  {
    var s := SessionDirOf(nodes, root, sessionId);
    SessionDirKeepsFiles(nodes, root, sessionId, CheckoutName(url));
    CloneIntoFailure(s.nodes, s.result.value, CheckoutName(url), stdout, stderr, partial);
  }

  lemma CloneIntoFailure(nodes: Nodes, base: Path, name: string, stdout: string, stderr: string, partial: Tree)
    requires WellFormed(nodes) && IsResolved(base) && IsComponent(name) && IsDir(nodes, base)
    ensures var o := CloneIntoOf(nodes, base, name, GitFailed(stdout, stderr, partial));
            && o.result == Err(CloneFailed(FailureMessage(stdout, stderr)))
            && NothingBelow(o.nodes, base + [name])
            && (base + [name] in o.nodes ==> IsFile(nodes, base + [name]))
  {
    var target := base + [name];
    var cleared := ClearedTarget(nodes, target);
    if target in cleared {
      NothingBelowNonDir(cleared, target);
    }
  }

  /** The target a clone writes to as the code names it: the guessed name joined to the session directory. */
  function CloneTargetAsWritten(base: Path, url: string): (target: Path)
    requires IsResolved(base)
    ensures GuessRepoName(url) !in {".", ".."} ==> target == base + [CheckoutName(url)]
  {
    var guess := GuessRepoName(url);
    if guess != "." && guess != ".." then
      JoinComponent(base, guess);
      Join(base, guess)
    else Join(base, guess)
  }

  /**
   * A URL ending in "/...git" is guessed as "..", so the target as written
   * is the workspace root: the `rmtree` before cloning deletes the
   * directories of every other session.
   */
  lemma ClimbingUrlTargetsWorkspaceRoot(nodes: Nodes, root: Path, sessionId: string, other: string, prefix: string)
    requires IsResolved(root) && IsComponent(sessionId)
    requires root + [other] in nodes
    ensures var url := prefix + "/" + ".." + ".git";
            && GuessRepoName(url) == ".."
            && CloneTargetAsWritten(root + [sessionId], url) == root
            && root + [other] !in WithoutTree(nodes, root)
  {
    ClimbingTargetIsRoot(root, sessionId, prefix);
    assert root <= root + [other];
  }

  lemma ClimbingTargetIsRoot(root: Path, sessionId: string, prefix: string)
    requires IsResolved(root) && IsComponent(sessionId)
    ensures var url := prefix + "/" + ".." + ".git";
            && GuessRepoName(url) == ".."
            && CloneTargetAsWritten(root + [sessionId], url) == root
  {
    GuessOfGitUrl(prefix, "..");
    ParentOfSessionDir(root, sessionId);
  }

  /**
   * A URL ending in "/..git" is guessed as ".", and `base / "."` is `base`
   * itself: the `rmtree` before cloning deletes the whole session directory,
   * every other checkout and upload in it included, and the clone is then
   * written over the session directory under the name ".". The corrected
   * name for the same URL is "repository".
   */
  lemma DotUrlEmptiesSessionDir(nodes: Nodes, base: Path, other: string, prefix: string)
    requires IsResolved(base)
    requires base + [other] in nodes
    ensures var url := prefix + "/" + "." + ".git";
            && GuessRepoName(url) == "."
            && CheckoutName(url) == DefaultRepoName
            && CloneTargetAsWritten(base, url) == base
            && base !in WithoutTree(nodes, base)
            && base + [other] !in WithoutTree(nodes, base)
  {
    var url := prefix + "/" + "." + ".git";
    GuessOfGitUrl(prefix, ".");
    JoinDot(base);
    assert CloneTargetAsWritten(base, url) == base;
    assert base <= base + [other];
  }

  /** `base / ".."` resolves to the parent of `base`. */
  lemma ParentOfSessionDir(root: Path, sessionId: string)
    requires IsResolved(root) && IsComponent(sessionId)
    ensures Join(root + [sessionId], "..") == root
  {
    SplitNoSlash("..");
    var base := root + [sessionId];
    assert base[..|base| - 1] == root;
    assert Normalize(base, [".."]) == Normalize(root, []);
  }

  /** With the corrected name the target is always a child of the session directory. */
  lemma CorrectedTargetStaysInSession(base: Path, url: string)
    requires IsResolved(base)
    ensures Join(base, CheckoutName(url)) == base + [CheckoutName(url)]
    ensures base < Join(base, CheckoutName(url))
  {
    JoinComponent(base, CheckoutName(url));
  }

  // ---------------------------------------------------------------------
  // `unpack_zip_to_session`

  /**
   * The disk after the top-level children of `base` not in `keep` were
   * removed with everything below them.
   */
  function ClearedExcept(nodes: Nodes, base: Path, keep: set<string>): (r: Nodes)
    requires WellFormed(nodes)
    ensures WellFormed(r)
    ensures forall q :: q in r <==> q in nodes && Kept(base, keep, q)
    ensures forall q :: q in r ==> r[q] == nodes[q]
  {
    var r := map q | q in nodes && Kept(base, keep, q) :: nodes[q];
    assert WellFormed(r) by {
      forall q | q in r && |q| > 1 ensures Parent(q) in r {
        if base < Parent(q) {
          assert Parent(q)[|base|] == q[|base|];
        }
      }
    }
    r
  }

  /** A path lies in the subtree of the child `n` of `base` exactly when its component after `base` is `n`. */
  lemma InChildSubtree(base: Path, n: string, q: Path)
    ensures (base + [n] <= q) <==> (base < q && q[|base|] == n)
  {
    if base < q && q[|base|] == n {
      assert q[..|base| + 1] == base + [n];
    }
  }

  /** Whether the clearing of `base` keeps `q`: outside `base`'s contents, or below a kept child. */
  predicate Kept(base: Path, keep: set<string>, q: Path) {
    !(base < q) || q[|base|] in keep
  }

  /** Removing the child `n` from the kept set drops exactly the subtree of `base/n`. */
  lemma KeptWithout(base: Path, keep: set<string>, n: string, q: Path)
    ensures Kept(base, keep - {n}, q) <==> Kept(base, keep, q) && !(base + [n] <= q)
  {
    InChildSubtree(base, n, q);
  }

  /** Removing the directory child `n` of `base` takes it out of the kept set. */
  lemma ClearDirectoryChild(nodes: Nodes, base: Path, keep: set<string>, n: string)
    requires WellFormed(nodes)
    ensures WithoutTree(ClearedExcept(nodes, base, keep), base + [n]) == ClearedExcept(nodes, base, keep - {n})
  {
    var a := WithoutTree(ClearedExcept(nodes, base, keep), base + [n]);
    var b := ClearedExcept(nodes, base, keep - {n});
    forall q ensures q in a <==> q in b {
      KeptWithout(base, keep, n, q);
    }
    assert a.Keys == b.Keys;
  }

  /** Unlinking the file child `n` of `base` takes it out of the kept set. */
  lemma ClearFileChild(nodes: Nodes, base: Path, keep: set<string>, n: string)
    requires WellFormed(nodes)
    requires IsFile(ClearedExcept(nodes, base, keep), base + [n])
    ensures ClearedExcept(nodes, base, keep) - {base + [n]} == ClearedExcept(nodes, base, keep - {n})
  {
    var c := ClearedExcept(nodes, base, keep);
    NothingBelowNonDir(c, base + [n]);
    var a := c - {base + [n]};
    var b := ClearedExcept(nodes, base, keep - {n});
    forall q ensures q in a <==> q in b {
      KeptWithout(base, keep, n, q);
      if base + [n] <= q && q != base + [n] {
        assert base + [n] < q;
        assert q !in c;
      }
    }
    assert a.Keys == b.Keys;
  }

  /** What `unpack_zip_to_session` leaves on the disk and returns or raises. */
  ghost function UnpackOf(nodes: Nodes, root: Path, sessionId: string, zip: Path, extraction: Extraction): (o: Outcome<Checkout>)
    requires WellFormed(nodes) && IsResolved(root)
    ensures WellFormed(o.nodes)
  {
    var s := SessionDirOf(nodes, root, sessionId);
    match s.result
    case Err(e) => Outcome(s.nodes, Err(e))
    case Ok(base) =>
      var emptied := ClearedExcept(s.nodes, base, {});
      var u := UnzipToOf(emptied, base, zip, extraction);
      match u.result
      case Err(e) => Outcome(u.nodes, Err(e))
      case Ok(top) => Outcome(u.nodes, Ok(Checkout(top, NameOf(top))))
  }

  /** `Path.name`: the last component, or "" for "/". */
  function NameOf(p: Path): (name: string)
    ensures p == [] ==> name == ""
    ensures p != [] ==> p == p[..|p| - 1] + [name]
  {
    if p == [] then "" else p[|p| - 1]
  }

  /**
   * The clearing loop of `unpack_zip_to_session`: every entry of `base`
   * listed at the start is removed, directories with `rmtree` and anything
   * else with `unlink`; `base` itself stays.
   */
  method EmptyDirectory(disk: Disk, base: Path)
    requires disk.Valid()
    modifies disk
    ensures disk.Valid()
    ensures disk.nodes == ClearedExcept(old(disk.nodes), base, {})
  {
    ghost var n1 := disk.nodes;
    var items := Children(disk.nodes, base);
    assert disk.nodes == ClearedExcept(n1, base, items) by {
      forall q | q in n1 ensures Kept(base, items, q) {
        if base < q {
          InChildSubtree(base, q[|base|], q);
          assert base + [q[|base|]] <= q;
          AncestorOrSelf(n1, q, |base| + 1);
        }
      }
    }
    while items != {}
      invariant disk.Valid()
      invariant items <= Children(n1, base)
      invariant disk.nodes == ClearedExcept(n1, base, items)
      decreases |items|
    {
      var n :| n in items;
      var item := base + [n];
      assert Kept(base, items, item);
      if IsDir(disk.nodes, item) {
        var _ := disk.RemoveTree(item);
        ClearDirectoryChild(n1, base, items, n);
      } else {
        var _ := disk.Unlink(item);
        ClearFileChild(n1, base, items, n);
      }
      items := items - {n};
    }
  }

  /** Every non-empty prefix of an entry of a well-formed disk is an entry too. */
  lemma AncestorOrSelf(nodes: Nodes, q: Path, i: nat)
    requires WellFormed(nodes) && q in nodes && 1 <= i <= |q|
    ensures q[..i] in nodes
  {
    if i < |q| {
      AncestorIsDir(nodes, q, i);
    } else {
      assert q[..i] == q;
    }
  }

  /** `unpack_zip_to_session`: empties the session directory, then extracts the upload into it. */
  method UnpackZipToSession(disk: Disk, root: Path, sessionId: string, zip: Path, extraction: Extraction)
    returns (r: Result<Checkout, FsError>)
    requires disk.Valid() && IsResolved(root)
    modifies disk
    ensures disk.Valid()
    ensures Outcome(disk.nodes, r) == UnpackOf(old(disk.nodes), root, sessionId, zip, extraction)
  {
    var b := SessionDir(disk, root, sessionId);
    if b.Err? {
      return Err(b.error);
    }
    var base := b.value;
    EmptyDirectory(disk, base);
    var u := UnzipTo(disk, base, zip, extraction);
    if u.Err? {
      return Err(u.error);
    }
    r := Ok(Checkout(u.value, NameOf(u.value)));
  }

  /**
   * After a successful upload the session directory holds exactly the
   * extracted archive: nothing that was there before survives.
   */
  lemma UnpackReplacesSession(nodes: Nodes, root: Path, sessionId: string, zip: Path, extraction: Extraction)
    requires WellFormed(nodes) && IsResolved(root)
    requires UnpackOf(nodes, root, sessionId, zip, extraction).result.Ok?
    ensures var base := Join(root, sessionId);
            var o := UnpackOf(nodes, root, sessionId, zip, extraction);
            && extraction.Extracted?
            && IsDir(o.nodes, base)
            && HoldsExactly(o.nodes, base, extraction.content)
  {
    var s := SessionDirOf(nodes, root, sessionId);
    var base := s.result.value;
    var emptied := ClearedExcept(s.nodes, base, {});
    ClearedIsEmpty(s.nodes, base);
    UnzipOntoEmpty(emptied, base, zip, extraction);
  }

  /** Clearing every child leaves nothing below `base`. */
  lemma ClearedIsEmpty(nodes: Nodes, base: Path)
    requires WellFormed(nodes)
    ensures NothingBelow(ClearedExcept(nodes, base, {}), base)
  {
    forall q | q in ClearedExcept(nodes, base, {}) ensures !(base < q) {
      assert Kept(base, {}, q);
    }
  }

  /** Extracting into an empty directory leaves exactly the archive's content there. */
  lemma UnzipOntoEmpty(nodes: Nodes, dir: Path, zip: Path, extraction: Extraction)
    requires WellFormed(nodes) && IsResolved(dir) && IsDir(nodes, dir)
    requires NothingBelow(nodes, dir)
    requires UnzipToOf(nodes, dir, zip, extraction).result.Ok?
    ensures HoldsExactly(UnzipToOf(nodes, dir, zip, extraction).nodes, dir, extraction.content)
  {
    GraftOntoEmpty(nodes, dir, extraction.content);
  }

  /** An upload changes nothing outside the session directory, which itself is kept. */
  lemma UnpackStaysInside(nodes: Nodes, root: Path, sessionId: string, zip: Path, extraction: Extraction)
    requires WellFormed(nodes) && IsResolved(root)
    requires SessionDirOf(nodes, root, sessionId).result.Ok?
    ensures var s := SessionDirOf(nodes, root, sessionId);
            var o := UnpackOf(nodes, root, sessionId, zip, extraction);
            SameOutside(s.nodes, o.nodes, s.result.value) && IsDir(o.nodes, s.result.value)
  {
    var s := SessionDirOf(nodes, root, sessionId);
    var base := s.result.value;
    var emptied := ClearedExcept(s.nodes, base, {});
    UnzipToStaysInside(emptied, base, zip, extraction);
    var u := UnzipToOf(emptied, base, zip, extraction);
    forall q | !(base <= q) ensures (q in s.nodes <==> q in u.nodes) && (q in s.nodes ==> s.nodes[q] == u.nodes[q]) {
      assert Kept(base, {}, q);
    }
  }

  /**
   * An upload returns the root chosen by `unzip_to` and its last component
   * as the name: the sole listed top-level directory, or the session directory.
   */
  lemma UnpackReturnsRoot(nodes: Nodes, root: Path, sessionId: string, zip: Path, extraction: Extraction)
    requires WellFormed(nodes) && IsResolved(root)
    requires UnpackOf(nodes, root, sessionId, zip, extraction).result.Ok?
    ensures var base := Join(root, sessionId);
            var o := UnpackOf(nodes, root, sessionId, zip, extraction);
            var top := o.result.value.path;
            && top == RepoRoot(o.nodes, base)
            && (top == base || (IsDir(o.nodes, top) && ListedChildren(o.nodes, base) == {o.result.value.name}))
            && (top != [] ==> o.result.value.name == top[|top| - 1])
  {
  }

  /** An upload stored inside the session directory is deleted by the emptying loop before it is read. */
  lemma UploadInsideSessionIsLost(nodes: Nodes, root: Path, sessionId: string, zip: Path, extraction: Extraction)
    requires WellFormed(nodes) && IsResolved(root)
    requires SessionDirOf(nodes, root, sessionId).result.Ok?
    requires Join(root, sessionId) < zip
    ensures UnpackOf(nodes, root, sessionId, zip, extraction).result == Err(ZipNotFound(zip))
  {
  }

  // ---------------------------------------------------------------------
  // `analyze_repo_path`

  /** The analysis returned for a repository: its name, extensions and tree. */
  datatype Analysis = Analysis(repoName: string, extensions: seq<string>, dirsTree: TreeNode)

  /** `analyze_repo_path`: the inventory of the checkout, with the name passed through unchanged. */
  method AnalyzeRepoPath(repo: Entry, repoName: string) returns (a: Analysis)
    requires repo.DirEntry?
    ensures a.repoName == repoName
    ensures a.dirsTree == TreeOf(repo, []) && a.dirsTree.path == ""
    ensures forall x :: x in a.extensions <==> x in Extensions(a.dirsTree)
    ensures forall i, j :: 0 <= i < j < |a.extensions| ==> Less(a.extensions[i], a.extensions[j])
  {
    var tree, exts := ListFilesAndExtensions(repo);
    a := Analysis(repoName, exts, tree);
  }
}
