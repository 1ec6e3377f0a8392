/**
 * Paths of the workspace and the containment rule of `session_dir_path`.
 * A resolved absolute path is the sequence of its components below "/";
 * `(root / session_id).resolve()` is modelled component by component,
 * the way `realpath` treats a path that contains no symbolic links.
 */
module Paths {
  import opened Wrappers
  import opened Strings

  type Path = seq<string>

  /** A component of a resolved path: not empty, not "." or "..", no slash. */
  predicate IsComponent(s: string) {
    s != "" && s != "." && s != ".." && '/' !in s
  }

  predicate IsResolved(p: Path) {
    forall i :: 0 <= i < |p| ==> IsComponent(p[i])
  }

  /** `s.split("/")`. */
  function Split(s: string): (parts: seq<string>)
    ensures |parts| >= 1
    ensures forall i :: 0 <= i < |parts| ==> '/' !in parts[i]
  {
    if s == [] then [""]
    else
      var tail := Split(s[1..]);
      if s[0] == '/' then [""] + tail
      else
        assert forall i :: 1 <= i < |tail| ==> tail[1..][i - 1] == tail[i];
        [[s[0]] + tail[0]] + tail[1..]
  }

  /** One component applied to a resolved path: "" and "." stay, ".." climbs (never above "/"). */
  function Step(cur: Path, part: string): (r: Path)
    requires IsResolved(cur) && '/' !in part
    ensures IsResolved(r)
  {
    if part == "" || part == "." then cur
    else if part == ".." then (if cur == [] then [] else cur[..|cur| - 1])
    else cur + [part]
  }

  /** The components applied from left to right. */
  function Normalize(cur: Path, parts: seq<string>): (r: Path)
    requires IsResolved(cur)
    requires forall i :: 0 <= i < |parts| ==> '/' !in parts[i]
    ensures IsResolved(r)
    decreases |parts|
  {
    if parts == [] then cur else Normalize(Step(cur, parts[0]), parts[1..])
  }

  /** `(base / name).resolve()`: an absolute `name` replaces `base`. */
  function Join(base: Path, name: string): (r: Path)
    requires IsResolved(base)
    ensures IsResolved(r)
  {
    if |name| > 0 && name[0] == '/' then Normalize([], Split(name)) else Normalize(base, Split(name))
  }

  datatype PathError =
    | InvalidSessionPath   // the resolved path lies outside the root
    | EmbeddedNull         // `resolve()` raises ValueError on a path holding "\0"

  /**
   * The check of `session_dir_path`. `resolve()` looks every component up
   * with `lstat`, which raises ValueError for a name holding a NUL
   * character before any containment is checked. Otherwise the resolved
   * `root / session_id` is accepted when it is `root` itself or lies below
   * `root`, and ValueError is raised for anything else.
   */
  function CheckSessionDir(root: Path, sessionId: string): (r: Result<Path, PathError>)
    requires IsResolved(root)
    ensures r.Ok? ==> r.value == Join(root, sessionId) && root <= r.value
    ensures r == Err(EmbeddedNull) <==> '\0' in sessionId
    ensures r == Err(InvalidSessionPath) <==> '\0' !in sessionId && !(root <= Join(root, sessionId))
  {
    if '\0' in sessionId then Err(EmbeddedNull)
    else
      var d := Join(root, sessionId);
      if root <= d then Ok(d) else Err(InvalidSessionPath)
  }

  lemma {:induction false} SplitNoSlash(s: string)
    requires '/' !in s
    ensures Split(s) == [s]
  {
    if s != [] {
      SplitNoSlash(s[1..]);
      assert [s[0]] + s[1..] == s;
    }
  }

  /** A plain name is a session directory directly below the root. */
  lemma SessionDirOfName(root: Path, sessionId: string)
    requires IsResolved(root) && IsComponent(sessionId) && '\0' !in sessionId
    ensures CheckSessionDir(root, sessionId) == Ok(root + [sessionId])
  {
    SplitNoSlash(sessionId);
    assert sessionId[0] != '/';
    assert Normalize(root, [sessionId]) == Normalize(root + [sessionId], []);
  }

  /** The empty id and "." name the root itself, which the check accepts. */
  lemma SessionDirOfRootItself(root: Path, sessionId: string)
    requires IsResolved(root) && (sessionId == "" || sessionId == ".")
    ensures CheckSessionDir(root, sessionId) == Ok(root)
  {
    SplitNoSlash(sessionId);
    assert Normalize(root, [sessionId]) == Normalize(root, []);
  }

  /** ".." climbs to the root's parent and is rejected. */
  lemma ParentIdRejected(root: Path)
    requires IsResolved(root) && root != []
    ensures CheckSessionDir(root, "..").Err?
  {
    SplitNoSlash("..");
    assert Normalize(root, [".."]) == Normalize(root[..|root| - 1], []);
  }

  /** "../<sibling>" names a directory beside the root and is rejected. */
  lemma SiblingIdRejected(root: Path, sibling: string)
    requires IsResolved(root) && root != [] && IsComponent(sibling)
    requires sibling != root[|root| - 1]
    ensures CheckSessionDir(root, "../" + sibling).Err?
  {
    var id := "../" + sibling;
    SplitClimb(sibling);
    assert sibling != "" && sibling != "." && sibling != "..";
    var up := root[..|root| - 1];
    assert Normalize(root, ["..", sibling]) == Normalize(up, [sibling]);
    assert Normalize(up, [sibling]) == Normalize(up + [sibling], []);
    var d := Join(root, id);
    assert d == up + [sibling];
    assert d[|root| - 1] != root[|root| - 1];
  }

  lemma SplitClimb(name: string)
    requires '/' !in name
    ensures Split("../" + name) == ["..", name]
  {
    SplitNoSlash(name);
    var id := "../" + name;
    assert id[1..] == "./" + name;
    assert ("./" + name)[1..] == "/" + name;
    assert ("/" + name)[1..] == name;
    assert Split("/" + name) == ["", name];
    assert ['.'] + "" == ".";
    assert Split("./" + name) == [".", name];
    assert ['.'] + "." == "..";
  }

  /** An absolute id names a path outside a root that is two or more levels deep. */
  lemma AbsoluteIdRejected(root: Path, name: string)
    requires IsResolved(root) && |root| >= 2 && IsComponent(name)
    ensures CheckSessionDir(root, "/" + name).Err?
  {
    SplitNoSlash(name);
    assert ("/" + name)[1..] == name;
    assert Split("/" + name) == ["", name];
    assert name != "" && name != "." && name != "..";
    assert Normalize([], ["", name]) == Normalize([], [name]);
    assert Normalize([], [name]) == Normalize([name], []);
  }

  /** Components without ".." never leave the directory they start from. */
  lemma {:induction false} NormalizeWithoutClimbing(cur: Path, parts: seq<string>)
    requires IsResolved(cur)
    requires forall i :: 0 <= i < |parts| ==> '/' !in parts[i] && parts[i] != ".."
    ensures cur <= Normalize(cur, parts)
    decreases |parts|
  {
    if parts != [] {
      var next := Step(cur, parts[0]);
      assert cur <= next;
      NormalizeWithoutClimbing(next, parts[1..]);
    }
  }

  /** A relative id without NUL none of whose components is ".." is always accepted. */
  lemma RelativeIdAccepted(root: Path, sessionId: string)
    requires IsResolved(root) && '\0' !in sessionId
    requires sessionId == [] || sessionId[0] != '/'
    requires ".." !in Split(sessionId)
    ensures CheckSessionDir(root, sessionId).Ok?
  {
    NormalizeWithoutClimbing(root, Split(sessionId));
  }

  /**
   * A NUL character is refused even inside a plain name whose resolved
   * path lies directly below the root.
   */
  lemma NullInNameRejected(root: Path, name: string)
    requires IsResolved(root) && IsComponent(name) && '\0' in name
    ensures Join(root, name) == root + [name] && root < Join(root, name)
    ensures CheckSessionDir(root, name) == Err(EmbeddedNull)
  {
    JoinComponent(root, name);
  }

  /** `base / "."` is `base` itself. */
  lemma JoinDot(base: Path)
    requires IsResolved(base)
    ensures Join(base, ".") == base
  {
    SplitNoSlash(".");
    assert Normalize(base, ["."]) == Normalize(base, []);
  }

  /** A single component joined to a resolved path is its child. */
  lemma JoinComponent(base: Path, name: string)
    requires IsResolved(base) && IsComponent(name)
    ensures Join(base, name) == base + [name]
  {
    SplitNoSlash(name);
    assert name[0] != '/';
    assert Normalize(base, [name]) == Normalize(base + [name], []);
  }
}
