/**
 * The inventory of a checked-out repository (`list_files_and_extensions`)
 * and the file selection for an export (`collect_files_for_export`).
 * Both read a snapshot of a directory tree in the order `iterdir` lists it.
 */
module Inventory {
  import opened Strings
  import opened Sorting

  /** A directory tree as listed by `iterdir`, in listing order. */
  datatype Entry = FileEntry(name: string) | DirEntry(name: string, entries: seq<Entry>)

  /** The `TreeNode` shape: a file, or a directory with its children. */
  datatype TreeNode =
    | FileNode(name: string, path: string)
    | DirectoryNode(name: string, path: string, children: seq<TreeNode>)

  /** Names starting with "." (such as ".git") are left out of the tree. */
  predicate Hidden(name: string) {
    StartsWith(name, ".")
  }

  /** The entries of one listing that are not hidden, in listing order. */
  function Visible(es: seq<Entry>): (r: seq<Entry>)
    ensures forall x :: x in r <==> x in es && !Hidden(x.name)
  {
    if es == [] then []
    else (if Hidden(es[0].name) then [] else [es[0]]) + Visible(es[1..])
  }

  /** `Visible` keeps each visible entry as often as it is listed, and no hidden one. */
  lemma {:induction false} VisibleCounts(es: seq<Entry>)
    ensures forall x :: multiset(Visible(es))[x] == if Hidden(x.name) then 0 else multiset(es)[x]
  {
    if es != [] {
      assert es == [es[0]] + es[1..];
      VisibleCounts(es[1..]);
    }
  }

  /** The sort key `(p.is_file(), p.name.lower())`, written as a string: directories ("0") before files ("1"). */
  function EntryKey(e: Entry): string {
    (if e.FileEntry? then "1" else "0") + Lower(e.name)
  }

  /** The visible entries of a listing in the order the tree shows them. */
  function Arrange(es: seq<Entry>): (r: seq<Entry>)
    ensures multiset(r) == multiset(Visible(es))
    ensures forall x :: x in r <==> x in es && !Hidden(x.name)
    ensures SortedBy(r, EntryKey)
  {
    var r := SortBy(Visible(es), EntryKey);
    assert forall x :: x in r <==> x in multiset(Visible(es));
    r
  }

  /** Index of the last `c` in `s`, or -1 (`str.rfind`). */
  function RFind(s: string, c: char): (i: int)
    ensures -1 <= i < |s|
    ensures i >= 0 ==> s[i] == c
    ensures forall k :: i < k < |s| ==> s[k] != c
  {
    if s == [] then -1
    else if s[|s| - 1] == c then |s| - 1
    else RFind(s[..|s| - 1], c)
  }

  /** `Path(name).suffix`: from the last "." on, unless that dot is first or last. */
  function Suffix(name: string): (ext: string)
    ensures ext != "" ==> |ext| >= 2 && ext[0] == '.' && '.' !in ext[1..] && EndsWith(name, ext) && |ext| < |name|
    ensures ext == "" <==> name == "" || '.' !in name[1..] || name[|name| - 1] == '.'
  {
    var i := RFind(name, '.');
    if 0 < i < |name| - 1 then
      assert forall k :: 0 <= k < |name[i..][1..]| ==> name[i..][1..][k] == name[i + 1 + k];
      assert name[1..][i - 1] == '.';
      name[i..]
    else
      assert name != [] ==> forall k :: 0 <= k < |name[1..]| ==> name[1..][k] == name[k + 1];
      ""
  }

  /** `str(p.relative_to(base)).replace("\\", "/")` for the components `rel` below the base. */
  function PathText(rel: seq<string>): string {
    ReplaceChar(JoinSlash(rel), '\\', '/')
  }

  /** The node `walk` builds for the entry at components `rel` below the base. */
  function TreeOf(e: Entry, rel: seq<string>): (t: TreeNode)
    decreases e, 1
  {
    match e
    case FileEntry(name) => FileNode(name, PathText(rel))
    case DirEntry(name, entries) =>
      DirectoryNode(name, if rel == [] then "" else PathText(rel), Forest(e, Arrange(entries), rel))
  }

  /** The nodes of the children `kids` of the directory `parent` at `rel`. */
  function Forest(parent: Entry, kids: seq<Entry>, rel: seq<string>): (ts: seq<TreeNode>)
    requires parent.DirEntry? && forall k :: k in kids ==> k in parent.entries
    ensures |ts| == |kids|
    ensures forall i :: 0 <= i < |kids| ==> kids[i] in parent.entries && ts[i] == TreeOf(kids[i], rel + [kids[i].name])
    decreases parent, 0, |kids|
  {
    if kids == [] then []
    else
      assert kids[0] in parent.entries;
      [TreeOf(kids[0], rel + [kids[0].name])] + Forest(parent, kids[1..], rel)
  }

  /** The non-empty suffixes of the file names in a tree. */
  function Extensions(t: TreeNode): set<string>
    decreases t
  {
    match t
    case FileNode(name, _) => if Suffix(name) == "" then {} else {Suffix(name)}
    case DirectoryNode(_, _, children) =>
      set i, x | 0 <= i < |children| && x in Extensions(children[i]) :: x
  }

  /** The non-empty suffixes of the file names in the trees `ts`. */
  function ExtensionsAmong(ts: seq<TreeNode>): set<string> {
    set i, x | 0 <= i < |ts| && x in Extensions(ts[i]) :: x
  }

  lemma ExtensionsAmongAppend(ts: seq<TreeNode>, t: TreeNode)
    ensures ExtensionsAmong(ts + [t]) == ExtensionsAmong(ts) + Extensions(t)
  {
    var us := ts + [t];
    forall x | x in Extensions(t) ensures x in ExtensionsAmong(us) {
      assert us[|ts|] == t;
    }
    forall x | x in ExtensionsAmong(ts) ensures x in ExtensionsAmong(us) {
      var i :| 0 <= i < |ts| && x in Extensions(ts[i]);
      assert us[i] == ts[i];
    }
    forall x | x in ExtensionsAmong(us) ensures x in ExtensionsAmong(ts) + Extensions(t) {
      var i :| 0 <= i < |us| && x in Extensions(us[i]);
      if i < |ts| {
        assert us[i] == ts[i];
      }
    }
  }

  lemma AppendChild(children: seq<TreeNode>, child: TreeNode, entries: seq<Entry>, rel: seq<string>, i: nat)
    requires |children| == i < |entries|
    requires forall k :: 0 <= k < i ==> children[k] == TreeOf(entries[k], rel + [entries[k].name])
    requires child == TreeOf(entries[i], rel + [entries[i].name])
    ensures forall k :: 0 <= k < i + 1 ==> (children + [child])[k] == TreeOf(entries[k], rel + [entries[k].name])
  {
    forall k | 0 <= k < i + 1 ensures (children + [child])[k] == TreeOf(entries[k], rel + [entries[k].name]) {
      if k < i {
        assert (children + [child])[k] == children[k];
      }
    }
  }

  /** A directory's node built from its arranged entries one by one is the node `TreeOf` gives. */
  lemma DirectoryFromChildren(e: Entry, rel: seq<string>, children: seq<TreeNode>)
    requires e.DirEntry?
    requires var kids := Arrange(e.entries);
             |children| == |kids| && forall k :: 0 <= k < |kids| ==> children[k] == TreeOf(kids[k], rel + [kids[k].name])
    ensures TreeOf(e, rel) == DirectoryNode(e.name, if rel == [] then "" else PathText(rel), children)
    ensures Extensions(TreeOf(e, rel)) == ExtensionsAmong(children)
  {
    var kids := Arrange(e.entries);
    assert children == Forest(e, kids, rel);
  }

  /**
   * `walk`: the node of a directory, built child by child, with the suffixes
   * of the files met added to the shared set `exts`.
   */
  method Walk(e: Entry, rel: seq<string>, exts: set<string>) returns (node: TreeNode, extsOut: set<string>)
    requires e.DirEntry?
    ensures node == TreeOf(e, rel)
    ensures extsOut == exts + Extensions(node)
    decreases e
  {
    var entries := Arrange(e.entries);
    var children: seq<TreeNode> := [];
    extsOut := exts;
    for i := 0 to |entries|
      invariant |children| == i
      invariant forall k :: 0 <= k < i ==> children[k] == TreeOf(entries[k], rel + [entries[k].name])
      invariant extsOut == exts + ExtensionsAmong(children)
    {
      var p := entries[i];
      assert p in e.entries;
      var child: TreeNode;
      if p.DirEntry? {
        var more;
        child, more := Walk(p, rel + [p.name], extsOut);
        extsOut := more;
      } else {
        var ext := Suffix(p.name);
        if ext != "" {
          extsOut := extsOut + {ext};
        }
        child := FileNode(p.name, PathText(rel + [p.name]));
      }
      assert child == TreeOf(p, rel + [p.name]);
      ExtensionsAmongAppend(children, child);
      AppendChild(children, child, entries, rel, i);
      children := children + [child];
    }
    node := DirectoryNode(e.name, if rel == [] then "" else PathText(rel), children);
    DirectoryFromChildren(e, rel, children);
  }

  /** `sorted(list(s))` for a set of strings: its elements in increasing order. */
  method SortedList(s: set<string>) returns (r: seq<string>)
    ensures forall x :: x in r <==> x in s
    ensures forall i, j :: 0 <= i < j < |r| ==> Less(r[i], r[j])
  {
    var xs: seq<string> := [];
    var rest := s;
    while rest != {}
      invariant rest <= s
      invariant forall x :: multiset(xs)[x] == if x in s && x !in rest then 1 else 0
      decreases |rest|
    {
      var x :| x in rest;
      xs := xs + [x];
      rest := rest - {x};
    }
    r := SortBy(xs, Id);
    DistinctByCount(r);
    StrictlySorted(r);
    assert forall x :: x in r <==> x in multiset(xs);
  }

  /**
   * `list_files_and_extensions`: the tree of the base directory (whose own
   * path is "") and its file suffixes, sorted without repetitions.
   */
  method ListFilesAndExtensions(base: Entry) returns (tree: TreeNode, exts: seq<string>)
    requires base.DirEntry?
    ensures tree == TreeOf(base, [])
    ensures tree.DirectoryNode? && tree.path == ""
    ensures forall x :: x in exts <==> x in Extensions(tree)
    ensures forall i, j :: 0 <= i < j < |exts| ==> Less(exts[i], exts[j])
  {
    var found;
    tree, found := Walk(base, [], {});
    exts := SortedList(found);
  }

  // ---------------------------------------------------------------------
  // Properties of the tree

  /** Directories come before files; within each kind, names ordered case-insensitively. */
  predicate NodeBefore(a: TreeNode, b: TreeNode) {
    (a.DirectoryNode? && b.FileNode?)
    || (a.DirectoryNode? == b.DirectoryNode? && LessEq(Lower(a.name), Lower(b.name)))
  }

  /** At every level: no hidden names, and children in `NodeBefore` order. */
  predicate WellOrdered(t: TreeNode)
    decreases t
  {
    t.DirectoryNode? ==>
      && (forall i :: 0 <= i < |t.children| ==> !Hidden(t.children[i].name) && WellOrdered(t.children[i]))
      && (forall i, j :: 0 <= i < j < |t.children| ==> NodeBefore(t.children[i], t.children[j]))
  }

  /** Entries in key order are directories before files, then in lower-cased name order. */
  lemma KeyOrder(a: Entry, b: Entry)
    requires LessEq(EntryKey(a), EntryKey(b))
    ensures (a.DirEntry? && b.FileEntry?) || (a.DirEntry? == b.DirEntry? && LessEq(Lower(a.name), Lower(b.name)))
  {
    var ta := if a.FileEntry? then "1" else "0";
    var tb := if b.FileEntry? then "1" else "0";
    if ta == tb {
      LessCommonPrefix(ta, Lower(a.name), Lower(b.name));
    } else if a.FileEntry? {
      FilesAfterDirectories(Lower(a.name), Lower(b.name));
      assert false;
    }
  }

  lemma FilesAfterDirectories(x: string, y: string)
    ensures !LessEq("1" + x, "0" + y)
  {
    assert ("1" + x)[0] == '1' && ("0" + y)[0] == '0';
  }

  lemma TreeOfShape(e: Entry, rel: seq<string>)
    ensures TreeOf(e, rel).name == e.name && TreeOf(e, rel).DirectoryNode? == e.DirEntry?
  {
  }

  /** Every directory of the tree lists its visible entries, directories first, by lower-cased name. */
  lemma {:induction false} TreeWellOrdered(e: Entry, rel: seq<string>)
    ensures WellOrdered(TreeOf(e, rel))
    decreases e
  {
    if e.DirEntry? {
      var kids := Arrange(e.entries);
      var t := TreeOf(e, rel);
      forall i | 0 <= i < |t.children| ensures !Hidden(t.children[i].name) && WellOrdered(t.children[i]) {
        assert kids[i] in kids;
        TreeOfShape(kids[i], rel + [kids[i].name]);
        TreeWellOrdered(kids[i], rel + [kids[i].name]);
      }
      forall i, j | 0 <= i < j < |t.children| ensures NodeBefore(t.children[i], t.children[j]) {
        KeyOrder(kids[i], kids[j]);
        TreeOfShape(kids[i], rel + [kids[i].name]);
        TreeOfShape(kids[j], rel + [kids[j].name]);
      }
    }
  }

  /** Each node's path is the names from the base down to it joined with "/"; the base's own path is "". */
  predicate PathsFrom(t: TreeNode, rel: seq<string>)
    decreases t
  {
    && t.path == (if rel == [] then "" else PathText(rel))
    && (t.DirectoryNode? ==>
          forall i :: 0 <= i < |t.children| ==> PathsFrom(t.children[i], rel + [t.children[i].name]))
  }

  lemma {:induction false} TreePaths(e: Entry, rel: seq<string>)
    requires e.DirEntry? || rel != []
    ensures PathsFrom(TreeOf(e, rel), rel)
    decreases e
  {
    if e.DirEntry? {
      var kids := Arrange(e.entries);
      var t := TreeOf(e, rel);
      forall i | 0 <= i < |t.children| ensures PathsFrom(t.children[i], rel + [t.children[i].name]) {
        assert kids[i] in kids;
        TreePaths(kids[i], rel + [kids[i].name]);
      }
    }
  }

  /** A directory's node has exactly as many children as the listing has visible entries. */
  lemma ChildCount(e: Entry, rel: seq<string>)
    requires e.DirEntry?
    ensures |TreeOf(e, rel).children| == |Visible(e.entries)|
  {
    var kids := Arrange(e.entries);
    assert |kids| == |multiset(kids)| == |multiset(Visible(e.entries))| == |Visible(e.entries)|;
  }

  /** Every visible entry of a directory has its node among the directory node's children. */
  lemma VisibleHaveNodes(e: Entry, rel: seq<string>)
    requires e.DirEntry?
    ensures forall x :: x in e.entries && !Hidden(x.name) ==> TreeOf(x, rel + [x.name]) in TreeOf(e, rel).children
  {
    var kids := Arrange(e.entries);
    var t := TreeOf(e, rel);
    forall x | x in e.entries && !Hidden(x.name) ensures TreeOf(x, rel + [x.name]) in t.children {
      var i :| 0 <= i < |kids| && kids[i] == x;
      assert t.children[i] == TreeOf(x, rel + [x.name]);
    }
  }

  /** Every child node of a directory is the node of one of its visible entries. */
  lemma NodesAreVisible(e: Entry, rel: seq<string>)
    requires e.DirEntry?
    ensures forall c :: c in TreeOf(e, rel).children ==>
              exists x :: x in e.entries && !Hidden(x.name) && c == TreeOf(x, rel + [x.name])
  {
    var kids := Arrange(e.entries);
    var t := TreeOf(e, rel);
    forall c | c in t.children ensures exists x :: x in e.entries && !Hidden(x.name) && c == TreeOf(x, rel + [x.name]) {
      var i :| 0 <= i < |t.children| && t.children[i] == c;
      assert kids[i] in kids;
    }
  }

  /** A directory's node has one child for each visible entry and no other. */
  lemma TreeKeepsVisible(e: Entry, rel: seq<string>)
    requires e.DirEntry?
    ensures var t := TreeOf(e, rel);
            && (forall x :: x in e.entries && !Hidden(x.name) ==> TreeOf(x, rel + [x.name]) in t.children)
            && (forall c :: c in t.children ==> exists x :: x in e.entries && !Hidden(x.name) && c == TreeOf(x, rel + [x.name]))
            && |t.children| == |Visible(e.entries)|
  {
    VisibleHaveNodes(e, rel);
    NodesAreVisible(e, rel);
    ChildCount(e, rel);
  }

  /** Every listed extension starts with "." and has at least one more character. */
  lemma {:induction false} ExtensionsAreSuffixes(t: TreeNode, x: string)
    requires x in Extensions(t)
    ensures |x| >= 2 && x[0] == '.'
    decreases t
  {
    if t.DirectoryNode? {
      var i, y :| 0 <= i < |t.children| && y in Extensions(t.children[i]) && y == x;
      ExtensionsAreSuffixes(t.children[i], x);
    }
  }

  // ---------------------------------------------------------------------
  // `collect_files_for_export`

  /** The files `base_dir.rglob("*")` meets, hidden ones included, as components below the base. */
  function FilesIn(e: Entry, rel: seq<string>): (fs: seq<seq<string>>)
    ensures forall f :: f in fs ==> |f| >= |rel| && f[..|rel|] == rel
    ensures e.DirEntry? ==> forall f :: f in fs ==> |f| > |rel|
    decreases e, 1
  {
    match e
    case FileEntry(_) => [rel]
    case DirEntry(_, entries) => FilesAmong(e, entries, rel)
  }

  function FilesAmong(parent: Entry, kids: seq<Entry>, rel: seq<string>): (fs: seq<seq<string>>)
    requires parent.DirEntry? && forall k :: k in kids ==> k in parent.entries
    ensures forall f :: f in fs ==> |f| > |rel| && f[..|rel|] == rel
    decreases parent, 0, |kids|
  {
    if kids == [] then []
    else
      assert kids[0] in parent.entries;
      var head := FilesIn(kids[0], rel + [kids[0].name]);
      assert forall f :: f in head ==> f[..|rel| + 1][..|rel|] == f[..|rel|];
      head + FilesAmong(parent, kids[1..], rel)
  }

  /** `set(d.strip("/") for d in selected_dirs)`. */
  function SelectedDirs(dirs: seq<string>): set<string> {
    set d | d in dirs :: Trim(d, IsSlash)
  }

  /**
   * `is_in_selected_dir`: no selection, or a selected "", means everything;
   * otherwise a selected directory covers itself and every path below it.
   */
  predicate InSelectedDir(rel: string, selected: set<string>): (b: bool)
    ensures selected == {} || "" in selected ==> b
    ensures rel in selected ==> b
    ensures forall d, rest :: d in selected && rel == d + "/" + rest ==> b
  {
    selected == {} || "" in selected || exists d :: d in selected && (rel == d || StartsWith(rel, d + "/"))
  }

  /** The extension filter: applies only when some extension is selected. */
  predicate ExtSelected(name: string, exts: seq<string>) {
    exts == [] || Suffix(name) in exts
  }

  /** Whether the file at `rel` (non-empty components) is exported. */
  predicate Keep(rel: seq<string>, dirs: seq<string>, exts: seq<string>)
    requires rel != []
  {
    InSelectedDir(PathText(rel), SelectedDirs(dirs)) && ExtSelected(rel[|rel| - 1], exts)
  }

  /** `str(p).lower()` for the absolute path `p`: the export order. */
  function ExportKey(p: seq<string>): string {
    Lower("/" + JoinSlash(p))
  }

  /** No file lies at the base itself. */
  predicate AllBelow(all: seq<seq<string>>) {
    forall k :: 0 <= k < |all| ==> all[k] != []
  }

  /** The absolute paths of the files in `all` that pass both filters, in the order met. */
  function Exported(base: seq<string>, all: seq<seq<string>>, dirs: seq<string>, exts: seq<string>): (r: seq<seq<string>>)
    requires AllBelow(all)
    ensures forall f :: f in r <==> exists rel :: rel in all && Keep(rel, dirs, exts) && f == base + rel
  {
    if all == [] then []
    else
      var init := all[..|all| - 1];
      var last := all[|all| - 1];
      assert all == init + [last];
      Exported(base, init, dirs, exts) + (if Keep(last, dirs, exts) then [base + last] else [])
  }

  /**
   * `collect_files_for_export`: the files below `base` kept by the directory
   * and extension filters, as absolute paths sorted case-insensitively.
   */
  method CollectFilesForExport(base: seq<string>, tree: Entry, dirs: seq<string>, exts: seq<string>)
    returns (files: seq<seq<string>>)
    requires tree.DirEntry?
    ensures AllBelow(FilesIn(tree, []))
    ensures multiset(files) == multiset(Exported(base, FilesIn(tree, []), dirs, exts))
    ensures forall f :: f in files <==> exists rel :: rel in FilesIn(tree, []) && Keep(rel, dirs, exts) && f == base + rel
    ensures SortedBy(files, ExportKey)
  {
    var all := FilesIn(tree, []);
    var found := FilterFiles(base, all, dirs, exts);
    files := SortBy(found, ExportKey);
    ExportedMembers(files, base, all, dirs, exts);
  }

  /** The loop of `collect_files_for_export`: the files met by `rglob` that pass both filters, in the order met. */
  method FilterFiles(base: seq<string>, all: seq<seq<string>>, dirs: seq<string>, exts: seq<string>)
    returns (found: seq<seq<string>>)
    requires AllBelow(all)
    ensures found == Exported(base, all, dirs, exts)
  {
    var selected := SelectedDirs(dirs);
    found := [];
    for i := 0 to |all|
      invariant found == Exported(base, all[..i], dirs, exts)
    {
      var rel := all[i];
      ExportedStep(base, all, i, dirs, exts);
      if !InSelectedDir(PathText(rel), selected) {
        continue;
      }
      if exts != [] && Suffix(rel[|rel| - 1]) !in exts {
        continue;
      }
      found := found + [base + rel];
    }
    assert all[..|all|] == all;
  }

  lemma ExportedMembers(files: seq<seq<string>>, base: seq<string>, all: seq<seq<string>>, dirs: seq<string>, exts: seq<string>)
    requires AllBelow(all) && multiset(files) == multiset(Exported(base, all, dirs, exts))
    ensures forall f :: f in files <==> exists rel :: rel in all && Keep(rel, dirs, exts) && f == base + rel
  {
    SameMembers(files, Exported(base, all, dirs, exts));
  }

  lemma ExportedStep(base: seq<string>, all: seq<seq<string>>, i: nat, dirs: seq<string>, exts: seq<string>)
    requires i < |all| && AllBelow(all)
    ensures AllBelow(all[..i]) && AllBelow(all[..i + 1])
    ensures Exported(base, all[..i + 1], dirs, exts)
            == Exported(base, all[..i], dirs, exts) + (if Keep(all[i], dirs, exts) then [base + all[i]] else [])
  {
    assert all[..i + 1][..i] == all[..i];
  }

  /** A selected directory does not select a sibling whose name merely starts with it. */
  lemma SiblingNotSelected(d: string, more: string, rest: string)
    requires d != "" && more != "" && more[0] != '/'
    ensures !InSelectedDir(d + more + rest, {d})
  {
    var p := d + more + rest;
    assert p[|d|] == more[0];
    assert (d + "/")[|d|] == '/';
  }

  /** Leading and trailing slashes of a selected directory do not matter. */
  lemma SelectedDirIgnoresSlashes(d: string)
    requires d == [] || (!IsSlash(d[0]) && !IsSlash(d[|d| - 1]))
    ensures SelectedDirs(["/" + d + "/"]) == SelectedDirs([d]) == {d}
  {
    TrimSurrounding("/", d, "/", IsSlash);
    SelectedDirsOne("/" + d + "/");
    SelectedDirsOne(d);
  }

  lemma SelectedDirsOne(d: string)
    ensures SelectedDirs([d]) == {Trim(d, IsSlash)}
  {
    assert forall x :: x in [d] <==> x == d;
  }
}
