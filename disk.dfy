/**
 * An abstract filesystem: each existing path below "/" maps to a directory
 * or a file. The operations the workspace code performs on it (`mkdir`
 * with parents, `rmtree`, `unlink`, and writing a cloned or extracted
 * subtree) are functions on that map; the class `Disk` holds the map and
 * changes it in place.
 */
module Disk {
  import opened Paths

  datatype Node = Dir | File(bytes: seq<bv8>)

  type Nodes = map<Path, Node>

  function Parent(p: Path): Path
    requires p != []
  {
    p[..|p| - 1]
  }

  /**
   * Every entry has a resolved, non-empty path, and every entry below the
   * top level sits inside an existing directory. Used both for the disk and
   * for a subtree given relative to its own top.
   */
  predicate WellFormed(nodes: Nodes) {
    forall p :: p in nodes ==>
      p != [] && IsResolved(p) && (|p| > 1 ==> Parent(p) in nodes && nodes[Parent(p)].Dir?)
  }

  /** A subtree as written by `git clone` or an archive extraction, relative to its top. */
  type Tree = t: Nodes | WellFormed(t) witness map[]

  predicate Exists(nodes: Nodes, p: Path) {
    p == [] || p in nodes
  }

  predicate IsDir(nodes: Nodes, p: Path) {
    p == [] || (p in nodes && nodes[p].Dir?)
  }

  /** Every path at or below `p` is gone; nothing else changes. */
  ghost predicate RemovedTree(before: Nodes, after: Nodes, p: Path) {
    && (forall q :: q in after <==> q in before && !(p <= q))
    && (forall q :: q in after ==> after[q] == before[q])
  }

  /** Nothing at a path outside `p`'s subtree differs between `a` and `b`. */
  ghost predicate SameOutside(a: Nodes, b: Nodes, p: Path) {
    forall q :: !(p <= q) ==> (q in a <==> q in b) && (q in a ==> a[q] == b[q])
  }

  /** Every entry of `content`, given relative to `p`, is in place below `p`. */
  predicate HoldsAtLeast(nodes: Nodes, p: Path, content: Nodes) {
    forall r :: r in content ==> p + r in nodes && nodes[p + r] == content[r]
  }

  /** The entries strictly below `p` are exactly `content`, given relative to `p`. */
  predicate HoldsExactly(nodes: Nodes, p: Path, content: Nodes) {
    && HoldsAtLeast(nodes, p, content)
    && (forall q :: q in nodes && p < q ==> q[|p|..] in content)
  }

  /** Nothing lies strictly below `p`. */
  predicate NothingBelow(nodes: Nodes, p: Path) {
    forall q :: q in nodes ==> !(p < q)
  }

  /** The names of the entries directly inside `p` (`p.iterdir()`). */
  function Children(nodes: Nodes, p: Path): (names: set<string>)
    ensures forall n :: n in names <==> p + [n] in nodes
  {
    var names := set q | q in nodes && |q| == |p| + 1 && p <= q :: q[|p|];
    assert forall n :: p + [n] in nodes ==> (p + [n])[|p|] == n;
    assert forall q :: q in nodes && |q| == |p| + 1 && p <= q ==> q == p + [q[|p|]];
    names
  }

  /** `shutil.rmtree(p)` when it succeeds. */
  function WithoutTree(nodes: Nodes, p: Path): (r: Nodes)
    ensures RemovedTree(nodes, r, p)
    ensures WellFormed(nodes) ==> WellFormed(r)
  {
    var r := map q | q in nodes && !(p <= q) :: nodes[q];
    assert WellFormed(nodes) ==> WellFormed(r) by {
      if WellFormed(nodes) {
        forall q | q in r && |q| > 1 ensures Parent(q) in r && r[Parent(q)].Dir? {
          assert Parent(q) <= q;
        }
      }
    }
    r
  }

  /** The non-empty prefixes of `p`: the directories `mkdir(parents=True)` needs. */
  function Prefixes(p: Path): set<Path> {
    set i | 1 <= i <= |p| :: p[..i]
  }

  /** `mkdir(parents=True, exist_ok=True)` fails when some prefix of `p` is a file. */
  predicate CanMakeDirs(nodes: Nodes, p: Path) {
    forall i :: 1 <= i <= |p| && p[..i] in nodes ==> nodes[p[..i]].Dir?
  }

  /** The disk after `mkdir(parents=True, exist_ok=True)` succeeded on `p`. */
  function WithDirs(nodes: Nodes, p: Path): (r: Nodes)
    requires IsResolved(p) && CanMakeDirs(nodes, p)
    ensures IsDir(r, p)
    ensures forall i :: 1 <= i <= |p| ==> p[..i] in r && r[p[..i]].Dir?
    ensures nodes.Keys <= r.Keys && r.Keys <= nodes.Keys + Prefixes(p)
    ensures forall q :: q in nodes ==> r[q] == nodes[q]
    ensures forall q :: q in r && q !in nodes ==> r[q] == Dir
    ensures WellFormed(nodes) ==> WellFormed(r)
  {
    var r := map q | q in nodes.Keys + Prefixes(p) :: if q in nodes then nodes[q] else Dir;
    assert p[..|p|] == p;
    assert p != [] ==> p in Prefixes(p);
    assert WellFormed(nodes) ==> WellFormed(r) by {
      if WellFormed(nodes) {
        forall q | q in r ensures q != [] && IsResolved(q) && (|q| > 1 ==> Parent(q) in r && r[Parent(q)].Dir?) {
          if q !in nodes {
            var i :| 1 <= i <= |p| && q == p[..i];
            assert forall k :: 0 <= k < |q| ==> q[k] == p[k];
            if |q| > 1 {
              assert Parent(q) == p[..i - 1];
            }
          }
        }
      }
    }
    r
  }

  /** The entries of `content` (relative paths) placed below `p`. */
  function Placed(p: Path, content: Nodes): set<Path> {
    set r | r in content :: p + r
  }

  /** Writing `content` below `p` never turns a directory into a file or back. */
  predicate Compatible(nodes: Nodes, p: Path, content: Nodes) {
    forall r :: r in content && p + r in nodes ==> nodes[p + r].Dir? == content[r].Dir?
  }

  /**
   * The disk after a subtree was written below the directory `p`: entries of
   * `content` are added or overwrite what was at the same place.
   */
  function WithGraft(nodes: Nodes, p: Path, content: Nodes): (r: Nodes)
    ensures forall s :: s in content ==> p + s in r && r[p + s] == content[s]
    ensures forall q :: q !in Placed(p, content) ==> (q in r <==> q in nodes) && (q in nodes ==> r[q] == nodes[q])
    ensures (WellFormed(nodes) && WellFormed(content) && IsResolved(p) && IsDir(nodes, p)
             && Compatible(nodes, p, content)) ==> WellFormed(r)
  {
    var placed := Placed(p, content);
    var r := map q | q in nodes.Keys + placed :: if q in placed then content[q[|p|..]] else nodes[q];
    assert forall s :: s in content ==> p + s in placed && (p + s)[|p|..] == s;
    assert (WellFormed(nodes) && WellFormed(content) && IsResolved(p) && IsDir(nodes, p)
            && Compatible(nodes, p, content)) ==> WellFormed(r) by {
      if WellFormed(nodes) && WellFormed(content) && IsResolved(p) && IsDir(nodes, p)
         && Compatible(nodes, p, content) {
        GraftWellFormed(nodes, p, content, r);
      }
    }
    r
  }

  lemma GraftWellFormed(nodes: Nodes, p: Path, content: Nodes, r: Nodes)
    requires WellFormed(nodes) && WellFormed(content) && IsResolved(p) && IsDir(nodes, p)
    requires Compatible(nodes, p, content)
    requires r.Keys == nodes.Keys + Placed(p, content)
    requires forall q :: q in r ==> r[q] == if q in Placed(p, content) then content[q[|p|..]] else nodes[q]
    ensures WellFormed(r)
  {
    forall q | q in r ensures q != [] && IsResolved(q) && (|q| > 1 ==> Parent(q) in r && r[Parent(q)].Dir?) {
      if q in Placed(p, content) {
        var s :| s in content && q == p + s;
        assert q[|p|..] == s;
        assert forall k :: 0 <= k < |q| ==> q[k] == if k < |p| then p[k] else s[k - |p|];
        if |s| > 1 {
          assert Parent(q) == p + Parent(s);
          assert Parent(q) in Placed(p, content);
          assert Parent(q)[|p|..] == Parent(s);
        } else if |q| > 1 {
          assert Parent(q) == p;
          assert forall e :: e in content ==> |p + e| > |p|;
        }
      } else if |q| > 1 {
        if Parent(q) in Placed(p, content) {
          var s :| s in content && Parent(q) == p + s;
          assert Parent(q)[|p|..] == s;
        }
      }
    }
  }

  /** The filesystem, changed in place by the workspace code. */
  class Disk {
    var nodes: Nodes

    ghost predicate Valid()
      reads this
    {
      WellFormed(nodes)
    }

    constructor (initial: Nodes)
      requires WellFormed(initial)
      ensures Valid() && nodes == initial
    {
      nodes := initial;
    }

    /** `p.mkdir(parents=True, exist_ok=True)`: fails, changing nothing, if a prefix of `p` is a file. */
    method MakeDirs(p: Path) returns (ok: bool)
      requires Valid() && IsResolved(p)
      modifies this
      ensures Valid()
      ensures ok == CanMakeDirs(old(nodes), p)
      ensures ok ==> nodes == WithDirs(old(nodes), p)
      ensures !ok ==> nodes == old(nodes)
    {
      ok := CanMakeDirs(nodes, p);
      if ok {
        nodes := WithDirs(nodes, p);
      }
    }

    /**
     * `shutil.rmtree(p)`: removes the directory `p` with everything in it
     * ("/" itself stays, emptied); on anything else it fails, changing nothing.
     */
    method RemoveTree(p: Path) returns (ok: bool)
      requires Valid()
      modifies this
      ensures Valid()
      ensures ok == IsDir(old(nodes), p)
      ensures ok ==> nodes == WithoutTree(old(nodes), p)
      ensures !ok ==> nodes == old(nodes)
    {
      ok := IsDir(nodes, p);
      if ok {
        nodes := WithoutTree(nodes, p);
      }
    }

    /** `p.unlink()`: removes the file `p`; on anything else it fails, changing nothing. */
    method Unlink(p: Path) returns (ok: bool)
      requires Valid()
      modifies this
      ensures Valid()
      ensures ok == (p in old(nodes) && old(nodes)[p].File?)
      ensures ok ==> nodes == old(nodes) - {p}
      ensures !ok ==> nodes == old(nodes)
    {
      ok := p in nodes && nodes[p].File?;
      if ok {
        assert forall q :: q in nodes && |q| > 1 && Parent(q) == p ==> false;
        nodes := nodes - {p};
      }
    }

    /** Writes `content` below the directory `p`, as an extraction or a checkout does. */
    method Graft(p: Path, content: Nodes)
      requires Valid() && WellFormed(content) && IsResolved(p) && IsDir(nodes, p)
      requires Compatible(nodes, p, content)
      modifies this
      ensures Valid()
      ensures nodes == WithGraft(old(nodes), p, content)
    {
      nodes := WithGraft(nodes, p, content);
    }
  }

  /** Grafting onto a place that was emptied leaves exactly the new subtree there. */
  lemma GraftOntoEmpty(nodes: Nodes, p: Path, content: Nodes)
    requires NothingBelow(nodes, p)
    ensures HoldsExactly(WithGraft(nodes, p, content), p, content)
  {
    var r := WithGraft(nodes, p, content);
    forall q | q in r && p < q ensures q[|p|..] in content {
      assert q in Placed(p, content);
      var s :| s in content && q == p + s;
      assert q[|p|..] == s;
    }
  }

  /** In a well-formed disk every proper ancestor of an entry is a directory. */
  lemma {:induction false} AncestorIsDir(nodes: Nodes, q: Path, i: nat)
    requires WellFormed(nodes) && q in nodes && 1 <= i < |q|
    ensures q[..i] in nodes && nodes[q[..i]].Dir?
    decreases |q| - i
  {
    if i == |q| - 1 {
      assert q[..i] == Parent(q);
    } else {
      AncestorIsDir(nodes, q, i + 1);
      assert Parent(q[..i + 1]) == q[..i];
    }
  }

  /** Nothing lies below a path that is not a directory. */
  lemma NothingBelowNonDir(nodes: Nodes, p: Path)
    requires WellFormed(nodes) && !IsDir(nodes, p)
    ensures NothingBelow(nodes, p)
  {
    forall q | q in nodes && p < q ensures false {
      assert q[..|p|] == p;
      AncestorIsDir(nodes, q, |p|);
    }
  }

  /** `mkdir(parents=True, exist_ok=True)` on an existing directory changes nothing. */
  lemma MakeDirsExisting(nodes: Nodes, p: Path)
    requires WellFormed(nodes) && IsResolved(p) && IsDir(nodes, p)
    ensures CanMakeDirs(nodes, p) && WithDirs(nodes, p) == nodes
  {
    if p == [] {
      assert WithDirs(nodes, p).Keys == nodes.Keys;
      return;
    }
    forall i | 1 <= i < |p| ensures p[..i] in nodes && nodes[p[..i]].Dir? {
      AncestorIsDir(nodes, p, i);
    }
    assert p[..|p|] == p;
    assert CanMakeDirs(nodes, p);
    var r := WithDirs(nodes, p);
    assert r.Keys == nodes.Keys;
  }

  /** After `rmtree(p)`, nothing outside `p` has changed. */
  lemma RemovalStaysInside(nodes: Nodes, p: Path)
    ensures SameOutside(nodes, WithoutTree(nodes, p), p)
  {
  }
}
