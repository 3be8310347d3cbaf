/**
 The immutable index: inodes are positions in one list, children of a directory are contiguous
 and sorted by name, and a name is found by binary search.
 */
module Indexing {
  import opened Bytes
  import opened Tree
  import opened Building

  const ROOT_INO: nat := 1

  datatype Node = Node(
    nameOff: nat,
    nameLen: nat,
    kind: Kind,
    synthetic: bool,
    parent: nat,
    firstChild: nat,
    childLen: nat,
    subdirCount: nat,
    meta: nat)

  datatype Index = Index(
    nodes: seq<Node>,
    metas: seq<Meta>,
    names: Name,
    symlinks: nat,
    totalUncompressed: nat)

  /** `node`: inode 0 is never valid. */
  function NodeAt(ix: Index, ino: nat): Option<Node> {
    if 0 < ino < |ix.nodes| then Some(ix.nodes[ino]) else None
  }

  /** `meta`: the entry behind a node, if it has one. */
  function MetaAt(ix: Index, node: Node): Option<Meta> {
    if node.meta == NO_META || node.meta >= |ix.metas| then None else Some(ix.metas[node.meta])
  }

  predicate NameFits(ix: Index, node: Node) {
    node.nameOff + node.nameLen <= |ix.names|
  }

  function NodeName(ix: Index, node: Node): Name
    requires NameFits(ix, node)
  {
    ix.names[node.nameOff..node.nameOff + node.nameLen]
  }

  /** The child range of an inode lies inside the index, and names increase along it. */
  ghost predicate RangeFits(ix: Index, ino: nat)
    requires ino < |ix.nodes|
  {
    var n := ix.nodes[ino];
    n.kind.Dir? ==>
      && n.firstChild + n.childLen <= |ix.nodes|
      && (forall i, j :: n.firstChild <= i < j < n.firstChild + n.childLen ==>
          InOrder(ix, i, j))
  }

  /** One inode's name sorts before another's. */
  ghost predicate InOrder(ix: Index, i: nat, j: nat) {
    && i < |ix.nodes| && j < |ix.nodes| && NameFits(ix, ix.nodes[i]) && NameFits(ix, ix.nodes[j])
    && Less(NodeName(ix, ix.nodes[i]), NodeName(ix, ix.nodes[j]))
  }

  ghost predicate WellFormed(ix: Index) {
    && |ix.nodes| > ROOT_INO
    && (forall i :: 0 <= i < |ix.nodes| ==> NameFits(ix, ix.nodes[i]))
    && (forall ino :: 1 <= ino < |ix.nodes| ==> RangeFits(ix, ino))
  }

  /** An inode in the range of a directory, under the given name. */
  ghost predicate IsChild(ix: Index, parent: nat, name: Name, ino: nat) {
    && 0 < parent < |ix.nodes| && ix.nodes[parent].kind.Dir?
    && ix.nodes[parent].firstChild <= ino < ix.nodes[parent].firstChild + ix.nodes[parent].childLen
    && ino < |ix.nodes| && NameFits(ix, ix.nodes[ino]) && NodeName(ix, ix.nodes[ino]) == name
  }

  lemma ChildIsUnique(ix: Index, parent: nat, name: Name, i: nat, j: nat)
    requires WellFormed(ix) && IsChild(ix, parent, name, i) && IsChild(ix, parent, name, j)
    ensures i == j
  {
    assert RangeFits(ix, parent);
    if i != j {
      var a, b := if i < j then i else j, if i < j then j else i;
      assert InOrder(ix, a, b);
      LessIsAsymmetric(NodeName(ix, ix.nodes[a]), NodeName(ix, ix.nodes[b]));
    }
  }

  /** What a lookup must answer: the child of that name, if there is one. */
  ghost function Resolve(ix: Index, parent: nat, name: Name): Option<nat> {
    if exists ino: nat :: IsChild(ix, parent, name, ino) then
      var ino: nat :| IsChild(ix, parent, name, ino);
      Some(ino)
    else None
  }

  lemma ResolveIs(ix: Index, parent: nat, name: Name, ino: nat)
    requires WellFormed(ix) && IsChild(ix, parent, name, ino)
    ensures Resolve(ix, parent, name) == Some(ino)
  {
    var r := Resolve(ix, parent, name);
    ChildIsUnique(ix, parent, name, ino, r.value);
  }

  lemma ResolveFinds(ix: Index, parent: nat, name: Name)
    requires Resolve(ix, parent, name).Some?
    ensures IsChild(ix, parent, name, Resolve(ix, parent, name).value)
  {
  }

  /** `lookup`: binary search over the children. */
  method Lookup(ix: Index, parent: nat, name: Name) returns (r: Option<nat>)
    requires WellFormed(ix)
    ensures r == Resolve(ix, parent, name)
  {
    var dir := NodeAt(ix, parent);
    if dir.None? {
      return None;
    }
    if dir.value.kind != Dir {
      return None;
    }
    assert RangeFits(ix, parent);
    var start := dir.value.firstChild;
    var end := start + dir.value.childLen;
    var lo, hi := start, end;
    while lo < hi
      invariant start <= lo <= hi <= end
      invariant forall i :: start <= i < lo ==> Less(NodeName(ix, ix.nodes[i]), name)
      invariant forall i :: hi <= i < end ==> Less(name, NodeName(ix, ix.nodes[i]))
    {
      var mid := (lo + hi) / 2;
      var midName := NodeName(ix, ix.nodes[mid]);
      if midName == name {
        ResolveIs(ix, parent, name, mid);
        return Some(mid);
      }
      LessIsTotal(midName, name);
      if Less(midName, name) {
        forall i | start <= i < mid ensures Less(NodeName(ix, ix.nodes[i]), name) {
          assert InOrder(ix, i, mid);
          LessIsTransitive(NodeName(ix, ix.nodes[i]), midName, name);
        }
        lo := mid + 1;
      } else {
        forall i | mid < i < end ensures Less(name, NodeName(ix, ix.nodes[i])) {
          assert InOrder(ix, mid, i);
          LessIsTransitive(name, midName, NodeName(ix, ix.nodes[i]));
        }
        hi := mid;
      }
    }
    forall ino: nat | start <= ino < end ensures NodeName(ix, ix.nodes[ino]) != name {
      if ino < lo {
        LessIsAsymmetric(NodeName(ix, ix.nodes[ino]), name);
      } else {
        LessIsAsymmetric(name, NodeName(ix, ix.nodes[ino]));
      }
    }
    return None;
  }

  /** Walking lookups from the root, one component at a time. */
  ghost function Walk(ix: Index, p: Path): Option<nat>
    decreases |p|
  {
    if p == [] then Some(ROOT_INO)
    else
      match Walk(ix, Front(p))
      case None => None
      case Some(ino) => Resolve(ix, ino, p[|p| - 1])
  }

  /** What an index says of an inode, in the terms of the tree. */
  ghost function EntryAt(ix: Index, ino: nat): Entry
    requires 0 < ino < |ix.nodes|
  {
    var n := ix.nodes[ino];
    Entry(n.kind, match MetaAt(ix, n) case None => None case Some(m) => Some(m.(symlinkSlot := 0)))
  }

  /** A walk to a path succeeds exactly when the tree has it, and finds what the tree holds. */
  ghost predicate WalksLike(ix: Index, tree: Dirs, p: Path) {
    match Walk(ix, p)
    case None => p !in tree
    case Some(ino) => p in tree && 0 < ino < |ix.nodes| && EntryAt(ix, ino) == tree[p]
  }

  /** Two paths never meet, and no inode is out of reach. */
  ghost predicate OneNamePerInode(ix: Index) {
    && (forall p, q :: Walk(ix, p) == Walk(ix, q) && Walk(ix, p).Some? ==> p == q)
    && (forall ino :: 0 < ino < |ix.nodes| ==> HasPath(ix, ino))
  }

  ghost predicate HasPath(ix: Index, ino: nat) {
    exists p :: Walk(ix, p) == Some(ino)
  }

  /** The index and the tree are the same thing. */
  ghost predicate Represents(ix: Index, tree: Dirs) {
    && WellFormed(ix)
    && (forall p :: WalksLike(ix, tree, p))
    && OneNamePerInode(ix)
  }

  /** Inode layout: a node comes after its parent and inside its parent's range, ranges follow one another. */
  ghost predicate Tiles(ix: Index) {
    && |ix.nodes| > 1 && ix.nodes[1].parent == 1 && ix.nodes[1].firstChild == 2
    && (forall ino :: 2 <= ino < |ix.nodes| ==> InParentsRange(ix, ino))
    && (forall ino :: 1 <= ino < |ix.nodes| ==> RangeEnd(ix, ino) == NextRange(ix, ino))
  }

  ghost function NextRange(ix: Index, ino: nat): nat {
    if ino + 1 < |ix.nodes| then ix.nodes[ino + 1].firstChild else |ix.nodes|
  }

  ghost function RangeEnd(ix: Index, ino: nat): nat
    requires ino < |ix.nodes|
  {
    ix.nodes[ino].firstChild + ix.nodes[ino].childLen
  }

  ghost predicate InParentsRange(ix: Index, ino: nat)
    requires ino < |ix.nodes|
  {
    var p := ix.nodes[ino].parent;
    0 < p < ino && ix.nodes[p].kind.Dir? && ix.nodes[p].firstChild <= ino < RangeEnd(ix, p)
  }
}
