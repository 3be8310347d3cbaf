/**
 `finish` and `build`: from records to the index. The end-to-end result is that walking lookups
 from the root finds exactly the tree the accepted records describe.
 */
module Finishing {
  import opened Bytes
  import opened Paths
  import opened Tree
  import opened Limits
  import opened Interning
  import opened Building
  import opened Grouping
  import opened BreadthFirst
  import opened Indexing

  /** How many of some nodes are directories. */
  function DirCount(nodes: seq<TmpNode>, s: seq<nat>): (r: nat)
    ensures r <= |s|
  {
    if s == [] then 0
    else DirCount(nodes, s[..|s| - 1]) + (if s[|s| - 1] < |nodes| && nodes[s[|s| - 1]].kind.Dir? then 1 else 0)
  }

  method CountDirs(nodes: seq<TmpNode>, s: seq<nat>) returns (r: nat)
    requires forall k :: 0 <= k < |s| ==> s[k] < |nodes|
    ensures r == DirCount(nodes, s)
  {
    r := 0;
    for i := 0 to |s|
      invariant r == DirCount(nodes, s[..i])
    {
      assert s[..i + 1][..i] == s[..i];
      if nodes[s[i]].kind == Dir {
        r := r + 1;
      }
    }
    assert s[..|s|] == s;
  }

  /** The final node for a temporary one. */
  ghost function NodeFor(v: View, l: Layout, id: nat): Node
    requires id < |v.nodes| == |l.firstChild| == |l.finalOf|
  {
    var t := v.nodes[id];
    Node(t.nameOff, t.nameLen, t.kind, t.synthetic,
         if id == 0 || t.parent >= |l.finalOf| then 1 else l.finalOf[t.parent],
         l.firstChild[id], |Children(v.nodes, v.names, id)|,
         DirCount(v.nodes, Children(v.nodes, v.names, id)), t.meta)
  }

  ghost predicate BuiltAt(v: View, l: Layout, nodes: seq<Node>, k: nat) {
    && k < |l.order| && k + 1 < |nodes| && l.order[k] < |v.nodes| == |l.firstChild| == |l.finalOf|
    && nodes[k + 1] == NodeFor(v, l, l.order[k])
  }

  /** The final list so far: a dead node, then the nodes in label order. */
  ghost predicate BuiltUpTo(v: View, l: Layout, nodes: seq<Node>, i: nat) {
    && |nodes| == i + 1 && nodes[0] == Node(0, 0, Dir, true, 1, 0, 0, 0, NO_META)
    && forall k :: 0 <= k < i ==> BuiltAt(v, l, nodes, k)
  }

  /** An index made from good lists and their layout. */
  ghost predicate Assembled(v: View, l: Layout, ix: Index) {
    && Good(v) && LaidOut(v.nodes, v.names, l)
    && ix.names == v.names && ix.metas == v.metas
    && BuiltUpTo(v, l, ix.nodes, |v.nodes|)
  }

  lemma GoodMeansParentsFirst(v: View)
    requires Good(v)
    ensures ParentsFirst(v.nodes) && ParentsInRange(v.nodes)
  {
    forall i | 1 <= i < |v.nodes| ensures v.nodes[i].parent < i {
      assert Hangs(v.nodes, v.names, v.paths, i);
    }
  }

  /** Every node is where its label says. */
  lemma FinalNode(v: View, l: Layout, ix: Index, id: nat)
    requires Assembled(v, l, ix) && id < |v.nodes|
    ensures |l.finalOf| == |l.firstChild| == |v.nodes| == |v.paths|
    ensures 0 < l.finalOf[id] <= |v.nodes| && |ix.nodes| == |v.nodes| + 1
    ensures ix.nodes[l.finalOf[id]] == NodeFor(v, l, id) && (id == 0 <==> l.finalOf[id] == 1)
  {
    hide Good, Children, Laid, CameFrom, NodeFor;
    GoodBasics(v);
    LabelsAreAPermutation(v.nodes, v.names, l);
    var k := l.finalOf[id] - 1;
    assert BuiltAt(v, l, ix.nodes, k);
    assert l.order[0] == 0;
  }

  /** Every inode is some node. */
  lemma OriginOf(v: View, l: Layout, ix: Index, ino: nat)
    requires Assembled(v, l, ix) && 0 < ino < |ix.nodes|
    ensures ino <= |l.order| && l.order[ino - 1] < |l.finalOf| == |v.nodes| && l.finalOf[l.order[ino - 1]] == ino
  {
    hide Good, Children, Laid, Rooted, NodeFor;
    LabelsAreAPermutation(v.nodes, v.names, l);
  }

  lemma NamesAgree(v: View, l: Layout, ix: Index, id: nat)
    requires Assembled(v, l, ix) && id < |v.nodes|
    ensures |l.finalOf| == |v.nodes| && l.finalOf[id] < |ix.nodes|
    ensures var n := ix.nodes[l.finalOf[id]]; NameFits(ix, n) && NodeName(ix, n) == NameAt(v.nodes, v.names, id)
  {
    hide Children, LaidOut, BuiltUpTo;
    FinalNode(v, l, ix, id);
  }

  /** The `a`th child of a node is the `a`th inode of its range. */
  lemma ChildInode(v: View, l: Layout, ix: Index, t: nat, a: nat)
    requires Assembled(v, l, ix) && t < |v.nodes| && a < |Children(v.nodes, v.names, t)|
    ensures var c := Children(v.nodes, v.names, t)[a];
            && |l.firstChild| == |l.finalOf| == |v.nodes|
            && 1 <= c < |v.nodes| && v.nodes[c].parent == t && l.finalOf[c] == l.firstChild[t] + a
  {
    GoodMeansParentsFirst(v);
    hide Good, Children, LaidOut, BuiltUpTo;
    ChildrenAreChildren(v.nodes, v.names, t);
    FinalNode(v, l, ix, t);
    var kids := Children(v.nodes, v.names, t);
    var c := kids[a];
    assert c in kids;
    ChildInParentsRange(v.nodes, v.names, l, c);
    var b := l.finalOf[c] - l.firstChild[t];
    assert kids[b] == c;
    assert a == b;
  }

  lemma KidsIncrease(v: View, t: nat, a: nat, b: nat)
    requires Good(v) && a < b < |Children(v.nodes, v.names, t)|
    ensures var kids := Children(v.nodes, v.names, t);
            Less(NameAt(v.nodes, v.names, kids[a]), NameAt(v.nodes, v.names, kids[b]))
  {
    hide Children, Less, NameAt;
    ChildrenIncrease(v.nodes, v.names, v.paths, t);
  }

  lemma SiblingsAreOrdered(v: View, l: Layout, ix: Index, t: nat, a: nat, b: nat)
    requires Assembled(v, l, ix) && t < |v.nodes| && a < b < |Children(v.nodes, v.names, t)|
    ensures |l.firstChild| == |v.nodes| && l.firstChild[t] + b < |ix.nodes|
    ensures InOrder(ix, l.firstChild[t] + a, l.firstChild[t] + b)
  {
    hide *;
    AssembledIsGood(v, l, ix);
    var kids := Children(v.nodes, v.names, t);
    KidsIncrease(v, t, a, b);
    ChildInode(v, l, ix, t, a);
    ChildInode(v, l, ix, t, b);
    NamesAgree(v, l, ix, kids[a]);
    NamesAgree(v, l, ix, kids[b]);
    InOrderBy(ix, l.finalOf[kids[a]], l.finalOf[kids[b]]);
  }

  lemma AssembledIsGood(v: View, l: Layout, ix: Index)
    requires Assembled(v, l, ix)
    ensures Good(v)
  {
  }

  lemma InOrderBy(ix: Index, i: nat, j: nat)
    requires i < |ix.nodes| && j < |ix.nodes| && NameFits(ix, ix.nodes[i]) && NameFits(ix, ix.nodes[j])
    requires Less(NodeName(ix, ix.nodes[i]), NodeName(ix, ix.nodes[j]))
    ensures InOrder(ix, i, j)
  {
  }

  lemma RangeIsSorted(v: View, l: Layout, ix: Index, t: nat)
    requires Assembled(v, l, ix) && t < |v.nodes| == |l.finalOf| && l.finalOf[t] < |ix.nodes|
    ensures RangeFits(ix, l.finalOf[t])
  {
    hide Good, Children, LaidOut, BuiltUpTo;
    FinalNode(v, l, ix, t);
    RangeIsInside(v, l, ix, t);
    var n := ix.nodes[l.finalOf[t]];
    forall i, j | n.firstChild <= i < j < n.firstChild + n.childLen
      ensures InOrder(ix, i, j)
    {
      var a, b := i - n.firstChild, j - n.firstChild;
      SiblingsAreOrdered(v, l, ix, t, a, b);
    }
  }

  lemma RangeIsInside(v: View, l: Layout, ix: Index, t: nat)
    requires Assembled(v, l, ix) && t < |v.nodes|
    ensures |l.firstChild| == |v.nodes| && l.firstChild[t] + |Children(v.nodes, v.names, t)| <= |v.nodes| + 1
  {
    hide Good, Children, Rooted, Numbered;
    FinalNode(v, l, ix, t);
    OriginOf(v, l, ix, l.finalOf[t]);
    LabelsAreAPermutation(v.nodes, v.names, l);
    assert LaidAt(v.nodes, v.names, l.order, l.firstChild, l.finalOf[t] - 1);
  }

  lemma IndexIsWellFormed(v: View, l: Layout, ix: Index)
    requires Assembled(v, l, ix)
    ensures WellFormed(ix)
  {
    hide Good, Children, LaidOut, RangeFits, NameFits, Assembled;
    forall ino | 1 <= ino < |ix.nodes| ensures NameFits(ix, ix.nodes[ino]) && RangeFits(ix, ino) {
      OriginOf(v, l, ix, ino);
      NamesAgree(v, l, ix, l.order[ino - 1]);
      RangeIsSorted(v, l, ix, l.order[ino - 1]);
    }
    DeadNodeFits(v, l, ix);
  }

  lemma DeadNodeFits(v: View, l: Layout, ix: Index)
    requires Assembled(v, l, ix)
    ensures |ix.nodes| > 1 && NameFits(ix, ix.nodes[0])
  {
    hide Good, LaidOut, NodeFor;
    AssembledIsGood(v, l, ix);
    GoodBasics(v);
  }

  // ----- walking the index

  /** A lookup below a node's inode finds exactly the node's child of that name. */
  lemma LookupFindsChild(v: View, l: Layout, ix: Index, id: nat)
    requires Assembled(v, l, ix) && WellFormed(ix) && 1 <= id < |v.nodes| == |l.finalOf|
    requires v.nodes[id].parent < id && v.nodes[v.nodes[id].parent].kind.Dir?
    ensures Resolve(ix, l.finalOf[v.nodes[id].parent], NameAt(v.nodes, v.names, id)) == Some(l.finalOf[id])
  {
    GoodMeansParentsFirst(v);
    hide Good, Children, LaidOut, BuiltUpTo, WellFormed, Resolve;
    var p := v.nodes[id].parent;
    FinalNode(v, l, ix, p);
    FinalNode(v, l, ix, id);
    NamesAgree(v, l, ix, id);
    ChildInParentsRange(v.nodes, v.names, l, id);
    ResolveIs(ix, l.finalOf[p], NameAt(v.nodes, v.names, id), l.finalOf[id]);
  }

  lemma {:induction false} WalkReachesNode(v: View, l: Layout, ix: Index, id: nat)
    requires Assembled(v, l, ix) && WellFormed(ix) && id < |v.nodes|
    ensures |l.finalOf| == |v.nodes| == |v.paths| && Walk(ix, v.paths[id]) == Some(l.finalOf[id])
    decreases id
  {
    GoodBasics(v);
    FinalNode(v, l, ix, id);
    if id > 0 {
      assert Hangs(v.nodes, v.names, v.paths, id);
      hide Good, Children, LaidOut, BuiltUpTo, WellFormed, Resolve;
      var p, name := v.nodes[id].parent, NameAt(v.nodes, v.names, id);
      WalkReachesNode(v, l, ix, p);
      LookupFindsChild(v, l, ix, id);
      WalkStep(ix, v.paths[p], name);
    }
  }

  lemma WalkStep(ix: Index, p: Path, name: Name)
    ensures Walk(ix, p + [name]) == match Walk(ix, p) case None => None case Some(ino) => Resolve(ix, ino, name)
  {
    assert Front(p + [name]) == p;
  }

  /** A child found by lookup is a node that hangs there. */
  lemma FoundChildHangs(v: View, l: Layout, ix: Index, t: nat, name: Name, ino: nat) returns (c: nat)
    requires Assembled(v, l, ix) && t < |v.nodes| == |l.finalOf| && IsChild(ix, l.finalOf[t], name, ino)
    ensures c < |v.nodes| == |v.paths| && l.finalOf[c] == ino && v.paths[c] == v.paths[t] + [name]
  {
    GoodBasics(v);
    FinalNode(v, l, ix, t);
    var a := ino - l.firstChild[t];
    ChildInode(v, l, ix, t, a);
    c := Children(v.nodes, v.names, t)[a];
    NamesAgree(v, l, ix, c);
    assert Hangs(v.nodes, v.names, v.paths, c);
  }

  lemma WalkSplit(ix: Index, p: Path)
    requires p != [] && Walk(ix, p).Some?
    ensures Walk(ix, Front(p)).Some? && Walk(ix, p) == Resolve(ix, Walk(ix, Front(p)).value, p[|p| - 1])
    ensures Front(p) + [p[|p| - 1]] == p
  {
    FrontAndLast(p);
    hide Resolve;
  }

  lemma FrontAndLast(p: Path)
    requires p != []
    ensures Front(p) + [p[|p| - 1]] == p
  {
  }

  lemma RootPath(v: View, l: Layout, ix: Index)
    requires Assembled(v, l, ix)
    ensures 0 < |v.nodes| && 0 < |v.paths| && v.paths[0] == []
  {
    hide LaidOut, BuiltUpTo;
    GoodBasics(v);
  }

  /** A walk that succeeds ends at the node whose path it followed. */
  lemma {:induction false} WalkFindsOnlyNodes(v: View, l: Layout, ix: Index, p: Path) returns (id: nat)
    requires Assembled(v, l, ix) && WellFormed(ix) && Walk(ix, p).Some?
    ensures id < |v.nodes| == |v.paths| == |l.finalOf| && v.paths[id] == p && Walk(ix, p) == Some(l.finalOf[id])
    decreases |p|
  {
    hide *;
    if p == [] {
      RootPath(v, l, ix);
      WalkReachesNode(v, l, ix, 0);
      id := 0;
    } else {
      WalkSplit(ix, p);
      var t := WalkFindsOnlyNodes(v, l, ix, Front(p));
      ResolveFinds(ix, l.finalOf[t], p[|p| - 1]);
      id := FoundChildHangs(v, l, ix, t, p[|p| - 1], Walk(ix, p).value);
    }
  }

  lemma EntriesAgree(v: View, l: Layout, ix: Index, id: nat)
    requires Assembled(v, l, ix) && id < |v.nodes|
    ensures |l.finalOf| == |v.nodes| == |v.paths| && 0 < l.finalOf[id] < |ix.nodes|
    ensures v.paths[id] in v.tree && EntryAt(ix, l.finalOf[id]) == v.tree[v.paths[id]]
  {
    hide Good, Children, LaidOut, BuiltUpTo;
    FinalNode(v, l, ix, id);
    GoodAt(v, id);
  }

  lemma WalkAgrees(v: View, l: Layout, ix: Index, p: Path)
    requires Assembled(v, l, ix) && WellFormed(ix)
    ensures WalksLike(ix, v.tree, p)
  {
    if Walk(ix, p).Some? {
      hide Good, LaidOut, BuiltUpTo, WellFormed;
      var id := WalkFindsOnlyNodes(v, l, ix, p);
      EntriesAgree(v, l, ix, id);
    } else {
      hide LaidOut, BuiltUpTo, WellFormed, Shape;
      forall id | 0 <= id < |v.paths| ensures v.paths[id] != p {
        WalkReachesNode(v, l, ix, id);
      }
    }
  }

  lemma WalksAreOneToOne(v: View, l: Layout, ix: Index)
    requires Assembled(v, l, ix) && WellFormed(ix)
    ensures OneNamePerInode(ix)
  {
    hide Good, LaidOut, BuiltUpTo, WellFormed, Walk;
    forall p, q | Walk(ix, p) == Walk(ix, q) && Walk(ix, p).Some? ensures p == q {
      var a := WalkFindsOnlyNodes(v, l, ix, p);
      var b := WalkFindsOnlyNodes(v, l, ix, q);
      SameLabelSameNode(v, l, ix, a, b);
    }
    forall ino | 0 < ino < |ix.nodes| ensures HasPath(ix, ino) {
      OriginOf(v, l, ix, ino);
      WalkReachesNode(v, l, ix, l.order[ino - 1]);
    }
  }

  lemma SameLabelSameNode(v: View, l: Layout, ix: Index, a: nat, b: nat)
    requires Assembled(v, l, ix) && a < |v.nodes| && b < |v.nodes|
    requires |l.finalOf| == |v.nodes| && l.finalOf[a] == l.finalOf[b]
    ensures a == b
  {
    hide Good, Children, Laid, Rooted;
    LabelsAreAPermutation(v.nodes, v.names, l);
  }

  /** The whole of `finish`: the index is the tree. */
  lemma AssembledRepresents(v: View, l: Layout, ix: Index)
    requires Assembled(v, l, ix)
    ensures Represents(ix, v.tree)
  {
    hide Assembled, WalksLike, OneNamePerInode, WellFormed;
    IndexIsWellFormed(v, l, ix);
    forall p ensures WalksLike(ix, v.tree, p) {
      WalkAgrees(v, l, ix, p);
    }
    WalksAreOneToOne(v, l, ix);
  }

  lemma AssembledTiles(v: View, l: Layout, ix: Index)
    requires Assembled(v, l, ix)
    ensures Tiles(ix)
  {
    GoodBasics(v);
    GoodMeansParentsFirst(v);
    hide Good, Children, LaidOut;
    FinalNode(v, l, ix, 0);
    RangesTile(v.nodes, v.names, l, 0);
    OriginOf(v, l, ix, 1);
    hide BuiltUpTo, RangeEnd, NextRange, InParentsRange;
    forall ino | 1 <= ino < |ix.nodes| ensures RangeEnd(ix, ino) == NextRange(ix, ino) {
      RangeMeetsNext(v, l, ix, ino);
    }
    forall ino | 2 <= ino < |ix.nodes| ensures InParentsRange(ix, ino) {
      InodeInParentsRange(v, l, ix, ino);
    }
  }

  lemma RangeMeetsNext(v: View, l: Layout, ix: Index, ino: nat)
    requires Assembled(v, l, ix) && 1 <= ino < |ix.nodes|
    ensures RangeEnd(ix, ino) == NextRange(ix, ino)
  {
    hide Good, Children, LaidOut, BuiltUpTo;
    OriginOf(v, l, ix, ino);
    FinalNode(v, l, ix, l.order[ino - 1]);
    RangesTile(v.nodes, v.names, l, ino - 1);
    if ino + 1 < |ix.nodes| {
      OriginOf(v, l, ix, ino + 1);
      FinalNode(v, l, ix, l.order[ino]);
    }
  }

  lemma InodeInParentsRange(v: View, l: Layout, ix: Index, ino: nat)
    requires Assembled(v, l, ix) && 2 <= ino < |ix.nodes|
    ensures InParentsRange(ix, ino)
  {
    GoodMeansParentsFirst(v);
    OriginOf(v, l, ix, ino);
    var id := l.order[ino - 1];
    FinalNode(v, l, ix, id);
    assert Hangs(v.nodes, v.names, v.paths, id);
    hide Good, Children, LaidOut, BuiltUpTo;
    FinalNode(v, l, ix, v.nodes[id].parent);
    ChildInParentsRange(v.nodes, v.names, l, id);
  }

  // ----- link counts

  /** How many of the inodes from `lo` up to `hi` are directories. */
  function DirInodes(ix: Index, lo: nat, hi: nat): nat
    requires lo <= hi <= |ix.nodes|
  {
    if lo == hi then 0 else DirInodes(ix, lo, hi - 1) + (if ix.nodes[hi - 1].kind.Dir? then 1 else 0)
  }

  /** The subdirectory count of an inode is what its range holds. */
  ghost predicate SubdirsRight(ix: Index, ino: nat)
    requires ino < |ix.nodes|
  {
    var n := ix.nodes[ino];
    n.firstChild + n.childLen <= |ix.nodes|
    && n.subdirCount == DirInodes(ix, n.firstChild, n.firstChild + n.childLen)
  }

  ghost predicate SubdirsCounted(ix: Index) {
    forall ino :: 0 < ino < |ix.nodes| ==> SubdirsRight(ix, ino)
  }

  lemma {:induction false} DirsOfRange(v: View, l: Layout, ix: Index, t: nat, a: nat)
    requires Assembled(v, l, ix) && t < |v.nodes| == |l.firstChild| && a <= |Children(v.nodes, v.names, t)|
    requires l.firstChild[t] + |Children(v.nodes, v.names, t)| <= |ix.nodes|
    ensures DirCount(v.nodes, Children(v.nodes, v.names, t)[..a]) == DirInodes(ix, l.firstChild[t], l.firstChild[t] + a)
    decreases a
  {
    hide Good, Children, LaidOut, BuiltUpTo;
    if a > 0 {
      var kids := Children(v.nodes, v.names, t);
      DirsOfRange(v, l, ix, t, a - 1);
      ChildInode(v, l, ix, t, a - 1);
      FinalNode(v, l, ix, kids[a - 1]);
      assert kids[..a][..a - 1] == kids[..a - 1];
    }
  }

  lemma SubdirsOf(v: View, l: Layout, ix: Index, ino: nat)
    requires Assembled(v, l, ix) && 0 < ino < |ix.nodes|
    ensures SubdirsRight(ix, ino)
  {
    hide Good, Children, LaidOut, BuiltUpTo;
    OriginOf(v, l, ix, ino);
    var t := l.order[ino - 1];
    FinalNode(v, l, ix, t);
    RangeIsInside(v, l, ix, t);
    var kids := Children(v.nodes, v.names, t);
    DirsOfRange(v, l, ix, t, |kids|);
    assert kids[..|kids|] == kids;
  }

  // ----- sums over a relabelled list

  function SumOver(order: seq<nat>, f: nat -> nat): nat {
    if order == [] then 0 else SumOver(order[..|order| - 1], f) + f(order[|order| - 1])
  }

  function SumBelow(n: nat, f: nat -> nat): nat {
    if n == 0 then 0 else SumBelow(n - 1, f) + f(n - 1)
  }

  lemma SumOfNone(f: nat -> nat)
    ensures SumOver([], f) == 0
  {
  }

  lemma SumStep(order: seq<nat>, i: nat, f: nat -> nat)
    requires i < |order|
    ensures SumOver(order[..i + 1], f) == SumOver(order[..i], f) + f(order[i])
  {
    assert order[..i + 1][..i] == order[..i];
  }

  lemma MetaIsThere(v: View, id: nat)
    requires Good(v) && id < |v.nodes|
    ensures v.nodes[id].meta != NO_META ==> v.nodes[id].meta < |v.metas|
  {
    GoodAt(v, id);
  }

  lemma {:induction false} SumOverAppend(a: seq<nat>, b: seq<nat>, f: nat -> nat)
    ensures SumOver(a + b, f) == SumOver(a, f) + SumOver(b, f)
    decreases |b|
  {
    if b == [] {
      assert a + b == a;
    } else {
      SumOverAppend(a, b[..|b| - 1], f);
      assert (a + b)[..|a + b| - 1] == a + b[..|b| - 1];
    }
  }

  lemma SumWithout(order: seq<nat>, k: nat, f: nat -> nat)
    requires k < |order|
    ensures SumOver(order, f) == SumOver(order[..k] + order[k + 1..], f) + f(order[k])
  {
    var front, one, back := order[..k], [order[k]], order[k + 1..];
    SumOverAppend(front, back, f);
    SumOverAppend(front, one, f);
    SumOverAppend(front + one, back, f);
    assert one[..0] == [];
    assert SumOver(one, f) == f(order[k]);
    assert order == front + one + back;
  }

  /** Relabelling does not change a sum. */
  lemma {:induction false} SumOfPermutation(order: seq<nat>, n: nat, f: nat -> nat)
    requires |order| == n
    requires forall i :: 0 <= i < n ==> order[i] < n
    requires forall i, j :: 0 <= i < j < n ==> order[i] != order[j]
    ensures SumOver(order, f) == SumBelow(n, f)
    decreases n
  {
    if n > 0 {
      if n - 1 !in order {
        assert forall i :: 0 <= i < n ==> order[i] in order;
        Pigeonhole(order, n - 1);
      }
      var k :| 0 <= k < n && order[k] == n - 1;
      var rest := order[..k] + order[k + 1..];
      assert forall i :: 0 <= i < |rest| ==> rest[i] == order[if i < k then i else i + 1];
      SumOfPermutation(rest, n - 1, f);
      SumWithout(order, k, f);
    }
  }

  lemma SumOfLabels(v: View, l: Layout, ix: Index, f: nat -> nat)
    requires Assembled(v, l, ix)
    ensures SumOver(l.order, f) == SumBelow(|v.nodes|, f)
  {
    hide Good, Children, Laid, CameFrom, NodeFor;
    LabelsAreAPermutation(v.nodes, v.names, l);
    forall i, j | 0 <= i < j < |v.nodes| ensures l.order[i] != l.order[j] {
      assert l.finalOf[l.order[i]] == i + 1 && l.finalOf[l.order[j]] == j + 1;
    }
    SumOfPermutation(l.order, |v.nodes|, f);
  }

  function SizeOf(nodes: seq<TmpNode>, metas: seq<Meta>, id: nat): nat {
    if id < |nodes| && nodes[id].meta != NO_META && nodes[id].meta < |metas| then metas[nodes[id].meta].uncompressedSize
    else 0
  }

  function SizeBy(nodes: seq<TmpNode>, metas: seq<Meta>): nat -> nat {
    (id: nat) => SizeOf(nodes, metas, id)
  }

  function SyntheticAt(nodes: seq<TmpNode>, id: nat): nat {
    if 0 < id < |nodes| && nodes[id].synthetic then 1 else 0
  }

  function SyntheticBy(nodes: seq<TmpNode>): nat -> nat {
    (id: nat) => SyntheticAt(nodes, id)
  }

  lemma {:induction false} SyntheticsAsSum(nodes: seq<TmpNode>, n: nat)
    requires n <= |nodes|
    ensures Synthetics(nodes[..n]) == SumBelow(n, SyntheticBy(nodes))
    decreases n
  {
    if n > 1 {
      SyntheticsAsSum(nodes, n - 1);
      assert nodes[..n][..n - 1] == nodes[..n - 1];
    }
  }

  /** The recount in `build`: synthetic inodes from 2 on. */
  function SyntheticInodes(nodes: seq<Node>): nat {
    if |nodes| <= 2 then 0
    else SyntheticInodes(nodes[..|nodes| - 1]) + (if nodes[|nodes| - 1].synthetic then 1 else 0)
  }

  lemma {:induction false} RecountIsSum(v: View, l: Layout, ix: Index, i: nat)
    requires Assembled(v, l, ix) && i <= |v.nodes| == |l.order|
    ensures |ix.nodes| == |v.nodes| + 1
    ensures SyntheticInodes(ix.nodes[..i + 1]) == SumOver(l.order[..i], SyntheticBy(v.nodes))
    decreases i
  {
    hide Good, Children, LaidOut;
    if i > 0 {
      RecountIsSum(v, l, ix, i - 1);
      assert ix.nodes[..i + 1][..i] == ix.nodes[..i] && l.order[..i][..i - 1] == l.order[..i - 1];
      OriginOf(v, l, ix, i);
      FinalNode(v, l, ix, l.order[i - 1]);
    }
  }

  /** The recount finds what the builder counted. */
  lemma RecountAgrees(v: View, l: Layout, ix: Index)
    requires Assembled(v, l, ix)
    ensures SyntheticInodes(ix.nodes) == Synthetics(v.nodes)
  {
    hide Good, Children, Visited;
    var n := |v.nodes|;
    RecountIsSum(v, l, ix, n);
    SyntheticsAsSum(v.nodes, n);
    SumOfLabels(v, l, ix, SyntheticBy(v.nodes));
    assert ix.nodes[..n + 1] == ix.nodes && l.order[..n] == l.order && v.nodes[..n] == v.nodes;
  }

  // ----- the code

  /** The final node for `tid`, or an error when a count does not fit. */
  method MakeNode(ghost v: View, nodes: seq<TmpNode>, names: Name, g: Groups, l: Layout, tid: nat)
    returns (r: Result<Node, BuildError>)
    requires v.nodes == nodes && v.names == names && Grouped(nodes, names, g)
    requires ParentsFirst(nodes) && ParentsInRange(nodes)
    requires tid < |nodes| < U32_MAX && |l.firstChild| == |l.finalOf| == |nodes|
    ensures r == Ok(NodeFor(v, l, tid))
  {
    hide Grouped, Children, DirCount;
    GroupOf(nodes, names, g, tid);
    var t := nodes[tid];
    var lo, hi := g.starts[tid], g.starts[tid + 1];
    var subdirCount := CountDirs(nodes, g.kids[lo..hi]);
    if subdirCount > U32_MAX {
      return Err(IndexTooLarge);
    }
    if hi - lo > U32_MAX {
      return Err(IndexTooLarge);
    }
    return Ok(Node(t.nameOff, t.nameLen, t.kind, t.synthetic,
                   if tid == 0 then 1 else l.finalOf[t.parent],
                   l.firstChild[tid], hi - lo, subdirCount, t.meta));
  }

  lemma LayoutLengths(nodes: seq<TmpNode>, names: Name, l: Layout)
    requires LaidOut(nodes, names, l)
    ensures |l.firstChild| == |l.finalOf| == |l.order| == |nodes|
  {
  }

  lemma OrderInRange(nodes: seq<TmpNode>, names: Name, l: Layout, k: nat)
    requires LaidOut(nodes, names, l) && k < |nodes|
    ensures l.order[k] < |nodes|
  {
    hide Children, Laid, Rooted;
    LabelsAreAPermutation(nodes, names, l);
  }

  /** `finish`: succeeds exactly when every label fits, and then the index is the tree. */
  method Finish(b: Builder) returns (r: Result<Index, BuildError>)
    requires b.Valid()
    ensures r.Ok? <==> |b.nodes| < U32_MAX
    ensures r.Ok? ==> Represents(r.value, b.tree) && Tiles(r.value) && SubdirsCounted(r.value)
    ensures r.Ok? ==> SyntheticInodes(r.value.nodes) == Synthetics(b.nodes) && |r.value.nodes| == |b.nodes| + 1
    ensures r.Ok? ==> r.value.metas == b.metas && r.value.symlinks == b.symlinkCount
    ensures r.Ok? && OwnSlots(b.nodes, b.metas, b.symlinkCount) ==> OwnTargets(r.value)
    ensures r.Ok? ==> r.value.totalUncompressed == Min(SumBelow(|b.nodes|, SizeBy(b.nodes, b.metas)), U64_MAX)
  {
    ghost var v := b.Now();
    var nodes, names, metas := b.nodes, b.names, b.metas;
    GoodBasics(v);
    GoodMeansParentsFirst(v);
    hide Good, Grouped, LaidOut, Represents, Tiles, BuiltUpTo;
    hide SyntheticInodes, Synthetics, OwnSlots, OwnTargets, SubdirsCounted;
    // Node ids fit in 32 bits, so grouping cannot fail.
    var grouped := GroupChildren(nodes, names);
    assert grouped.Ok?;
    var laid := BreadthFirstOrder(nodes, names, grouped.value);
    if laid.Err? {
      return Err(laid.error);
    }
    var out, total := ListNodes(v, nodes, names, metas, grouped.value, laid.value);
    var ix := Index(out, metas, names, b.symlinkCount, total);
    AssembledMeets(v, laid.value, ix);
    if OwnSlots(nodes, metas, b.symlinkCount) {
      TargetsAreOwn(v, laid.value, ix);
    }
    return Ok(ix);
  }

  /** The last loop of `finish`: the nodes in label order, and the size of everything. */
  method ListNodes(ghost v: View, nodes: seq<TmpNode>, names: Name, metas: seq<Meta>, g: Groups, l: Layout)
    returns (out: seq<Node>, total: nat)
    requires v.nodes == nodes && v.names == names && v.metas == metas && Good(v)
    requires |nodes| < U32_MAX && Grouped(nodes, names, g) && LaidOut(nodes, names, l)
    ensures BuiltUpTo(v, l, out, |nodes|)
    ensures total == Min(SumOver(l.order, SizeBy(nodes, metas)), U64_MAX)
  {
    GoodMeansParentsFirst(v);
    LayoutLengths(nodes, names, l);
    hide Good, Grouped, LaidOut, BuiltAt, SumOver, NodeFor;
    SumOfNone(SizeBy(nodes, metas));
    ghost var size := SizeBy(nodes, metas);
    total := 0;
    out := [Node(0, 0, Dir, true, 1, 0, 0, 0, NO_META)];
    assert l.order[..0] == [];
    for i: nat := 0 to |l.order|
      invariant BuiltUpTo(v, l, out, i)
      invariant total == Min(SumOver(l.order[..i], size), U64_MAX)
    {
      var tid := l.order[i];
      OrderInRange(nodes, names, l, i);
      var t := nodes[tid];
      MetaIsThere(v, tid);
      SumStep(l.order, i, size);
      if t.meta != NO_META {
        total := Min(total + metas[t.meta].uncompressedSize, U64_MAX);
      }
      var made := MakeNode(v, nodes, names, g, l, tid);
      BuildOne(v, l, out, i);
      out := out + [made.value];
    }
    assert l.order[..|l.order|] == l.order;
  }

  /** Symlink inodes have slots of their own in the target cache. */
  ghost predicate OwnTargets(ix: Index) {
    forall i, j :: 0 < i < j < |ix.nodes| && ix.nodes[i].kind.Symlink? && ix.nodes[j].kind.Symlink? ==>
      DifferentSlots(ix, i, j)
  }

  ghost predicate DifferentSlots(ix: Index, i: nat, j: nat)
    requires i < |ix.nodes| && j < |ix.nodes|
  {
    var a, b := ix.nodes[i].meta, ix.nodes[j].meta;
    && a < |ix.metas| && b < |ix.metas|
    && ix.metas[a].symlinkSlot != ix.metas[b].symlinkSlot
    && ix.metas[a].symlinkSlot < ix.symlinks && ix.metas[b].symlinkSlot < ix.symlinks
  }

  lemma TargetsAreOwn(v: View, l: Layout, ix: Index)
    requires Assembled(v, l, ix) && OwnSlots(v.nodes, v.metas, ix.symlinks)
    ensures OwnTargets(ix)
  {
    hide Good, LaidOut, BuiltUpTo, Children;
    forall i, j | 0 < i < j < |ix.nodes| && ix.nodes[i].kind.Symlink? && ix.nodes[j].kind.Symlink?
      ensures DifferentSlots(ix, i, j)
    {
      OriginOf(v, l, ix, i);
      OriginOf(v, l, ix, j);
      var a, b := l.order[i - 1], l.order[j - 1];
      FinalNode(v, l, ix, a);
      FinalNode(v, l, ix, b);
      assert a < b || b < a;
    }
  }

  lemma AssembledSize(v: View, l: Layout, ix: Index)
    requires Assembled(v, l, ix)
    ensures |ix.nodes| == |v.nodes| + 1
  {
  }

  lemma AssembledMeets(v: View, l: Layout, ix: Index)
    requires Assembled(v, l, ix)
    ensures Represents(ix, v.tree) && Tiles(ix) && SubdirsCounted(ix)
    ensures SyntheticInodes(ix.nodes) == Synthetics(v.nodes) && |ix.nodes| == |v.nodes| + 1
    ensures SumOver(l.order, SizeBy(v.nodes, v.metas)) == SumBelow(|v.nodes|, SizeBy(v.nodes, v.metas))
  {
    hide Assembled, Represents, Tiles, SyntheticInodes, Synthetics, SubdirsRight, SumOver, SumBelow;
    AssembledSize(v, l, ix);
    forall ino | 0 < ino < |ix.nodes| ensures SubdirsRight(ix, ino) {
      SubdirsOf(v, l, ix, ino);
    }
    AssembledRepresents(v, l, ix);
    AssembledTiles(v, l, ix);
    RecountAgrees(v, l, ix);
    SumOfLabels(v, l, ix, SizeBy(v.nodes, v.metas));
  }

  lemma BuildOne(v: View, l: Layout, out: seq<Node>, i: nat)
    requires BuiltUpTo(v, l, out, i) && i < |l.order|
    requires l.order[i] < |v.nodes| == |l.firstChild| == |l.finalOf|
    ensures BuiltUpTo(v, l, out + [NodeFor(v, l, l.order[i])], i + 1)
  {
    hide NodeFor;
    var out' := out + [NodeFor(v, l, l.order[i])];
    forall k | 0 <= k < i + 1 ensures BuiltAt(v, l, out', k) {
      assert k < i ==> BuiltAt(v, l, out, k);
    }
  }

  // ----- from records to index

  /**
   The books of a whole build: every record is settled once, an entry that was displaced by a
   directory is settled a second time, and every node but the root is an entry or synthetic.
   */
  ghost predicate Accounted(ix: Index, stats: Stats, records: nat, takeovers: nat) {
    && Settled(stats, takeovers) == records
    && stats.entries == |ix.metas|
    && stats.syntheticDirs == SyntheticInodes(ix.nodes)
    && stats.entries + stats.syntheticDirs + 2 == |ix.nodes| + takeovers
    && stats.encrypted == EncryptedIn(ix.metas) && stats.unsupported == UnsupportedIn(ix.metas)
    && stats.symlinks == ix.symlinks
    && OwnTargets(ix)
  }

  /** How many records have a path, or sizes, that cannot be used. */
  ghost function BadPaths(raws: seq<RawRecord>): nat {
    if raws == [] then 0
    else BadPaths(raws[..|raws| - 1]) + (if Acceptable(raws[|raws| - 1].path) then 0 else 1)
  }

  ghost function BadSizes(raws: seq<RawRecord>): nat {
    if raws == [] then 0
    else
      var last := raws[|raws| - 1];
      BadSizes(raws[..|raws| - 1]) + (if Acceptable(last.path) && !Accepted(last) then 1 else 0)
  }

  /** How many bytes the paths of some records take up. */
  function PathBytes(raws: seq<RawRecord>): nat {
    if raws == [] then 0 else PathBytes(raws[..|raws| - 1]) + |raws[|raws| - 1].path|
  }

  lemma {:induction false} AcceptedPrefix(raws: seq<RawRecord>, i: nat)
    requires i <= |raws|
    ensures AcceptedOf(raws[..i]) <= AcceptedOf(raws)
    decreases |raws|
  {
    if i == |raws| {
      assert raws[..i] == raws;
    } else {
      AcceptedPrefix(raws[..|raws| - 1], i);
      assert raws[..|raws| - 1][..i] == raws[..i];
    }
  }

  /** A record that cannot be added means that the whole list does not fit. */
  lemma NeverFits(raws: seq<RawRecord>, i: nat, t: Dirs)
    requires i < |raws| && Accepted(raws[i]) && RecordOf(raws[i]).path != []
    requires Blocked(Grow(AcceptedOf(raws[..i])), t, RecordOf(raws[i]))
    ensures !IndexFits(AcceptedOf(raws))
  {
    hide Accepted, RecordOf, Grow, Newest, NameBytes, IndexFits;
    var rs, all := AcceptedOf(raws[..i + 1]), AcceptedOf(raws);
    AcceptedStep(raws, i);
    AcceptedPrefix(raws, i + 1);
    BlockedLacks(AcceptedOf(raws[..i]), RecordOf(raws[i]), t);
    assert all == rs + all[|rs|..];
    LacksForGood(rs, all[|rs|..], t);
    TooLarge(all, t);
  }

  /** The newest name may end beyond 32 bits, and no other. */
  lemma NamesStep(raws: seq<RawRecord>, i: nat, names: nat)
    requires i < |raws|
    requires var rs := AcceptedOf(raws[..i]);
             && Closed(Grow(rs)) && NameBytes(Grow(rs).Keys) <= U32_MAX + NameLength(Newest(rs))
             && (Accepted(raws[i]) ==> RecordOf(raws[i]).path != [])
             && (Accepted(raws[i]) && RecordOf(raws[i]).path !in Grow(rs) ==>
                 names <= U32_MAX + NameLength(RecordOf(raws[i]).path))
    requires names == NameBytes(Grow(AcceptedOf(raws[..i + 1])).Keys)
    ensures names <= U32_MAX + NameLength(Newest(AcceptedOf(raws[..i + 1])))
  {
    hide Accepted, RecordOf, Grow, Newest, NameBytes;
    AcceptedStep(raws, i);
    if Accepted(raws[i]) {
      GrowOne(AcceptedOf(raws[..i]), RecordOf(raws[i]));
      RecordKeys(Grow(AcceptedOf(raws[..i])), RecordOf(raws[i]));
    }
  }

  lemma FitsWhen(rs: seq<Record>)
    requires Named(rs) && NameBytes(Grow(rs).Keys) <= U32_MAX + NameLength(Newest(rs))
    ensures IndexFits(rs) <==> |Grow(rs).Keys| < U32_MAX
  {
  }

  lemma {:induction false} BytesOfAccepted(raws: seq<RawRecord>)
    ensures AllBytes(AcceptedOf(raws)) <= PathBytes(raws) && AllComponents(AcceptedOf(raws))
    decreases |raws|
  {
    if raws != [] {
      var front, last := raws[..|raws| - 1], raws[|raws| - 1];
      BytesOfAccepted(front);
      if Accepted(last) {
        SizeOfComponents(last.path);
        ComponentsAreComponents(last.path);
        assert AcceptedOf(raws)[..|AcceptedOf(raws)| - 1] == AcceptedOf(front);
      }
    }
  }

  /** Records whose paths stay below 32 bits together always make an index. */
  lemma ShortListsFit(raws: seq<RawRecord>)
    requires PathBytes(raws) + 1 < U32_MAX
    ensures IndexFits(AcceptedOf(raws))
  {
    BytesOfAccepted(raws);
    FewBytesFit(AcceptedOf(raws));
  }

  lemma BadStep(raws: seq<RawRecord>, i: nat)
    requires i < |raws|
    ensures BadPaths(raws[..i + 1]) == BadPaths(raws[..i]) + (if Acceptable(raws[i].path) then 0 else 1)
    ensures BadSizes(raws[..i + 1])
         == BadSizes(raws[..i]) + (if Acceptable(raws[i].path) && !Accepted(raws[i]) then 1 else 0)
  {
    hide Acceptable, Accepted;
    assert raws[..i + 1][..i] == raws[..i];
  }

  lemma AcceptedStep(raws: seq<RawRecord>, i: nat)
    requires i < |raws|
    ensures Accepted(raws[i]) ==> AcceptedOf(raws[..i + 1]) == AcceptedOf(raws[..i]) + [RecordOf(raws[i])]
    ensures Accepted(raws[i]) ==>
      RecordOf(raws[i]).path != [] &&
      Grow(AcceptedOf(raws[..i + 1])) == AddRecord(Grow(AcceptedOf(raws[..i])), RecordOf(raws[i]))
    ensures !Accepted(raws[i]) ==> AcceptedOf(raws[..i + 1]) == AcceptedOf(raws[..i])
  {
    hide Accepted, RecordOf, Grow, AddRecord;
    assert raws[..i + 1][..i] == raws[..i];
    if Accepted(raws[i]) {
      AcceptedHasPath(raws[i]);
      GrowOne(AcceptedOf(raws[..i]), RecordOf(raws[i]));
    }
  }

  lemma AcceptedHasPath(raw: RawRecord)
    requires Accepted(raw)
    ensures RecordOf(raw).path != []
  {
  }

  lemma NoneAccepted()
    ensures Grow(AcceptedOf([])) == ROOT_ONLY
  {
  }

  lemma NoneBad()
    ensures BadPaths([]) == 0 && BadSizes([]) == 0
  {
  }

  lemma BooksCarryOver(
      nodes: seq<TmpNode>, metas: seq<Meta>, stats: Stats, takeovers: nat, symlinkCount: nat, ix: Index, records: nat)
    requires Balanced(nodes, metas, stats, takeovers, symlinkCount) && Settled(stats, takeovers) == records
    requires ix.metas == metas && ix.symlinks == symlinkCount && |ix.nodes| == |nodes| + 1
    requires SyntheticInodes(ix.nodes) == Synthetics(nodes)
    requires OwnSlots(nodes, metas, symlinkCount) ==> OwnTargets(ix)
    ensures Accounted(ix, stats.(syntheticDirs := SyntheticInodes(ix.nodes)), records, takeovers)
  {
  }

  /** `build`: for every record list the index is the tree of the accepted records. */
  method Build(raws: seq<RawRecord>, hint: nat, hash: Hash)
    returns (r: Result<(Index, Stats), BuildError>, ghost takeovers: nat)
    requires |raws| < NO_META
    ensures r.Ok? ==> Represents(r.value.0, Grow(AcceptedOf(raws))) && Tiles(r.value.0) && SubdirsCounted(r.value.0)
    ensures r.Ok? ==> Accounted(r.value.0, r.value.1, |raws|, takeovers)
    ensures r.Ok? <==> IndexFits(AcceptedOf(raws))
    ensures r.Ok? ==> r.value.1.rejectedPaths == BadPaths(raws) && r.value.1.rejectedSizes == BadSizes(raws)
  {
    NoneBad();
    NoneAccepted();
    NamesOfRoot();
    hide Acceptable, Accepted, AddRecord, RecordOf, AcceptedOf, Grow, BadPaths, BadSizes;
    hide IndexFits, Newest, NameBytes, NameLength, Blocked, Overfull;
    hide Builder.Valid, Balanced, Represents, Tiles, SubdirsCounted, Accounted, OwnSlots, SyntheticInodes, Synthetics;
    takeovers := 0;
    var b := new Builder(hint, hash);
    assert raws[..0] == [];
    for i: nat := 0 to |raws|
      invariant b.Valid() && b.InBalance() && fresh(b) && fresh(b.interner) && fresh(b.interner.slots)
      invariant |b.metas| <= i && b.tree == Grow(AcceptedOf(raws[..i]))
      invariant Settled(b.stats, b.takeovers) == i
      invariant NameBytes(b.tree.Keys) <= U32_MAX + NameLength(Newest(AcceptedOf(raws[..i])))
      invariant b.stats.rejectedPaths == BadPaths(raws[..i]) && b.stats.rejectedSizes == BadSizes(raws[..i])
    {
      AcceptedStep(raws, i);
      BadStep(raws, i);
      b.Basics();
      var added := b.Add(raws[i]);
      if added.Err? {
        NeverFits(raws, i, b.tree);
        return Err(added.error), takeovers;
      }
      b.Basics();
      NamesStep(raws, i, |b.names|);
    }
    assert raws[..|raws|] == raws;
    var stats := b.stats;
    takeovers := b.takeovers;
    b.Basics();
    FitsWhen(AcceptedOf(raws));
    var finished := Finish(b);
    if finished.Err? {
      return Err(finished.error), takeovers;
    }
    var ix := finished.value;
    var synthetic := Recount(ix);
    BooksCarryOver(b.nodes, b.metas, stats, takeovers, b.symlinkCount, ix, |raws|);
    return Ok((ix, stats.(syntheticDirs := synthetic))), takeovers;
  }

  method Recount(ix: Index) returns (n: nat)
    ensures n == SyntheticInodes(ix.nodes)
  {
    n := 0;
    var i := 2;
    while i < |ix.nodes|
      invariant 2 <= i && (i <= |ix.nodes| || |ix.nodes| < 2)
      invariant n == SyntheticInodes(if i <= |ix.nodes| then ix.nodes[..i] else ix.nodes)
    {
      assert ix.nodes[..i + 1][..i] == ix.nodes[..i];
      if ix.nodes[i].synthetic {
        n := n + 1;
      }
      i := i + 1;
    }
    assert |ix.nodes| >= 2 ==> ix.nodes[..|ix.nodes|] == ix.nodes;
  }

  /** What a built index answers for a path is what the record list says, read as a whole. */
  lemma LookupsMeetExpectation(ix: Index, rs: seq<Record>, p: Path)
    requires Named(rs) && Represents(ix, Grow(rs))
    ensures match Walk(ix, p)
            case None => Expected(rs, p) == None
            case Some(ino) => 0 < ino < |ix.nodes| && Expected(rs, p) == Some(EntryAt(ix, ino))
    ensures Walk(ix, p).Some? <==> p == [] || exists i :: 0 <= i < |rs| && p <= rs[i].path
  {
    hide Grow, Walk, WellFormed, OneNamePerInode;
    assert WalksLike(ix, Grow(rs), p);
    GrowMeetsExpectation(rs, p);
    ExistsIffPrefix(rs, p);
  }

  // ----- which kind a name gets

  /** The file type bits say symbolic link. */
  lemma LinkBits(mode: nat)
    ensures IsSymlinkMode(mode) <==> BitAnd(mode, 0xF000) == 0xA000
  {
    hide BitAnd;
    TypeBits(mode);
    FourthDigit(mode);
  }

  lemma FourthDigit(mode: nat)
    ensures mode % 0x1_0000 / 0x1000 == mode / 0x1000 % 16
  {
    var a, b := mode / 0x1_0000, mode % 0x1_0000;
    assert mode == 0x1_0000 * a + b;
    assert mode / 0x1000 == 16 * a + b / 0x1000;
  }

  /** Masking the type bits looks at the four bits above the lowest twelve. */
  lemma TypeBits(mode: nat)
    ensures BitAnd(mode, 0xF000) == 0x1000 * (mode / 0x1000 % 16)
  {
    assert Pow2(4) == 16;
    hide BitAnd, Pow2;
    MaskIsRemainder(mode / 0x1000, 4);
    FourBitsUp(mode, 0xF00);
    FourBitsUp(mode / 16, 0xF0);
    FourBitsUp(mode / 0x100, 0xF);
    assert mode / 16 / 16 == mode / 0x100 && mode / 0x100 / 16 == mode / 0x1000;
  }

  lemma FourBitsUp(x: nat, m: nat)
    ensures BitAnd(x, 16 * m) == 16 * BitAnd(x / 16, m)
  {
    hide BitAnd;
    HalfOfMask(x, 8 * m);
    HalfOfMask(x / 2, 4 * m);
    HalfOfMask(x / 4, 2 * m);
    HalfOfMask(x / 8, m);
    assert x / 2 / 2 == x / 4 && x / 4 / 2 == x / 8 && x / 8 / 2 == x / 16;
  }

  /** The accepted records are the accepted raw ones, in their order. */
  ghost predicate ComesFrom(raws: seq<RawRecord>, j: nat, k: nat) {
    && k < |raws| && Accepted(raws[k]) && j < |AcceptedOf(raws)|
    && AcceptedOf(raws)[j] == RecordOf(raws[k])
  }

  /** A record before one of the raw ones. */
  ghost predicate ComesBefore(raws: seq<RawRecord>, j: nat, k: nat) {
    exists k': nat :: k' < k && ComesFrom(raws, j, k')
  }

  lemma {:induction false} RankOf(raws: seq<RawRecord>, k: nat) returns (j: nat)
    requires k < |raws| && Accepted(raws[k])
    ensures ComesFrom(raws, j, k)
    ensures forall i :: 0 <= i < j ==> ComesBefore(raws, i, k)
    decreases |raws|
  {
    var front, last := raws[..|raws| - 1], |raws| - 1;
    if k < last {
      j := RankOf(front, k);
      forall i | 0 <= i < j ensures ComesBefore(raws, i, k) {
        assert ComesBefore(front, i, k);
        var k': nat :| k' < k && ComesFrom(front, i, k');
        assert ComesFrom(raws, i, k');
      }
    } else {
      j := |AcceptedOf(front)|;
      forall i | 0 <= i < j ensures ComesBefore(raws, i, k) {
        var k' := OriginOfRecord(front, i);
        assert ComesFrom(raws, i, k');
      }
    }
  }

  lemma {:induction false} OriginOfRecord(raws: seq<RawRecord>, j: nat) returns (k: nat)
    requires j < |AcceptedOf(raws)|
    ensures ComesFrom(raws, j, k)
    decreases |raws|
  {
    var front := raws[..|raws| - 1];
    if j < |AcceptedOf(front)| {
      k := OriginOfRecord(front, j);
    } else {
      k := |raws| - 1;
    }
  }

  /**
   A name that some record declares as a file, and nothing else before it or below it, is a symbolic
   link if the type bits of its mode say so and a file otherwise, with that record.
   */
  lemma KindOfFirst(ix: Index, raws: seq<RawRecord>, k: nat)
    requires Represents(ix, Grow(AcceptedOf(raws)))
    requires k < |raws| && Accepted(raws[k]) && !raws[k].isDir
    requires forall i :: 0 <= i < k && Accepted(raws[i]) ==> Components(raws[i].path) != Components(raws[k].path)
    requires forall i :: 0 <= i < |raws| && Accepted(raws[i]) ==>
      !(Components(raws[k].path) < Components(raws[i].path))
    ensures var at := Walk(ix, Components(raws[k].path));
            && at.Some? && 0 < at.value < |ix.nodes|
            && EntryAt(ix, at.value).kind == (if BitAnd(raws[k].meta.mode, 0xF000) == 0xA000 then Symlink else File)
            && EntryAt(ix, at.value).meta == Some(raws[k].meta.(symlinkSlot := 0))
  {
    hide Components, Accepted, Grow, AcceptedOf, Represents, Walk, EntryAt;
    var rs, p := AcceptedOf(raws), Components(raws[k].path);
    var j := RankOf(raws, k);
    forall i | 0 <= i < j ensures !Exact(rs[i], p) {
      assert ComesBefore(raws, i, k);
      var k': nat :| k' < k && ComesFrom(raws, i, k');
    }
    forall i | 0 <= i < |rs| ensures !Below(rs[i], p) {
      var k' := OriginOfRecord(raws, i);
    }
    AcceptedHasPath(raws[k]);
    LinkBits(raws[k].meta.mode);
    LookupsMeetExpectation(ix, rs, p);
    assert FirstBelow(rs, p) == |rs| && FirstExact(rs, p) == j;
  }
}
