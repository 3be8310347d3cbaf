/**
 The builder: turns central directory records, in whatever order they come, into temporary
 nodes. Its state is proved to mirror the tree of module `Tree` after every record.
 */
module Building {
  import opened Bytes
  import opened Paths
  import opened Tree
  import opened Interning
  import opened Limits

  const NO_META: nat := U32_MAX
  const U16_MAX: nat := 0xFFFF
  const STORE: nat := 0

  /** A central directory record as it is read. */
  datatype RawRecord = RawRecord(path: Name, isDir: bool, meta: Meta)

  datatype BuildError = IndexTooLarge

  datatype Stats = Stats(
    entries: nat,
    rejectedPaths: nat,
    rejectedSizes: nat,
    duplicates: nat,
    encrypted: nat,
    unsupported: nat,
    syntheticDirs: nat,
    symlinks: nat)

  /** The methods this build can read: stored, deflated, and zstd under either number. */
  predicate Supported(methodRaw: nat) {
    methodRaw in {0, 8, 20, 93}
  }

  predicate StoredSizesDiffer(m: Meta) {
    !m.encrypted && m.methodRaw == STORE && m.compressedSize != m.uncompressedSize
  }

  predicate NoCompressedBytes(m: Meta) {
    m.uncompressedSize > 0 && m.compressedSize == 0
  }

  /** The records that reach the tree. */
  ghost predicate Accepted(r: RawRecord) {
    Acceptable(r.path) && !StoredSizesDiffer(r.meta) && !NoCompressedBytes(r.meta)
  }

  /** In terms of sizes: an unencrypted stored entry is as long as its bytes, and something has bytes. */
  lemma AcceptedIff(r: RawRecord)
    ensures Accepted(r) <==>
      && Acceptable(r.path)
      && (r.meta.encrypted || r.meta.methodRaw != 0 || r.meta.compressedSize == r.meta.uncompressedSize)
      && (r.meta.uncompressedSize == 0 || 0 < r.meta.compressedSize)
  {
  }

  ghost function RecordOf(r: RawRecord): Record {
    Record(Components(r.path), r.isDir, r.meta.(symlinkSlot := 0))
  }

  ghost function AcceptedOf(raws: seq<RawRecord>): (rs: seq<Record>)
    ensures Named(rs)
  {
    if raws == [] then []
    else
      var front, last := AcceptedOf(raws[..|raws| - 1]), raws[|raws| - 1];
      if Accepted(last) then front + [RecordOf(last)] else front
  }

  // ----- node lists as values

  /** A node other than the root hangs below an earlier directory, under its own name. */
  ghost predicate Hangs(nodes: seq<TmpNode>, names: Name, paths: seq<Path>, id: nat)
    requires id < |nodes| == |paths| && AllInBlob(nodes, names)
  {
    var n := nodes[id];
    n.parent < id && nodes[n.parent].kind.Dir? && paths[id] == paths[n.parent] + [NameOf(n, names)]
  }

  ghost predicate Distinct(paths: seq<Path>) {
    forall i, j :: 0 <= i < j < |paths| ==> paths[i] != paths[j]
  }

  /** The nodes form a tree rooted at node 0, and `paths` spells out where each one is. */
  ghost predicate Shape(nodes: seq<TmpNode>, names: Name, paths: seq<Path>) {
    && 0 < |nodes| == |paths| && AllInBlob(nodes, names)
    && paths[0] == [] && nodes[0].kind.Dir?
    && (forall id :: 1 <= id < |nodes| ==> Hangs(nodes, names, paths, id))
    && Distinct(paths)
  }

  /** A node without a record is a directory; any other has one. */
  ghost predicate WellTagged(n: TmpNode, metas: seq<Meta>) {
    if n.synthetic then n.kind.Dir? && n.meta == NO_META else n.meta < |metas| <= NO_META
  }

  ghost function EntryOf(n: TmpNode, metas: seq<Meta>): Entry
    requires WellTagged(n, metas)
  {
    if n.synthetic then SYNTHETIC else Entry(n.kind, Some(metas[n.meta].(symlinkSlot := 0)))
  }

  /** The nodes are the tree, entry by entry. */
  ghost predicate Mirrors(nodes: seq<TmpNode>, metas: seq<Meta>, paths: seq<Path>, tree: Dirs) {
    && |nodes| == |paths|
    && (forall p :: p in tree <==> p in paths)
    && (forall id :: 0 <= id < |nodes| ==> WellTagged(nodes[id], metas) && tree[paths[id]] == EntryOf(nodes[id], metas))
  }

  ghost predicate Childless(nodes: seq<TmpNode>, id: nat) {
    forall c :: 1 <= c < |nodes| ==> nodes[c].parent != id
  }

  lemma NewPathIsNew(nodes: seq<TmpNode>, names: Name, paths: seq<Path>, parent: nat, name: Name)
    requires Shape(nodes, names, paths) && parent < |nodes|
    requires forall id :: 1 <= id < |nodes| ==> KeyOf(nodes[id], names) != Key(parent, name)
    ensures paths[parent] + [name] !in paths
  {
    var p := paths[parent] + [name];
    forall id | 0 <= id < |paths| ensures paths[id] != p {
      if id > 0 {
        assert Hangs(nodes, names, paths, id);
        SameEnd(paths[nodes[id].parent], NameOf(nodes[id], names), paths[parent], name);
      }
    }
  }

  lemma SameEnd(a: Path, x: Name, b: Path, y: Name)
    ensures a + [x] == b + [y] ==> a == b && x == y
  {
    if a + [x] == b + [y] {
      assert (a + [x])[..|a|] == a && (b + [y])[..|b|] == b;
      assert (a + [x])[|a|] == x && (b + [y])[|b|] == y;
    }
  }

  lemma BlobMayGrow(nodes: seq<TmpNode>, names: Name, more: Name)
    requires AllInBlob(nodes, names)
    ensures AllInBlob(nodes, names + more) && Keys(nodes, names + more) == Keys(nodes, names)
  {
    forall i | 0 <= i < |nodes| ensures NameOf(nodes[i], names + more) == NameOf(nodes[i], names) {
    }
  }

  lemma ShapeAfterAppend(nodes: seq<TmpNode>, names: Name, paths: seq<Path>, n: TmpNode, name: Name)
    requires Shape(nodes, names, paths) && n.parent < |nodes| && nodes[n.parent].kind.Dir?
    requires n.nameOff == |names| && n.nameLen == |name|
    requires paths[n.parent] + [name] !in paths
    ensures Shape(nodes + [n], names + name, paths + [paths[n.parent] + [name]])
    ensures AllInBlob(nodes + [n], names + name)
    ensures Keys(nodes + [n], names + name) == Keys(nodes, names) + [Key(n.parent, name)]
  {
    var nodes', names', paths' := nodes + [n], names + name, paths + [paths[n.parent] + [name]];
    BlobMayGrow(nodes, names, name);
    assert NameOf(n, names') == name;
    forall id | 1 <= id < |nodes'| ensures Hangs(nodes', names', paths', id) {
      if id < |nodes| {
        assert Hangs(nodes, names, paths, id);
        assert Keys(nodes, names')[id] == Keys(nodes, names)[id];
      }
    }
    assert forall i :: 0 <= i < |paths| ==> paths[i] in paths;
    assert Keys(nodes', names') == Keys(nodes, names) + [Key(n.parent, name)];
  }

  lemma MirrorAfterAppend(
      nodes: seq<TmpNode>, metas: seq<Meta>, paths: seq<Path>, tree: Dirs, n: TmpNode, p: Path)
    requires Mirrors(nodes, metas, paths, tree) && p !in paths && WellTagged(n, metas)
    ensures Mirrors(nodes + [n], metas, paths + [p], tree[p := EntryOf(n, metas)])
  {
    var nodes', paths' := nodes + [n], paths + [p];
    forall id | 0 <= id < |nodes'|
      ensures WellTagged(nodes'[id], metas) && tree[p := EntryOf(n, metas)][paths'[id]] == EntryOf(nodes'[id], metas)
    {
      if id < |nodes| {
        assert paths[id] in paths;
      }
    }
  }

  /** A node may change its kind, flag and record, as long as a parent stays a directory. */
  lemma ShapeAfterUpdate(nodes: seq<TmpNode>, names: Name, paths: seq<Path>, id: nat, n: TmpNode)
    requires Shape(nodes, names, paths) && 0 < id < |nodes|
    requires n == nodes[id].(kind := n.kind, synthetic := n.synthetic, meta := n.meta)
    requires n.kind.Dir? || Childless(nodes, id)
    ensures Shape(nodes[id := n], names, paths)
    ensures Keys(nodes[id := n], names) == Keys(nodes, names)
  {
    var nodes' := nodes[id := n];
    forall i | 1 <= i < |nodes'| ensures Hangs(nodes', names, paths, i) {
      assert Hangs(nodes, names, paths, i);
    }
  }

  lemma MirrorAfterUpdate(
      nodes: seq<TmpNode>, metas: seq<Meta>, paths: seq<Path>, tree: Dirs, id: nat, n: TmpNode, metas': seq<Meta>)
    requires Mirrors(nodes, metas, paths, tree) && Distinct(paths) && id < |nodes|
    requires metas <= metas' && |metas'| <= NO_META && WellTagged(n, metas')
    ensures Mirrors(nodes[id := n], metas', paths, tree[paths[id] := EntryOf(n, metas')])
  {
    var nodes', tree' := nodes[id := n], tree[paths[id] := EntryOf(n, metas')];
    forall i | 0 <= i < |nodes'|
      ensures WellTagged(nodes'[i], metas') && tree'[paths[i]] == EntryOf(nodes'[i], metas')
    {
      assert paths[i] in paths;
    }
    assert paths[id] in paths;
  }

  lemma {:induction false} PrefixesAreDirs(
      nodes: seq<TmpNode>, names: Name, metas: seq<Meta>, paths: seq<Path>, tree: Dirs, id: nat, q: Path)
    requires Shape(nodes, names, paths) && Mirrors(nodes, metas, paths, tree) && id < |nodes| && q < paths[id]
    ensures q in tree && tree[q].kind.Dir?
    decreases id
  {
    assert Hangs(nodes, names, paths, id);
    var above := nodes[id].parent;
    assert paths[above] in paths;
    if q != paths[above] {
      assert q < paths[above];
      PrefixesAreDirs(nodes, names, metas, paths, tree, above, q);
    }
  }

  lemma ShapeMakesClosed(nodes: seq<TmpNode>, names: Name, metas: seq<Meta>, paths: seq<Path>, tree: Dirs)
    requires Shape(nodes, names, paths) && Mirrors(nodes, metas, paths, tree)
    ensures Closed(tree)
  {
    assert paths[0] in paths;
    forall p, q | p in tree && q < p ensures q in tree && tree[q].kind.Dir? {
      var id :| 0 <= id < |paths| && paths[id] == p;
      PrefixesAreDirs(nodes, names, metas, paths, tree, id, q);
    }
  }

  // ----- the builder's state as a value

  /** The growing part of a builder: its lists, where each node is, and what they amount to. */
  datatype View = View(nodes: seq<TmpNode>, names: Name, metas: seq<Meta>, paths: seq<Path>, tree: Dirs)

  ghost predicate Good(v: View) {
    && Shape(v.nodes, v.names, v.paths)
    && Mirrors(v.nodes, v.metas, v.paths, v.tree)
    && |v.nodes| <= U32_MAX
    && v.nodes[0].synthetic
    && Measured(v)
  }

  /** The lists are exactly as long as the tree makes them. */
  ghost predicate Measured(v: View) {
    |v.nodes| == |v.tree.Keys| && |v.names| == NameBytes(v.tree.Keys)
  }

  lemma MeasuredAfterAppend(v: View, n: TmpNode, name: Name)
    requires Measured(v) && n.parent < |v.paths| && v.paths[n.parent] + [name] !in v.tree
    ensures Measured(AppendNode(v, n, name))
  {
    var p := v.paths[n.parent] + [name];
    OneMoreName(v.tree.Keys, p);
    assert AppendNode(v, n, name).tree.Keys == v.tree.Keys + {p};
  }

  lemma MeasuredAfterUpdate(v: View, id: nat, n: TmpNode, metas: seq<Meta>, e: Entry)
    requires Measured(v) && id < |v.nodes| == |v.paths| && v.paths[id] in v.tree
    ensures Measured(UpdateNode(v, id, n, metas, e))
  {
    assert v.tree[v.paths[id] := e].Keys == v.tree.Keys;
  }

  ghost function KeysOf(v: View): seq<Key> {
    if AllInBlob(v.nodes, v.names) then Keys(v.nodes, v.names) else []
  }

  ghost predicate IsDirAt(v: View, id: nat, p: Path) {
    id < |v.nodes| == |v.paths| && v.nodes[id].kind.Dir? && v.paths[id] == p
  }

  lemma GoodBasics(v: View)
    requires Good(v)
    ensures 0 < |v.nodes| == |v.paths| <= U32_MAX && AllInBlob(v.nodes, v.names)
    ensures |v.nodes| == |v.tree.Keys| && |v.names| == NameBytes(v.tree.Keys)
    ensures IsDirAt(v, 0, [])
    ensures Closed(v.tree)
  {
    ShapeMakesClosed(v.nodes, v.names, v.metas, v.paths, v.tree);
  }

  lemma GoodAt(v: View, id: nat)
    requires Good(v) && id < |v.nodes|
    ensures |v.nodes| == |v.paths| && WellTagged(v.nodes[id], v.metas)
    ensures v.paths[id] in v.tree && v.tree[v.paths[id]] == EntryOf(v.nodes[id], v.metas)
  {
    assert v.paths[id] in v.paths;
  }

  /** What interning a name below `parent` did. */
  ghost predicate Interned(a: View, b: View, parent: nat, name: Name, id: nat, isNew: bool) {
    && parent < |a.paths| && 0 < id < |b.nodes| == |b.paths|
    && var p := a.paths[parent] + [name];
       && b.paths[id] == p && b.metas == a.metas
       && if isNew then
            && id == |a.nodes| && p !in a.tree
            && b.nodes == a.nodes + [TmpNode(|a.names|, |name|, Dir, true, parent, NO_META)]
            && b.names == a.names + name && b.paths == a.paths + [p] && b.tree == a.tree[p := SYNTHETIC]
          else a == b
  }

  ghost function AppendNode(v: View, n: TmpNode, name: Name): View {
    var p := (if n.parent < |v.paths| then v.paths[n.parent] else []) + [name];
    View(v.nodes + [n], v.names + name, v.metas, v.paths + [p], v.tree[p := SYNTHETIC])
  }

  lemma GoodAfterAppend(v: View, parent: nat, name: Name)
    requires Good(v) && parent < |v.nodes| < U32_MAX && v.nodes[parent].kind.Dir?
    requires forall id :: 1 <= id < |v.nodes| ==> KeyOf(v.nodes[id], v.names) != Key(parent, name)
    ensures var n := TmpNode(|v.names|, |name|, Dir, true, parent, NO_META);
            var w := AppendNode(v, n, name);
            Good(w) && KeysOf(w) == KeysOf(v) + [Key(parent, name)] && Interned(v, w, parent, name, |v.nodes|, true)
  {
    hide Measured, Shape, Mirrors, AllInBlob, Keys, KeyOf, NameOf;
    var n := TmpNode(|v.names|, |name|, Dir, true, parent, NO_META);
    NewPathIn(v, parent, name);
    GoodBasics(v);
    ShapeAfterAppend(v.nodes, v.names, v.paths, n, name);
    MirrorAfterAppend(v.nodes, v.metas, v.paths, v.tree, n, v.paths[parent] + [name]);
    MeasuredAfterAppend(v, n, name);
  }

  lemma KeysAre(w: View, v: View, key: Key)
    requires Good(w) && KeysOf(w) == KeysOf(v) + [key]
    ensures AllInBlob(w.nodes, w.names) && Keys(w.nodes, w.names) == KeysOf(w) && |KeysOf(w)| == |w.nodes|
    ensures |KeysOf(w)| > 0 && KeysOf(w)[..|KeysOf(w)| - 1] == KeysOf(v)
  {
  }

  /** A key that is not filed is a path that is not in the tree. */
  lemma NewPathIn(v: View, parent: nat, name: Name)
    requires Good(v) && parent < |v.nodes|
    requires forall id :: 1 <= id < |v.nodes| ==> KeyOf(v.nodes[id], v.names) != Key(parent, name)
    ensures |v.nodes| == |v.paths| && v.paths[parent] + [name] !in v.tree && v.paths[parent] + [name] !in v.paths
  {
    NewPathIsNew(v.nodes, v.names, v.paths, parent, name);
  }

  lemma InternedWhenFound(v: View, id: nat)
    requires Good(v) && 0 < id < |v.nodes|
    ensures v.nodes[id].parent < |v.nodes|
    ensures Interned(v, v, v.nodes[id].parent, NameOf(v.nodes[id], v.names), id, false)
  {
    assert Hangs(v.nodes, v.names, v.paths, id);
  }

  ghost function UpdateNode(v: View, id: nat, n: TmpNode, metas: seq<Meta>, e: Entry): View
    requires id < |v.nodes| == |v.paths|
  {
    v.(nodes := v.nodes[id := n], metas := metas, tree := v.tree[v.paths[id] := e])
  }

  lemma GoodAfterUpdate(v: View, id: nat, n: TmpNode, metas: seq<Meta>)
    requires Good(v) && 0 < id < |v.nodes|
    requires n == v.nodes[id].(kind := n.kind, synthetic := n.synthetic, meta := n.meta)
    requires n.kind.Dir? || Childless(v.nodes, id)
    requires v.metas <= metas && |metas| <= NO_META && WellTagged(n, metas)
    ensures var w := UpdateNode(v, id, n, metas, EntryOf(n, metas)); Good(w) && KeysOf(w) == KeysOf(v)
  {
    ShapeAfterUpdate(v.nodes, v.names, v.paths, id, n);
    MirrorAfterUpdate(v.nodes, v.metas, v.paths, v.tree, id, n, metas);
    assert v.paths[id] in v.paths;
    hide Measured;
    MeasuredAfterUpdate(v, id, n, metas, EntryOf(n, metas));
  }

  /** A node that was just added has nothing below it. */
  lemma NewestIsChildless(v: View)
    requires Good(v) && |v.nodes| > 1
    ensures Childless(v.nodes, |v.nodes| - 1)
  {
    forall c | 1 <= c < |v.nodes| ensures v.nodes[c].parent != |v.nodes| - 1 {
      assert Hangs(v.nodes, v.names, v.paths, c);
    }
  }

  // ----- counting

  /** The synthetic nodes, the root left out. */
  function Synthetics(nodes: seq<TmpNode>): nat {
    if |nodes| <= 1 then 0
    else Synthetics(nodes[..|nodes| - 1]) + (if nodes[|nodes| - 1].synthetic then 1 else 0)
  }

  lemma {:induction false} SyntheticsAfterUpdate(nodes: seq<TmpNode>, id: nat, n: TmpNode)
    requires 0 < id < |nodes|
    ensures Synthetics(nodes[id := n]) + (if nodes[id].synthetic then 1 else 0)
         == Synthetics(nodes) + (if n.synthetic then 1 else 0)
    decreases |nodes|
  {
    var last := |nodes| - 1;
    if id == last {
      assert nodes[id := n][..last] == nodes[..last];
    } else {
      SyntheticsAfterUpdate(nodes[..last], id, n);
      assert nodes[id := n][..last] == nodes[..last][id := n];
    }
  }

  lemma SyntheticsAfterAppend(nodes: seq<TmpNode>, n: TmpNode)
    requires nodes != []
    ensures Synthetics(nodes + [n]) == Synthetics(nodes) + (if n.synthetic then 1 else 0)
  {
    assert (nodes + [n])[..|nodes|] == nodes;
  }

  /** Symlinks have slots of their own, all below the count. */
  ghost predicate OwnSlots(nodes: seq<TmpNode>, metas: seq<Meta>, count: nat) {
    && (forall i :: 0 <= i < |nodes| && nodes[i].kind.Symlink? ==>
        nodes[i].meta < |metas| && metas[nodes[i].meta].symlinkSlot < count)
    && (forall i, j :: 0 <= i < j < |nodes| && nodes[i].kind.Symlink? && nodes[j].kind.Symlink? ==>
        metas[nodes[i].meta].symlinkSlot != metas[nodes[j].meta].symlinkSlot)
  }

  function EncryptedIn(metas: seq<Meta>): nat {
    if metas == [] then 0 else EncryptedIn(metas[..|metas| - 1]) + (if metas[|metas| - 1].encrypted then 1 else 0)
  }

  function UnsupportedIn(metas: seq<Meta>): nat {
    if metas == [] then 0
    else
      var last := metas[|metas| - 1];
      UnsupportedIn(metas[..|metas| - 1]) + (if !last.encrypted && !Supported(last.methodRaw) then 1 else 0)
  }

  /**
   The books: the running count of synthetic directories is right, every entry has its
   metadata, and an entry without a node lost it to a directory.
   */
  ghost predicate Balanced(nodes: seq<TmpNode>, metas: seq<Meta>, stats: Stats, takeovers: nat, symlinkCount: nat) {
    && stats.syntheticDirs == Synthetics(nodes)
    && stats.entries == |metas|
    && stats.encrypted == EncryptedIn(metas) && stats.unsupported == UnsupportedIn(metas)
    && stats.entries + stats.syntheticDirs == |nodes| - 1 + takeovers
    && stats.symlinks == symlinkCount <= |metas|
    && OwnSlots(nodes, metas, symlinkCount)
  }

  /** The records the statistics account for. */
  function Settled(stats: Stats, takeovers: nat): int {
    stats.entries + stats.duplicates + stats.rejectedPaths + stats.rejectedSizes - takeovers
  }

  lemma BalancedAfterTakeOver(
      nodes: seq<TmpNode>, id: nat, n: TmpNode, metas: seq<Meta>, stats: Stats, takeovers: nat, symlinkCount: nat)
    requires Balanced(nodes, metas, stats, takeovers, symlinkCount)
    requires 0 < id < |nodes| && !nodes[id].synthetic && n.synthetic && n.kind.Dir?
    ensures Balanced(nodes[id := n], metas,
      stats.(duplicates := stats.duplicates + 1, syntheticDirs := stats.syntheticDirs + 1), takeovers + 1, symlinkCount)
  {
    SyntheticsAfterUpdate(nodes, id, n);
  }

  /** The tallies a record adds to when it gets a node. */
  function Tally(stats: Stats, kind: Kind, meta: Meta): Stats {
    stats.(
      entries := stats.entries + 1,
      encrypted := stats.encrypted + (if meta.encrypted then 1 else 0),
      unsupported := stats.unsupported + (if !meta.encrypted && !Supported(meta.methodRaw) then 1 else 0),
      symlinks := stats.symlinks + (if kind.Symlink? then 1 else 0))
  }

  lemma BalancedAfterAttach(
      nodes: seq<TmpNode>, id: nat, n: TmpNode, metas: seq<Meta>, kept: Meta,
      stats: Stats, takeovers: nat, symlinkCount: nat)
    requires Balanced(nodes, metas, stats.(syntheticDirs := stats.syntheticDirs + 1), takeovers, symlinkCount)
    requires 0 < id < |nodes| && nodes[id].synthetic && !n.synthetic && n.meta == |metas|
    requires n.kind.Symlink? ==> kept.symlinkSlot == symlinkCount
    ensures Balanced(nodes[id := n], metas + [kept], Tally(stats, n.kind, kept), takeovers,
      symlinkCount + (if n.kind.Symlink? then 1 else 0))
  {
    SyntheticsAfterUpdate(nodes, id, n);
    assert (metas + [kept])[..|metas|] == metas;
  }

  lemma BalancedAfterDrop(nodes: seq<TmpNode>, metas: seq<Meta>, a: Stats, b: Stats, takeovers: nat, symlinkCount: nat)
    requires Balanced(nodes, metas, a, takeovers, symlinkCount)
    requires b.entries == a.entries && b.syntheticDirs == a.syntheticDirs && b.symlinks == a.symlinks
    requires b.encrypted == a.encrypted && b.unsupported == a.unsupported
    ensures Balanced(nodes, metas, b, takeovers, symlinkCount)
  {
  }

  lemma BalancedCountsSynthetic(
      nodes: seq<TmpNode>, id: nat, metas: seq<Meta>, stats: Stats, takeovers: nat, symlinkCount: nat)
    requires Balanced(nodes, metas, stats, takeovers, symlinkCount) && 0 < id < |nodes| && nodes[id].synthetic
    ensures stats.syntheticDirs > 0
  {
    SyntheticsAfterUpdate(nodes, id, nodes[id].(synthetic := false));
  }

  lemma SymlinksAreFew(nodes: seq<TmpNode>, metas: seq<Meta>, stats: Stats, takeovers: nat, symlinkCount: nat)
    requires Balanced(nodes, metas, stats, takeovers, symlinkCount)
    ensures symlinkCount <= |metas|
  {
  }

  lemma BalancedAfterAppend(
      nodes: seq<TmpNode>, n: TmpNode, metas: seq<Meta>, stats: Stats, takeovers: nat, symlinkCount: nat)
    requires nodes != [] && Balanced(nodes, metas, stats, takeovers, symlinkCount) && n.synthetic && n.kind.Dir?
    ensures Balanced(nodes + [n], metas, stats.(syntheticDirs := stats.syntheticDirs + 1), takeovers, symlinkCount)
  {
    SyntheticsAfterAppend(nodes, n);
  }

  ghost predicate AllShort(cs: seq<Name>) {
    forall i :: 0 <= i < |cs| ==> |cs[i]| <= U16_MAX
  }

  lemma AcceptableIsShort(path: Name)
    requires Acceptable(path)
    ensures Components(path) != [] && AllShort(Components(path))
  {
    var cs := Components(path);
    hide Components;
    forall i | 0 <= i < |cs| ensures |cs[i]| <= U16_MAX {
      assert FitsNode(cs[i]);
    }
  }

  lemma AcceptableHasComponents(path: Name)
    requires Acceptable(path)
    ensures Components(path) != [] && AreComponents(Components(path))
  {
    ComponentsAreComponents(path);
  }

  /** The records refused so far, by path and by size. */
  function Refused(stats: Stats): (nat, nat) {
    (stats.rejectedPaths, stats.rejectedSizes)
  }

  /** A builder that has seen nothing: the root, its own parent, without a record. */
  lemma RootAlone()
    ensures var v := View([TmpNode(0, 0, Dir, true, 0, NO_META)], [], [], [[]], ROOT_ONLY);
            Good(v) && KeysOf(v) == [Key(0, [])] && IsDirAt(v, 0, Components([]))
  {
    hide Components;
    var root := TmpNode(0, 0, Dir, true, 0, NO_META);
    assert Keys([root], []) == [Key(0, [])];
    ComponentsWhole([]);
    NamesOfRoot();
  }

  lemma NamesOfRoot()
    ensures |ROOT_ONLY.Keys| == 1 && NameBytes(ROOT_ONLY.Keys) == 0
  {
    var root: Path := [];
    NameBytesWithout({root}, root);
    assert ROOT_ONLY.Keys == {root} && {root} - {root} == {};
  }

  lemma RootIsBalanced()
    ensures Balanced([TmpNode(0, 0, Dir, true, 0, NO_META)], [], Stats(0, 0, 0, 0, 0, 0, 0, 0), 0, 0)
  {
  }

  lemma NoDirsToMake(t: Dirs)
    ensures MakeDirs(t, []) == t
  {
  }

  lemma OneMoreDir(t: Dirs, cs: Path, i: nat)
    requires i < |cs|
    ensures MakeDirs(t, cs[..i + 1]) == Demand(MakeDirs(t, cs[..i]), cs[..i + 1])
  {
    assert Front(cs[..i + 1]) == cs[..i];
  }

  /** A record whose walk stops at a path that cannot be added has not been added. */
  lemma StopsShort(t: Dirs, now: Dirs, cs: Path, i: nat, r: Record)
    requires r.path != [] && cs == Front(r.path) && i < |cs| && now == MakeDirs(t, cs[..i])
    requires Closed(now) && cs[..i + 1] !in now && Overfull(now)
    ensures Blocked(t, now, r)
  {
    PartialKeys(t, cs, i, r);
    assert cs[..i + 1] < r.path;
  }

  /** The same when the walk got to the parent and the leaf could not be added. */
  lemma LeafBlocked(t: Dirs, made: Dirs, now: Dirs, r: Record)
    requires r.path != [] && made == MakeDirs(t, Front(r.path))
    ensures now == made && r.path !in now && Overfull(now) ==> Blocked(t, now, r)
    ensures r.path !in t ==> r.path !in made
    ensures AddRecord(t, r) == Claim(made, r)
  {
    PartialKeys(t, Front(r.path), |Front(r.path)|, r);
    assert Front(r.path)[..|Front(r.path)|] == Front(r.path);
    MakeDirsKeys(t, Front(r.path), r.path);
  }

  // ----- the builder

  class Builder {
    var nodes: seq<TmpNode>
    var names: Name
    var metas: seq<Meta>
    const interner: Interner
    var memoPath: Name
    var memoId: nat
    var symlinkCount: nat
    var stats: Stats

    /** Where each node is. */
    ghost var paths: seq<Path>
    /** What the nodes amount to. */
    ghost var tree: Dirs
    /** How many entries gave up their node to a directory. */
    ghost var takeovers: nat

    ghost function Now(): View
      reads this
    {
      View(nodes, names, metas, paths, tree)
    }

    /** The lists are good, the table files all of them, and the memo names a directory. */
    ghost predicate Valid()
      reads this, interner, interner.slots
    {
      && Good(Now())
      && interner.Valid(KeysOf(Now()))
      && IsDirAt(Now(), memoId, Components(memoPath))
    }

    ghost predicate InBalance()
      reads this
    {
      Balanced(nodes, metas, stats, takeovers, symlinkCount)
    }

    constructor (hint: nat, hash: Hash)
      ensures Valid() && InBalance()
      ensures tree == ROOT_ONLY && Settled(stats, takeovers) == 0 && Refused(stats) == (0, 0) && metas == []
      ensures fresh(interner) && fresh(interner.slots) && |nodes| == 1 && names == []
    {
      hide Good, Balanced, Holds, KeysOf;
      RootAlone();
      RootIsBalanced();
      var root := TmpNode(0, 0, Dir, true, 0, NO_META);
      nodes, names, metas := [root], [], [];
      var table := new Interner(hint, hash, Key(0, []));
      interner := table;
      memoPath, memoId, symlinkCount := [], 0, 0;
      stats := Stats(0, 0, 0, 0, 0, 0, 0, 0);
      paths, tree, takeovers := [[]], ROOT_ONLY, 0;
    }

    /** The lists are as long as the tree makes them. */
    lemma Basics()
      requires Valid()
      ensures |nodes| == |tree.Keys| && |names| == NameBytes(tree.Keys) && Closed(tree)
    {
      hide Good, Interner.Valid, Components;
      GoodBasics(Now());
    }

    /** `intern`: the node for a name below a directory, created if there is none. */
    method Intern(parent: nat, name: Name) returns (r: Result<(nat, bool), BuildError>)
      requires Valid() && parent < |nodes| && nodes[parent].kind.Dir?
      modifies this`nodes, this`names, this`paths, this`tree, interner, interner.slots
      ensures interner.slots == old(interner.slots) || fresh(interner.slots)
      ensures r.Ok? ==> Valid() && Interned(old(Now()), Now(), parent, name, r.value.0, r.value.1)
      ensures r.Ok? && r.value.1 ==> |old(names)| <= U32_MAX && |name| <= U16_MAX
      ensures r.Err? ==> Valid() && Now() == old(Now()) && parent < |paths| && paths[parent] + [name] !in tree
      ensures r.Err? ==> Overfull(tree) || |name| > U16_MAX
    {
      hide Good, Interned, Holds, Components;
      GoodBasics(Now());
      var found := interner.Find(nodes, names, parent, name);
      if found.Some? {
        InternedWhenFound(Now(), found.value);
        return Ok((found.value, false));
      }
      NewPathIn(Now(), parent, name);
      var nameOff := |names|;
      if nameOff > U32_MAX {
        return Err(IndexTooLarge);
      }
      var id := |nodes|;
      // The table stores the id plus one, so the last 32-bit id is refused too.
      if id >= U32_MAX {
        return Err(IndexTooLarge);
      }
      if |name| > U16_MAX {
        return Err(IndexTooLarge);
      }
      Append(parent, name);
      return Ok((id, true));
    }

    /** The last part of `intern`: a node nobody has yet, filed in the table under its name. */
    method Append(parent: nat, name: Name)
      requires Valid() && parent < |nodes| < U32_MAX && nodes[parent].kind.Dir? && AllInBlob(nodes, names)
      requires forall id :: 1 <= id < |nodes| ==> KeyOf(nodes[id], names) != Key(parent, name)
      modifies this`nodes, this`names, this`paths, this`tree, interner, interner.slots
      ensures interner.slots == old(interner.slots) || fresh(interner.slots)
      ensures Valid() && Interned(old(Now()), Now(), parent, name, |old(nodes)|, true)
      ensures |names| == |old(names)| + |name| && |nodes| == |old(nodes)| + 1
    {
      hide Good, Interned, Holds, Components, KeysOf, Keys, Interner.Valid, AllInBlob, KeyOf, NameBytes, Closed;
      GoodBasics(Now());
      GoodAfterAppend(Now(), parent, name);
      ghost var before := Now();
      var id := |nodes|;
      var n := TmpNode(|names|, |name|, Dir, true, parent, NO_META);
      names := names + name;
      nodes := nodes + [n];
      ghost var p := paths[parent] + [name];
      paths := paths + [p];
      tree := tree[p := SYNTHETIC];
      assert Now() == AppendNode(before, n, name);
      KeysAre(Now(), before, Key(parent, name));
      interner.Insert(nodes, names, id);
    }

    /** `take_over_as_dir`: a node indexed as a file becomes a directory nobody declared. */
    method TakeOverAsDir(id: nat)
      requires Valid() && InBalance() && 0 < id < |nodes| && !nodes[id].kind.Dir? && |paths| == |nodes|
      modifies this`nodes, this`stats, this`tree, this`takeovers
      ensures Valid() && InBalance()
      ensures |nodes| == |old(nodes)| && IsDirAt(Now(), id, paths[id])
      ensures tree == old(tree)[paths[id] := SYNTHETIC]
      ensures Settled(stats, takeovers) == old(Settled(stats, takeovers)) && Refused(stats) == old(Refused(stats))
    {
      hide Good, Holds, Components, Balanced, KeysOf;
      GoodAt(Now(), id);
      var n := nodes[id].(kind := Dir, synthetic := true, meta := NO_META);
      GoodAfterUpdate(Now(), id, n, metas);
      BalancedAfterTakeOver(nodes, id, n, metas, stats, takeovers, symlinkCount);
      ghost var before := Now();
      nodes := nodes[id := n];
      tree := tree[paths[id] := SYNTHETIC];
      assert Now() == UpdateNode(before, id, n, metas, SYNTHETIC);
      stats := stats.(duplicates := stats.duplicates + 1, syntheticDirs := stats.syntheticDirs + 1);
      takeovers := takeovers + 1;
    }

    /** One component of the walk in `resolve_parent`: the directory of that name below `cur`. */
    method Descend(cur: nat, comp: Name, ghost at: Path) returns (r: Result<nat, BuildError>)
      requires Valid() && InBalance() && IsDirAt(Now(), cur, at)
      modifies this`nodes, this`names, this`paths, this`tree, this`stats, this`takeovers, interner, interner.slots
      ensures interner.slots == old(interner.slots) || fresh(interner.slots)
      ensures r.Ok? ==>
        && Valid() && InBalance() && IsDirAt(Now(), r.value, at + [comp])
        && tree == Demand(old(tree), at + [comp])
        && Settled(stats, takeovers) == old(Settled(stats, takeovers)) && Refused(stats) == old(Refused(stats))
      ensures r.Err? ==> Valid() && tree == old(tree) && at + [comp] !in tree && (Overfull(tree) || |comp| > U16_MAX)
    {
      hide Good, Holds, Components, Balanced, KeysOf;
      ghost var before := Now();
      var step := Intern(cur, comp);
      if step.Err? {
        return Err(step.error);
      }
      var (id, isNew) := step.value;
      GoodAt(Now(), id);
      if isNew {
        BalancedAfterAppend(before.nodes, nodes[id], metas, stats, takeovers, symlinkCount);
        stats := stats.(syntheticDirs := stats.syntheticDirs + 1);
      } else if nodes[id].kind != Dir {
        TakeOverAsDir(id);
      }
      return Ok(id);
    }

    /**
     `resolve_parent`: the directory a path names, through the memo or by walking. Either way
     it is the one node at those components, and everything above it is a directory.
     */
    method ResolveParent(parentPath: Name, ghost record: Record) returns (r: Result<nat, BuildError>)
      requires Valid() && InBalance()
      modifies this, interner, interner.slots
      ensures interner.slots == old(interner.slots) || fresh(interner.slots)
      ensures metas == old(metas) && symlinkCount == old(symlinkCount)
      ensures r.Ok? ==> memoPath == parentPath && memoId == r.value
      ensures r.Ok? ==>
        && Valid() && InBalance() && IsDirAt(Now(), r.value, Components(parentPath))
        && tree == MakeDirs(old(tree), Components(parentPath))
        && Settled(stats, takeovers) == old(Settled(stats, takeovers)) && Refused(stats) == old(Refused(stats))
      ensures r.Err? && AllShort(Components(parentPath)) ==>
        record.path != [] && Components(parentPath) == Front(record.path) ==> Blocked(old(tree), tree, record)
    {
      hide Good, Holds, Components, Balanced, Closed, Demand, MakeDirs, KeysOf, Overfull, Blocked;
      GoodBasics(Now());
      ComponentsAreComponents(parentPath);
      if parentPath == memoPath {
        GoodAt(Now(), memoId);
        MakeDirsIsIdle(tree, Components(parentPath));
        return Ok(memoId);
      }
      var cur := 0;
      var cs := Components(parentPath);
      NoDirsToMake(tree);
      for i := 0 to |cs|
        invariant Valid() && InBalance() && IsDirAt(Now(), cur, cs[..i])
        invariant interner.slots == old(interner.slots) || fresh(interner.slots)
        invariant metas == old(metas) && symlinkCount == old(symlinkCount)
        invariant tree == MakeDirs(old(tree), cs[..i])
        invariant Settled(stats, takeovers) == old(Settled(stats, takeovers)) && Refused(stats) == old(Refused(stats))
      {
        assert cs[..i] + [cs[i]] == cs[..i + 1];
        OneMoreDir(old(tree), cs, i);
        assert IsComponent(cs[i]);
        var step := Descend(cur, cs[i], cs[..i]);
        if step.Err? {
          if AllShort(cs) && record.path != [] && cs == Front(record.path) {
            GoodBasics(Now());
            StopsShort(old(tree), tree, cs, i, record);
          }
          return Err(step.error);
        }
        cur := step.value;
      }
      assert cs[..|cs|] == cs;
      memoPath, memoId := parentPath, cur;
      return Ok(cur);
    }

    /** The record takes its node: the last step of `add`. */
    method Attach(id: nat, kind: Kind, meta: Meta, ghost p: Path) returns (r: Result<(), BuildError>)
      requires Valid() && 0 < id < |nodes| == |paths| && paths[id] == p && |metas| < NO_META && nodes[id].synthetic
      requires kind.Dir? || (Childless(nodes, id) && id != memoId)
      requires Balanced(nodes, metas, stats.(syntheticDirs := stats.syntheticDirs + 1), takeovers, symlinkCount)
      modifies this`nodes, this`metas, this`stats, this`symlinkCount, this`tree
      ensures r.Ok? ==>
        && Valid() && InBalance() && |metas| == |old(metas)| + 1
        && tree == old(tree)[p := Entry(kind, Some(meta.(symlinkSlot := 0)))]
        && |nodes| == |old(nodes)|
        && Settled(stats, takeovers) == old(Settled(stats, takeovers)) + 1 && Refused(stats) == old(Refused(stats))
      ensures r.Ok? && symlinkCount != old(symlinkCount) ==>
        symlinkCount == old(symlinkCount) + 1 && old(symlinkCount) != U32_MAX
      ensures old(symlinkCount) < U32_MAX ==> r.Ok?
    {
      hide Good, Holds, Components, Childless, Balanced, KeysOf;
      var kept := meta;
      var slots := symlinkCount;
      if kind == Symlink {
        kept := meta.(symlinkSlot := symlinkCount);
        if symlinkCount == U32_MAX {
          return Err(IndexTooLarge);
        }
        slots := symlinkCount + 1;
      }
      var metaIdx := |metas|;
      if metaIdx > U32_MAX {
        return Err(IndexTooLarge);
      }
      var n := nodes[id].(kind := kind, synthetic := false, meta := metaIdx);
      GoodAfterUpdate(Now(), id, n, metas + [kept]);
      BalancedAfterAttach(nodes, id, n, metas, kept, stats, takeovers, symlinkCount);
      ghost var before := Now();
      stats := Tally(stats, kind, kept);
      symlinkCount := slots;
      metas := metas + [kept];
      nodes := nodes[id := n];
      tree := tree[paths[id] := Entry(kind, Some(meta.(symlinkSlot := 0)))];
      assert Now() == UpdateNode(before, id, n, metas, EntryOf(n, metas));
      return Ok(());
    }

    /** Counts a record that ends without a node of its own. */
    method Drop(duplicate: bool, badPath: bool, badSize: bool)
      requires InBalance()
      modifies this`stats
      ensures InBalance()
      ensures stats == old(stats).(
        duplicates := old(stats).duplicates + (if duplicate then 1 else 0),
        rejectedPaths := old(stats).rejectedPaths + (if badPath then 1 else 0),
        rejectedSizes := old(stats).rejectedSizes + (if badSize then 1 else 0))
    {
      hide Balanced;
      stats := stats.(
        duplicates := stats.duplicates + (if duplicate then 1 else 0),
        rejectedPaths := stats.rejectedPaths + (if badPath then 1 else 0),
        rejectedSizes := stats.rejectedSizes + (if badSize then 1 else 0));
      BalancedAfterDrop(nodes, metas, old(stats), stats, takeovers, symlinkCount);
    }

    /** `add`: one more record. The tree grows exactly as the specification says. */
    method Add(raw: RawRecord) returns (r: Result<(), BuildError>)
      requires Valid() && InBalance() && |metas| < NO_META
      modifies this, interner, interner.slots
      ensures interner.slots == old(interner.slots) || fresh(interner.slots)
      ensures r.Ok? ==>
        && Valid() && InBalance() && |metas| <= |old(metas)| + 1
        && tree == (if Accepted(raw) then AddRecord(old(tree), RecordOf(raw)) else old(tree))
        && Settled(stats, takeovers) == old(Settled(stats, takeovers)) + 1
        && stats.rejectedPaths == old(stats.rejectedPaths) + (if !Acceptable(raw.path) then 1 else 0)
        && stats.rejectedSizes == old(stats.rejectedSizes) + (if Acceptable(raw.path) && !Accepted(raw) then 1 else 0)
      ensures r.Ok? && Accepted(raw) ==>
        && RecordOf(raw).path != []
        && (RecordOf(raw).path !in old(tree) ==> |names| <= U32_MAX + NameLength(RecordOf(raw).path))
      ensures r.Err? ==> Accepted(raw) && RecordOf(raw).path != [] && Blocked(old(tree), tree, RecordOf(raw))
    {
      hide Good, Holds, Components, Blocked, Acceptable, Claim, MakeDirs;
      hide Balanced, KeysOf, SplitParent, Join, AddRecord;
      hide Overfull, NameBytes;
      var reason := RejectReason(raw.path);
      if reason.Some? {
        Drop(false, true, false);
        return Ok(());
      }
      if StoredSizesDiffer(raw.meta) || NoCompressedBytes(raw.meta) {
        Drop(false, false, true);
        return Ok(());
      }
      var normalized := NormalizePath(raw.path);
      var (parentPath, leaf) := SplitParent(normalized);
      ghost var record := RecordOf(raw);
      AcceptableHasComponents(raw.path);
      AcceptableIsShort(raw.path);
      SplitParentOfNormalized(record.path);
      var resolved := ResolveParent(parentPath, record);
      if resolved.Err? {
        return Err(resolved.error);
      }
      assert Front(record.path) + [leaf] == record.path;
      ghost var made := tree;
      r := AddLeaf(resolved.value, leaf, raw, record);
      LeafBlocked(old(tree), made, tree, record);
    }

    /** The second half of `add`: the leaf below its resolved parent. */
    method AddLeaf(parent: nat, leaf: Name, raw: RawRecord, ghost record: Record) returns (r: Result<(), BuildError>)
      requires Valid() && InBalance() && |metas| < NO_META
      requires record == RecordOf(raw) && record.path != [] && IsDirAt(Now(), parent, Front(record.path))
      requires leaf == record.path[|record.path| - 1]
      modifies this, interner, interner.slots
      ensures interner.slots == old(interner.slots) || fresh(interner.slots)
      ensures r.Ok? ==>
        && Valid() && InBalance() && |metas| <= |old(metas)| + 1
        && tree == Claim(old(tree), record)
        && (record.path !in old(tree) ==> |names| <= U32_MAX + |leaf|)
        && Settled(stats, takeovers) == old(Settled(stats, takeovers)) + 1 && Refused(stats) == old(Refused(stats))
      ensures r.Err? && |leaf| <= U16_MAX ==> tree == old(tree) && record.path !in tree && Overfull(tree)
    {
      hide Good, Holds, Components, Balanced, KeysOf, Childless, Supported, IsSymlinkMode;
      SymlinksAreFew(nodes, metas, stats, takeovers, symlinkCount);
      ghost var before := Now();
      assert Front(record.path) + [leaf] == record.path;
      var step := Intern(parent, leaf);
      if step.Err? {
        return Err(step.error);
      }
      var (id, isNew) := step.value;
      var kind := KindFor(raw.isDir, raw.meta.mode);
      GoodAt(Now(), id);
      if isNew {
        NewestIsChildless(Now());
        BalancedAfterAppend(before.nodes, nodes[id], metas, stats, takeovers, symlinkCount);
        r := Attach(id, kind, raw.meta, record.path);
        return;
      }
      r := Reclaim(id, kind, raw, record);
    }

    /** A record whose name exists already: the directory wins, then the first entry. */
    method Reclaim(id: nat, kind: Kind, raw: RawRecord, ghost record: Record) returns (r: Result<(), BuildError>)
      requires Valid() && InBalance() && |metas| < NO_META && record == RecordOf(raw) && kind == KindOf(record)
      requires 0 < id < |nodes| == |paths| && paths[id] == record.path
      modifies this`nodes, this`metas, this`stats, this`symlinkCount, this`tree
      ensures r.Ok? ==>
        && Valid() && InBalance() && |metas| <= |old(metas)| + 1
        && tree == Claim(old(tree), record)
        && |nodes| == |old(nodes)|
        && Settled(stats, takeovers) == old(Settled(stats, takeovers)) + 1 && Refused(stats) == old(Refused(stats))
      ensures r.Ok?
    {
      hide Good, Holds, Components, Balanced, KeysOf, Childless, Supported, IsSymlinkMode;
      SymlinksAreFew(nodes, metas, stats, takeovers, symlinkCount);
      GoodAt(Now(), id);
      var existing := nodes[id];
      var claimed := !existing.synthetic;
      if existing.kind == Dir && kind != Dir {
        Drop(true, false, false);
        return Ok(());
      }
      if claimed {
        Drop(true, false, false);
        return Ok(());
      }
      // A node nobody claimed is a directory, so what is left is a directory's own record.
      assert kind == Dir;
      BalancedCountsSynthetic(nodes, id, metas, stats, takeovers, symlinkCount);
      stats := stats.(syntheticDirs := stats.syntheticDirs - 1);
      r := Attach(id, kind, raw.meta, record.path);
    }
  }
}
