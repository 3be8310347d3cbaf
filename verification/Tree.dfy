/**
 What a directory tree is, independently of how it is stored: a map from component lists to
 entries. `Grow` adds accepted records one at a time by the builder's two rules, "the first
 entry wins" and "a directory wins over a file". `Expected` says what every path must hold by
 looking at the whole record list at once. `GrowMeetsExpectation` proves the two agree.
 */
module Tree {
  import opened Bytes

  type Path = seq<Name>

  datatype Kind = Dir | File | Symlink

  /** The part of a central directory record that is kept for an entry. */
  datatype Meta = Meta(
    wayfinder: nat,
    uncompressedSize: nat,
    compressedSize: nat,
    mtime: int,
    crc32: nat,
    methodRaw: nat,
    mode: nat,
    encrypted: bool,
    symlinkSlot: nat)

  /** A record that passed every filter; `path` is its component list. */
  datatype Record = Record(path: Path, isDir: bool, meta: Meta)

  datatype Entry = Entry(kind: Kind, meta: Option<Meta>)

  type Dirs = map<Path, Entry>

  const S_IFMT_UNIT: nat := 0x1000
  const S_IFLNK: nat := 0xA

  /** The file type bits say symbolic link. */
  predicate IsSymlinkMode(mode: nat) {
    mode % 0x1_0000 / S_IFMT_UNIT == S_IFLNK
  }

  function KindFor(isDir: bool, mode: nat): Kind {
    if isDir then Dir else if IsSymlinkMode(mode) then Symlink else File
  }

  function KindOf(r: Record): Kind {
    KindFor(r.isDir, r.meta.mode)
  }

  function Front(p: Path): (r: Path)
    requires p != []
    ensures |r| == |p| - 1 && r < p
  {
    p[..|p| - 1]
  }

  // ----- growing a tree record by record

  const SYNTHETIC := Entry(Dir, None)

  const ROOT_ONLY: Dirs := map[[] := SYNTHETIC]

  /** Makes sure a path is a directory. */
  function Demand(t: Dirs, p: Path): Dirs {
    if p in t && t[p].kind.Dir? then t else t[p := SYNTHETIC]
  }

  /** Makes sure a path and everything above it, the root aside, is a directory. */
  function MakeDirs(t: Dirs, p: Path): Dirs {
    if p == [] then t else Demand(MakeDirs(t, Front(p)), p)
  }

  /** Gives a record its name, unless the name is taken. */
  function Claim(t: Dirs, r: Record): Dirs {
    if r.path !in t then t[r.path := Entry(KindOf(r), Some(r.meta))]
    else if t[r.path] == SYNTHETIC && r.isDir then t[r.path := Entry(Dir, Some(r.meta))]
    else t
  }

  function AddRecord(t: Dirs, r: Record): Dirs
    requires r.path != []
  {
    Claim(MakeDirs(t, Front(r.path)), r)
  }

  ghost predicate Named(rs: seq<Record>) {
    forall i :: 0 <= i < |rs| ==> rs[i].path != []
  }

  function Grow(rs: seq<Record>): Dirs
    requires Named(rs)
  {
    if rs == [] then ROOT_ONLY
    else AddRecord(Grow(rs[..|rs| - 1]), rs[|rs| - 1])
  }

  // ----- what a path must hold, from the whole list

  predicate Below(r: Record, p: Path) {
    p < r.path
  }

  predicate Exact(r: Record, p: Path) {
    r.path == p
  }

  /** The first record strictly below a path, or the length of the list. */
  function FirstBelow(rs: seq<Record>, p: Path): (k: nat)
    ensures k <= |rs| && (k < |rs| ==> Below(rs[k], p))
    ensures forall i :: 0 <= i < k ==> !Below(rs[i], p)
  {
    if rs == [] then 0
    else
      var k := FirstBelow(rs[..|rs| - 1], p);
      if k < |rs| - 1 || Below(rs[|rs| - 1], p) then k else |rs|
  }

  /** The first record of a path itself, or the length of the list. */
  function FirstExact(rs: seq<Record>, p: Path): (k: nat)
    ensures k <= |rs| && (k < |rs| ==> Exact(rs[k], p))
    ensures forall i :: 0 <= i < k ==> !Exact(rs[i], p)
  {
    if rs == [] then 0
    else
      var k := FirstExact(rs[..|rs| - 1], p);
      if k < |rs| - 1 || Exact(rs[|rs| - 1], p) then k else |rs|
  }

  predicate DeclaresDir(r: Record, p: Path) {
    Exact(r, p) && r.isDir
  }

  /** The first directory record of a path after position `from`, or the length of the list. */
  function FirstDirAfter(rs: seq<Record>, p: Path, from: nat): (k: nat)
    ensures k <= |rs| && (k < |rs| ==> from < k && DeclaresDir(rs[k], p))
    ensures forall i :: from < i < k ==> !DeclaresDir(rs[i], p)
  {
    if rs == [] then 0
    else
      var last := |rs| - 1;
      var k := FirstDirAfter(rs[..last], p, from);
      if k < last || (from < last && DeclaresDir(rs[last], p)) then k else |rs|
  }

  /** The closed form: nothing, a directory with or without a record, or a file. */
  function Expected(rs: seq<Record>, p: Path): Option<Entry> {
    var below, exact := FirstBelow(rs, p), FirstExact(rs, p);
    if p == [] then Some(SYNTHETIC)
    else if below == |rs| then
      if exact == |rs| then None else Some(Entry(KindOf(rs[exact]), Some(rs[exact].meta)))
    else if exact < below && rs[exact].isDir then Some(Entry(Dir, Some(rs[exact].meta)))
    else
      var claim := FirstDirAfter(rs, p, below);
      Some(Entry(Dir, if claim < |rs| then Some(rs[claim].meta) else None))
  }

  // ----- the two agree

  function Get(t: Dirs, p: Path): Option<Entry> {
    if p in t then Some(t[p]) else None
  }

  /** What one more record does to one path. */
  function Update(was: Option<Entry>, r: Record, p: Path): Option<Entry> {
    if Below(r, p) && p != [] then
      if was.Some? && was.value.kind.Dir? then was else Some(SYNTHETIC)
    else if Exact(r, p) then
      if was.None? then Some(Entry(KindOf(r), Some(r.meta)))
      else if was.value == SYNTHETIC && r.isDir then Some(Entry(Dir, Some(r.meta)))
      else was
    else was
  }

  lemma {:induction false} MakeDirsPointwise(t: Dirs, q: Path, p: Path)
    ensures Get(MakeDirs(t, q), p)
         == if p <= q && p != [] && !(p in t && t[p].kind.Dir?) then Some(SYNTHETIC) else Get(t, p)
    decreases |q|
  {
    if q != [] {
      MakeDirsPointwise(t, Front(q), p);
      assert p <= q <==> p == q || p <= Front(q);
    }
  }

  lemma AddPointwise(t: Dirs, r: Record, p: Path)
    requires r.path != []
    ensures Get(AddRecord(t, r), p) == Update(Get(t, p), r, p)
  {
    MakeDirsPointwise(t, Front(r.path), p);
    assert p <= Front(r.path) <==> p < r.path;
  }

  lemma ExpectedStep(rs: seq<Record>, r: Record, p: Path)
    requires r.path != []
    ensures Expected(rs + [r], p) == Update(Expected(rs, p), r, p)
  {
    assert (rs + [r])[..|rs|] == rs;
  }

  /** Adding records one at a time gives every path exactly what the whole list says. */
  lemma {:induction false} GrowMeetsExpectation(rs: seq<Record>, p: Path)
    requires Named(rs)
    ensures Get(Grow(rs), p) == Expected(rs, p)
    decreases |rs|
  {
    if rs != [] {
      var front, last := rs[..|rs| - 1], rs[|rs| - 1];
      assert front + [last] == rs;
      GrowMeetsExpectation(front, p);
      AddPointwise(Grow(front), last, p);
      ExpectedStep(front, last, p);
    }
  }

  // ----- consequences

  /** A path exists exactly when it is the root or a prefix of some record. */
  lemma ExistsIffPrefix(rs: seq<Record>, p: Path)
    requires Named(rs)
    ensures p in Grow(rs) <==> p == [] || exists i :: 0 <= i < |rs| && p <= rs[i].path
  {
    GrowMeetsExpectation(rs, p);
    assert forall i :: 0 <= i < |rs| ==> (p <= rs[i].path <==> Below(rs[i], p) || Exact(rs[i], p));
  }

  /** A path is a directory exactly when something lies below it or its first record says so. */
  lemma DirectoryIff(rs: seq<Record>, p: Path)
    requires Named(rs) && p in Grow(rs) && p != []
    ensures Grow(rs)[p].kind.Dir?
        <==> (exists i :: 0 <= i < |rs| && Below(rs[i], p))
             || (FirstExact(rs, p) < |rs| && rs[FirstExact(rs, p)].isDir)
  {
    GrowMeetsExpectation(rs, p);
  }

  /** Everything above an entry is a directory. */
  ghost predicate Closed(t: Dirs) {
    [] in t && forall p, q :: p in t && q < p ==> q in t && t[q].kind.Dir?
  }

  lemma {:induction false} MakeDirsIsIdle(t: Dirs, p: Path)
    requires Closed(t) && p in t && t[p].kind.Dir?
    ensures MakeDirs(t, p) == t
    decreases |p|
  {
    if p != [] {
      assert Front(p) < p;
      MakeDirsIsIdle(t, Front(p));
    }
  }
}
