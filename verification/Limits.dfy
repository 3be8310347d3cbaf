/**
 How large a tree may get: fewer paths than 32 bits can number, and names that begin within 32 bits
 of the blob. Whether a list of records keeps to this is decided by its tree alone, and by which
 path came last.
 */
module Limits {
  import opened Bytes
  import opened Paths
  import opened Tree

  /** How many bytes of the blob a path needs for itself. */
  function NameLength(p: Path): nat {
    if p == [] then 0 else |p[|p| - 1]|
  }

  ghost function NameBytes(s: set<Path>): nat {
    if s == {} then 0
    else
      var p :| p in s;
      NameLength(p) + NameBytes(s - {p})
  }

  lemma {:induction false} NameBytesWithout(s: set<Path>, p: Path)
    requires p in s
    ensures NameBytes(s) == NameLength(p) + NameBytes(s - {p})
    decreases |s|
  {
    var q :| q in s && NameBytes(s) == NameLength(q) + NameBytes(s - {q});
    if q != p {
      NameBytesWithout(s - {q}, p);
      NameBytesWithout(s - {p}, q);
      assert s - {q} - {p} == s - {p} - {q};
    }
  }

  lemma OneMoreName(s: set<Path>, p: Path)
    requires p !in s
    ensures NameBytes(s + {p}) == NameBytes(s) + NameLength(p) && |s + {p}| == |s| + 1
  {
    NameBytesWithout(s + {p}, p);
    assert s + {p} - {p} == s;
  }

  lemma {:induction false} MoreNames(s: set<Path>, t: set<Path>)
    requires s <= t
    ensures NameBytes(s) <= NameBytes(t) && |s| <= |t|
    decreases |s|
  {
    if s != {} {
      var p :| p in s;
      NameBytesWithout(s, p);
      NameBytesWithout(t, p);
      MoreNames(s - {p}, t - {p});
    }
  }

  /** No path can be added to this tree. */
  ghost predicate Overfull(t: Dirs) {
    |t.Keys| >= U32_MAX || NameBytes(t.Keys) > U32_MAX
  }

  /** The last path that came into being: the last record whose own path did not exist yet. */
  ghost function Newest(rs: seq<Record>): Path
    requires Named(rs)
  {
    if rs == [] then []
    else
      var front, last := rs[..|rs| - 1], rs[|rs| - 1];
      if last.path in Grow(front) then Newest(front) else last.path
  }

  /** The index of these records stays within its limits; the newest name may end beyond 32 bits. */
  ghost predicate IndexFits(rs: seq<Record>)
    requires Named(rs)
  {
    |Grow(rs).Keys| < U32_MAX && NameBytes(Grow(rs).Keys) <= U32_MAX + NameLength(Newest(rs))
  }

  // ----- what records do to the paths of a tree

  lemma MakeDirsKeys(t: Dirs, q: Path, p: Path)
    ensures p in MakeDirs(t, q) <==> p in t || (p <= q && p != [])
  {
    MakeDirsPointwise(t, q, p);
  }

  lemma RecordKeys(t: Dirs, r: Record)
    requires r.path != []
    ensures t.Keys <= AddRecord(t, r).Keys && r.path in AddRecord(t, r)
    ensures Closed(t) && r.path in t ==> AddRecord(t, r).Keys == t.Keys
  {
    forall p | p in t ensures p in AddRecord(t, r) {
      MakeDirsKeys(t, Front(r.path), p);
    }
    if Closed(t) && r.path in t {
      forall p | p in AddRecord(t, r) ensures p in t {
        MakeDirsKeys(t, Front(r.path), p);
        assert p == r.path || p in t || p < r.path;
      }
    }
  }

  lemma PartialKeys(t: Dirs, cs: Path, i: nat, r: Record)
    requires i <= |cs| && r.path != [] && cs == Front(r.path)
    ensures t.Keys <= MakeDirs(t, cs[..i]).Keys <= AddRecord(t, r).Keys
  {
    forall p ensures p in t ==> p in MakeDirs(t, cs[..i])
             ensures p in MakeDirs(t, cs[..i]) ==> p in AddRecord(t, r)
    {
      MakeDirsKeys(t, cs[..i], p);
      MakeDirsKeys(t, cs, p);
      assert p <= cs[..i] ==> p <= cs;
    }
  }

  // ----- when a record cannot be added

  /** Part of a record was added, and its path is still missing, when the limits were reached. */
  ghost predicate Blocked(before: Dirs, now: Dirs, r: Record)
    requires r.path != []
  {
    before.Keys <= now.Keys <= AddRecord(before, r).Keys && r.path !in now && Overfull(now)
  }

  /** A part of the tree of some records that does not have their newest path. */
  ghost predicate Lacks(t: Dirs, rs: seq<Record>)
    requires Named(rs)
  {
    t.Keys <= Grow(rs).Keys && Newest(rs) in Grow(rs) && Newest(rs) !in t
  }

  lemma GrowOne(rs: seq<Record>, r: Record)
    requires Named(rs) && r.path != []
    ensures Named(rs + [r]) && Grow(rs + [r]) == AddRecord(Grow(rs), r)
    ensures Newest(rs + [r]) == if r.path in Grow(rs) then Newest(rs) else r.path
  {
    assert (rs + [r])[..|rs|] == rs;
  }

  lemma BlockedLacks(rs: seq<Record>, r: Record, t: Dirs)
    requires Named(rs) && r.path != [] && Blocked(Grow(rs), t, r)
    ensures Named(rs + [r]) && Lacks(t, rs + [r])
  {
    GrowOne(rs, r);
    RecordKeys(Grow(rs), r);
  }

  lemma {:induction false} LacksForGood(rs: seq<Record>, more: seq<Record>, t: Dirs)
    requires Named(rs) && Named(rs + more) && Lacks(t, rs)
    ensures Lacks(t, rs + more)
    decreases |more|
  {
    if more == [] {
      assert rs + more == rs;
    } else {
      var front, r := more[..|more| - 1], more[|more| - 1];
      assert rs + more == rs + front + [r];
      assert forall i :: 0 <= i < |rs + front| ==> (rs + front)[i] == (rs + more)[i];
      assert (rs + more)[|rs + front|] == r;
      LacksForGood(rs, front, t);
      GrowOne(rs + front, r);
      RecordKeys(Grow(rs + front), r);
    }
  }

  /** What is too large for one record stays too large. */
  lemma TooLarge(rs: seq<Record>, t: Dirs)
    requires Named(rs) && Lacks(t, rs) && Overfull(t)
    ensures !IndexFits(rs)
  {
    var s, p := t.Keys, Newest(rs);
    OneMoreName(s, p);
    MoreNames(s + {p}, Grow(rs).Keys);
  }

  // ----- lists that certainly fit

  /** How many bytes the paths of some records take up, component by component. */
  function AllBytes(rs: seq<Record>): nat {
    if rs == [] then 0 else AllBytes(rs[..|rs| - 1]) + Size(rs[|rs| - 1].path)
  }

  ghost predicate AllComponents(rs: seq<Record>) {
    forall i :: 0 <= i < |rs| ==> AreComponents(rs[i].path)
  }

  lemma {:induction false} MakeDirsSizes(t: Dirs, q: Path)
    requires AreComponents(q)
    ensures |MakeDirs(t, q).Keys| <= |t.Keys| + Size(q)
    ensures NameBytes(MakeDirs(t, q).Keys) <= NameBytes(t.Keys) + Size(q)
    decreases |q|
  {
    if q != [] {
      MakeDirsSizes(t, Front(q));
      KeySizes(MakeDirs(t, Front(q)), q);
    }
  }

  /** One more path. */
  lemma KeySizes(t: Dirs, p: Path)
    requires p != [] && IsComponent(p[|p| - 1])
    ensures |t.Keys + {p}| <= |t.Keys| + NameLength(p) && NameBytes(t.Keys + {p}) <= NameBytes(t.Keys) + NameLength(p)
    ensures Demand(t, p).Keys == t.Keys || Demand(t, p).Keys == t.Keys + {p}
  {
    if p in t {
      assert t.Keys + {p} == t.Keys;
    } else {
      OneMoreName(t.Keys, p);
    }
  }

  lemma {:induction false} GrowSizes(rs: seq<Record>)
    requires Named(rs) && AllComponents(rs)
    ensures |Grow(rs).Keys| <= AllBytes(rs) + 1 && NameBytes(Grow(rs).Keys) <= AllBytes(rs)
    decreases |rs|
  {
    if rs == [] {
      var root: Path := [];
      NameBytesWithout({root}, root);
      assert ROOT_ONLY.Keys == {root} && {root} - {root} == {};
    } else {
      var front, r := rs[..|rs| - 1], rs[|rs| - 1];
      GrowSizes(front);
      var made := MakeDirs(Grow(front), Front(r.path));
      MakeDirsSizes(Grow(front), Front(r.path));
      KeySizes(made, r.path);
      MoreNames(Claim(made, r).Keys, made.Keys + {r.path});
    }
  }

  /** Records whose paths together stay below 32 bits always fit. */
  lemma FewBytesFit(rs: seq<Record>)
    requires Named(rs) && AllComponents(rs) && AllBytes(rs) + 1 < U32_MAX
    ensures IndexFits(rs)
  {
    GrowSizes(rs);
  }
}
