/**
 The build-time table from (parent, name) to node: open addressing with linear probing, where
 a slot holds a node index plus one and the key is found in the node and the name blob. The
 table is proved to answer exactly as a scan over all nodes would.
 */
module Interning {
  import opened Bytes
  import opened Tree

  /** A node while the tree is being discovered. */
  datatype TmpNode = TmpNode(
    nameOff: nat,
    nameLen: nat,
    kind: Kind,
    synthetic: bool,
    parent: nat,
    meta: nat)

  datatype Key = Key(parent: nat, name: Name)

  /** Any hash function will do; nothing below depends on how it spreads keys. */
  type Hash = Key -> nat

  predicate InBlob(n: TmpNode, names: Name) {
    n.nameOff + n.nameLen <= |names|
  }

  predicate AllInBlob(nodes: seq<TmpNode>, names: Name) {
    forall i :: 0 <= i < |nodes| ==> InBlob(nodes[i], names)
  }

  function NameOf(n: TmpNode, names: Name): Name
    requires InBlob(n, names)
  {
    names[n.nameOff..n.nameOff + n.nameLen]
  }

  function KeyOf(n: TmpNode, names: Name): Key
    requires InBlob(n, names)
  {
    Key(n.parent, NameOf(n, names))
  }

  /** All that the table depends on: kinds, flags and metadata may change freely. */
  ghost function Keys(nodes: seq<TmpNode>, names: Name): (keys: seq<Key>)
    requires AllInBlob(nodes, names)
    ensures |keys| == |nodes|
    ensures forall i :: 0 <= i < |nodes| ==> keys[i] == KeyOf(nodes[i], names)
  {
    seq(|nodes|, i requires 0 <= i < |nodes| => KeyOf(nodes[i], names))
  }

  // ----- powers of two

  function Pow2(k: nat): (r: nat)
    ensures r > 0
  {
    if k == 0 then 1 else 2 * Pow2(k - 1)
  }

  lemma TwiceAsMany(k: nat)
    ensures Pow2(k + 1) == 2 * Pow2(k)
  {
  }

  /** Bitwise conjunction of two naturals. */
  function BitAnd(x: nat, y: nat): (r: nat)
    ensures r <= y
  {
    if x == 0 || y == 0 then 0
    else 2 * BitAnd(x / 2, y / 2) + (if x % 2 == 1 && y % 2 == 1 then 1 else 0)
  }

  lemma RemainderIsUnique(x: int, m: int, q: int, r: int)
    requires 0 <= r < m && x == q * m + r
    ensures x % m == r
  {
    var q' := x / m;
    assert x == q' * m + x % m;
    Distribute(q, q', m);
    AtLeastOne(q - q', m);
    AtLeastOne(q' - q, m);
  }

  lemma Distribute(a: int, b: int, m: int)
    ensures (a - b) * m == a * m - b * m && (b - a) * m == b * m - a * m
  {
  }

  lemma AtLeastOne(a: int, m: int)
    requires m > 0
    ensures a >= 1 ==> a * m >= m
  {
  }

  lemma RemainderOfDouble(x: nat, m: nat)
    requires m > 0
    ensures x % (2 * m) == 2 * (x / 2 % m) + x % 2
  {
    var q, r := x / 2 / m, x / 2 % m;
    assert x == 2 * (q * m + r) + x % 2;
    assert x == q * (2 * m) + (2 * r + x % 2);
    RemainderIsUnique(x, 2 * m, q, 2 * r + x % 2);
  }

  /** Masking with a power of two less one is reduction modulo that power. */
  lemma {:induction false} MaskIsRemainder(x: nat, k: nat)
    ensures BitAnd(x, Pow2(k) - 1) == x % Pow2(k)
    decreases k
  {
    if k > 0 {
      MaskIsRemainder(x / 2, k - 1);
      RemainderOfDouble(x, Pow2(k - 1));
      assert (Pow2(k) - 1) / 2 == Pow2(k - 1) - 1 && (Pow2(k) - 1) % 2 == 1;
      if x == 0 {
        RemainderIsUnique(0, Pow2(k), 0, 0);
      }
    }
  }

  lemma HalfOfMask(x: nat, m: nat)
    ensures BitAnd(x, 2 * m) == 2 * BitAnd(x / 2, m)
  {
  }

  /** `next_power_of_two`. */
  method NextPowerOfTwo(n: nat) returns (size: nat, ghost bits: nat)
    ensures size == Pow2(bits) && size >= n && (bits > 0 ==> Pow2(bits - 1) < n)
  {
    size, bits := 1, 0;
    while size < n
      invariant size == Pow2(bits) && (bits > 0 ==> Pow2(bits - 1) < n)
    {
      size, bits := size * 2, bits + 1;
    }
  }

  // ----- tables as values

  /** The slot `e` places after `home`, wrapping around. */
  function Probe(home: nat, e: nat, size: nat): (j: nat)
    requires home < size && e < size
    ensures j < size
  {
    if home + e < size then home + e else home + e - size
  }

  /** How many slots are in use. */
  function Used(slots: seq<nat>): (n: nat)
    ensures n <= |slots|
  {
    if slots == [] then 0 else (if slots[0] != 0 then 1 else 0) + Used(slots[1..])
  }

  lemma {:induction false} UsedAfterWrite(slots: seq<nat>, j: nat, v: nat)
    requires j < |slots| && slots[j] == 0 && v != 0
    ensures Used(slots[j := v]) == Used(slots) + 1
    decreases |slots|
  {
    if j == 0 {
      assert slots[j := v][1..] == slots[1..];
    } else {
      UsedAfterWrite(slots[1..], j - 1, v);
      assert slots[j := v][1..] == slots[1..][j - 1 := v];
    }
  }

  lemma {:induction false} UsedWhenFull(slots: seq<nat>)
    requires forall j :: 0 <= j < |slots| ==> slots[j] != 0
    ensures Used(slots) == |slots|
  {
    if slots != [] {
      UsedWhenFull(slots[1..]);
    }
  }

  lemma {:induction false} UsedWhenEmpty(slots: seq<nat>)
    requires forall j :: 0 <= j < |slots| ==> slots[j] == 0
    ensures Used(slots) == 0
  {
    if slots != [] {
      UsedWhenEmpty(slots[1..]);
    }
  }

  lemma {:induction false} UsedPrefix(slots: seq<nat>, j: nat)
    requires j < |slots|
    ensures Used(slots[..j + 1]) == Used(slots[..j]) + (if slots[j] != 0 then 1 else 0)
    decreases j
  {
    if j > 0 {
      UsedPrefix(slots[1..], j - 1);
      assert slots[..j + 1][1..] == slots[1..][..j] && slots[..j][1..] == slots[1..][..j - 1];
    } else {
      assert slots[..1][1..] == [];
    }
  }

  /** A node sits `d` probes from home and nothing on the way is free. */
  ghost predicate SitsAt(slots: seq<nat>, home: nat, id: nat, d: nat)
    requires home < |slots|
  {
    && d < |slots|
    && slots[Probe(home, d, |slots|)] == id + 1
    && forall e: nat :: e < d ==> slots[Probe(home, e, |slots|)] != 0
  }

  ghost predicate Reachable(slots: seq<nat>, home: nat, id: nat)
    requires home < |slots|
  {
    exists d: nat :: SitsAt(slots, home, id, d)
  }

  function Home(hash: Hash, key: Key, size: nat): (h: nat)
    requires size > 0
    ensures h < size
  {
    BitAnd(hash(key), size - 1)
  }

  /** A node can be found from the home of its key. */
  ghost predicate Filed(slots: seq<nat>, hash: Hash, keys: seq<Key>, id: nat)
    requires |slots| > 0 && id < |keys|
  {
    Reachable(slots, Home(hash, keys[id], |slots|), id)
  }

  /** The table holds exactly the nodes 1 up to the last, each reachable from its home. */
  ghost predicate Holds(slots: seq<nat>, hash: Hash, keys: seq<Key>) {
    && |slots| > 0 && |keys| > 0
    && Used(slots) == |keys| - 1
    && (forall j :: 0 <= j < |slots| && slots[j] != 0 ==> 2 <= slots[j] <= |keys|)
    && (forall id :: 1 <= id < |keys| ==> Filed(slots, hash, keys, id))
  }

  lemma ReachableAfterWrite(slots: seq<nat>, j: nat, v: nat, home: nat, id: nat)
    requires home < |slots| && j < |slots| && slots[j] == 0 && v != 0
    requires Reachable(slots, home, id)
    ensures Reachable(slots[j := v], home, id)
  {
    var d: nat :| SitsAt(slots, home, id, d);
    assert SitsAt(slots[j := v], home, id, d);
  }

  /** A probe that has come all the way round has seen every slot. */
  lemma FullCircle(slots: seq<nat>, home: nat)
    requires home < |slots|
    requires forall e: nat :: e < |slots| ==> slots[Probe(home, e, |slots|)] != 0
    ensures Used(slots) == |slots|
  {
    forall j | 0 <= j < |slots| ensures slots[j] != 0 {
      var e: nat := if j >= home then j - home else j + |slots| - home;
      assert Probe(home, e, |slots|) == j;
    }
    UsedWhenFull(slots);
  }

  /** The first `d` probes met nodes, none of them with this key. */
  ghost predicate Passed(slots: seq<nat>, keys: seq<Key>, key: Key, home: nat, d: nat)
    requires home < |slots| && d < |slots|
  {
    forall e: nat :: e < d ==>
      var slot := slots[Probe(home, e, |slots|)];
      0 < slot <= |keys| && keys[slot - 1] != key
  }

  lemma TableBasics(slots: seq<nat>, hash: Hash, keys: seq<Key>)
    requires Holds(slots, hash, keys)
    ensures 0 < |slots| && 0 < |keys| && Used(slots) == |keys| - 1
    ensures forall j :: 0 <= j < |slots| && slots[j] != 0 ==> 2 <= slots[j] <= |keys|
  {
  }

  /** A free slot settles that a key is absent. */
  lemma FreeSlotMeansAbsent(slots: seq<nat>, hash: Hash, keys: seq<Key>, key: Key, d: nat)
    requires Holds(slots, hash, keys) && d < |slots|
    requires Passed(slots, keys, key, Home(hash, key, |slots|), d)
    requires slots[Probe(Home(hash, key, |slots|), d, |slots|)] == 0
    ensures forall id :: 1 <= id < |keys| ==> keys[id] != key
  {
    forall id | 1 <= id < |keys| ensures keys[id] != key {
      assert Filed(slots, hash, keys, id);
    }
  }

  /** A table that is not full lets no probe come round. */
  lemma ProbeGoesOn(slots: seq<nat>, home: nat, d: nat)
    requires home < |slots| && d < |slots| && Used(slots) < |slots|
    requires forall e: nat :: e <= d ==> slots[Probe(home, e, |slots|)] != 0
    ensures d + 1 < |slots|
  {
    if d + 1 == |slots| {
      FullCircle(slots, home);
    }
  }

  /** The nodes of the first `i` slots of the old table can be found in the new one. */
  ghost predicate Moved(slots: seq<nat>, hash: Hash, keys: seq<Key>, before: seq<nat>, i: nat)
    requires |slots| > 0 && i <= |before|
  {
    && (forall j :: 0 <= j < |slots| && slots[j] != 0 ==> 2 <= slots[j] <= |keys|)
    && (forall j :: 0 <= j < i && before[j] != 0 ==>
        0 < before[j] <= |keys| && Filed(slots, hash, keys, before[j] - 1))
  }

  lemma NoneMoved(slots: seq<nat>, hash: Hash, keys: seq<Key>, before: seq<nat>)
    requires |slots| > 0 && forall j :: 0 <= j < |slots| ==> slots[j] == 0
    ensures Moved(slots, hash, keys, before, 0) && Used(slots) == 0
  {
    UsedWhenEmpty(slots);
  }

  lemma MoveNone(slots: seq<nat>, hash: Hash, keys: seq<Key>, before: seq<nat>, i: nat)
    requires |slots| > 0 && i < |before| && Moved(slots, hash, keys, before, i) && before[i] == 0
    ensures Moved(slots, hash, keys, before, i + 1)
  {
  }

  lemma MoveOne(slots: seq<nat>, hash: Hash, keys: seq<Key>, before: seq<nat>, i: nat, at: nat)
    requires |slots| > 0 && i < |before| && Moved(slots, hash, keys, before, i)
    requires 2 <= before[i] <= |keys| && at < |slots| && slots[at] == 0
    requires Filed(slots[at := before[i]], hash, keys, before[i] - 1)
    ensures Moved(slots[at := before[i]], hash, keys, before, i + 1)
  {
    forall j | 0 <= j < i && before[j] != 0
      ensures Filed(slots[at := before[i]], hash, keys, before[j] - 1)
    {
      ReachableAfterWrite(slots, at, before[i], Home(hash, keys[before[j] - 1], |slots|), before[j] - 1);
    }
  }

  lemma MovedAll(slots: seq<nat>, hash: Hash, keys: seq<Key>, before: seq<nat>)
    requires |slots| > 0 && Moved(slots, hash, keys, before, |before|) && Used(slots) == Used(before)
    requires Holds(before, hash, keys)
    ensures Holds(slots, hash, keys)
  {
    hide BitAnd, Used, Home;
    forall id | 1 <= id < |keys| ensures Filed(slots, hash, keys, id) {
      var home := Home(hash, keys[id], |before|);
      assert Filed(before, hash, keys, id);
      var d: nat :| SitsAt(before, home, id, d);
      assert before[Probe(home, d, |before|)] == id + 1;
    }
  }

  lemma HoldsAfterInsert(slots: seq<nat>, hash: Hash, keys: seq<Key>, key: Key, at: nat)
    requires Holds(slots, hash, keys) && at < |slots| && slots[at] == 0
    requires Reachable(slots[at := |keys| + 1], Home(hash, key, |slots|), |keys|)
    ensures Holds(slots[at := |keys| + 1], hash, keys + [key])
  {
    var slots', keys' := slots[at := |keys| + 1], keys + [key];
    UsedAfterWrite(slots, at, |keys| + 1);
    forall id | 1 <= id < |keys'| ensures Filed(slots', hash, keys', id) {
      if id < |keys| {
        assert Filed(slots, hash, keys, id);
        ReachableAfterWrite(slots, at, |keys| + 1, Home(hash, keys[id], |slots|), id);
      }
    }
  }

  // ----- the table as the builder keeps it

  class Interner {
    var slots: array<nat>
    var mask: nat
    var len: nat
    const hash: Hash
    ghost var bits: nat

    ghost predicate Sized()
      reads this
    {
      slots.Length == Pow2(bits) && mask == slots.Length - 1
    }

    ghost predicate Valid(keys: seq<Key>)
      reads this, slots
    {
      Sized() && Holds(slots[..], hash, keys) && len == |keys| - 1 && 2 * len <= slots.Length
    }

    /** `with_capacity`: room for twice the hint, at least 32 slots. */
    constructor (cap: nat, hash: Hash, ghost root: Key)
      ensures Valid([root]) && fresh(slots) && this.hash == hash
      ensures slots.Length >= 2 * cap && slots.Length >= 32
    {
      var wanted := (if cap < 16 then 16 else cap) * 2;
      var size, b := NextPowerOfTwo(wanted);
      this.hash := hash;
      slots := new nat[size](_ => 0);
      mask := size - 1;
      len := 0;
      bits := b;
      new;
      UsedWhenEmpty(slots[..]);
    }

    lemma NextIsProbe(home: nat, d: nat)
      requires Sized() && home < slots.Length && d + 1 < slots.Length
      ensures BitAnd(Probe(home, d, slots.Length) + 1, mask) == Probe(home, d + 1, slots.Length)
    {
      var j := Probe(home, d, slots.Length) + 1;
      MaskIsRemainder(j, bits);
      if j == slots.Length {
        RemainderIsUnique(j, slots.Length, 1, 0);
      } else {
        RemainderIsUnique(j, slots.Length, 0, j);
      }
    }

    /** `find`: the node with this parent and name, exactly when there is one. */
    method Find(nodes: seq<TmpNode>, names: Name, parent: nat, name: Name) returns (r: Option<nat>)
      requires AllInBlob(nodes, names) && Valid(Keys(nodes, names))
      ensures r.Some? ==> 1 <= r.value < |nodes| && KeyOf(nodes[r.value], names) == Key(parent, name)
      ensures r.None? ==> forall id :: 1 <= id < |nodes| ==> KeyOf(nodes[id], names) != Key(parent, name)
    {
      hide Holds, BitAnd, Pow2, Used;
      ghost var keys, table := Keys(nodes, names), slots[..];
      TableBasics(table, hash, keys);
      var key := Key(parent, name);
      var idx := BitAnd(hash(key), mask);
      ghost var home, d: nat := idx, 0;
      while true
        invariant d < slots.Length && home < slots.Length && idx == Probe(home, d, slots.Length)
        invariant Passed(table, keys, key, home, d)
        decreases slots.Length - d
      {
        var slot := slots[idx];
        if slot == 0 {
          FreeSlotMeansAbsent(table, hash, keys, key, d);
          return None;
        }
        var id := slot - 1;
        if nodes[id].parent == parent && NameOf(nodes[id], names) == name {
          return Some(id);
        }
        ProbeGoesOn(table, home, d);
        NextIsProbe(home, d);
        idx, d := BitAnd(idx + 1, mask), d + 1;
      }
    }

    /** `place`: writes a node into the first free slot from its home. */
    method Place(nodes: seq<TmpNode>, names: Name, id: nat) returns (ghost at: nat)
      requires id < |nodes| && InBlob(nodes[id], names) && id < U32_MAX
      requires Sized() && Used(slots[..]) < slots.Length
      modifies slots
      ensures at < slots.Length && old(slots[at]) == 0
      ensures slots[..] == old(slots[..])[at := id + 1]
      ensures Reachable(slots[..], Home(hash, KeyOf(nodes[id], names), slots.Length), id)
    {
      ghost var table := slots[..];
      var key := KeyOf(nodes[id], names);
      var idx := BitAnd(hash(key), mask);
      ghost var home, d: nat := idx, 0;
      while slots[idx] != 0
        invariant d < slots.Length && idx == Probe(home, d, slots.Length)
        invariant forall e: nat :: e < d ==> table[Probe(home, e, slots.Length)] != 0
        invariant slots[..] == table
        decreases slots.Length - d
      {
        ProbeGoesOn(table, home, d);
        NextIsProbe(home, d);
        idx, d := BitAnd(idx + 1, mask), d + 1;
      }
      at := idx;
      slots[idx] := id + 1;
      assert SitsAt(slots[..], home, id, d);
    }

    /** One slot of the old table, written into the new one. */
    method MoveIn(nodes: seq<TmpNode>, names: Name, ghost keys: seq<Key>, ghost before: seq<nat>, i: nat, slot: nat)
      requires AllInBlob(nodes, names) && |nodes| <= U32_MAX && keys <= Keys(nodes, names)
      requires i < |before| && slot == before[i] && 2 <= slot <= |keys|
      requires Sized() && Used(slots[..]) < slots.Length && Moved(slots[..], hash, keys, before, i)
      modifies slots
      ensures Moved(slots[..], hash, keys, before, i + 1) && Used(slots[..]) == old(Used(slots[..])) + 1
    {
      ghost var was := slots[..];
      assert KeyOf(nodes[slot - 1], names) == keys[slot - 1];
      ghost var at := Place(nodes, names, slot - 1);
      UsedAfterWrite(was, at, slot);
      MoveOne(was, hash, keys, before, i, at);
    }

    /** `grow`: the same nodes in a table twice the size. */
    method Grow(nodes: seq<TmpNode>, names: Name, ghost keys: seq<Key>)
      requires AllInBlob(nodes, names) && |nodes| <= U32_MAX
      requires Valid(keys) && keys <= Keys(nodes, names)
      modifies this
      ensures Valid(keys) && fresh(slots)
      ensures slots.Length == 2 * old(slots.Length) && len == old(len)
    {
      hide Holds, Moved, BitAnd, Used, Pow2, Home, Filed, Keys, AllInBlob;
      var prior := slots;
      ghost var before := prior[..];
      TableBasics(before, hash, keys);
      TwiceAsMany(bits);
      var size := prior.Length * 2;
      slots := new nat[size](_ => 0);
      mask := size - 1;
      bits := bits + 1;
      NoneMoved(slots[..], hash, keys, before);
      for i := 0 to prior.Length
        invariant fresh(slots) && prior[..] == before && Sized()
        invariant slots.Length == size && len == old(len)
        invariant Used(slots[..]) == Used(before[..i])
        invariant Moved(slots[..], hash, keys, before, i)
      {
        UsedPrefix(before, i);
        if prior[i] != 0 {
          MoveIn(nodes, names, keys, before, i, prior[i]);
        } else {
          MoveNone(slots[..], hash, keys, before, i);
        }
      }
      assert before[..prior.Length] == before;
      MovedAll(slots[..], hash, keys, before);
    }

    /** `insert`: adds the newest node, keeping at most half of the slots in use. */
    method Insert(nodes: seq<TmpNode>, names: Name, id: nat)
      requires AllInBlob(nodes, names) && |nodes| == id + 1 && 0 < id < U32_MAX
      requires Valid(Keys(nodes, names)[..id])
      modifies this, slots
      ensures Valid(Keys(nodes, names)) && (slots == old(slots) || fresh(slots))
      ensures slots.Length == old(slots.Length) * (if 2 * id > old(slots.Length) then 2 else 1)
    {
      hide Holds, Reachable, BitAnd, Pow2;
      ghost var all := Keys(nodes, names);
      ghost var keys := all[..id];
      if (len + 1) * 2 > slots.Length {
        Grow(nodes, names, keys);
      }
      ghost var was := slots[..];
      TableBasics(was, hash, keys);
      ghost var at := Place(nodes, names, id);
      HoldsAfterInsert(was, hash, keys, all[id], at);
      assert keys + [all[id]] == all;
      len := len + 1;
    }
  }
}
