/**
 The second half of `finish`: nodes are relabelled in breadth-first order, which makes the
 children of every directory contiguous. The queue is proved to visit every node exactly once,
 so the labels are a permutation, and the child ranges to tile the labels from 2 upwards.
 */
module BreadthFirst {
  import opened Bytes
  import opened Interning
  import opened Building
  import opened Grouping

  /** `order[k]` gets label `k + 1`; the other two are indexed by node. */
  datatype Layout = Layout(order: seq<nat>, firstChild: seq<nat>, finalOf: seq<nat>)

  /** What the traversal relies on: parents come first. */
  ghost predicate ParentsFirst(nodes: seq<TmpNode>) {
    |nodes| > 0 && forall i :: 1 <= i < |nodes| ==> nodes[i].parent < i
  }

  // ----- counting without gaps

  lemma {:induction false} Pigeonhole(s: seq<nat>, b: nat)
    requires forall i :: 0 <= i < |s| ==> s[i] < b
    requires forall i, j :: 0 <= i < j < |s| ==> s[i] != s[j]
    ensures |s| <= b
    decreases b
  {
    if s != [] {
      assert s[0] < b;
      if b - 1 in s {
        var k :| 0 <= k < |s| && s[k] == b - 1;
        var rest := s[..k] + s[k + 1..];
        assert forall i :: 0 <= i < |rest| ==> rest[i] == s[if i < k then i else i + 1];
        Pigeonhole(rest, b - 1);
      } else {
        assert forall i :: 0 <= i < |s| ==> s[i] in s;
        Pigeonhole(s, b - 1);
      }
    }
  }

  // ----- the state of the traversal

  /** The `k`th node of the queue has number `k + 1`. */
  ghost predicate NumberAt(n: nat, order: seq<nat>, finalOf: seq<nat>, k: nat) {
    k < |order| && order[k] < n == |finalOf| && finalOf[order[k]] == k + 1
  }

  /** A numbered node is in the queue, where its number says. */
  ghost predicate PlaceOf(n: nat, order: seq<nat>, finalOf: seq<nat>, id: nat) {
    id < n == |finalOf| && (finalOf[id] != 0 ==> finalOf[id] <= |order| && order[finalOf[id] - 1] == id)
  }

  /** `finalOf` numbers exactly the queued nodes, by their place in the queue. */
  ghost predicate Numbered(n: nat, order: seq<nat>, finalOf: seq<nat>) {
    && |finalOf| == n
    && (forall k :: 0 <= k < |order| ==> NumberAt(n, order, finalOf, k))
    && (forall id :: 0 <= id < n ==> PlaceOf(n, order, finalOf, id))
  }

  /** The first `m` queued nodes, the root aside, came from the first `i` processed ones. */
  ghost predicate Rooted(nodes: seq<TmpNode>, order: seq<nat>, finalOf: seq<nat>, m: nat, i: nat) {
    && m <= |order| && |finalOf| == |nodes| > 0 && |order| > 0 && order[0] == 0
    && forall k :: 1 <= k < m ==> CameFrom(nodes, order, finalOf, i, k)
  }

  ghost predicate CameFrom(nodes: seq<TmpNode>, order: seq<nat>, finalOf: seq<nat>, i: nat, k: nat) {
    && k < |order| && 1 <= order[k] < |nodes| == |finalOf|
    && var p := nodes[order[k]].parent; p < |nodes| && 1 <= finalOf[p] <= i
  }

  /** One more than the number of nodes queued once the first `k` are processed. */
  function Offset(nodes: seq<TmpNode>, names: Name, order: seq<nat>, k: nat): nat
    requires k <= |order|
  {
    if k == 0 then 2 else Offset(nodes, names, order, k - 1) + |Children(nodes, names, order[k - 1])|
  }

  /** The children of the `k`th node lie together, in name order, where its label says. */
  ghost predicate LaidAt(nodes: seq<TmpNode>, names: Name, order: seq<nat>, firstChild: seq<nat>, k: nat) {
    && k < |order| && order[k] < |nodes| == |firstChild|
    && var fc, kids := firstChild[order[k]], Children(nodes, names, order[k]);
       && fc == Offset(nodes, names, order, k)
       && k + 2 <= fc <= U32_MAX
       && fc - 1 + |kids| <= |order|
       && order[fc - 1..fc - 1 + |kids|] == kids
  }

  ghost predicate Laid(nodes: seq<TmpNode>, names: Name, order: seq<nat>, firstChild: seq<nat>, i: nat) {
    forall k :: 0 <= k < i ==> LaidAt(nodes, names, order, firstChild, k)
  }

  lemma {:induction false} OffsetOfPrefix(nodes: seq<TmpNode>, names: Name, order: seq<nat>, more: seq<nat>, k: nat)
    requires k <= |order|
    ensures Offset(nodes, names, order + more, k) == Offset(nodes, names, order, k)
    decreases k
  {
    if k > 0 {
      OffsetOfPrefix(nodes, names, order, more, k - 1);
      assert (order + more)[k - 1] == order[k - 1];
    }
  }

  lemma NumberOf(n: nat, order: seq<nat>, finalOf: seq<nat>, k: nat)
    requires Numbered(n, order, finalOf) && k < |order|
    ensures |finalOf| == n && order[k] < n && finalOf[order[k]] == k + 1
  {
    assert NumberAt(n, order, finalOf, k);
  }

  lemma NumberedIsSmall(n: nat, order: seq<nat>, finalOf: seq<nat>)
    requires Numbered(n, order, finalOf)
    ensures |order| <= n
  {
    forall i, j | 0 <= i < j < |order| ensures order[i] != order[j] {
      assert NumberAt(n, order, finalOf, i) && NumberAt(n, order, finalOf, j);
    }
    forall i | 0 <= i < |order| ensures order[i] < n {
      assert NumberAt(n, order, finalOf, i);
    }
    Pigeonhole(order, n);
  }

  lemma NumberedIsLarge(n: nat, order: seq<nat>, finalOf: seq<nat>)
    requires Numbered(n, order, finalOf)
    requires forall id :: 0 <= id < n ==> finalOf[id] != 0
    ensures n <= |order|
  {
    var places: seq<nat> := seq(n, id requires 0 <= id < n => (finalOf[id] - 1) as nat);
    forall i, j | 0 <= i < j < |places| ensures places[i] != places[j] {
      assert PlaceOf(n, order, finalOf, i) && PlaceOf(n, order, finalOf, j);
    }
    forall i | 0 <= i < |places| ensures places[i] < |order| {
      assert PlaceOf(n, order, finalOf, i);
    }
    Pigeonhole(places, |order|);
  }

  lemma PushOne(n: nat, order: seq<nat>, finalOf: seq<nat>, id: nat)
    requires Numbered(n, order, finalOf) && id < n && finalOf[id] == 0
    ensures Numbered(n, order + [id], finalOf[id := |order| + 1])
  {
    var order', finalOf' := order + [id], finalOf[id := |order| + 1];
    forall k | 0 <= k < |order'| ensures NumberAt(n, order', finalOf', k) {
      assert k < |order| ==> NumberAt(n, order, finalOf, k);
    }
    forall x | 0 <= x < n ensures PlaceOf(n, order', finalOf', x) {
      assert PlaceOf(n, order, finalOf, x);
    }
  }

  /** While the children of `t` are queued: everything before came from earlier nodes. */
  ghost predicate Queueing(
      nodes: seq<TmpNode>, kids: seq<nat>, t: nat, i: nat,
      before: seq<nat>, order: seq<nat>, finalOf: seq<nat>, j: nat) {
    && j <= |kids| && order == before + kids[..j]
    && Numbered(|nodes|, order, finalOf)
    && Rooted(nodes, order, finalOf, |before|, i)
    && t < |nodes| && finalOf[t] == i + 1
  }

  ghost predicate AreChildren(nodes: seq<TmpNode>, kids: seq<nat>, t: nat) {
    && (forall a :: 0 <= a < |kids| ==> 1 <= kids[a] < |nodes| && nodes[kids[a]].parent == t)
    && (forall a, b :: 0 <= a < b < |kids| ==> kids[a] != kids[b])
  }

  /** A child of the node in hand has not been queued before. */
  lemma NextIsNew(
      nodes: seq<TmpNode>, kids: seq<nat>, t: nat, i: nat,
      before: seq<nat>, order: seq<nat>, finalOf: seq<nat>, j: nat)
    requires AreChildren(nodes, kids, t) && Queueing(nodes, kids, t, i, before, order, finalOf, j)
    requires j < |kids|
    ensures kids[j] < |nodes| == |finalOf| && finalOf[kids[j]] == 0
  {
    var id := kids[j];
    forall m | 0 <= m < |order| ensures order[m] != id {
      if 1 <= m < |before| {
        assert CameFrom(nodes, order, finalOf, i, m);
      }
    }
    assert PlaceOf(|nodes|, order, finalOf, id);
  }

  lemma QueueOne(
      nodes: seq<TmpNode>, kids: seq<nat>, t: nat, i: nat,
      before: seq<nat>, order: seq<nat>, finalOf: seq<nat>, j: nat)
    requires AreChildren(nodes, kids, t) && Queueing(nodes, kids, t, i, before, order, finalOf, j)
    requires j < |kids|
    ensures kids[j] < |finalOf|
    ensures Queueing(nodes, kids, t, i, before, order + [kids[j]], finalOf[kids[j] := |order| + 1], j + 1)
  {
    var id := kids[j];
    NextIsNew(nodes, kids, t, i, before, order, finalOf, j);
    PushOne(|nodes|, order, finalOf, id);
    var finalOf' := finalOf[id := |order| + 1];
    assert order + [id] == before + kids[..j + 1];
    forall k | 1 <= k < |before| ensures CameFrom(nodes, order + [id], finalOf', i, k) {
      assert CameFrom(nodes, order, finalOf, i, k);
    }
  }

  /** Once all children are queued, one more node counts as processed. */
  lemma QueuedAll(
      nodes: seq<TmpNode>, kids: seq<nat>, t: nat, i: nat,
      before: seq<nat>, order: seq<nat>, finalOf: seq<nat>)
    requires AreChildren(nodes, kids, t) && Queueing(nodes, kids, t, i, before, order, finalOf, |kids|)
    ensures Rooted(nodes, order, finalOf, |order|, i + 1) && order == before + kids
  {
    assert kids[..|kids|] == kids;
    var next := i + 1;
    forall k | 1 <= k < |order| ensures CameFrom(nodes, order, finalOf, next, k) {
      if k < |before| {
        assert CameFrom(nodes, order, finalOf, i, k);
      } else {
        assert order[k] == kids[k - |before|];
      }
    }
  }

  /** The inner loop: queues the children of one node, numbering them as it goes. */
  method Enqueue(nodes: seq<TmpNode>, kids: seq<nat>, t: nat, i: nat, before: seq<nat>, finalOf: array<nat>)
    returns (r: Result<seq<nat>, BuildError>)
    requires AreChildren(nodes, kids, t) && Queueing(nodes, kids, t, i, before, before, finalOf[..], 0)
    modifies finalOf
    ensures r.Ok? ==> Queueing(nodes, kids, t, i, before, r.value, finalOf[..], |kids|)
    ensures r.Ok? && |before| <= U32_MAX ==> |r.value| <= U32_MAX
    ensures r.Err? ==> |nodes| >= U32_MAX
  {
    hide Queueing, AreChildren, Numbered;
    var order := before;
    for j: nat := 0 to |kids|
      invariant Queueing(nodes, kids, t, i, before, order, finalOf[..], j)
      invariant |before| <= U32_MAX ==> |order| <= U32_MAX
    {
      ghost var was: seq<nat> := finalOf[..];
      QueueOne(nodes, kids, t, i, before, order, was, j);
      QueueIsSmall(nodes, kids, t, i, before, order, was, j);
      if |order| + 1 > U32_MAX {
        return Err(IndexTooLarge);
      }
      finalOf[kids[j]] := |order| + 1;
      order := order + [kids[j]];
      assert finalOf[..] == was[kids[j] := |order|];
    }
    return Ok(order);
  }

  lemma QueueIsSmall(
      nodes: seq<TmpNode>, kids: seq<nat>, t: nat, i: nat,
      before: seq<nat>, order: seq<nat>, finalOf: seq<nat>, j: nat)
    requires Queueing(nodes, kids, t, i, before, order, finalOf, j)
    ensures |order| <= |nodes|
  {
    NumberedIsSmall(|nodes|, order, finalOf);
  }

  /** What the outer loop keeps once `i` nodes are processed. */
  ghost predicate Visited(
      nodes: seq<TmpNode>, names: Name, order: seq<nat>, firstChild: seq<nat>, finalOf: seq<nat>, i: nat) {
    && |firstChild| == |nodes| && i <= |order|
    && Numbered(|nodes|, order, finalOf)
    && Rooted(nodes, order, finalOf, |order|, i)
    && Laid(nodes, names, order, firstChild, i)
    && |order| + 1 == Offset(nodes, names, order, i)
  }

  lemma VisitRoot(nodes: seq<TmpNode>, names: Name, order: seq<nat>, firstChild: seq<nat>, finalOf: seq<nat>)
    requires |nodes| > 0 && |firstChild| == |finalOf| == |nodes| && order == [0] && finalOf[0] == 1
    requires forall id :: 1 <= id < |nodes| ==> finalOf[id] == 0
    ensures Visited(nodes, names, order, firstChild, finalOf, 0)
  {
    assert NumberAt(|nodes|, order, finalOf, 0);
  }

  lemma KidsAreChildren(nodes: seq<TmpNode>, names: Name, t: nat)
    ensures AreChildren(nodes, Children(nodes, names, t), t)
  {
    ChildrenAreChildren(nodes, names, t);
    var s := Children(nodes, names, t);
    forall a | 0 <= a < |s| ensures 1 <= s[a] < |nodes| && nodes[s[a]].parent == t {
      assert s[a] in s;
    }
  }

  lemma StartQueueing(
      nodes: seq<TmpNode>, names: Name, order: seq<nat>, firstChild: seq<nat>, finalOf: seq<nat>, i: nat)
    requires Visited(nodes, names, order, firstChild, finalOf, i) && i < |order|
    ensures order[i] < |nodes| == |firstChild| && |order| <= |nodes|
    ensures Queueing(nodes, Children(nodes, names, order[i]), order[i], i, order, order, finalOf, 0)
  {
    NumberedIsSmall(|nodes|, order, finalOf);
    assert NumberAt(|nodes|, order, finalOf, i);
    var kids := Children(nodes, names, order[i]);
    assert order == order + kids[..0];
  }

  lemma LaidStays(
      nodes: seq<TmpNode>, names: Name, order: seq<nat>, more: seq<nat>,
      firstChild: seq<nat>, t: nat, fc: nat, finalOf: seq<nat>, i: nat, k: nat)
    requires LaidAt(nodes, names, order, firstChild, k) && k < i <= |order| && Numbered(|nodes|, order, finalOf)
    requires t < |nodes| && finalOf[t] == i + 1
    ensures LaidAt(nodes, names, order + more, firstChild[t := fc], k)
  {
    hide Offset, Children, Numbered;
    NumberOf(|nodes|, order, finalOf, k);
    OffsetOfPrefix(nodes, names, order, more, k);
    var at, kids := firstChild[order[k]], Children(nodes, names, order[k]);
    assert (order + more)[at - 1..at - 1 + |kids|] == order[at - 1..at - 1 + |kids|];
  }

  lemma VisitOne(
      nodes: seq<TmpNode>, names: Name, order: seq<nat>, order': seq<nat>,
      firstChild: seq<nat>, finalOf: seq<nat>, finalOf': seq<nat>, i: nat)
    requires Visited(nodes, names, order, firstChild, finalOf, i) && i < |order| < U32_MAX && order[i] < |nodes|
    requires Queueing(nodes, Children(nodes, names, order[i]), order[i], i, order, order', finalOf',
                      |Children(nodes, names, order[i])|)
    ensures Visited(nodes, names, order', firstChild[order[i] := |order| + 1], finalOf', i + 1)
  {
    hide Offset, Children, Numbered, Rooted, AreChildren;
    var t := order[i];
    var kids := Children(nodes, names, t);
    KidsAreChildren(nodes, names, t);
    QueuedAll(nodes, kids, t, i, order, order', finalOf');
    var firstChild' := firstChild[t := |order| + 1];
    OffsetOfPrefix(nodes, names, order, kids, i);
    assert order'[i] == t;
    NumberOf(|nodes|, order, finalOf, i);
    forall k | 0 <= k < i + 1 ensures LaidAt(nodes, names, order', firstChild', k) {
      if k < i {
        assert LaidAt(nodes, names, order, firstChild, k);
        LaidStays(nodes, names, order, kids, firstChild, t, |order| + 1, finalOf, i, k);
      } else {
        assert order'[|order|..|order| + |kids|] == kids;
      }
    }
    assert Offset(nodes, names, order', i + 1) == Offset(nodes, names, order', i) + |kids| by {
      OffsetStep(nodes, names, order', i);
    }
  }

  lemma OffsetStep(nodes: seq<TmpNode>, names: Name, order: seq<nat>, k: nat)
    requires k < |order|
    ensures Offset(nodes, names, order, k + 1) == Offset(nodes, names, order, k) + |Children(nodes, names, order[k])|
  {
  }

  /** A child is where its parent's range puts it. */
  lemma ChildPlace(
      nodes: seq<TmpNode>, names: Name, order: seq<nat>, firstChild: seq<nat>, finalOf: seq<nat>, k: nat, id: nat)
    requires Numbered(|nodes|, order, finalOf) && LaidAt(nodes, names, order, firstChild, k)
    requires 1 <= id < |nodes| && nodes[id].parent == order[k]
    ensures var p := order[k];
            && firstChild[p] <= finalOf[id] < firstChild[p] + |Children(nodes, names, p)|
            && k + 1 < finalOf[id]
            && Children(nodes, names, p)[finalOf[id] - firstChild[p]] == id
  {
    hide Offset, Children;
    var p := order[k];
    ChildrenAreChildren(nodes, names, p);
    var kids, fc := Children(nodes, names, p), firstChild[p];
    var a :| 0 <= a < |kids| && kids[a] == id;
    assert order[fc - 1..fc - 1 + |kids|][a] == order[fc - 1 + a];
    assert NumberAt(|nodes|, order, finalOf, fc - 1 + a);
  }

  /** Parents come first, so from the root everything is reached. */
  lemma {:induction false} NothingIsMissed(
      nodes: seq<TmpNode>, names: Name, order: seq<nat>, firstChild: seq<nat>, finalOf: seq<nat>, id: nat)
    requires ParentsFirst(nodes) && Visited(nodes, names, order, firstChild, finalOf, |order|) && id < |nodes|
    ensures finalOf[id] != 0
    decreases id
  {
    if id == 0 {
      assert NumberAt(|nodes|, order, finalOf, 0);
    } else {
      var p := nodes[id].parent;
      NothingIsMissed(nodes, names, order, firstChild, finalOf, p);
      assert PlaceOf(|nodes|, order, finalOf, p);
      var k := finalOf[p] - 1;
      assert LaidAt(nodes, names, order, firstChild, k);
      ChildPlace(nodes, names, order, firstChild, finalOf, k, id);
    }
  }

  /** What `breadth_first_order` delivers. */
  ghost predicate LaidOut(nodes: seq<TmpNode>, names: Name, l: Layout) {
    && |l.order| == |nodes|
    && Visited(nodes, names, l.order, l.firstChild, l.finalOf, |nodes|)
    && forall id :: 0 <= id < |nodes| ==> l.finalOf[id] != 0
  }

  lemma VisitedAll(nodes: seq<TmpNode>, names: Name, l: Layout)
    requires ParentsFirst(nodes) && Visited(nodes, names, l.order, l.firstChild, l.finalOf, |l.order|)
    ensures LaidOut(nodes, names, l) && |nodes| < U32_MAX
  {
    forall id | 0 <= id < |nodes| ensures l.finalOf[id] != 0 {
      NothingIsMissed(nodes, names, l.order, l.firstChild, l.finalOf, id);
    }
    NumberedIsSmall(|nodes|, l.order, l.finalOf);
    NumberedIsLarge(|nodes|, l.order, l.finalOf);
    assert LaidAt(nodes, names, l.order, l.firstChild, |nodes| - 1);
  }

  /** `breadth_first_order`: succeeds exactly when every label fits in 32 bits. */
  method BreadthFirstOrder(nodes: seq<TmpNode>, names: Name, g: Groups) returns (r: Result<Layout, BuildError>)
    requires 1 <= |nodes| && ParentsFirst(nodes) && ParentsInRange(nodes) && Grouped(nodes, names, g)
    ensures r.Ok? ==> LaidOut(nodes, names, r.value)
    ensures r.Ok? <==> |nodes| < U32_MAX
  {
    hide Visited, Queueing, LaidOut, Children, Grouped, ParentsFirst, ParentsInRange, AreChildren;
    var n := |nodes|;
    var order: seq<nat> := [0];
    var finalOf := new nat[n](_ => 0);
    finalOf[0] := 1;
    var firstChild := new nat[n](_ => 0);
    VisitRoot(nodes, names, order, firstChild[..], finalOf[..]);
    var i: nat := 0;
    while i < |order|
      invariant i <= |order| <= n
      invariant Visited(nodes, names, order, firstChild[..], finalOf[..], i)
      decreases n - i
    {
      var t := order[i];
      ghost var wasOrder: seq<nat>, wasFirst: seq<nat>, wasFinal: seq<nat> := order, firstChild[..], finalOf[..];
      StartQueueing(nodes, names, order, wasFirst, wasFinal, i);
      GroupOf(nodes, names, g, t);
      KidsAreChildren(nodes, names, t);
      var kids := g.kids[g.starts[t]..g.starts[t + 1]];
      if |order| + 1 > U32_MAX {
        return Err(IndexTooLarge);
      }
      firstChild[t] := |order| + 1;
      assert finalOf[..] == wasFinal;
      var queued := Enqueue(nodes, kids, t, i, order, finalOf);
      if queued.Err? {
        return Err(queued.error);
      }
      QueueIsSmall(nodes, kids, t, i, order, queued.value, finalOf[..], |kids|);
      QueueOnlyGrows(nodes, kids, t, i, order, queued.value, finalOf[..]);
      VisitOne(nodes, names, wasOrder, queued.value, wasFirst, wasFinal, finalOf[..], i);
      assert firstChild[..] == wasFirst[t := |wasOrder| + 1];
      order := queued.value;
      i := i + 1;
    }
    VisitedAll(nodes, names, Layout(order, firstChild[..], finalOf[..]));
    return Ok(Layout(order, firstChild[..], finalOf[..]));
  }

  lemma QueueOnlyGrows(
      nodes: seq<TmpNode>, kids: seq<nat>, t: nat, i: nat, before: seq<nat>, order: seq<nat>, finalOf: seq<nat>)
    requires Queueing(nodes, kids, t, i, before, order, finalOf, |kids|)
    ensures |before| <= |order|
  {
  }

  // ----- what the labels mean

  /** Labels are a permutation: every node has one, and no two share one. */
  lemma LabelsAreAPermutation(nodes: seq<TmpNode>, names: Name, l: Layout)
    requires LaidOut(nodes, names, l)
    ensures forall k :: 0 <= k < |nodes| ==> l.order[k] < |nodes| && l.finalOf[l.order[k]] == k + 1
    ensures forall id :: 0 <= id < |nodes| ==> 1 <= l.finalOf[id] <= |nodes| && l.order[l.finalOf[id] - 1] == id
  {
    forall k | 0 <= k < |nodes| ensures l.order[k] < |nodes| && l.finalOf[l.order[k]] == k + 1 {
      assert NumberAt(|nodes|, l.order, l.finalOf, k);
    }
    forall id | 0 <= id < |nodes| ensures l.finalOf[id] <= |nodes| && l.order[l.finalOf[id] - 1] == id {
      assert PlaceOf(|nodes|, l.order, l.finalOf, id);
    }
  }

  /** The range of a node's children begins where the range of the node before it ends. */
  lemma RangesTile(nodes: seq<TmpNode>, names: Name, l: Layout, k: nat)
    requires LaidOut(nodes, names, l) && k < |nodes|
    ensures l.order[0] < |nodes| && l.firstChild[l.order[0]] == 2
    ensures l.order[k] < |nodes|
    ensures var next := l.firstChild[l.order[k]] + |Children(nodes, names, l.order[k])|;
            if k + 1 < |nodes| then l.order[k + 1] < |nodes| && l.firstChild[l.order[k + 1]] == next
            else next == |nodes| + 1
  {
    assert LaidAt(nodes, names, l.order, l.firstChild, 0);
    assert LaidAt(nodes, names, l.order, l.firstChild, k);
    if k + 1 < |nodes| {
      assert LaidAt(nodes, names, l.order, l.firstChild, k + 1);
    }
  }

  /** A node lies in its parent's range, and after its parent. */
  lemma ChildInParentsRange(nodes: seq<TmpNode>, names: Name, l: Layout, id: nat)
    requires LaidOut(nodes, names, l) && ParentsFirst(nodes) && 1 <= id < |nodes|
    ensures var p := nodes[id].parent;
            && l.firstChild[p] <= l.finalOf[id] < l.firstChild[p] + |Children(nodes, names, p)|
            && l.finalOf[p] < l.finalOf[id]
            && Children(nodes, names, p)[l.finalOf[id] - l.firstChild[p]] == id
  {
    hide Offset, Children, Rooted;
    var p := nodes[id].parent;
    assert PlaceOf(|nodes|, l.order, l.finalOf, p);
    var k := l.finalOf[p] - 1;
    assert LaidAt(nodes, names, l.order, l.firstChild, k);
    ChildPlace(nodes, names, l.order, l.firstChild, l.finalOf, k, id);
  }
}
