/**
 The first half of `finish`: a counting sort groups the nodes by parent, then each group is
 sorted by name. The cursor writes are proved to stay inside their segment, and every segment
 to end up as exactly the children of its node in name order.
 */
module Grouping {
  import opened Bytes
  import opened Tree
  import opened Interning
  import opened Building

  // ----- children by arrival

  /** The children of `p` among nodes 1 up to `i`, in order of arrival. */
  function Arrivals(nodes: seq<TmpNode>, p: nat, i: nat): seq<nat>
    requires i <= |nodes|
  {
    if i <= 1 then []
    else Arrivals(nodes, p, i - 1) + (if nodes[i - 1].parent == p then [i - 1] else [])
  }

  lemma {:induction false} ArrivalsAreChildren(nodes: seq<TmpNode>, p: nat, i: nat)
    requires i <= |nodes|
    ensures ComeFrom(nodes, p, i, Arrivals(nodes, p, i))
  {
    if i > 1 {
      ArrivalsAreChildren(nodes, p, i - 1);
      var before, now := Arrivals(nodes, p, i - 1), Arrivals(nodes, p, i);
      assert now == before || now == before + [i - 1];
    }
  }

  ghost predicate ComeFrom(nodes: seq<TmpNode>, p: nat, i: nat, s: seq<nat>)
    requires i <= |nodes|
  {
    forall k :: 0 <= k < |s| ==> 1 <= s[k] < i && nodes[s[k]].parent == p
  }

  lemma {:induction false} ArrivalsComplete(nodes: seq<TmpNode>, p: nat, i: nat, id: nat)
    requires 1 <= id < i <= |nodes| && nodes[id].parent == p
    ensures id in Arrivals(nodes, p, i)
  {
    if id < i - 1 {
      ArrivalsComplete(nodes, p, i - 1, id);
    }
  }

  ghost predicate Increasing(s: seq<nat>) {
    forall a, b :: 0 <= a < b < |s| ==> s[a] < s[b]
  }

  lemma {:induction false} ArrivalsIncrease(nodes: seq<TmpNode>, p: nat, i: nat)
    requires i <= |nodes|
    ensures Increasing(Arrivals(nodes, p, i))
  {
    if i > 1 {
      ArrivalsIncrease(nodes, p, i - 1);
      ArrivalsAreChildren(nodes, p, i - 1);
      var before, now := Arrivals(nodes, p, i - 1), Arrivals(nodes, p, i);
      assert now == before || now == before + [i - 1];
    }
  }

  lemma ArrivalsStep(nodes: seq<TmpNode>, p: nat, i: nat)
    requires 1 <= i < |nodes|
    ensures Arrivals(nodes, p, i + 1) == Arrivals(nodes, p, i) + (if nodes[i].parent == p then [i] else [])
  {
  }

  /** How many of nodes 1 up to `i` have a parent below `k`. */
  function Total(nodes: seq<TmpNode>, k: nat, i: nat): nat
    requires i <= |nodes|
  {
    if k == 0 then 0 else Total(nodes, k - 1, i) + |Arrivals(nodes, k - 1, i)|
  }

  lemma {:induction false} TotalOfOneMore(nodes: seq<TmpNode>, k: nat, i: nat)
    requires 1 <= i < |nodes|
    ensures Total(nodes, k, i + 1) == Total(nodes, k, i) + (if nodes[i].parent < k then 1 else 0)
    decreases k
  {
    if k > 0 {
      TotalOfOneMore(nodes, k - 1, i);
    }
  }

  lemma {:induction false} TotalOfNone(nodes: seq<TmpNode>, k: nat, i: nat)
    requires i <= 1 && i <= |nodes|
    ensures Total(nodes, k, i) == 0
    decreases k
  {
    if k > 0 {
      TotalOfNone(nodes, k - 1, i);
    }
  }

  ghost predicate ParentsInRange(nodes: seq<TmpNode>) {
    forall i :: 1 <= i < |nodes| ==> nodes[i].parent < |nodes|
  }

  /** Every node but the root has exactly one parent. */
  lemma {:induction false} TotalOfAll(nodes: seq<TmpNode>, i: nat)
    requires 1 <= i <= |nodes| && ParentsInRange(nodes)
    ensures Total(nodes, |nodes|, i) == i - 1
    decreases i
  {
    hide Arrivals, Total;
    if i == 1 {
      TotalOfNone(nodes, |nodes|, 1);
    } else {
      TotalOfAll(nodes, i - 1);
      TotalOfOneMore(nodes, |nodes|, i - 1);
    }
  }

  lemma {:induction false} TotalIncreases(nodes: seq<TmpNode>, k: nat, l: nat, i: nat)
    requires k <= l && i <= |nodes|
    ensures Total(nodes, k, i) <= Total(nodes, l, i)
    decreases l
  {
    if k < l {
      TotalIncreases(nodes, k, l - 1, i);
    }
  }

  // ----- sorting a group by name

  function NameAt(nodes: seq<TmpNode>, names: Name, id: nat): Name {
    if id < |nodes| && InBlob(nodes[id], names) then NameOf(nodes[id], names) else []
  }

  function InsertByName(nodes: seq<TmpNode>, names: Name, x: nat, s: seq<nat>): seq<nat> {
    if s == [] || Less(NameAt(nodes, names, x), NameAt(nodes, names, s[0])) then [x] + s
    else [s[0]] + InsertByName(nodes, names, x, s[1..])
  }

  /** What the standard library's sort returns for a group. */
  function SortByName(nodes: seq<TmpNode>, names: Name, s: seq<nat>): seq<nat> {
    if s == [] then [] else InsertByName(nodes, names, s[0], SortByName(nodes, names, s[1..]))
  }

  ghost predicate NamesIncrease(nodes: seq<TmpNode>, names: Name, s: seq<nat>) {
    forall a, b :: 0 <= a < b < |s| ==> Less(NameAt(nodes, names, s[a]), NameAt(nodes, names, s[b]))
  }

  ghost predicate NamesDiffer(nodes: seq<TmpNode>, names: Name, s: seq<nat>) {
    forall a, b :: 0 <= a < b < |s| ==> NameAt(nodes, names, s[a]) != NameAt(nodes, names, s[b])
  }

  lemma {:induction false} InsertKeepsElements(nodes: seq<TmpNode>, names: Name, x: nat, s: seq<nat>)
    ensures multiset(InsertByName(nodes, names, x, s)) == multiset{x} + multiset(s)
  {
    if !(s == [] || Less(NameAt(nodes, names, x), NameAt(nodes, names, s[0]))) {
      InsertKeepsElements(nodes, names, x, s[1..]);
      assert s == [s[0]] + s[1..];
    }
  }

  lemma {:induction false} SortKeepsElements(nodes: seq<TmpNode>, names: Name, s: seq<nat>)
    ensures multiset(SortByName(nodes, names, s)) == multiset(s)
  {
    if s != [] {
      SortKeepsElements(nodes, names, s[1..]);
      InsertKeepsElements(nodes, names, s[0], SortByName(nodes, names, s[1..]));
      assert s == [s[0]] + s[1..];
    }
  }

  lemma SameElements(s: seq<nat>, t: seq<nat>)
    requires multiset(s) == multiset(t)
    ensures |s| == |t| && forall x :: x in s <==> x in t
  {
    assert |multiset(s)| == |s| && |multiset(t)| == |t|;
    forall x ensures x in s <==> x in t {
      assert x in s <==> x in multiset(s);
      assert x in t <==> x in multiset(t);
    }
  }

  lemma {:induction false} InsertKeepsOrder(nodes: seq<TmpNode>, names: Name, x: nat, s: seq<nat>)
    requires NamesIncrease(nodes, names, s)
    requires forall k :: 0 <= k < |s| ==> NameAt(nodes, names, s[k]) != NameAt(nodes, names, x)
    ensures NamesIncrease(nodes, names, InsertByName(nodes, names, x, s))
  {
    var r := InsertByName(nodes, names, x, s);
    if s != [] {
      var nx, n0 := NameAt(nodes, names, x), NameAt(nodes, names, s[0]);
      if Less(nx, n0) {
        forall k | 0 <= k < |s| ensures Less(nx, NameAt(nodes, names, s[k])) {
          if k > 0 {
            LessIsTransitive(nx, n0, NameAt(nodes, names, s[k]));
          }
        }
      } else {
        LessIsTotal(nx, n0);
        InsertKeepsOrder(nodes, names, x, s[1..]);
        InsertKeepsElements(nodes, names, x, s[1..]);
        var rest := InsertByName(nodes, names, x, s[1..]);
        forall k | 0 <= k < |rest| ensures Less(n0, NameAt(nodes, names, rest[k])) {
          assert rest[k] in multiset(rest);
          assert rest[k] == x || rest[k] in s[1..];
        }
      }
    }
  }

  /** Distinct names come out strictly increasing. */
  lemma {:induction false} SortIncreases(nodes: seq<TmpNode>, names: Name, s: seq<nat>)
    requires NamesDiffer(nodes, names, s)
    ensures NamesIncrease(nodes, names, SortByName(nodes, names, s))
  {
    if s != [] {
      var rest := SortByName(nodes, names, s[1..]);
      SortIncreases(nodes, names, s[1..]);
      SortKeepsElements(nodes, names, s[1..]);
      SameElements(rest, s[1..]);
      forall k | 0 <= k < |rest| ensures NameAt(nodes, names, rest[k]) != NameAt(nodes, names, s[0]) {
        assert rest[k] in s[1..];
      }
      InsertKeepsOrder(nodes, names, s[0], rest);
    }
  }

  // ----- the grouping

  datatype Groups = Groups(starts: seq<nat>, kids: seq<nat>)

  /** The children of `p`, sorted by name. */
  function Children(nodes: seq<TmpNode>, names: Name, p: nat): seq<nat> {
    SortByName(nodes, names, Arrivals(nodes, p, |nodes|))
  }

  ghost predicate Begins(nodes: seq<TmpNode>, starts: seq<nat>) {
    |starts| == |nodes| + 1 && forall k :: 0 <= k <= |nodes| ==> starts[k] == Total(nodes, k, |nodes|)
  }

  /** Where the segment of `p` begins, and that it fits. */
  lemma SegmentFits(nodes: seq<TmpNode>, p: nat)
    requires 1 <= |nodes| && ParentsInRange(nodes) && p < |nodes|
    ensures Total(nodes, p, |nodes|) + |Arrivals(nodes, p, |nodes|)| == Total(nodes, p + 1, |nodes|) <= |nodes| - 1
  {
    TotalStep(nodes, p, |nodes|);
    hide Arrivals, Total;
    TotalOfAll(nodes, |nodes|);
    TotalIncreases(nodes, p + 1, |nodes|, |nodes|);
  }

  lemma TotalStep(nodes: seq<TmpNode>, k: nat, i: nat)
    requires i <= |nodes|
    ensures Total(nodes, k + 1, i) == Total(nodes, k, i) + |Arrivals(nodes, k, i)|
  {
  }

  /** The segment of `p` holds its first arrivals. */
  ghost predicate Filled(nodes: seq<TmpNode>, kids: seq<nat>, p: nat, i: nat)
    requires i <= |nodes|
  {
    var at, have := Total(nodes, p, |nodes|), Arrivals(nodes, p, i);
    at + |have| <= |kids| && kids[at..at + |have|] == have
  }

  lemma WriteElsewhere(kids: seq<nat>, at: nat, x: nat, lo: nat, hi: nat)
    requires lo <= hi <= |kids| && at < |kids| && (at < lo || hi <= at)
    ensures kids[at := x][lo..hi] == kids[lo..hi]
  {
  }

  lemma WriteAtEnd(kids: seq<nat>, lo: nat, hi: nat, x: nat)
    requires lo <= hi < |kids|
    ensures kids[hi := x][lo..hi + 1] == kids[lo..hi] + [x]
  {
  }

  /** Where the next child of `p` goes once nodes up to `i` are placed. */
  function CursorOf(nodes: seq<TmpNode>, p: nat, i: nat): nat
    requires i <= |nodes|
  {
    Total(nodes, p, |nodes|) + |Arrivals(nodes, p, i)|
  }

  function Cursor(nodes: seq<TmpNode>, i: nat): nat
    requires i < |nodes|
  {
    CursorOf(nodes, nodes[i].parent, i)
  }

  lemma CursorStaysInSegment(nodes: seq<TmpNode>, i: nat)
    requires 1 <= i < |nodes| && ParentsInRange(nodes)
    ensures Cursor(nodes, i) < Total(nodes, nodes[i].parent + 1, |nodes|) <= |nodes| - 1
  {
    hide Total, Arrivals, ParentsInRange;
    var p := nodes[i].parent;
    ParentIsNode(nodes, i);
    SegmentFits(nodes, p);
    OneMoreArrival(nodes, i);
  }

  lemma ParentIsNode(nodes: seq<TmpNode>, i: nat)
    requires 1 <= i < |nodes| && ParentsInRange(nodes)
    ensures nodes[i].parent < |nodes|
  {
  }

  /** A child still to be placed is one more than its parent has so far. */
  lemma OneMoreArrival(nodes: seq<TmpNode>, i: nat)
    requires 1 <= i < |nodes|
    ensures |Arrivals(nodes, nodes[i].parent, i)| < |Arrivals(nodes, nodes[i].parent, |nodes|)|
  {
    hide *;
    ArrivalsOfOne(nodes, nodes[i].parent, i);
    ArrivalCountGrows(nodes, nodes[i].parent, i + 1, |nodes|);
  }

  lemma {:induction false} ArrivalCountGrows(nodes: seq<TmpNode>, p: nat, i: nat, j: nat)
    requires i <= j <= |nodes|
    ensures |Arrivals(nodes, p, i)| <= |Arrivals(nodes, p, j)|
  {
    if i < j {
      ArrivalCountGrows(nodes, p, i, j - 1);
    }
  }

  lemma ArrivalsOfOne(nodes: seq<TmpNode>, p: nat, i: nat)
    requires 1 <= i < |nodes|
    ensures |Arrivals(nodes, p, i + 1)| == |Arrivals(nodes, p, i)| + (if nodes[i].parent == p then 1 else 0)
  {
  }

  lemma FillHere(nodes: seq<TmpNode>, kids: seq<nat>, i: nat)
    requires 1 <= i < |nodes| && ParentsInRange(nodes) && |kids| == |nodes| - 1
    requires Filled(nodes, kids, nodes[i].parent, i) && Cursor(nodes, i) < |kids|
    ensures Filled(nodes, kids[Cursor(nodes, i) := i], nodes[i].parent, i + 1)
  {
    ArrivalsStep(nodes, nodes[i].parent, i);
    hide Total, Arrivals;
    WriteAtEnd(kids, Total(nodes, nodes[i].parent, |nodes|), Cursor(nodes, i), i);
  }

  lemma FillElsewhere(nodes: seq<TmpNode>, kids: seq<nat>, i: nat, p: nat)
    requires 1 <= i < |nodes| && ParentsInRange(nodes) && |kids| == |nodes| - 1 && p < |nodes|
    requires Filled(nodes, kids, p, i) && Cursor(nodes, i) < |kids| && p != nodes[i].parent
    ensures Filled(nodes, kids[Cursor(nodes, i) := i], p, i + 1)
  {
    ArrivalsStep(nodes, p, i);
    hide Total, Arrivals;
    ArrivalCountGrows(nodes, p, i, |nodes|);
    CursorStaysInSegment(nodes, i);
    SegmentFits(nodes, p);
    var q, lo := nodes[i].parent, Total(nodes, p, |nodes|);
    if p < q {
      TotalIncreases(nodes, p + 1, q, |nodes|);
    } else {
      TotalIncreases(nodes, q + 1, p, |nodes|);
    }
    WriteElsewhere(kids, Cursor(nodes, i), i, lo, lo + |Arrivals(nodes, p, i)|);
  }

  /** A cursor write lands in its own segment and nowhere else. */
  lemma FillOne(nodes: seq<TmpNode>, kids: seq<nat>, i: nat, p: nat)
    requires 1 <= i < |nodes| && ParentsInRange(nodes) && |kids| == |nodes| - 1 && p < |nodes|
    requires Filled(nodes, kids, p, i)
    ensures Cursor(nodes, i) < |kids| && Filled(nodes, kids[Cursor(nodes, i) := i], p, i + 1)
  {
    hide Total, Arrivals, Filled, CursorOf;
    CursorStaysInSegment(nodes, i);
    if p == nodes[i].parent {
      FillHere(nodes, kids, i);
    } else {
      FillElsewhere(nodes, kids, i, p);
    }
  }

  /** Nodes up to `i` are in place and the cursors stand right behind them. */
  ghost predicate Placed(nodes: seq<TmpNode>, kids: seq<nat>, cursor: seq<nat>, i: nat)
    requires i <= |nodes|
  {
    && |cursor| == |nodes| + 1 && |kids| == |nodes| - 1
    && (forall p :: 0 <= p < |nodes| ==> Filled(nodes, kids, p, i))
    && (forall p :: 0 <= p < |nodes| ==> cursor[p] == CursorOf(nodes, p, i))
  }

  lemma NonePlaced(nodes: seq<TmpNode>, kids: seq<nat>, starts: seq<nat>)
    requires 1 <= |nodes| && ParentsInRange(nodes) && |kids| == |nodes| - 1 && Begins(nodes, starts)
    ensures Placed(nodes, kids, starts, 1)
  {
    forall p | 0 <= p < |nodes| ensures Filled(nodes, kids, p, 1) {
      SegmentFits(nodes, p);
    }
  }

  /** Every segment holds its node's children in order of arrival. */
  ghost predicate Unsorted(nodes: seq<TmpNode>, kids: seq<nat>) {
    forall p :: 0 <= p < |nodes| ==> Filled(nodes, kids, p, |nodes|)
  }

  lemma AllPlaced(nodes: seq<TmpNode>, kids: seq<nat>, cursor: seq<nat>)
    requires Placed(nodes, kids, cursor, |nodes|)
    ensures Unsorted(nodes, kids)
  {
  }

  lemma CursorIsSmall(nodes: seq<TmpNode>, kids: seq<nat>, cursor: seq<nat>, i: nat)
    requires 1 <= i < |nodes| && ParentsInRange(nodes) && Placed(nodes, kids, cursor, i)
    ensures |cursor| == |nodes| + 1 && |kids| == |nodes| - 1 && cursor[nodes[i].parent] < |kids|
  {
    CursorStaysInSegment(nodes, i);
  }

  lemma PlaceOne(nodes: seq<TmpNode>, kids: seq<nat>, cursor: seq<nat>, i: nat)
    requires 1 <= i < |nodes| && ParentsInRange(nodes) && Placed(nodes, kids, cursor, i)
    ensures var p := nodes[i].parent;
            cursor[p] < |kids| && Placed(nodes, kids[cursor[p] := i], cursor[p := cursor[p] + 1], i + 1)
  {
    var q, next := nodes[i].parent, i + 1;
    CursorStaysInSegment(nodes, i);
    var kids' := kids[Cursor(nodes, i) := i];
    forall p | 0 <= p < |nodes| ensures Filled(nodes, kids', p, next) {
      FillOne(nodes, kids, i, p);
    }
    forall p | 0 <= p < |nodes| ensures cursor[q := cursor[q] + 1][p] == CursorOf(nodes, p, next) {
    }
  }

  /** The segments up to `i` are sorted, the others still in order of arrival. */
  ghost predicate SortedUpTo(nodes: seq<TmpNode>, names: Name, kids: seq<nat>, i: nat) {
    forall p :: 0 <= p < |nodes| ==> SegmentIs(nodes, kids, p,
      if p < i then Children(nodes, names, p) else Arrivals(nodes, p, |nodes|))
  }

  ghost predicate SegmentIs(nodes: seq<TmpNode>, kids: seq<nat>, p: nat, s: seq<nat>) {
    var at := Total(nodes, p, |nodes|);
    at + |s| <= |kids| && kids[at..at + |s|] == s
  }

  /** Replacing one stretch by another of the same length leaves the others alone. */
  lemma SpliceElsewhere(kids: seq<nat>, lo: nat, hi: nat, s: seq<nat>, from: nat, to: nat)
    requires lo <= hi <= |kids| && |s| == hi - lo && from <= to <= |kids| && (to <= lo || hi <= from)
    ensures (kids[..lo] + s + kids[hi..])[from..to] == kids[from..to]
  {
  }

  lemma SpliceHere(kids: seq<nat>, lo: nat, hi: nat, s: seq<nat>)
    requires lo <= hi <= |kids| && |s| == hi - lo
    ensures (kids[..lo] + s + kids[hi..])[lo..hi] == s
  {
  }

  lemma SortOne(nodes: seq<TmpNode>, names: Name, kids: seq<nat>, kids': seq<nat>, i: nat)
    requires 1 <= |nodes| && ParentsInRange(nodes) && i < |nodes| && |kids| == |nodes| - 1
    requires SortedUpTo(nodes, names, kids, i)
    requires var lo, hi := Total(nodes, i, |nodes|), Total(nodes, i + 1, |nodes|);
             lo <= hi <= |kids| && kids' == kids[..lo] + Children(nodes, names, i) + kids[hi..]
    ensures SortedUpTo(nodes, names, kids', i + 1)
  {
    hide Total, Arrivals, SortByName, Children;
    forall p | 0 <= p < |nodes|
      ensures SegmentIs(nodes, kids', p, if p < i + 1 then Children(nodes, names, p) else Arrivals(nodes, p, |nodes|))
    {
      SortOneAt(nodes, names, kids, i, p);
    }
  }

  lemma SortOneAt(nodes: seq<TmpNode>, names: Name, kids: seq<nat>, i: nat, p: nat)
    requires 1 <= |nodes| && ParentsInRange(nodes) && i < |nodes| && |kids| == |nodes| - 1 && p < |nodes|
    requires SegmentIs(nodes, kids, p, if p < i then Children(nodes, names, p) else Arrivals(nodes, p, |nodes|))
    ensures var lo, hi := Total(nodes, i, |nodes|), Total(nodes, i + 1, |nodes|);
            lo <= hi <= |kids| &&
            SegmentIs(nodes, kids[..lo] + Children(nodes, names, i) + kids[hi..], p,
                      if p < i + 1 then Children(nodes, names, p) else Arrivals(nodes, p, |nodes|))
  {
    hide Total, Arrivals, SortByName, Children;
    var lo, hi := Total(nodes, i, |nodes|), Total(nodes, i + 1, |nodes|);
    SegmentFits(nodes, i);
    ChildrenCount(nodes, names, i);
    SegmentFits(nodes, p);
    ChildrenCount(nodes, names, p);
    var from, to := Total(nodes, p, |nodes|), Total(nodes, p + 1, |nodes|);
    if p == i {
      SpliceHere(kids, lo, hi, Children(nodes, names, i));
    } else {
      if p < i {
        TotalIncreases(nodes, p + 1, i, |nodes|);
      } else {
        TotalIncreases(nodes, i + 1, p, |nodes|);
      }
      SpliceElsewhere(kids, lo, hi, Children(nodes, names, i), from, to);
    }
  }

  lemma ChildrenCount(nodes: seq<TmpNode>, names: Name, p: nat)
    ensures |Children(nodes, names, p)| == |Arrivals(nodes, p, |nodes|)|
  {
    SortKeepsElements(nodes, names, Arrivals(nodes, p, |nodes|));
    SameElements(Children(nodes, names, p), Arrivals(nodes, p, |nodes|));
  }

  /** What `group_children` delivers. */
  ghost predicate Grouped(nodes: seq<TmpNode>, names: Name, g: Groups) {
    Begins(nodes, g.starts) && |g.kids| == |nodes| - 1 && SortedUpTo(nodes, names, g.kids, |nodes|)
  }

  function Segment(g: Groups, p: nat): seq<nat>
    requires p + 1 < |g.starts| && g.starts[p] <= g.starts[p + 1] <= |g.kids|
  {
    g.kids[g.starts[p]..g.starts[p + 1]]
  }

  lemma SegmentIsChildren(nodes: seq<TmpNode>, names: Name, g: Groups, p: nat)
    requires 1 <= |nodes| && ParentsInRange(nodes) && Grouped(nodes, names, g) && p < |nodes|
    ensures g.starts[p] <= g.starts[p + 1] <= |g.kids| && Segment(g, p) == Children(nodes, names, p)
  {
    SegmentFits(nodes, p);
    ChildrenCount(nodes, names, p);
    assert SegmentIs(nodes, g.kids, p, Children(nodes, names, p));
  }

  /** The slice the code takes for a node: its children, all of them nodes. */
  lemma GroupOf(nodes: seq<TmpNode>, names: Name, g: Groups, p: nat)
    requires 1 <= |nodes| && ParentsInRange(nodes) && Grouped(nodes, names, g) && p < |nodes|
    ensures |g.starts| == |nodes| + 1 && g.starts[p] <= g.starts[p + 1] <= |g.kids| < |nodes|
    ensures var kids := g.kids[g.starts[p]..g.starts[p + 1]];
            kids == Children(nodes, names, p) && forall k :: 0 <= k < |kids| ==> kids[k] < |nodes|
  {
    SegmentIsChildren(nodes, names, g, p);
    ChildrenAreChildren(nodes, names, p);
    var kids := Children(nodes, names, p);
    forall k | 0 <= k < |kids| ensures kids[k] < |nodes| {
      assert kids[k] in kids;
    }
  }

  /** The children of a node are exactly the nodes that name it as parent, each once. */
  lemma ChildrenAreChildren(nodes: seq<TmpNode>, names: Name, p: nat)
    ensures var s := Children(nodes, names, p);
            && (forall id :: id in s <==> 1 <= id < |nodes| && nodes[id].parent == p)
            && (forall a, b :: 0 <= a < b < |s| ==> s[a] != s[b])
  {
    var s, arrivals := Children(nodes, names, p), Arrivals(nodes, p, |nodes|);
    SortKeepsElements(nodes, names, arrivals);
    SameElements(s, arrivals);
    ArrivalsAreChildren(nodes, p, |nodes|);
    forall id: nat | 1 <= id < |nodes| && nodes[id].parent == p ensures id in s {
      ArrivalsComplete(nodes, p, |nodes|, id);
    }
    ArrivalsIncrease(nodes, p, |nodes|);
    EachOnce(s, arrivals);
  }

  lemma {:induction false} CountIsOne(s: seq<nat>, x: nat)
    requires forall a, b :: 0 <= a < b < |s| ==> s[a] != s[b]
    ensures multiset(s)[x] <= 1
  {
    if s != [] {
      CountIsOne(s[1..], x);
      assert s == [s[0]] + s[1..];
      assert multiset(s) == multiset{s[0]} + multiset(s[1..]);
      assert s[0] !in s[1..];
    }
  }

  lemma EachOnce(s: seq<nat>, t: seq<nat>)
    requires multiset(s) == multiset(t)
    requires Increasing(t)
    ensures forall a, b :: 0 <= a < b < |s| ==> s[a] != s[b]
  {
    forall a, b | 0 <= a < b < |s| ensures s[a] != s[b] {
      assert forall a, b :: 0 <= a < b < |t| ==> t[a] < t[b];
      CountIsOne(t, s[a]);
      assert s == s[..b] + s[b..];
      assert multiset(s) == multiset(s[..b]) + multiset(s[b..]);
      assert s[a] in s[..b] && s[b] in s[b..];
    }
  }

  lemma SiblingNamesDiffer(nodes: seq<TmpNode>, names: Name, paths: seq<Path>, p: nat)
    requires Shape(nodes, names, paths)
    ensures NamesDiffer(nodes, names, Arrivals(nodes, p, |nodes|))
  {
    var s := Arrivals(nodes, p, |nodes|);
    ArrivalsIncrease(nodes, p, |nodes|);
    ArrivalsAreChildren(nodes, p, |nodes|);
    forall a, b | 0 <= a < b < |s| ensures NameAt(nodes, names, s[a]) != NameAt(nodes, names, s[b]) {
      var x, y := s[a], s[b];
      assert x < y;
      assert Hangs(nodes, names, paths, x) && Hangs(nodes, names, paths, y);
      assert paths[x] != paths[y];
    }
  }

  /** In a tree, a directory's children come out strictly increasing by name. */
  lemma ChildrenIncrease(nodes: seq<TmpNode>, names: Name, paths: seq<Path>, p: nat)
    requires Shape(nodes, names, paths)
    ensures NamesIncrease(nodes, names, Children(nodes, names, p))
  {
    SiblingNamesDiffer(nodes, names, paths, p);
    SortIncreases(nodes, names, Arrivals(nodes, p, |nodes|));
  }

  // ----- the code

  /** One place to the right of each node, how many of its children have been seen. */
  ghost predicate Counted(nodes: seq<TmpNode>, counts: seq<nat>, i: nat)
    requires i <= |nodes|
  {
    && |counts| == |nodes| + 1 && counts[0] == 0
    && forall p :: 0 <= p < |nodes| ==> CountedAt(nodes, counts, p, i)
  }

  ghost predicate CountedAt(nodes: seq<TmpNode>, counts: seq<nat>, p: nat, i: nat)
    requires i <= |nodes| && p < |nodes| < |counts|
  {
    counts[p + 1] == |Arrivals(nodes, p, i)| <= i
  }

  lemma CountOne(nodes: seq<TmpNode>, counts: seq<nat>, i: nat)
    requires 1 <= i < |nodes| && ParentsInRange(nodes) && Counted(nodes, counts, i)
    ensures var slot := nodes[i].parent + 1;
            slot < |counts| && counts[slot] <= i && Counted(nodes, counts[slot := counts[slot] + 1], i + 1)
  {
    var slot, next := nodes[i].parent + 1, i + 1;
    hide Arrivals;
    assert CountedAt(nodes, counts, nodes[i].parent, i);
    var counts' := counts[slot := counts[slot] + 1];
    forall p: nat | 0 <= p < |nodes| ensures CountedAt(nodes, counts', p, next) {
      ArrivalsOfOne(nodes, p, i);
      assert CountedAt(nodes, counts, p, i);
    }
  }

  /** Every number is one of 32 bits. */
  ghost predicate AllFit(s: seq<nat>) {
    forall i :: 0 <= i < |s| ==> s[i] <= U32_MAX
  }

  /** The first loop: how many children each node has, one place to the right. */
  method CountChildren(nodes: seq<TmpNode>) returns (r: Result<array<nat>, BuildError>)
    requires 1 <= |nodes| && ParentsInRange(nodes)
    ensures r.Ok? ==> fresh(r.value) && Counted(nodes, r.value[..], |nodes|) && AllFit(r.value[..])
    ensures |nodes| <= U32_MAX ==> r.Ok?
  {
    var n := |nodes|;
    var counts := new nat[n + 1](_ => 0);
    assert forall p :: 0 <= p < n ==> CountedAt(nodes, counts[..], p, 0) && CountedAt(nodes, counts[..], p, 1);
    for i: nat := 0 to n
      invariant Counted(nodes, counts[..], i)
      invariant i == 0 ==> Counted(nodes, counts[..], 1)
      invariant AllFit(counts[..])
    {
      if i != 0 {
        hide Counted;
        var slot := nodes[i].parent + 1;
        CountOne(nodes, counts[..], i);
        if counts[slot] == U32_MAX {
          return Err(IndexTooLarge);
        }
        ghost var was := counts[..];
        counts[slot] := counts[slot] + 1;
        assert counts[..] == was[slot := was[slot] + 1];
      }
    }
    return Ok(counts);
  }

  /** The second loop: running sums, so that each entry becomes the start of a segment. */
  method SumCounts(nodes: seq<TmpNode>, counts: array<nat>) returns (ok: bool)
    requires 1 <= |nodes| && ParentsInRange(nodes)
    requires Counted(nodes, counts[..], |nodes|) && AllFit(counts[..])
    modifies counts
    ensures ok ==> Begins(nodes, counts[..]) && AllFit(counts[..])
    ensures |nodes| <= U32_MAX ==> ok
  {
    var n := |nodes|;
    hide Arrivals;
    ghost var before := counts[..];
    for i := 0 to n
      invariant forall k :: 0 <= k <= i ==> counts[k] == Total(nodes, k, n)
      invariant forall k :: i < k <= n ==> counts[k] == before[k]
      invariant AllFit(counts[..])
    {
      SegmentFits(nodes, i);
      assert CountedAt(nodes, before, i, n);
      if counts[i + 1] + counts[i] > U32_MAX {
        return false;
      }
      counts[i + 1] := counts[i + 1] + counts[i];
    }
    return true;
  }

  /** One node into its parent's segment, at the cursor. */
  method ScatterOne(nodes: seq<TmpNode>, kids: array<nat>, cursor: array<nat>, i: nat) returns (ok: bool)
    requires 1 <= i < |nodes| && ParentsInRange(nodes) && kids != cursor
    requires Placed(nodes, kids[..], cursor[..], i) && AllFit(kids[..]) && AllFit(cursor[..])
    modifies kids, cursor
    ensures ok ==> Placed(nodes, kids[..], cursor[..], i + 1) && AllFit(kids[..]) && AllFit(cursor[..])
    ensures |nodes| <= U32_MAX ==> ok
  {
    hide Placed;
    var p := nodes[i].parent;
    ghost var wasKids, wasCursor := kids[..], cursor[..];
    PlaceOne(nodes, wasKids, wasCursor, i);
    CursorIsSmall(nodes, wasKids, wasCursor, i);
    if i > U32_MAX {
      return false;
    }
    kids[cursor[p]] := i;
    if cursor[p] == U32_MAX {
      return false;
    }
    cursor[p] := cursor[p] + 1;
    assert kids[..] == wasKids[wasCursor[p] := i];
    assert cursor[..] == wasCursor[p := wasCursor[p] + 1];
    return true;
  }

  /** The third loop: the nodes grouped by parent. */
  method Scatter(nodes: seq<TmpNode>, starts: seq<nat>, cursor: array<nat>) returns (r: Result<array<nat>, BuildError>)
    requires 1 <= |nodes| && ParentsInRange(nodes)
    requires Begins(nodes, starts) && cursor[..] == starts && AllFit(starts)
    modifies cursor
    ensures r.Ok? ==> fresh(r.value) && r.value.Length == |nodes| - 1 && Unsorted(nodes, r.value[..])
    ensures r.Ok? ==> AllFit(r.value[..])
    ensures |nodes| <= U32_MAX ==> r.Ok?
  {
    hide Placed, Unsorted, Begins;
    var n := |nodes|;
    var kids := new nat[n - 1](_ => 0);
    NonePlaced(nodes, kids[..], starts);
    for i: nat := 1 to n
      invariant Placed(nodes, kids[..], cursor[..], i) && AllFit(kids[..]) && AllFit(cursor[..])
    {
      var ok := ScatterOne(nodes, kids, cursor, i);
      if !ok {
        return Err(IndexTooLarge);
      }
    }
    AllPlaced(nodes, kids[..], cursor[..]);
    return Ok(kids);
  }

  /** `sort_unstable_by` on one segment; names are distinct, so the result is the only one. */
  method SortSegment(nodes: seq<TmpNode>, names: Name, kids: array<nat>, lo: nat, hi: nat)
    requires lo <= hi <= kids.Length
    modifies kids
    ensures kids[..] == old(kids[..lo]) + SortByName(nodes, names, old(kids[lo..hi])) + old(kids[hi..])
  {
    hide SortByName;
    var sorted := SortByName(nodes, names, kids[lo..hi]);
    SortKeepsElements(nodes, names, kids[lo..hi]);
    SameElements(sorted, kids[lo..hi]);
    forall k | 0 <= k < |sorted| {
      kids[lo + k] := sorted[k];
    }
    assert kids[lo..hi] == sorted;
    assert kids[..] == kids[..lo] + kids[lo..hi] + kids[hi..];
  }

  /** The last loop: each segment in name order. */
  method SortSegments(nodes: seq<TmpNode>, names: Name, starts: seq<nat>, kids: array<nat>)
    requires 1 <= |nodes| && ParentsInRange(nodes) && Begins(nodes, starts) && kids.Length == |nodes| - 1
    requires Unsorted(nodes, kids[..])
    modifies kids
    ensures SortedUpTo(nodes, names, kids[..], |nodes|)
  {
    var n := |nodes|;
    assert forall p :: 0 <= p < n ==>
      (Filled(nodes, kids[..], p, n) ==> SegmentIs(nodes, kids[..], p, Arrivals(nodes, p, n)));
    for i := 0 to n
      invariant SortedUpTo(nodes, names, kids[..], i)
    {
      ghost var before := kids[..];
      SegmentFits(nodes, i);
      assert SegmentIs(nodes, before, i, Arrivals(nodes, i, n));
      SortSegment(nodes, names, kids, starts[i], starts[i + 1]);
      assert before[starts[i]..starts[i + 1]] == Arrivals(nodes, i, n);
      SortOne(nodes, names, before, kids[..], i);
    }
  }

  /** `group_children`. */
  method GroupChildren(nodes: seq<TmpNode>, names: Name) returns (r: Result<Groups, BuildError>)
    requires 1 <= |nodes| && ParentsInRange(nodes)
    ensures r.Ok? ==> Grouped(nodes, names, r.value)
    ensures |nodes| <= U32_MAX ==> r.Ok?
  {
    var counted := CountChildren(nodes);
    if counted.Err? {
      return Err(counted.error);
    }
    var counts := counted.value;
    var ok := SumCounts(nodes, counts);
    if !ok {
      return Err(IndexTooLarge);
    }
    var starts := counts[..];
    var scattered := Scatter(nodes, starts, counts);
    if scattered.Err? {
      return Err(scattered.error);
    }
    var kids := scattered.value;
    SortSegments(nodes, names, starts, kids);
    return Ok(Groups(starts, kids[..]));
  }
}
