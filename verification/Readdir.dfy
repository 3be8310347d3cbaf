/**
 Listing a directory in pieces. A cursor is the position after the last entry returned, so that
 any sequence of replies, large or small, of either kind, adds up to the whole directory.
 */
module Listing {
  import opened Bytes
  import opened Tree
  import opened Indexing

  datatype DirEntry = DirEntry(ino: nat, cursor: nat, kind: Kind, name: Name)

  datatype ListError = NoEntry | NotADirectory

  /** The children of a directory, as the index keeps them. */
  function ChildrenOf(ix: Index, node: Node): seq<Node>
    requires node.kind.Dir? ==> node.firstChild + node.childLen <= |ix.nodes|
  {
    if node.kind.Dir? then ix.nodes[node.firstChild..node.firstChild + node.childLen] else []
  }

  ghost predicate IsDir(ix: Index, ino: nat) {
    WellFormed(ix) && 0 < ino < |ix.nodes| && ix.nodes[ino].kind.Dir?
  }

  /** The whole directory: itself, its parent, and its children in name order. */
  ghost function Everything(ix: Index, ino: nat): (all: seq<DirEntry>)
    requires IsDir(ix, ino)
    ensures |all| == ix.nodes[ino].childLen + 2
  {
    var n := ix.nodes[ino];
    assert RangeFits(ix, ino);
    [DirEntry(ino, 1, Dir, [DOT]), DirEntry(n.parent, 2, Dir, [DOT, DOT])] +
    seq(n.childLen, i requires 0 <= i < n.childLen =>
      var c := ix.nodes[n.firstChild + i];
      DirEntry(n.firstChild + i, 3 + i, c.kind, NodeName(ix, c)))
  }

  /** The part of a listing that starts at a cursor and fits a reply. */
  ghost function Page(all: seq<DirEntry>, offset: nat, room: nat): seq<DirEntry> {
    if offset >= |all| then [] else all[offset..Min(offset + room, |all|)]
  }

  lemma PageOfNone(all: seq<DirEntry>, offset: nat)
    ensures Page(all, offset, 0) == []
  {
  }

  lemma PageGrows(all: seq<DirEntry>, offset: nat, k: nat)
    requires offset + k < |all|
    ensures Page(all, offset, k + 1) == Page(all, offset, k) + [all[offset + k]] && |Page(all, offset, k)| == k
  {
  }

  lemma PageEnds(all: seq<DirEntry>, offset: nat, k: nat, room: nat)
    requires offset + k >= |all| && k <= room
    ensures Page(all, offset, k) == Page(all, offset, room)
  {
  }

  lemma PageThenPage(all: seq<DirEntry>, offset: nat, a: nat, b: nat)
    requires offset <= |all|
    ensures var first := Page(all, offset, a);
            && offset + |first| <= |all|
            && first + Page(all, offset + |first|, b) == Page(all, offset, a + b)
  {
    var first := Page(all, offset, a);
    var next := offset + |first|;
    var end := next + |Page(all, next, b)|;
    assert all[offset..next] + all[next..end] == all[offset..end];
  }

  /** A reply with room for a number of entries; `add` refuses once it is full. */
  class Reply {
    var entries: seq<DirEntry>
    const room: nat

    constructor (room: nat)
      ensures entries == [] && this.room == room
    {
      entries := [];
      this.room := room;
    }

    method Add(e: DirEntry) returns (full: bool)
      modifies this
      ensures full == (|old(entries)| >= room)
      ensures entries == if full then old(entries) else old(entries) + [e]
    {
      full := |entries| >= room;
      if !full {
        entries := entries + [e];
      }
    }
  }

  lemma EverythingAt(ix: Index, ino: nat, i: nat)
    requires IsDir(ix, ino) && i < ix.nodes[ino].childLen
    ensures var n := ix.nodes[ino];
            && n.firstChild + n.childLen <= |ix.nodes|
            && NameFits(ix, ix.nodes[n.firstChild + i])
            && var c := ix.nodes[n.firstChild + i];
               Everything(ix, ino)[i + 2] == DirEntry(n.firstChild + i, 3 + i, c.kind, NodeName(ix, c))
  {
    assert RangeFits(ix, ino);
  }

  lemma RangeInside(ix: Index, ino: nat)
    requires IsDir(ix, ino)
    ensures ix.nodes[ino].firstChild + ix.nodes[ino].childLen <= |ix.nodes|
  {
    assert RangeFits(ix, ino);
  }

  /** The loop over the children that `readdir` and `readdirplus` share. */
  method AddChildren(ix: Index, ino: nat, start: nat, reply: Reply, ghost offset: nat)
    requires IsDir(ix, ino) && start == (if offset < 2 then 0 else offset - 2) && offset <= start + 2
    requires reply.entries == Page(Everything(ix, ino), offset, start + 2 - offset)
    requires start + 2 - offset <= reply.room
    modifies reply
    ensures reply.entries == Page(Everything(ix, ino), offset, reply.room)
  {
    hide Everything, Page, WellFormed, RangeFits, NodeName;
    var node := ix.nodes[ino];
    RangeInside(ix, ino);
    var children := ChildrenOf(ix, node);
    ghost var all := Everything(ix, ino);
    var i := start;
    while i < |children|
      invariant start <= i && (i <= |children| || i == start)
      invariant i + 2 - offset <= reply.room && reply.entries == Page(all, offset, i + 2 - offset)
    {
      EverythingAt(ix, ino, i);
      PageGrows(all, offset, i + 2 - offset);
      var child := children[i];
      var full := reply.Add(DirEntry(node.firstChild + i, 3 + i, child.kind, NodeName(ix, child)));
      if full {
        return;
      }
      i := i + 1;
    }
    PageEnds(all, offset, i + 2 - offset, reply.room);
  }

  lemma FirstTwo(ix: Index, ino: nat)
    requires IsDir(ix, ino)
    ensures Everything(ix, ino)[0] == DirEntry(ino, 1, Dir, [DOT])
    ensures Everything(ix, ino)[1] == DirEntry(ix.nodes[ino].parent, 2, Dir, [DOT, DOT])
  {
  }

  /** `readdir` and `readdirplus`: what they add and the cursors they give are the same. */
  method Readdir(ix: Index, ino: nat, offset: nat, room: nat) returns (r: Result<seq<DirEntry>, ListError>)
    requires WellFormed(ix)
    ensures ino == 0 || ino >= |ix.nodes| ==> r == Err(NoEntry)
    ensures 0 < ino < |ix.nodes| && !ix.nodes[ino].kind.Dir? ==> r == Err(NotADirectory)
    ensures IsDir(ix, ino) ==> r == Ok(Page(Everything(ix, ino), offset, room))
  {
    hide Everything, Page, WellFormed;
    var found := NodeAt(ix, ino);
    if found.None? {
      return Err(NoEntry);
    }
    var node := found.value;
    if node.kind != Dir {
      return Err(NotADirectory);
    }
    ghost var all := Everything(ix, ino);
    FirstTwo(ix, ino);
    PageOfNone(all, offset);
    var reply := new Reply(room);
    if offset < 1 {
      PageGrows(all, offset, 0);
      var full := reply.Add(DirEntry(ino, 1, Dir, [DOT]));
      if full {
        return Ok(reply.entries);
      }
    }
    if offset < 2 {
      PageGrows(all, offset, 1 - offset);
      var full := reply.Add(DirEntry(node.parent, 2, Dir, [DOT, DOT]));
      if full {
        return Ok(reply.entries);
      }
    }
    var start := if offset < 2 then 0 else offset - 2;
    AddChildren(ix, ino, start, reply, offset);
    return Ok(reply.entries);
  }

  // ----- resuming

  /** The cursor to resume from: that of the last entry, or where the call began. */
  ghost function Resume(page: seq<DirEntry>, offset: nat): nat {
    if page == [] then offset else page[|page| - 1].cursor
  }

  /** A directory read in pieces: what a sequence of replies with these capacities returns. */
  ghost function Pages(ix: Index, ino: nat, rooms: seq<nat>, offset: nat): seq<DirEntry>
    requires IsDir(ix, ino)
    decreases |rooms|
  {
    if rooms == [] then []
    else
      var page := Page(Everything(ix, ino), offset, rooms[0]);
      page + Pages(ix, ino, rooms[1..], Resume(page, offset))
  }

  lemma CursorsArePositions(ix: Index, ino: nat, k: nat)
    requires IsDir(ix, ino) && k < |Everything(ix, ino)|
    ensures Everything(ix, ino)[k].cursor == k + 1
  {
  }

  function Sum(rooms: seq<nat>): nat {
    if rooms == [] then 0 else rooms[0] + Sum(rooms[1..])
  }

  lemma PagesStep(ix: Index, ino: nat, rooms: seq<nat>, offset: nat)
    requires IsDir(ix, ino)
    ensures Sum([]) == 0 && Pages(ix, ino, [], offset) == []
    ensures rooms != [] ==>
      var page := Page(Everything(ix, ino), offset, rooms[0]);
      Pages(ix, ino, rooms, offset) == page + Pages(ix, ino, rooms[1..], Resume(page, offset)) &&
      Sum(rooms) == rooms[0] + Sum(rooms[1..])
  {
  }

  /** The last cursor is where the next reply has to begin. */
  lemma ResumeAfter(ix: Index, ino: nat, offset: nat, room: nat)
    requires IsDir(ix, ino) && offset <= |Everything(ix, ino)|
    ensures var page := Page(Everything(ix, ino), offset, room); Resume(page, offset) == offset + |page|
  {
    var page := Page(Everything(ix, ino), offset, room);
    if page != [] {
      CursorsArePositions(ix, ino, offset + |page| - 1);
    }
  }

  /** However it is cut up, a listing goes on exactly where it stopped. */
  lemma {:induction false} PagesAddUp(ix: Index, ino: nat, rooms: seq<nat>, offset: nat)
    requires IsDir(ix, ino) && offset <= |Everything(ix, ino)|
    ensures Pages(ix, ino, rooms, offset) == Page(Everything(ix, ino), offset, Sum(rooms))
    decreases |rooms|
  {
    hide *;
    if rooms == [] {
      PagesStep(ix, ino, rooms, offset);
      PageOfNone(Everything(ix, ino), offset);
    } else {
      var all := Everything(ix, ino);
      PagesStep(ix, ino, rooms, offset);
      var page := Page(all, offset, rooms[0]);
      var next := offset + |page|;
      PageThenPage(all, offset, rooms[0], Sum(rooms[1..]));
      ResumeAfter(ix, ino, offset, rooms[0]);
      PagesAddUp(ix, ino, rooms[1..], next);
    }
  }

  lemma {:induction false} RoomsSuffice(rooms: seq<nat>)
    requires forall i :: 0 <= i < |rooms| ==> rooms[i] >= 1
    ensures Sum(rooms) >= |rooms|
  {
    if rooms != [] {
      RoomsSuffice(rooms[1..]);
    }
  }

  /** Every entry is returned exactly once, in order, as long as each reply takes at least one. */
  lemma ListingIsComplete(ix: Index, ino: nat, rooms: seq<nat>)
    requires IsDir(ix, ino) && |rooms| >= |Everything(ix, ino)|
    requires forall i :: 0 <= i < |rooms| ==> rooms[i] >= 1
    ensures Pages(ix, ino, rooms, 0) == Everything(ix, ino)
    ensures forall offset: nat, room: nat :: room >= 1 ==>
      (Page(Everything(ix, ino), offset, room) == [] <==> offset >= |Everything(ix, ino)|)
  {
    PagesAddUp(ix, ino, rooms, 0);
    RoomsSuffice(rooms);
    assert Everything(ix, ino)[0..|Everything(ix, ino)|] == Everything(ix, ino);
    forall offset: nat, room: nat | room >= 1
      ensures Page(Everything(ix, ino), offset, room) == [] <==> offset >= |Everything(ix, ino)|
    {
      EmptyMeansDone(ix, ino, offset, room);
    }
  }

  /** An empty reply with room to spare is only given at the end. */
  lemma EmptyMeansDone(ix: Index, ino: nat, offset: nat, room: nat)
    requires IsDir(ix, ino) && room >= 1
    ensures Page(Everything(ix, ino), offset, room) == [] <==> offset >= |Everything(ix, ino)|
  {
  }

  /** The children come in strictly increasing name order. */
  lemma ListedInOrder(ix: Index, ino: nat, a: nat, b: nat)
    requires IsDir(ix, ino) && 2 <= a < b < |Everything(ix, ino)|
    ensures Less(Everything(ix, ino)[a].name, Everything(ix, ino)[b].name)
  {
    EverythingAt(ix, ino, a - 2);
    EverythingAt(ix, ino, b - 2);
    assert RangeFits(ix, ino);
    var n := ix.nodes[ino];
    assert InOrder(ix, n.firstChild + (a - 2), n.firstChild + (b - 2));
  }

  // ----- the two entries every directory has

  /** Child ranges follow one another. */
  lemma {:induction false} RangesIncrease(ix: Index, a: nat, b: nat)
    requires Tiles(ix) && 1 <= a < b < |ix.nodes|
    ensures RangeEnd(ix, a) <= ix.nodes[b].firstChild
    decreases b
  {
    assert RangeEnd(ix, a) == NextRange(ix, a) && RangeEnd(ix, b - 1) == NextRange(ix, b - 1);
    if a < b - 1 {
      RangesIncrease(ix, a, b - 1);
    }
  }

  /** So an inode lies in the range of one directory only. */
  lemma OneRangeEach(ix: Index, a: nat, b: nat, ino: nat)
    requires Tiles(ix) && 1 <= a < |ix.nodes| && 1 <= b < |ix.nodes|
    requires ix.nodes[a].firstChild <= ino < RangeEnd(ix, a) && ix.nodes[b].firstChild <= ino < RangeEnd(ix, b)
    ensures a == b
  {
    if a < b {
      RangesIncrease(ix, a, b);
    } else if b < a {
      RangesIncrease(ix, b, a);
    }
  }

  /**
   In a listing of the directory at a path, "." is that directory and ".." the one at the path
   without its last component; the root is its own parent.
   */
  lemma DotsAre(ix: Index, p: Path)
    requires WellFormed(ix) && Tiles(ix) && Walk(ix, p).Some? && IsDir(ix, Walk(ix, p).value)
    ensures var all := Everything(ix, Walk(ix, p).value);
            && all[0].name == [DOT] && Some(all[0].ino) == Walk(ix, p)
            && all[1].name == [DOT, DOT] && Some(all[1].ino) == if p == [] then Some(1) else Walk(ix, Front(p))
  {
    if p != [] {
      var ino, above := Walk(ix, p).value, Walk(ix, Front(p)).value;
      ResolveFinds(ix, above, p[|p| - 1]);
      ChildIsNotRoot(ix, above, ino);
      assert InParentsRange(ix, ino);
      OneRangeEach(ix, above, ix.nodes[ino].parent, ino);
    }
  }

  lemma ChildIsNotRoot(ix: Index, above: nat, ino: nat)
    requires Tiles(ix) && 1 <= above < |ix.nodes| && ix.nodes[above].firstChild <= ino
    ensures ino >= 2
  {
    if above > 1 {
      RangesIncrease(ix, 1, above);
    }
  }

  /** Every other entry is the child of its name, with its kind. */
  lemma ListedAreChildren(ix: Index, p: Path, k: nat)
    requires WellFormed(ix) && Walk(ix, p).Some? && IsDir(ix, Walk(ix, p).value)
    requires 2 <= k < |Everything(ix, Walk(ix, p).value)|
    ensures var e := Everything(ix, Walk(ix, p).value)[k];
            && Walk(ix, p + [e.name]) == Some(e.ino) && e.ino < |ix.nodes| && e.kind == ix.nodes[e.ino].kind
  {
    hide WellFormed, Walk, Resolve, IsChild;
    var ino := Walk(ix, p).value;
    var c := ix.nodes[ino].firstChild + k - 2;
    EverythingAt(ix, ino, k - 2);
    hide Everything;
    ChildExists(ix, ino, c);
    OneFurther(ix, p, NodeName(ix, ix.nodes[c]));
    ResolveIs(ix, ino, NodeName(ix, ix.nodes[c]), c);
  }

  /** And every child is listed. */
  lemma ChildrenAreListed(ix: Index, p: Path, name: Name)
    requires WellFormed(ix) && Walk(ix, p).Some? && IsDir(ix, Walk(ix, p).value) && Walk(ix, p + [name]).Some?
    ensures exists i ::
      2 <= i < |Everything(ix, Walk(ix, p).value)| && Everything(ix, Walk(ix, p).value)[i].name == name
  {
    hide WellFormed, Walk, Resolve;
    var ino := Walk(ix, p).value;
    OneFurther(ix, p, name);
    ResolveFinds(ix, ino, name);
    var k := Walk(ix, p + [name]).value - ix.nodes[ino].firstChild;
    EverythingAt(ix, ino, k);
    assert Everything(ix, ino)[k + 2].name == name;
  }

  lemma OneFurther(ix: Index, p: Path, name: Name)
    requires Walk(ix, p).Some?
    ensures Walk(ix, p + [name]) == Resolve(ix, Walk(ix, p).value, name)
  {
    assert Front(p + [name]) == p;
  }

  lemma ChildExists(ix: Index, ino: nat, c: nat)
    requires IsDir(ix, ino) && ix.nodes[ino].firstChild <= c < ix.nodes[ino].firstChild + ix.nodes[ino].childLen
    ensures c < |ix.nodes| && NameFits(ix, ix.nodes[c]) && IsChild(ix, ino, NodeName(ix, ix.nodes[c]), c)
  {
    assert RangeFits(ix, ino);
  }
}
