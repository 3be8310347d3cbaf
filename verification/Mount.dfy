/**
 A whole mount: every open file has a pool, all pools share one budget, and reads on different
 files or on the same one overlap. A read takes its decoder, works and gives the decoder back in
 three steps, and between any two of them other files may be opened, read and released.
 */
module Mounting {
  import opened Bytes
  import opened Guarding
  import opened Sources
  import opened Codecs
  import opened Decoding
  import opened Pooling
  import opened Serving

  /** A read under way: the file and decoder it holds, what it asked for, and its result once it has one. */
  datatype Flight<S(!new)> = Flight(
    file: nat,
    decoder: PositionedDecoder<S>,
    offset: nat,
    size: nat,
    result: Option<Result<seq<byte>, IoError>>)

  /** What can happen: files are opened and released, reads begin, work and finish. */
  datatype Op =
    | Open(entry: nat)
    | Begin(fh: nat, offset: nat, size: nat)
    | Work(ticket: nat)
    | Finish(ticket: nat)
    | Release(fh: nat)

  datatype Answer = Opened(fh: nat) | Started(ticket: nat) | Replied(reply: Reply) | Done

  /** What a history shows from outside: which entries were opened, which handles are open, which reads go on. */
  datatype Trace = Trace(entries: seq<nat>, open: set<nat>, under: map<nat, Asked>)

  /** What a request is answered by: whether a change is known, and the verdicts on record. */
  datatype Moment = Moment(stale: bool, verdicts: seq<VerifyState>)

  datatype Asked = Asked(fh: nat, offset: nat, size: nat)

  function Next(tr: Trace, op: Op, a: Answer): Trace {
    match op
    case Open(e) => if a.Opened? then tr.(entries := tr.entries + [e], open := tr.open + {a.fh}) else tr
    case Begin(fh, offset, size) =>
      if a.Started? then tr.(under := tr.under[a.ticket := Asked(fh, offset, size)]) else tr
    case Work(_) => tr
    case Finish(t) => tr.(under := tr.under - {t})
    case Release(fh) => tr.(open := tr.open - {fh})
  }

  function TraceOf(tr: Trace, ops: seq<Op>, answers: seq<Answer>): Trace
    requires |ops| == |answers|
  {
    if ops == [] then tr
    else
      var last := |ops| - 1;
      Next(TraceOf(tr, ops[..last], answers[..last]), ops[last], answers[last])
  }

  // ----- counting

  function Total(counts: seq<nat>): nat {
    if counts == [] then 0 else Total(counts[..|counts| - 1]) + counts[|counts| - 1]
  }

  lemma {:induction false} TotalAfterUpdate(counts: seq<nat>, k: nat, n: nat)
    requires k < |counts|
    ensures Total(counts[k := n]) + counts[k] == Total(counts) + n
    decreases |counts|
  {
    var last := |counts| - 1;
    if k < last {
      TotalAfterUpdate(counts[..last], k, n);
      assert counts[k := n][..last] == counts[..last][k := n];
    } else {
      assert counts[k := n][..last] == counts[..last];
    }
  }

  lemma {:induction false} PartOfTotal(counts: seq<nat>, k: nat)
    requires k < |counts|
    ensures counts[k] <= Total(counts)
    decreases |counts|
  {
    if k < |counts| - 1 {
      PartOfTotal(counts[..|counts| - 1], k);
    }
  }

  lemma {:induction false} TotalOfNothing(counts: seq<nat>)
    requires forall k :: 0 <= k < |counts| ==> counts[k] == 0
    ensures Total(counts) == 0
    decreases |counts|
  {
    if counts != [] {
      TotalOfNothing(counts[..|counts| - 1]);
    }
  }

  ghost function IdleCounts<S(!new)>(files: seq<EntryPool<S>>): seq<nat>
    reads files
  {
    seq(|files|, i requires 0 <= i < |files| reads files => |files[i].idle|)
  }

  lemma CountOf<S(!new)>(files: seq<EntryPool<S>>, k: nat)
    requires k < |files|
    ensures |IdleCounts(files)| == |files| && IdleCounts(files)[k] == |files[k].idle| <= Total(IdleCounts(files))
  {
    PartOfTotal(IdleCounts(files), k);
  }

  lemma Counts<S(!new)>(files: seq<EntryPool<S>>)
    ensures |IdleCounts(files)| == |files| && forall i :: 0 <= i < |files| ==> IdleCounts(files)[i] == |files[i].idle|
  {
  }

  lemma TotalOfOneMore(counts: seq<nat>)
    ensures Total(counts + [0]) == Total(counts)
  {
    assert (counts + [0])[..|counts|] == counts;
  }

  /** The lists of all files but one are as long as before. */
  ghost predicate CountsBut<S(!new)>(files: seq<EntryPool<S>>, k: nat, before: seq<nat>)
    reads files
  {
    |before| == |files| && forall i :: 0 <= i < |files| && i != k ==> |files[i].idle| == before[i]
  }

  lemma CountsStay<S(!new)>(files: seq<EntryPool<S>>, k: nat, before: seq<nat>)
    requires |before| == |files| && forall i :: 0 <= i < |files| && i != k ==> |files[i].idle| == before[i]
    ensures CountsBut(files, k, before)
  {
  }

  /** The books after one file's list changed. */
  lemma TotalFollows<S(!new)>(files: seq<EntryPool<S>>, before: seq<nat>, k: nat)
    requires k < |files| && CountsBut(files, k, before)
    ensures Total(IdleCounts(files)) + before[k] == Total(before) + |files[k].idle|
  {
    TotalAfterUpdate(before, k, |files[k].idle|);
    assert IdleCounts(files) == before[k := |files[k].idle|];
  }

  // ----- who holds what

  /** The objects of the idle decoders of all pools but `k`. */
  ghost function Resting<S(!new)>(files: seq<EntryPool<S>>, k: int): set<object>
    reads set i | 0 <= i < |files| && i != k :: files[i]
  {
    set i, o | 0 <= i < |files| && i != k && o in files[i].owned :: o
  }

  /** The objects of the decoders in use by all reads but `w`. */
  ghost function Flying<S(!new)>(flights: map<nat, Flight<S>>, w: int): set<object> {
    set t, o | t in flights && t != w && o in flights[t].decoder.Repr() :: o
  }

  /** The pools other than `k`, and the objects of their decoders and of the reads other than `w`. */
  ghost function Bystanders<S(!new)>(
      files: seq<EntryPool<S>>, flights: map<nat, Flight<S>>, k: int, w: int): set<object>
    reads set i | 0 <= i < |files| && i != k :: files[i]
  {
    (set i | 0 <= i < |files| && i != k :: files[i]) + Resting(files, k) + Flying(flights, w)
  }

  /** No two files, no two reads, and no file and read share an object; `k` and `w` are left out. */
  ghost predicate OthersApart<S(!new)>(
      files: seq<EntryPool<S>>, flights: map<nat, Flight<S>>, k: int, w: int)
    reads set i | 0 <= i < |files| && i != k :: files[i]
  {
    && (forall i, j :: 0 <= i < j < |files| && i != k && j != k ==>
        files[i] != files[j] && files[i].owned !! files[j].owned)
    && (forall i, t :: 0 <= i < |files| && i != k && t in flights && t != w ==>
        files[i].owned !! flights[t].decoder.Repr())
    && (forall t, u :: t in flights && u in flights && t != u && t != w && u != w ==>
        flights[t].decoder.Repr() !! flights[u].decoder.Repr())
  }

  class Mount<S(!new)> {
    const budget: DecoderBudget<S>
    const reader: GuardedFile
    const perHandleCap: nat
    /** The compressed entries: where their bytes are, their metadata, and what the bytes stand for. */
    const locs: seq<Location>
    const metas: seq<EntryMeta>
    ghost const streams: seq<Stream<S>>

    /** Every file ever opened; the handle of file `k` is `k + 1`. */
    var files: seq<EntryPool<S>>
    var entryOf: seq<nat>
    /** The handles in the table. */
    var open: set<nat>
    /** The reads under way, by the number they were given. */
    var flights: map<nat, Flight<S>>
    var nextTicket: nat
    /** Some read has found that the archive cannot be read, or that it changed. */
    ghost var excuse: bool

    ghost predicate EntryFits(e: nat)
      requires e < |locs| == |metas| == |streams|
    {
      && locs[e].dataStart + locs[e].compressedSize <= U64_MAX
      && CodedIn(streams[e], reader.disk.mounted, locs[e].dataStart, locs[e].compressedSize)
      && Decodes(budget.codecs(locs[e].compression), streams[e])
    }

    /** The archive's entries are streams the machines decode. */
    ghost predicate Catalogue() {
      && |locs| == |metas| == |streams|
      && (forall e :: 0 <= e < |locs| ==> EntryFits(e))
      && (forall e, f :: 0 <= e < f < |metas| ==> metas[e] != metas[f])
    }

    ghost predicate EntryInside(e: nat)
      requires e < |locs|
    {
      InArchive(reader.disk.mounted, locs[e].dataStart, locs[e].compressedSize)
    }

    ghost predicate EntrySound(e: nat)
      requires e < |metas| == |streams|
    {
      Sound(streams[e], budget.sum, metas[e].uncompressedSize, metas[e].crc32)
    }

    /** The verdicts on record are right. */
    ghost predicate VerdictsRight()
      requires Catalogue()
      reads metas
    {
      forall e :: 0 <= e < |metas| ==> VerdictHolds(metas[e].verifyState, EntrySound(e), EntryInside(e))
    }

    /** A pool that serves entry `e`. */
    ghost predicate On(p: EntryPool<S>, e: nat) {
      && p.budget == budget && p.reader == reader
      && e < |locs| == |metas| == |streams|
      && p.loc == locs[e] && p.z == streams[e] && p.declared == metas[e].uncompressedSize
    }

    /** A pool on an entry, in good order by itself. */
    ghost predicate PoolRests(p: EntryPool<S>, e: nat)
      reads p, p.owned
    {
      On(p, e) && p.Kit() && OnlyParts<S>(p.owned)
    }

    /** The same of a read under way. */
    ghost predicate FlightRests(p: EntryPool<S>, e: nat, f: Flight<S>)
      reads f.decoder.Repr()
    {
      && On(p, e) && p.Fits(f.decoder) && f.offset < metas[e].uncompressedSize
      && (f.result.None? ==> Usable(f.decoder, f.offset))
    }

    /** The result of a read, if it has one, is right. */
    ghost predicate ResultRight(e: nat, f: Flight<S>, failed: bool) {
      f.result.Some? ==> e < |metas| == |streams| == |locs| && Gives(e, f.offset, f.size, f.result.value, failed)
    }

    ghost predicate ResultsRight(entryOf: seq<nat>, flights: map<nat, Flight<S>>, failed: bool) {
      forall t :: t in flights ==>
        flights[t].file < |entryOf| && ResultRight(entryOf[flights[t].file], flights[t], failed)
    }

    /** What a read of entry `e` may result in, depending on whether an archive read has ever failed. */
    ghost predicate Gives(e: nat, offset: nat, size: nat, r: Result<seq<byte>, IoError>, failed: bool)
      requires e < |metas| == |streams| == |locs|
    {
      match r
      case Ok(bytes) => GivesBytes(e, offset, size, bytes)
      case Err(error) => Blameless(e) ==> failed
    }

    /** Bytes of the entry, all that were asked for unless it ends first; its end only if it is sound. */
    ghost predicate GivesBytes(e: nat, offset: nat, size: nat, bytes: seq<byte>)
      requires e < |metas| == |streams|
    {
      var plain, declared := streams[e].plain, metas[e].uncompressedSize;
      && |bytes| <= size
      && (bytes != [] ==> offset + |bytes| <= Min(|plain|, declared) && bytes == plain[offset..offset + |bytes|])
      && (|bytes| < size && offset + |bytes| < declared ==> offset + |bytes| == |plain|)
      && (budget.verify && offset < declared == offset + |bytes| ==> EntrySound(e))
    }

    /** Nothing about the entry stands in the way of reading it. */
    ghost predicate Blameless(e: nat)
      requires e < |metas| == |streams| == |locs|
    {
      EntryInside(e) && EntrySound(e)
    }

    /** All pools but `k` and all reads but `w` are in order and share nothing. */
    ghost predicate OthersRest(
        files: seq<EntryPool<S>>, entryOf: seq<nat>, flights: map<nat, Flight<S>>, k: int, w: int)
      reads Bystanders(files, flights, k, w)
    {
      && |files| == |entryOf|
      && (forall i :: 0 <= i < |files| && i != k ==> PoolRests(files[i], entryOf[i]))
      && (forall t :: t in flights && t != w ==> flights[t].file < |files|)
      && (forall t :: t in flights && t != w ==>
          FlightRests(files[flights[t].file], entryOf[flights[t].file], flights[t]))
      && OthersApart(files, flights, k, w)
    }

    /** Everything but the rule about dropped files. */
    ghost predicate Core(files: seq<EntryPool<S>>, entryOf: seq<nat>, flights: map<nat, Flight<S>>)
      reads this`excuse, budget, reader.disk, metas, Bystanders(files, flights, -1, -1)
    {
      && Catalogue() && budget.Valid() && reader.disk.Honest() && VerdictsRight()
      && budget.retained == Total(IdleCounts(files))
      && OthersRest(files, entryOf, flights, -1, -1) && Bystanders(files, flights, -1, -1) !! budget.Arrays()
      && ResultsRight(entryOf, flights, excuse)
    }

    predicate InUse(flights: map<nat, Flight<S>>, k: nat) {
      exists t :: t in flights && flights[t].file == k
    }

    /** A file that was released and is not being read has been dropped: it keeps no decoder. */
    ghost predicate Dropped(counts: seq<nat>, open: set<nat>, flights: map<nat, Flight<S>>) {
      forall i :: 0 <= i < |counts| && i + 1 !in open && !InUse(flights, i) ==> counts[i] == 0
    }

    ghost predicate Numbered() reads this {
      (forall fh :: fh in open ==> 1 <= fh <= |files|) && (forall t :: t in flights ==> t < nextTicket)
    }

    ghost predicate Valid()
      reads this, budget, reader, reader.disk, metas, Bystanders(files, flights, -1, -1)
    {
      Core(files, entryOf, flights) && Dropped(IdleCounts(files), open, flights) && Numbered() && (excuse ==> Excused())
    }

    /** A fresh mount: nothing open, nothing under way, nothing verified. */
    constructor (
        budget: DecoderBudget<S>, reader: GuardedFile, perHandleCap: nat,
        locs: seq<Location>, metas: seq<EntryMeta>, ghost streams: seq<Stream<S>>)
      requires budget.Valid() && budget.retained == 0 && reader.disk.Honest()
      requires |locs| == |metas| == |streams|
      requires forall e :: 0 <= e < |locs| ==>
        && locs[e].dataStart + locs[e].compressedSize <= U64_MAX
        && CodedIn(streams[e], reader.disk.mounted, locs[e].dataStart, locs[e].compressedSize)
        && Decodes(budget.codecs(locs[e].compression), streams[e])
      requires forall e, f :: 0 <= e < f < |metas| ==> metas[e] != metas[f]
      requires forall e :: 0 <= e < |metas| ==> metas[e].verifyState == Unverified
      ensures Valid() && files == [] && open == {} && flights == map[] && nextTicket == 0
    {
      this.budget, this.reader, this.perHandleCap := budget, reader, perHandleCap;
      this.locs, this.metas, this.streams := locs, metas, streams;
      files, entryOf, open, flights, nextTicket, excuse := [], [], {}, map[], 0, false;
    }

    /** What a step on file `k` and read `w` works on. */
    ghost function Zone(k: nat, w: nat): set<object>
      requires k < |files|
      reads this, files, budget, files[k].budget
    {
      files[k].Reach() + (if w in flights then flights[w].decoder.Repr() else {})
    }

    /** And what it may rely on. */
    lemma Others(k: nat, w: nat)
      requires Core(files, entryOf, flights) && k < |files|
      ensures OthersRest(files, entryOf, flights, k, w) && Bystanders(files, flights, k, w) !! Zone(k, w)
      ensures files[k] !in Bystanders(files, flights, k, w) && files[k] !in Zone(k, w)
      ensures On(files[k], entryOf[k]) && files[k].Valid() && files[k].Apart()
      ensures files[k].VerdictIsRight(metas[entryOf[k]])
      ensures Catalogue() && Nobody(Bystanders(files, flights, k, w)) && Nobody(Zone(k, w))
    {
      hide PoolRests, FlightRests, DecoderBudget.Valid, Total, OnlyParts, Catalogue, VerdictsRight, EntryPool.Valid;
      hide EntryPool.Apart, EntryPool.Reach, Bystanders, On, EntryPool.VerdictIsRight, Nobody;
      ItselfInOrder(k);
      ItselfApart(k, w);
    }

    /** What all files share is not among the objects of any. */
    ghost predicate Nobody(objects: set<object>) {
      && budget !in objects && reader !in objects && reader.disk !in objects && this !in objects
      && forall e :: 0 <= e < |metas| ==> metas[e] !in objects
    }

    lemma ItselfInOrder(k: nat)
      requires Core(files, entryOf, flights) && k < |files|
      ensures On(files[k], entryOf[k]) && files[k].Valid() && files[k].Apart() && Catalogue()
      ensures files[k].VerdictIsRight(metas[entryOf[k]])
    {
      hide EntryPool.Valid, EntryPool.Kit, Total, EntryFits, DecoderBudget.Valid, VerdictHolds, Sound, InArchive;
      hide DecoderBudget.Arrays, FlightRests, OthersApart;
      assert PoolRests(files[k], entryOf[k]);
      forall o | o in files[k].owned ensures o !in budget.Arrays() {
        assert o in Resting(files, -1);
      }
      CountOf(files, k);
      files[k].ValidFromKit();
    }

    lemma ItselfApart(k: nat, w: nat)
      requires Core(files, entryOf, flights) && k < |files|
      ensures Bystanders(files, flights, k, w) !! Zone(k, w) && files[k] !in Bystanders(files, flights, k, w)
      ensures Nobody(Bystanders(files, flights, k, w)) && Nobody(Zone(k, w)) && files[k] !in Zone(k, w)
    {
      hide EntryPool.Kit, Total, Catalogue, DecoderBudget.Valid, VerdictsRight, FlightRests, ResultsRight;
      hide OthersApart, Resting, Flying, DecoderBudget.Arrays;
      assert PoolRests(files[k], entryOf[k]);
      ArraysAreParts(budget);
      SharesNothing(files, flights, k, w);
      RestingGrows(files, k);
      AllParts(k, w);
      assert OnlyParts<S>(Zone(k, w));
      hide PoolRests, Nobody;
      PartsAreNobody(Zone(k, w));
      PartsAreNobody(Resting(files, k) + Flying(flights, w));
      NobodyElse(files, flights, k, w);
      forall o | o in Bystanders(files, flights, k, w) ensures o !in Zone(k, w) && o != files[k] {
      }
    }

    lemma PartsAreNobody(objects: set<object>)
      requires OnlyParts<S>(objects)
      ensures Nobody(objects)
    {
    }

    lemma NobodyElse(files: seq<EntryPool<S>>, flights: map<nat, Flight<S>>, k: int, w: int)
      requires Nobody(Resting(files, k) + Flying(flights, w))
      ensures Nobody(Bystanders(files, flights, k, w))
    {
      hide Resting, Flying;
    }

    /** A file and a read that were worked on, and all the others, make up a mount again. */
    lemma Again(
        files: seq<EntryPool<S>>, entryOf: seq<nat>, flights: map<nat, Flight<S>>, k: nat, w: nat, before: seq<nat>)
      requires Records(entryOf, flights) && k < |files| && CountsBut(files, k, before)
      requires OthersRest(files, entryOf, flights, k, w) && Bystanders(files, flights, k, w) !! files[k].Reach()
      requires files[k] !in Bystanders(files, flights, k, w)
      requires On(files[k], entryOf[k]) && files[k].Valid() && files[k].Apart()
      requires w in flights ==> flights[w].file == k && FlightRests(files[k], entryOf[k], flights[w])
      requires w in flights ==> flights[w].decoder.Repr() !! Bystanders(files, flights, k, w) + files[k].Reach()
      requires budget.retained - |files[k].idle| == Total(before) - before[k]
      ensures Core(files, entryOf, flights)
    {
      hide EntryPool.Valid, EntryPool.Kit, EntryPool.Fits, Total, DecoderBudget.Valid, DecoderBudget.Arrays;
      hide Catalogue, VerdictsRight, ResultRight, IdleCounts, Usable, FlightRests;
      files[k].KitOfValid();
      TotalFollows(files, before, k);
      PoolsAreNotStored(files[k], budget);
      ApartAgain(files, flights, k, w);
      AllTogether(files, flights, k, w);
      hide OthersApart, Resting, Flying, Bystanders, On, OnlyParts, EntryPool.Apart;
      InReach(files[k]);
      assert Bystanders(files, flights, -1, -1) !! budget.Arrays();
    }

    // ----- the steps of a read

    /** What is on record about entries and reads is right. */
    ghost predicate Records(entryOf: seq<nat>, flights: map<nat, Flight<S>>)
      reads this`excuse, reader.disk, metas
    {
      Catalogue() && VerdictsRight() && reader.disk.Honest() && ResultsRight(entryOf, flights, excuse)
    }

    /** All that a step on file `k` and read `w` has to know. */
    lemma Before(k: nat, w: nat)
      requires Core(files, entryOf, flights) && k < |files|
      ensures |files| == |entryOf| && OthersRest(files, entryOf, flights, k, w) && Records(entryOf, flights)
      ensures files[k].budget == budget && files[k].reader == reader
      ensures On(files[k], entryOf[k]) && files[k].Valid() && files[k].Apart() && entryOf[k] < |metas|
      ensures files[k].VerdictIsRight(metas[entryOf[k]])
      ensures Bystanders(files, flights, k, w) !! Zone(k, w) && Nobody(Zone(k, w)) && files[k] !in Zone(k, w)
      ensures files[k] !in Bystanders(files, flights, k, w) && Nobody(Bystanders(files, flights, k, w))
      ensures forall i :: 0 <= i < |files| && i != k ==> files[i] in Bystanders(files, flights, k, w)
      ensures budget.retained == Total(IdleCounts(files))
    {
      hide *;
      Others(k, w);
      CoreMeans();
      ListedApart(k, w);
      OnMeans(k);
    }

    lemma CoreMeans()
      requires Core(files, entryOf, flights)
      ensures |files| == |entryOf| && Records(entryOf, flights) && budget.retained == Total(IdleCounts(files))
    {
      hide Catalogue, VerdictsRight, ResultsRight, PoolRests, FlightRests, OthersApart, Bystanders, Total;
    }

    lemma OnMeans(k: nat)
      requires k < |files| == |entryOf| && On(files[k], entryOf[k])
      ensures files[k].budget == budget && files[k].reader == reader && entryOf[k] < |metas|
    {
    }

    lemma NobodyMeans(objects: set<object>)
      requires Nobody(objects)
      ensures budget !in objects && reader !in objects && reader.disk !in objects && this !in objects
      ensures forall e :: 0 <= e < |metas| ==> metas[e] !in objects
    {
    }

    /** Checks a decoder out. */
    method TakeDecoder(k: nat, p: EntryPool<S>, e: nat, offset: nat) returns (d: PositionedDecoder<S>)
      requires Core(files, entryOf, flights) && nextTicket !in flights
      requires k < |files| == |entryOf| && files[k] == p && entryOf[k] == e
      modifies p, p.owned, budget
      ensures unchanged(reader)
      ensures unchanged(this) && OthersRest(files, entryOf, flights, k, nextTicket) && Records(entryOf, flights)
      ensures Bystanders(files, flights, k, nextTicket) == old(Bystanders(files, flights, k, nextTicket))
      ensures Bystanders(files, flights, k, nextTicket) !! p.Reach() + d.Repr()
      ensures p !in Bystanders(files, flights, k, nextTicket)
      ensures this !in Bystanders(files, flights, k, nextTicket) && this !in p.owned
      ensures On(p, e) && p.Valid() && p.Apart() && p.Fits(d) && Usable(d, offset) && d.Repr() !! p.Reach()
      ensures budget.retained - |p.idle| == old(budget.retained - |p.idle|)
      ensures CountsBut(files, k, old(IdleCounts(files)))
      ensures forall o :: o in p.Reach() || o in d.Repr() ==> o in old(p.Reach()) || fresh(o)
    {
      hide *;
      Before(k, nextTicket);
      InReach(p);
      ZoneIs(k, nextTicket);
      NobodyMeans(Zone(k, nextTicket));
      NobodyMeans(Bystanders(files, flights, k, nextTicket));
      ghost var others := Bystanders(files, flights, k, nextTicket);
      OldObjects(k, nextTicket);
      Counts(files);
      d := p.Borrow(offset);
      InReach(p);
      assert Bystanders(files, flights, k, nextTicket) == others;
      CountsStay(files, k, old(IdleCounts(files)));
    }

    lemma OtherRecords(entryOf: seq<nat>, a: map<nat, Flight<S>>, b: map<nat, Flight<S>>, w: nat)
      requires Records(entryOf, a) && SameBut(a, b, w)
      requires w in b ==> b[w].file < |entryOf| && ResultRight(entryOf[b[w].file], b[w], excuse)
      ensures Records(entryOf, b)
    {
      hide Catalogue, VerdictsRight, ResultRight;
    }

    lemma NewFlight(p: EntryPool<S>, e: nat, f: Flight<S>)
      requires On(p, e) && p.Fits(f.decoder) && f.offset < metas[e].uncompressedSize
      requires f.result.None? && Usable(f.decoder, f.offset)
      ensures FlightRests(p, e, f) && ResultRight(e, f, excuse)
    {
    }

    /** Checks a decoder out for a read and gives the read a number. */
    method TakeOff(k: nat, offset: nat, size: nat) returns (ticket: nat)
      requires Core(files, entryOf, flights) && nextTicket !in flights && k < |files| == |entryOf|
      requires entryOf[k] < |metas| && offset < metas[entryOf[k]].uncompressedSize
      modifies this`flights, this`nextTicket, files[k], files[k].owned, budget
      ensures files == old(files) && entryOf == old(entryOf) && open == old(open) && excuse == old(excuse)
      ensures unchanged(reader)
      ensures Core(files, entryOf, flights) && ticket == old(nextTicket) && nextTicket == ticket + 1
      ensures ticket in flights
      ensures flights == old(flights)[ticket := Flight(k, flights[ticket].decoder, offset, size, None)]
      ensures CountsBut(files, k, old(IdleCounts(files)))
      ensures forall o :: o in Everything() ==> o in old(Everything()) || fresh(o)
    {
      hide *;
      ghost var counts, before := IdleCounts(files), flights;
      Counts(files);
      Before(k, nextTicket);
      EverythingIs(k, nextTicket);
      ZoneIs(k, nextTicket);
      var d := TakeDecoder(k, files[k], entryOf[k], offset);
      ticket := nextTicket;
      flights := flights[ticket := Flight(k, d, offset, size, None)];
      nextTicket := ticket + 1;
      Differ(before, flights, ticket);
      NewFlight(files[k], entryOf[k], flights[ticket]);
      OtherFlights(files, entryOf, before, flights, k, ticket);
      OtherRecords(entryOf, before, flights, ticket);
      Again(files, entryOf, flights, k, ticket, counts);
      ZoneIs(k, ticket);
      EverythingIs(k, ticket);
    }

    /** A read under way, and the pool its decoder came from. */
    lemma InFlight(t: nat)
      requires Core(files, entryOf, flights) && t in flights
      ensures |files| == |entryOf| && flights[t].file < |files|
      ensures FlightRests(files[flights[t].file], entryOf[flights[t].file], flights[t])
      ensures flights[t].decoder.Repr() !! files[flights[t].file].Reach()
    {
      hide EntryPool.Kit, DecoderBudget.Arrays, Catalogue, VerdictsRight, FlightRests, PoolRests, Total;
      var f := flights[t];
      assert PoolRests(files[f.file], entryOf[f.file]);
      BudgetOfFile(f.file);
      assert f.decoder.Repr() <= Flying(flights, -1);
    }

    lemma BudgetOfFile(k: nat)
      requires k < |files| == |entryOf| && PoolRests(files[k], entryOf[k])
      ensures files[k].budget == budget
    {
    }

    lemma FlightMeans(p: EntryPool<S>, e: nat, f: Flight<S>)
      requires FlightRests(p, e, f)
      ensures On(p, e) && p.Fits(f.decoder)
      ensures e < |metas| == |streams| == |locs| && f.offset < metas[e].uncompressedSize
      ensures f.result.None? ==> Usable(f.decoder, f.offset)
    {
    }

    lemma FlownFlight(p: EntryPool<S>, e: nat, f: Flight<S>)
      requires On(p, e) && p.Fits(f.decoder) && f.offset < metas[e].uncompressedSize && f.result.Some?
      ensures FlightRests(p, e, f)
    {
    }

    lemma GivesFrom(p: EntryPool<S>, e: nat, offset: nat, size: nat, r: Result<seq<byte>, IoError>, failed: bool)
      requires On(p, e) && offset < metas[e].uncompressedSize
      requires p.Answers(metas[e], offset, Min(size, metas[e].uncompressedSize - offset), r)
      requires r.Err? && p.Blameless(metas[e], offset) ==> failed
      ensures Gives(e, offset, size, r, failed)
    {
    }

    /** A read of entry `e` on a borrowed decoder: the verdicts stay right and last. */
    method Consult(p: EntryPool<S>, e: nat, d: PositionedDecoder<S>, offset: nat, size: nat)
      returns (r: Result<seq<byte>, IoError>)
      requires Catalogue() && VerdictsRight() && reader.disk.Honest() && On(p, e) && p.Valid() && p.Apart()
      requires p.Fits(d) && d.Repr() !! p.Reach() && Usable(d, offset) && offset < metas[e].uncompressedSize
      modifies d.Repr(), reader, reader.disk, metas[e]
      ensures VerdictsRight() && reader.disk.Honest() && p.Valid() && p.Apart() && p.Fits(d)
      ensures Gives(e, offset, size, r, Excused())
      ensures reader.Later(old(reader.failures), old(reader.stale)) && VerdictsLast(old(Verdicts()), Verdicts())
    {
      hide EntryPool.Valid, EntryPool.Apart, EntryPool.Fits, EntryPool.Answers, EntryFits, EntryPool.Blameless, Usable;
      hide VerdictHolds, EntryPool.Reach, Gives, Sound;
      var want := Min(size, metas[e].uncompressedSize - offset);
      r := p.WorkWith(d, offset, want, metas[e]);
      GivesFrom(p, e, offset, size, r, Excused());
    }

    /** A verdict, once given, lasts. */
    ghost predicate VerdictsLast(before: seq<VerifyState>, after: seq<VerifyState>) {
      && |before| == |after| == |locs|
      && forall e :: 0 <= e < |locs| ==> Sticks(before[e], after[e], EntryInside(e))
    }

    ghost function Verdicts(): seq<VerifyState>
      reads metas
    {
      seq(|metas|, e requires 0 <= e < |metas| reads metas => metas[e].verifyState)
    }

    /** The decoder of a read works. */
    method WorkDecoder(t: nat, f: Flight<S>, p: EntryPool<S>, e: nat) returns (r: Result<seq<byte>, IoError>)
      requires Core(files, entryOf, flights) && t in flights && flights[t] == f && f.result.None?
      requires f.file < |files| == |entryOf| && files[f.file] == p && entryOf[f.file] == e
      requires e < |metas| == |streams| == |locs|
      modifies f.decoder.Repr(), reader, reader.disk, metas
      ensures unchanged(this) && unchanged(budget) && IdleCounts(files) == old(IdleCounts(files))
      ensures OthersRest(files, entryOf, flights, f.file, t) && Records(entryOf, flights)
      ensures Bystanders(files, flights, f.file, t) == old(Bystanders(files, flights, f.file, t))
      ensures p.Reach() == old(p.Reach()) && f.offset < metas[e].uncompressedSize
      ensures On(p, e) && p.Valid() && p.Apart() && p.Fits(f.decoder)
      ensures Gives(e, f.offset, f.size, r, Excused())
      ensures reader.Later(old(reader.failures), old(reader.stale)) && VerdictsLast(old(Verdicts()), Verdicts())
    {
      hide *;
      var k := f.file;
      InFlight(t);
      FlightMeans(p, e, f);
      Before(k, t);
      ghost var others := Bystanders(files, flights, k, t);
      InReach(p);
      ZoneIs(k, t);
      NobodyMeans(Zone(k, t));
      NobodyMeans(others);
      RecordsMean(entryOf, flights);
      OldObjects(k, t);
      r := Consult(p, e, f.decoder, f.offset, f.size);
      RecordsAfter(entryOf, flights, excuse);
      assert Bystanders(files, flights, k, t) == others;
    }

    /** Every object that a step may touch or leave behind. */
    ghost function Everything(): set<object>
      reads this, files, budget
    {
      Bystanders(files, flights, -1, -1) + budget.Arrays()
    }

    lemma EverythingMeans()
      ensures Everything() == Bystanders(files, flights, -1, -1) + budget.Arrays()
    {
    }

    /** Everything, seen from file `k` and read `w`. */
    lemma EverythingIs(k: nat, w: nat)
      requires k < |files| && files[k].budget == budget
      ensures Everything() == Bystanders(files, flights, k, w) + Zone(k, w) + {files[k]}
    {
      hide Bystanders, Resting, Flying, DecoderBudget.Arrays;
      AllTogether(files, flights, k, w);
    }

    /** The middle of a read: the decoder works, and the result is kept. */
    method WorkOn(t: nat)
      requires Core(files, entryOf, flights) && t in flights && flights[t].result.None?
      modifies this`flights, this`excuse, flights[t].decoder.Repr(), reader, reader.disk, metas
      ensures files == old(files) && entryOf == old(entryOf) && open == old(open) && nextTicket == old(nextTicket)
      ensures Core(files, entryOf, flights) && t in flights && flights[t].result.Some?
      ensures flights == old(flights)[t := old(flights)[t].(result := flights[t].result)]
      ensures reader.Later(old(reader.failures), old(reader.stale)) && VerdictsLast(old(Verdicts()), Verdicts())
      ensures excuse == (old(excuse) || Excused())
      ensures IdleCounts(files) == old(IdleCounts(files)) && Everything() == old(Everything())
    {
      hide *;
      var f, before := flights[t], flights;
      InFlight(t);
      var k, e := f.file, entryOf[f.file];
      FlightMeans(files[k], e, f);
      Before(k, t);
      ghost var counts := IdleCounts(files);
      ghost var others := Bystanders(files, flights, k, t);
      Counts(files);
      InReach(files[k]);
      ZoneIs(k, t);
      NobodyMeans(Zone(k, t));
      NobodyMeans(others);
      EverythingIs(k, t);
      var r := WorkDecoder(t, f, files[k], e);
      Counts(files);
      CountsStay(files, k, counts);
      InReach(files[k]);
      RecordsMean(entryOf, flights);
      ghost var known := excuse;
      excuse := excuse || Excused();
      RecordsAfter(entryOf, flights, known);
      MoreExcused(e, f.offset, f.size, r, Excused(), excuse);
      flights := flights[t := f.(result := Some(r))];
      Differ(before, flights, t);
      FlownFlight(files[k], e, flights[t]);
      ResultIs(e, flights[t], excuse);
      OtherFlights(files, entryOf, before, flights, k, t);
      OtherRecords(entryOf, before, flights, t);
      Again(files, entryOf, flights, k, t, counts);
      ZoneIs(k, t);
      EverythingIs(k, t);
    }

    /** A decoder goes back to the pool it came from. */
    method PutDecoder(t: nat, f: Flight<S>, p: EntryPool<S>, e: nat)
      requires Core(files, entryOf, flights) && t in flights && flights[t] == f
      requires f.file < |files| == |entryOf| && files[f.file] == p && entryOf[f.file] == e
      modifies p, budget
      ensures unchanged(this) && OthersRest(files, entryOf, flights, f.file, t) && Records(entryOf, flights)
      ensures Bystanders(files, flights, f.file, t) == old(Bystanders(files, flights, f.file, t))
      ensures Bystanders(files, flights, f.file, t) !! p.Reach() && p !in Bystanders(files, flights, f.file, t)
      ensures this !in Bystanders(files, flights, f.file, t) && this !in p.owned
      ensures On(p, e) && p.Valid() && p.Apart() && p.Reach() <= old(p.Reach()) + f.decoder.Repr()
      ensures budget.retained - |p.idle| == old(budget.retained - |p.idle|)
      ensures CountsBut(files, f.file, old(IdleCounts(files)))
      ensures |p.idle| == old(|p.idle|) +
        (if old(|p.idle|) < p.perHandleCap && old(budget.retained) < budget.maxRetained then 1 else 0)
    {
      hide *;
      var k := f.file;
      InFlight(t);
      FlightMeans(p, e, f);
      Before(k, t);
      ghost var others := Bystanders(files, flights, k, t);
      InReach(p);
      ZoneIs(k, t);
      NobodyMeans(Zone(k, t));
      NobodyMeans(others);
      OldObjects(k, t);
      Counts(files);
      p.TakeBack(f.decoder);
      InReach(p);
      assert Bystanders(files, flights, k, t) == others;
      CountsStay(files, k, old(IdleCounts(files)));
    }

    /** The end of a read: it gives up its decoder and is no longer under way. */
    method Land(t: nat, f: Flight<S>, p: EntryPool<S>)
      requires Core(files, entryOf, flights) && t in flights && flights[t] == f
      requires f.file < |files| && files[f.file] == p
      modifies this`flights, p, budget
      ensures files == old(files) && entryOf == old(entryOf) && open == old(open) && nextTicket == old(nextTicket)
      ensures Core(files, entryOf, flights) && flights == old(flights) - {t}
      ensures CountsBut(files, f.file, old(IdleCounts(files)))
      ensures |p.idle| == old(|p.idle|) +
        (if old(|p.idle|) < p.perHandleCap && old(budget.retained) < budget.maxRetained then 1 else 0)
      ensures Everything() <= old(Everything())
    {
      hide *;
      ghost var counts, before := IdleCounts(files), flights;
      var k := f.file;
      Counts(files);
      Before(k, t);
      EverythingIs(k, t);
      ZoneIs(k, t);
      PutDecoder(t, f, p, entryOf[k]);
      flights := flights - {t};
      Differ(before, flights, t);
      OtherFlights(files, entryOf, before, flights, k, t);
      OtherRecords(entryOf, before, flights, t);
      Again(files, entryOf, flights, k, t, counts);
      ZoneIs(k, t);
      EverythingIs(k, t);
    }

    /** The last reference to a file goes: its pool is dropped. */
    method DropFile(k: nat)
      requires Core(files, entryOf, flights) && k < |files| && nextTicket !in flights
      modifies files[k], budget
      ensures unchanged(this) && Core(files, entryOf, flights) && files[k].idle == []
      ensures CountsBut(files, k, old(IdleCounts(files)))
      ensures Everything() <= old(Everything())
    {
      hide *;
      ghost var counts, w := IdleCounts(files), nextTicket;
      Counts(files);
      Before(k, w);
      EverythingIs(k, w);
      ghost var others := Bystanders(files, flights, k, w);
      InReach(files[k]);
      ZoneIs(k, w);
      NobodyMeans(Zone(k, w));
      NobodyMeans(others);
      OldObjects(k, w);
      files[k].Close();
      NothingShared(files[k]);
      assert Bystanders(files, flights, k, w) == others;
      CountsStay(files, k, counts);
      Again(files, entryOf, flights, k, w, counts);
      ZoneIs(k, w);
      EverythingIs(k, w);
    }

    // ----- files come and go

    /** A newly opened file joins the others. */
    lemma Joins(
        files: seq<EntryPool<S>>, entryOf: seq<nat>, flights: map<nat, Flight<S>>, p: EntryPool<S>, e: nat, w: nat)
      requires Core(files, entryOf, flights) && w !in flights
      requires On(p, e) && p.Valid() && p.idle == [] && p.owned == {} && p !in Bystanders(files, flights, -1, -1)
      ensures Core(files + [p], entryOf + [e], flights)
      ensures Bystanders(files + [p], flights, -1, -1) == Bystanders(files, flights, -1, -1) + {p}
      ensures IdleCounts(files + [p]) == IdleCounts(files) + [0]
    {
      hide *;
      var k, files', entryOf', counts := |files|, files + [p], entryOf + [e], IdleCounts(files);
      Counts(files);
      Counts(files');
      TotalOfOneMore(counts);
      JoinedRest(files, entryOf, flights, p, e, w);
      JoinedRecords(files, entryOf, flights, e);
      NothingShared(p);
      CountsStay(files', k, counts + [0]);
      BudgetIs(p, e);
      Again(files', entryOf', flights, k, w, counts + [0]);
      AllTogether(files', flights, k, w);
    }

    lemma BudgetIs(p: EntryPool<S>, e: nat)
      requires On(p, e)
      ensures p.budget == budget
    {
    }

    lemma JoinedRest(
        files: seq<EntryPool<S>>, entryOf: seq<nat>, flights: map<nat, Flight<S>>, p: EntryPool<S>, e: nat, w: nat)
      requires Core(files, entryOf, flights) && w !in flights
      ensures OthersRest(files + [p], entryOf + [e], flights, |files|, w)
      ensures Bystanders(files + [p], flights, |files|, w) == Bystanders(files, flights, -1, -1)
      ensures Bystanders(files, flights, -1, -1) !! budget.Arrays() && |files| == |entryOf|
      ensures budget.retained == Total(IdleCounts(files))
    {
      hide PoolRests, FlightRests, Catalogue, VerdictsRight, DecoderBudget.Arrays, DecoderBudget.Valid, Total;
      hide Bystanders, OthersApart, ResultsRight, IdleCounts;
      SameBystanders(files, flights, p, w);
      StillApart(files, flights, p, w);
    }

    lemma JoinedRecords(files: seq<EntryPool<S>>, entryOf: seq<nat>, flights: map<nat, Flight<S>>, e: nat)
      requires Core(files, entryOf, flights)
      ensures Records(entryOf + [e], flights)
    {
      hide PoolRests, FlightRests, Catalogue, VerdictsRight, DecoderBudget.Arrays;
      hide DecoderBudget.Valid, Total, ResultRight;
      hide Bystanders, OthersRest, OthersApart;
    }

    /** Opens a file on an entry. */
    method AddFile(e: nat)
      requires Core(files, entryOf, flights) && e < |locs| && nextTicket !in flights
      modifies this`files, this`entryOf
      ensures Core(files, entryOf, flights) && entryOf == old(entryOf) + [e]
      ensures |files| == |entryOf| && IdleCounts(files) == old(IdleCounts(files)) + [0]
      ensures forall o :: o in Everything() ==> o in old(Everything()) || fresh(o)
    {
      hide *;
      CatalogueMeans(e);
      EverythingMeans();
      OldObjects(-1, -1);
      var p := new EntryPool(budget, reader, locs[e], perHandleCap, streams[e], metas[e].uncompressedSize);
      ServesEntry(p, e);
      Joins(files, entryOf, flights, p, e, nextTicket);
      files, entryOf := files + [p], entryOf + [e];
      EverythingMeans();
    }

    lemma CatalogueMeans(e: nat)
      requires Core(files, entryOf, flights) && e < |locs|
      ensures |files| == |entryOf| && |locs| == |metas| == |streams| && budget.Valid() && EntryFits(e)
      ensures locs[e].dataStart + locs[e].compressedSize <= U64_MAX
      ensures CodedIn(streams[e], reader.disk.mounted, locs[e].dataStart, locs[e].compressedSize)
      ensures Decodes(budget.codecs(locs[e].compression), streams[e])
      ensures this !in Bystanders(files, flights, -1, -1)
    {
      hide PoolRests, FlightRests, VerdictsRight, DecoderBudget.Arrays, DecoderBudget.Valid, Total, ResultRight;
      hide Decodes, CodedIn, Resting, Flying, OthersApart;
      AllParts(-1, -1);
      PartsAreNobody(Resting(files, -1) + Flying(flights, -1));
      NobodyElse(files, flights, -1, -1);
    }

    lemma ServesEntry(p: EntryPool<S>, e: nat)
      requires p.budget == budget && p.reader == reader && e < |locs| == |metas| == |streams|
      requires p.loc == locs[e] && p.z == streams[e] && p.declared == metas[e].uncompressedSize
      ensures On(p, e)
    {
    }

    // ----- what the mount answers

    ghost function View(): Trace
      reads this
    {
      Trace(entryOf, open, ViewOf(flights))
    }

    ghost function ViewOf(flights: map<nat, Flight<S>>): map<nat, Asked> {
      map t | t in flights :: Asked(flights[t].file + 1, flights[t].offset, flights[t].size)
    }

    /** A reply to a read of entry `e`; `excused` says that the archive could not be read, or changed. */
    ghost predicate ReplyRight(e: nat, offset: nat, size: nat, reply: Reply, excused: bool) {
      && e < |metas| == |streams| == |locs|
      && match reply
         case Data(bytes) => GivesBytes(e, offset, size, bytes)
         case Error(errno) => errno in {EIO, ESTALE} && (Blameless(e) ==> excused)
    }

    /** What may be answered, seeing what went before. */
    ghost predicate Fitting(tr: Trace, op: Op, a: Answer, excused: bool) {
      match op
      case Open(e) =>
        if e < |locs| then a == Opened(|tr.entries| + 1) || (a == Replied(Error(ESTALE)) && excused)
        else a == Replied(Error(ENOENT))
      case Begin(fh, offset, size) =>
        if fh !in tr.open then a == Replied(Error(EBADF))
        else
          || (a.Started? && a.ticket !in tr.under)
          || (a.Replied? && 0 < fh <= |tr.entries| && ReplyRight(tr.entries[fh - 1], offset, size, a.reply, excused))
      case Work(_) => a == Done
      case Finish(t) =>
        if t !in tr.under then a == Done
        else
          var asked := tr.under[t];
          && 0 < asked.fh <= |tr.entries| && a.Replied?
          && ReplyRight(tr.entries[asked.fh - 1], asked.offset, asked.size, a.reply, excused)
      case Release(_) => a == Done
    }

    /** The latch and the verdicts as they are now. */
    ghost function Present(): Moment
      reads reader`stale, metas
    {
      Moment(reader.stale, Verdicts())
    }

    /**
     What must be refused at some moment: once a change is known every open, and every read that
     begins on an open handle; and every read of an entry that was found bad.
     */
    ghost predicate Refused(tr: Trace, op: Op, a: Answer, m: Moment) {
      match op
      case Open(e) => e < |locs| ==> (a == Replied(Error(ESTALE)) <==> m.stale)
      case Begin(fh, _, _) =>
        fh in tr.open ==>
          && (m.stale ==> a == Replied(Error(ESTALE)))
          && (0 < fh <= |tr.entries| && tr.entries[fh - 1] < |m.verdicts| ==>
              m.verdicts[tr.entries[fh - 1]] == VerifiedBad ==> a.Replied? && a.reply.Error?)
      case _ => true
    }

    ghost predicate Excused()
      reads reader
    {
      reader.failures > 0 || reader.stale
    }

    lemma ThisIsElsewhere()
      requires Core(files, entryOf, flights)
      ensures this !in Bystanders(files, flights, -1, -1) && |files| == |entryOf|
      ensures reader !in Bystanders(files, flights, -1, -1)
      ensures Everything() == Bystanders(files, flights, -1, -1) + budget.Arrays()
    {
      hide PoolRests, FlightRests, VerdictsRight, DecoderBudget.Arrays, DecoderBudget.Valid, Total, ResultRight;
      hide Resting, Flying, OthersApart, Catalogue;
      AllParts(-1, -1);
      PartsAreNobody(Resting(files, -1) + Flying(flights, -1));
      NobodyElse(files, flights, -1, -1);
    }

    lemma ValidMeans()
      requires Valid()
      ensures Core(files, entryOf, flights) && nextTicket !in flights && |files| == |entryOf|
      ensures forall fh :: fh in open ==> 1 <= fh <= |files|
      ensures (excuse ==> Excused()) && Numbered()
      ensures Dropped(IdleCounts(files), open, flights) && |IdleCounts(files)| == |files|
    {
      hide PoolRests, FlightRests, VerdictsRight, DecoderBudget.Arrays, DecoderBudget.Valid, Total, ResultRight;
      hide Resting, Flying, OthersApart, Catalogue, Dropped;
    }

    lemma ValidStill()
      requires Core(files, entryOf, flights) && Dropped(IdleCounts(files), open, flights) && Numbered()
      requires excuse ==> Excused()
      ensures Valid()
    {
    }

    /** The rule about dropped files after something happened to file `k`. */
    lemma DroppedAgain(
        a: seq<nat>, b: seq<nat>, open: set<nat>, open': set<nat>,
        flights: map<nat, Flight<S>>, flights': map<nat, Flight<S>>, k: nat)
      requires Dropped(a, open, flights) && |b| >= |a|
      requires forall i :: 0 <= i < |b| && i != k ==> i < |a| && a[i] == b[i]
      requires forall fh :: fh != k + 1 ==> (fh in open <==> fh in open')
      requires forall i: nat :: i != k ==> (InUse(flights, i) <==> InUse(flights', i))
      requires k + 1 in open' || InUse(flights', k) || (k < |b| ==> b[k] == 0)
      ensures Dropped(b, open', flights')
    {
      hide InUse;
    }

    /** `open`: refused once a change is known. */
    method OpenEntry(e: nat) returns (a: Answer)
      requires Valid()
      modifies this
      ensures Valid() && Fitting(old(View()), Open(e), a, Excused()) && View() == Next(old(View()), Open(e), a)
      ensures Refused(old(View()), Open(e), a, old(Present()))
      ensures forall o :: o in Everything() ==> o in old(Everything()) || fresh(o)
    {
      hide Core, DecoderBudget.Valid, EntryPool.Valid, Bystanders, IdleCounts;
      hide Everything, Dropped, DecoderBudget.Arrays;
      if e >= |locs| {
        return Replied(Error(ENOENT));
      }
      if reader.stale {
        return Replied(Error(ESTALE));
      }
      ghost var counts := IdleCounts(files);
      ValidMeans();
      AddFile(e);
      ThisIsElsewhere();
      open := open + {|files|};
      ThisIsElsewhere();
      DroppedAgain(counts, IdleCounts(files), old(open), open, flights, flights, |files| - 1);
      return Opened(|files|);
    }

    lemma FileIs(k: nat)
      requires Core(files, entryOf, flights) && k < |files|
      ensures |files| == |entryOf| && entryOf[k] < |metas| == |streams| == |locs| && files[k].budget == budget
      ensures {files[k]} + files[k].owned <= Everything()
      ensures metas[entryOf[k]].verifyState == VerifiedBad ==> !Blameless(entryOf[k])
    {
      hide EntryPool.Kit, FlightRests, DecoderBudget.Arrays, DecoderBudget.Valid, Total;
      hide ResultRight, OthersApart, Flying;
      assert PoolRests(files[k], entryOf[k]);
    }

    lemma NewUnder(flights: map<nat, Flight<S>>, t: nat, f: Flight<S>)
      ensures ViewOf(flights[t := f]) == ViewOf(flights)[t := Asked(f.file + 1, f.offset, f.size)]
      ensures ViewOf(flights - {t}) == ViewOf(flights) - {t}
      ensures InUse(flights[t := f], f.file)
      ensures t !in flights ==> forall i: nat :: i != f.file ==> (InUse(flights, i) <==> InUse(flights[t := f], i))
    {
      assert t in flights[t := f];
      if t !in flights {
        forall i: nat | InUse(flights, i) ensures InUse(flights[t := f], i) {
          var u :| u in flights && flights[u].file == i;
          assert u in flights[t := f];
        }
      }
    }

    lemma ViewKeys(flights: map<nat, Flight<S>>)
      ensures ViewOf(flights).Keys == flights.Keys
      ensures forall t :: t in flights ==>
        ViewOf(flights)[t] == Asked(flights[t].file + 1, flights[t].offset, flights[t].size)
    {
    }

    lemma CountsMean(files: seq<EntryPool<S>>, k: nat, before: seq<nat>)
      requires CountsBut(files, k, before)
      ensures |before| == |files| == |IdleCounts(files)|
      ensures forall i :: 0 <= i < |files| && i != k ==> IdleCounts(files)[i] == before[i]
    {
    }

    /** The beginning of `read`: what can be answered without reading is, and anything else gets a decoder. */
    method BeginRead(fh: nat, offset: nat, size: nat) returns (a: Answer)
      requires Valid()
      modifies this, Everything(), budget, reader`stale, reader`unsure, reader`failures
      ensures Valid() && Fitting(old(View()), Begin(fh, offset, size), a, Excused())
      ensures View() == Next(old(View()), Begin(fh, offset, size), a)
      ensures reader.Later(old(reader.failures), old(reader.stale))
      ensures Refused(old(View()), Begin(fh, offset, size), a, old(Present()))
      ensures forall o :: o in Everything() ==> o in old(Everything()) || fresh(o)
    {
      hide Core, DecoderBudget.Valid, EntryPool.Valid, Bystanders, IdleCounts;
      hide Everything, Dropped, DecoderBudget.Arrays;
      hide Blameless, EntrySound, ViewOf;
      if fh !in open {
        return Replied(Error(EBADF));
      }
      ValidMeans();
      var k := fh - 1;
      FileIs(k);
      var e := entryOf[k];
      if reader.stale {
        return Replied(Error(ESTALE));
      }
      if metas[e].verifyState == VerifiedBad {
        ThisIsElsewhere();
        OldObjects(-1, -1);
        var errno := Diagnose(reader, EIO);
        return Replied(Error(errno));
      }
      if size == 0 || offset >= metas[e].uncompressedSize {
        return Replied(Data([]));
      }
      a := StartRead(k, offset, size);
    }

    method StartRead(k: nat, offset: nat, size: nat) returns (a: Answer)
      requires Valid() && k < |files| == |entryOf| && k + 1 in open
      requires entryOf[k] < |metas| && offset < metas[entryOf[k]].uncompressedSize
      modifies this, Everything(), budget
      ensures Valid() && a == Started(old(nextTicket)) && old(nextTicket) !in old(View()).under
      ensures unchanged(reader)
      ensures View() == Next(old(View()), Begin(k + 1, offset, size), a)
      ensures forall o :: o in Everything() ==> o in old(Everything()) || fresh(o)
    {
      hide Core, DecoderBudget.Valid, EntryPool.Valid, Bystanders, IdleCounts;
      hide Everything, Dropped, DecoderBudget.Arrays;
      hide ViewOf, InUse, CountsBut;
      ValidMeans();
      FileIs(k);
      ghost var counts := IdleCounts(files);
      var t := TakeOff(k, offset, size);
      NewUnder(old(flights), t, flights[t]);
      ViewKeys(old(flights));
      CountsMean(files, k, counts);
      DroppedAgain(counts, IdleCounts(files), open, open, old(flights), flights, k);
      return Started(t);
    }

    /** The decoder of a read under way does its work. */
    method WorkRead(t: nat) returns (a: Answer)
      requires Valid()
      modifies this, Everything(), reader, reader.disk, metas
      ensures Valid() && a == Done && View() == old(View())
      ensures t in flights ==> flights[t].result.Some?
      ensures flights.Keys == old(flights.Keys)
      ensures reader.Later(old(reader.failures), old(reader.stale)) && VerdictsLast(old(Verdicts()), Verdicts())
      ensures Everything() == old(Everything())
    {
      hide Core, DecoderBudget.Valid, EntryPool.Valid, Bystanders, IdleCounts;
      hide Everything, Dropped, DecoderBudget.Arrays;
      hide ViewOf, InUse;
      ValidMeans();
      a := Done;
      if t in flights && flights[t].result.None? {
        InEverything(t);
        WorkOn(t);
        ghost var counts := IdleCounts(files);
        WorkedOn(old(flights), flights, t);
        DroppedAgain(counts, counts, open, open, old(flights), flights, |files|);
      } else {
        VerdictsStay();
      }
    }

    lemma WorkedOn(a: map<nat, Flight<S>>, b: map<nat, Flight<S>>, t: nat)
      requires t in a && t in b && b == a[t := a[t].(result := b[t].result)]
      ensures ViewOf(a) == ViewOf(b) && forall i: nat :: InUse(a, i) <==> InUse(b, i)
    {
      forall i: nat | InUse(a, i) ensures InUse(b, i) {
        var u :| u in a && a[u].file == i;
        assert u in b;
      }
    }

    lemma InEverything(t: nat)
      requires t in flights
      ensures flights[t].decoder.Repr() <= Everything()
    {
    }

    lemma VerdictsStay()
      requires Valid()
      ensures VerdictsLast(Verdicts(), Verdicts())
    {
    }

    lemma ResultOf(t: nat)
      requires Core(files, entryOf, flights) && t in flights && flights[t].result.Some?
      ensures flights[t].file < |files| == |entryOf| && entryOf[flights[t].file] < |metas| == |streams| == |locs|
      ensures var f := flights[t];
              Gives(entryOf[f.file], f.offset, f.size, f.result.value, excuse)
    {
      hide PoolRests, FlightRests, VerdictsRight, DecoderBudget.Arrays, DecoderBudget.Valid, Total, Gives, OthersApart;
    }

    /** The files that are still open or read are kept, and this one only if it is one of them. */
    method DropIfUnused(k: nat, ghost counts: seq<nat>, ghost listed: set<nat>, ghost before: map<nat, Flight<S>>)
      requires Core(files, entryOf, flights) && k < |files| && Numbered() && CountsBut(files, k, counts)
      requires excuse ==> Excused()
      requires Dropped(counts, listed, before)
      requires forall fh :: fh != k + 1 ==> (fh in listed <==> fh in open)
      requires forall i: nat :: i != k ==> (InUse(before, i) <==> InUse(flights, i))
      modifies files[k], budget
      ensures unchanged(this) && Valid() && Everything() <= old(Everything())
      ensures k + 1 in open || InUse(flights, k) ==> IdleCounts(files) == old(IdleCounts(files))
      ensures k + 1 !in open && !InUse(flights, k) ==> files[k].idle == []
    {
      hide Core, DecoderBudget.Valid, EntryPool.Valid, Bystanders, IdleCounts;
      hide Everything, DecoderBudget.Arrays, Dropped;
      ghost var now := IdleCounts(files);
      CountsMean(files, k, counts);
      if k + 1 !in open && !InUse(flights, k) {
        DropFile(k);
        Counts(files);
        CountsMean(files, k, now);
      }
      hide InUse;
      DroppedAgain(counts, IdleCounts(files), listed, open, before, flights, k);
    }

    /** `release`: the handle is gone at once, the file when nothing reads it any more. */
    method ReleaseHandle(fh: nat) returns (a: Answer)
      requires Valid()
      modifies this, Everything(), budget
      ensures Valid() && a == Done && View() == Next(old(View()), Release(fh), a)
      ensures Everything() <= old(Everything())
    {
      hide Core, DecoderBudget.Valid, EntryPool.Valid, Bystanders, IdleCounts;
      hide Everything, DecoderBudget.Arrays, Dropped;
      hide ViewOf, InUse, CountsBut;
      a := Done;
      if fh in open {
        ValidMeans();
        ghost var counts, listed := IdleCounts(files), open;
        FileIs(fh - 1);
        ThisIsElsewhere();
        open := open - {fh};
        ThisIsElsewhere();
        Counts(files);
        CountsStay(files, fh - 1, counts);
        DropIfUnused(fh - 1, counts, listed, flights);
      }
    }

    /** The end of `read`: the decoder goes back, and the result is the reply. */
    method FinishRead(t: nat) returns (a: Answer)
      requires Valid()
      modifies this, Everything(), budget, reader, reader.disk, metas
      ensures Valid() && Fitting(old(View()), Finish(t), a, Excused()) && View() == Next(old(View()), Finish(t), a)
      ensures reader.Later(old(reader.failures), old(reader.stale)) && VerdictsLast(old(Verdicts()), Verdicts())
      ensures Everything() <= old(Everything())
    {
      hide *;
      ghost var tr := View();
      ViewIs();
      ViewKeys(flights);
      var worked := WorkRead(t);
      ViewIs();
      ViewKeys(flights);
      if t !in flights {
        FinishFits(tr, t, Done, Excused());
        return Done;
      }
      ghost var fa, st, verdicts := reader.failures, reader.stale, Verdicts();
      reader.LaterMeans(old(reader.failures), old(reader.stale));
      a := Conclude(t);
      reader.LaterMeans(fa, st);
      reader.IsLater(old(reader.failures), old(reader.stale));
    }

    /** A read that has its result gives up its decoder and is answered. */
    method Conclude(t: nat) returns (a: Answer)
      requires Valid() && t in flights && flights[t].result.Some?
      modifies this, Everything(), budget, reader`stale, reader`unsure, reader`failures
      ensures Valid() && Fitting(old(View()), Finish(t), a, Excused()) && View() == Next(old(View()), Finish(t), a)
      ensures reader.Later(old(reader.failures), old(reader.stale)) && Verdicts() == old(Verdicts())
      ensures Everything() <= old(Everything())
    {
      hide *;
      ghost var tr := View();
      var r := flights[t].result.value;
      ValidMeans();
      ResultOf(t);
      ViewIs();
      ViewKeys(flights);
      var e, offset, size := entryOf[flights[t].file], flights[t].offset, flights[t].size;
      EndRead(t, flights[t]);
      ValidMeans();
      ThisIsElsewhere();
      OldObjects(-1, -1);
      ExcuseMeans();
      var reply := ReplyWith(e, offset, size, r);
      reader.LaterMeans(old(reader.failures), old(reader.stale));
      ExcuseMeans();
      ValidStill();
      ViewIs();
      a := Replied(reply);
      FinishFits(tr, t, a, Excused());
    }

    lemma ViewIs()
      ensures View() == Trace(entryOf, open, ViewOf(flights))
    {
    }

    lemma FinishFits(tr: Trace, t: nat, a: Answer, excused: bool)
      requires if t !in tr.under then a == Done
               else
                 var asked := tr.under[t];
                 && 0 < asked.fh <= |tr.entries| && a.Replied?
                 && ReplyRight(tr.entries[asked.fh - 1], asked.offset, asked.size, a.reply, excused)
      ensures Fitting(tr, Finish(t), a, excused) && Next(tr, Finish(t), a) == tr.(under := tr.under - {t})
    {
    }

    /** The reply to a read, from its result. */
    method ReplyWith(e: nat, offset: nat, size: nat, r: Result<seq<byte>, IoError>) returns (reply: Reply)
      requires e < |metas| == |streams| == |locs| && Gives(e, offset, size, r, excuse) && (excuse ==> Excused())
      modifies reader`stale, reader`unsure, reader`failures
      ensures ReplyRight(e, offset, size, reply, Excused()) && reader.Later(old(reader.failures), old(reader.stale))
    {
      match r
      case Ok(bytes) => return Data(bytes);
      case Err(error) =>
        var errno := Diagnose(reader, ErrnoOf(error));
        return Error(errno);
    }

    method EndRead(t: nat, f: Flight<S>)
      requires Valid() && t in flights && flights[t] == f && f.file < |files|
      modifies this, Everything(), budget
      ensures Valid() && View() == old(View()).(under := old(View()).under - {t})
      ensures Everything() <= old(Everything()) && unchanged(reader) && Verdicts() == old(Verdicts())
      ensures excuse == old(excuse) && entryOf == old(entryOf)
    {
      hide Core, DecoderBudget.Valid, EntryPool.Valid, Bystanders, IdleCounts;
      hide Everything, DecoderBudget.Arrays, Dropped;
      hide ViewOf, InUse, CountsBut;
      ValidMeans();
      FileIs(f.file);
      ghost var counts, before := IdleCounts(files), flights;
      Land(t, f, files[f.file]);
      NewUnder(before, t, f);
      OneLess(before, flights, t);
      FileIs(f.file);
      DropIfUnused(f.file, counts, open, before);
    }

    lemma OneLess(a: map<nat, Flight<S>>, b: map<nat, Flight<S>>, t: nat)
      requires t in a && b == a - {t}
      ensures forall i: nat :: i != a[t].file ==> (InUse(a, i) <==> InUse(b, i))
    {
      forall i: nat | i != a[t].file && InUse(a, i) ensures InUse(b, i) {
        var u :| u in a && a[u].file == i;
        assert u in b;
      }
    }

    // ----- whole histories

    /** One thing happens. */
    method Step(op: Op) returns (a: Answer)
      requires Valid()
      modifies this, Everything(), budget, reader, reader.disk, metas
      ensures Valid() && Fitting(old(View()), op, a, Excused()) && View() == Next(old(View()), op, a)
      ensures Refused(old(View()), op, a, old(Present()))
      ensures reader.Later(old(reader.failures), old(reader.stale)) && VerdictsLast(old(Verdicts()), Verdicts())
      ensures forall o :: o in Everything() ==> o in old(Everything()) || fresh(o)
    {
      hide Valid, Everything, VerdictsLast, ReplyRight, Sticks;
      VerdictsStay();
      NotAmong();
      match op
      case Open(e) => a := OpenEntry(e);
      case Begin(fh, offset, size) => a := BeginRead(fh, offset, size);
      case Work(t) => a := WorkRead(t);
      case Finish(t) => a := FinishRead(t);
      case Release(fh) => a := ReleaseHandle(fh);
    }

    /** What all files share is not among what they hold. */
    lemma NotAmong()
      requires Valid()
      ensures budget !in Everything() && reader !in Everything() && reader.disk !in Everything()
      ensures forall e :: 0 <= e < |metas| ==> metas[e] !in Everything()
    {
      hide PoolRests, FlightRests, VerdictsRight, DecoderBudget.Valid, Total, ResultRight;
      hide Resting, Flying, OthersApart, Catalogue, Dropped;
      AllParts(-1, -1);
      PartsAreNobody(Resting(files, -1) + Flying(flights, -1));
      NobodyElse(files, flights, -1, -1);
      ArraysAreParts(budget);
      PartsAreNobody(budget.Arrays());
    }

    /** Every answer fits what went before it. */
    ghost predicate AllFit(start: Trace, ops: seq<Op>, answers: seq<Answer>, excused: bool) {
      && |answers| == |ops|
      && forall i :: 0 <= i < |ops| ==> FitsAt(start, ops, answers, i, excused)
    }

    ghost predicate FitsAt(start: Trace, ops: seq<Op>, answers: seq<Answer>, i: nat, excused: bool)
      requires i < |ops| == |answers|
    {
      Fitting(TraceOf(start, ops[..i], answers[..i]), ops[i], answers[i], excused)
    }

    lemma OneMoreFits(start: Trace, ops: seq<Op>, answers: seq<Answer>, op: Op, a: Answer, was: bool, now: bool)
      requires AllFit(start, ops, answers, was) && (was ==> now) && Fitting(TraceOf(start, ops, answers), op, a, now)
      ensures AllFit(start, ops + [op], answers + [a], now)
      ensures TraceOf(start, ops + [op], answers + [a]) == Next(TraceOf(start, ops, answers), op, a)
    {
      var ops', answers' := ops + [op], answers + [a];
      assert ops'[..|ops|] == ops && answers'[..|ops|] == answers;
      forall i | 0 <= i < |ops'| ensures FitsAt(start, ops', answers', i, now) {
        if i < |ops| {
          assert FitsAt(start, ops, answers, i, was);
          assert ops'[..i] == ops[..i] && answers'[..i] == answers[..i];
        }
      }
    }

    lemma StillLast(a: seq<VerifyState>, b: seq<VerifyState>, c: seq<VerifyState>)
      requires VerdictsLast(a, b) && VerdictsLast(b, c)
      ensures VerdictsLast(a, c)
    {
    }

    /** What was known once stays known. */
    ghost predicate LaterMoment(a: Moment, b: Moment) {
      (a.stale ==> b.stale) && VerdictsLast(a.verdicts, b.verdicts)
    }

    ghost predicate InTime(moments: seq<Moment>) {
      forall i, j :: 0 <= i <= j < |moments| ==> LaterMoment(moments[i], moments[j])
    }

    lemma OneMoreMoment(moments: seq<Moment>, m: Moment)
      requires InTime(moments) && moments != [] && LaterMoment(moments[|moments| - 1], m)
      ensures InTime(moments + [m])
    {
      var all, last := moments + [m], |moments| - 1;
      forall i, j | 0 <= i <= j < |all| ensures LaterMoment(all[i], all[j]) {
        if j == |moments| {
          assert LaterMoment(moments[last], m);
          if i < j {
            assert LaterMoment(moments[i], moments[last]);
            StillLast(moments[i].verdicts, moments[last].verdicts, m.verdicts);
          } else {
            SameLast(moments[last].verdicts, m.verdicts);
          }
        }
      }
    }

    lemma SameLast(a: seq<VerifyState>, b: seq<VerifyState>)
      requires VerdictsLast(a, b)
      ensures VerdictsLast(b, b)
    {
    }

    /** Every request was refused that had to be, by what was known at its moment. */
    ghost predicate AllRefused(start: Trace, ops: seq<Op>, answers: seq<Answer>, moments: seq<Moment>) {
      && |answers| == |ops| < |moments|
      && forall i :: 0 <= i < |ops| ==> RefusedAt(start, ops, answers, moments, i)
    }

    ghost predicate RefusedAt(start: Trace, ops: seq<Op>, answers: seq<Answer>, moments: seq<Moment>, i: nat)
      requires i < |ops| == |answers| < |moments|
    {
      Refused(TraceOf(start, ops[..i], answers[..i]), ops[i], answers[i], moments[i])
    }

    lemma OneMoreRefused(
        start: Trace, ops: seq<Op>, answers: seq<Answer>, moments: seq<Moment>, op: Op, a: Answer, m: Moment)
      requires |moments| == |ops| + 1 && AllRefused(start, ops, answers, moments)
      requires Refused(TraceOf(start, ops, answers), op, a, moments[|ops|])
      ensures AllRefused(start, ops + [op], answers + [a], moments + [m])
    {
      var ops', answers', moments' := ops + [op], answers + [a], moments + [m];
      assert ops'[..|ops|] == ops && answers'[..|ops|] == answers;
      forall i | 0 <= i < |ops'| ensures RefusedAt(start, ops', answers', moments', i) {
        if i < |ops| {
          assert RefusedAt(start, ops, answers, moments, i);
          assert ops'[..i] == ops[..i] && answers'[..i] == answers[..i];
        }
      }
    }

    /**
     From the first moment a change is known, every later open of an existing entry and every later
     read that begins on an open handle is answered ESTALE.
     */
    lemma StaleFromThenOn(
        start: Trace, ops: seq<Op>, answers: seq<Answer>, moments: seq<Moment>, i: nat, j: nat)
      requires AllRefused(start, ops, answers, moments) && InTime(moments)
      requires i <= j < |ops| && moments[i].stale
      ensures ops[j].Open? && ops[j].entry < |locs| ==> answers[j] == Replied(Error(ESTALE))
      ensures ops[j].Begin? && ops[j].fh in TraceOf(start, ops[..j], answers[..j]).open ==>
        answers[j] == Replied(Error(ESTALE))
    {
      assert LaterMoment(moments[i], moments[j]);
      assert RefusedAt(start, ops, answers, moments, j);
    }

    /** And from the moment an entry inside the archive is found bad, no read of it succeeds in beginning. */
    lemma BadFromThenOn(
        start: Trace, ops: seq<Op>, answers: seq<Answer>, moments: seq<Moment>, i: nat, j: nat, e: nat)
      requires AllRefused(start, ops, answers, moments) && InTime(moments) && i <= j < |ops|
      requires e < |locs| && e < |moments[i].verdicts| && moments[i].verdicts[e] == VerifiedBad && EntryInside(e)
      requires ops[j].Begin?
      ensures var tr := TraceOf(start, ops[..j], answers[..j]);
              ops[j].fh in tr.open && 0 < ops[j].fh <= |tr.entries| && tr.entries[ops[j].fh - 1] == e ==>
              answers[j].Replied? && answers[j].reply.Error?
    {
      assert LaterMoment(moments[i], moments[j]);
      assert RefusedAt(start, ops, answers, moments, j);
    }

    /**
     Any history at all. Every answer fits: a handle works from its opening to its release and not
     a moment longer, every read under way is answered with bytes of its own entry however it
     overlaps with others, and the end of an entry is handed out only if the entry is sound. What
     has to be refused at its moment is refused. No verdict is taken back or reversed, a known
     change stays known, and the budget counts exactly the idle decoders.
     */
    method Run(ops: seq<Op>) returns (answers: seq<Answer>, ghost moments: seq<Moment>)
      requires Valid()
      modifies this, Everything(), budget, reader, reader.disk, metas
      ensures Valid() && AllFit(old(View()), ops, answers, Excused())
      ensures View() == TraceOf(old(View()), ops, answers)
      ensures |moments| == |ops| + 1 && moments[0] == old(Present()) && moments[|ops|] == Present()
      ensures InTime(moments) && AllRefused(old(View()), ops, answers, moments)
    {
      hide *;
      answers := [];
      ghost var start := View();
      moments := [Present()];
      assert ops[..0] == [];
      VerdictsStay();
      PresentIs();
      NothingYet(start, Excused(), Present());
      for i := 0 to |ops|
        invariant Valid() && AllFit(start, ops[..i], answers, Excused()) && |answers| == i
        invariant View() == TraceOf(start, ops[..i], answers)
        invariant |moments| == i + 1 && moments[0] == old(Present()) && moments[i] == Present()
        invariant InTime(moments) && AllRefused(start, ops[..i], answers, moments)
        invariant forall o :: o in Everything() ==> o in old(Everything()) || fresh(o)
      {
        ghost var excused := Excused();
        ExcuseMeans();
        ghost var f, st := reader.failures, reader.stale;
        PresentIs();
        var a := Step(ops[i]);
        PresentIs();
        reader.LaterMeans(f, st);
        ExcuseMeans();
        OneMoreFits(start, ops[..i], answers, ops[i], a, excused, Excused());
        OneMoreRefused(start, ops[..i], answers, moments, ops[i], a, Present());
        MomentLater(moments[i], Present());
        OneMoreMoment(moments, Present());
        assert ops[..i + 1] == ops[..i] + [ops[i]];
        answers, moments := answers + [a], moments + [Present()];
      }
      assert ops[..|ops|] == ops;
    }

    lemma PresentIs()
      ensures Present() == Moment(reader.stale, Verdicts())
    {
    }

    lemma MomentLater(a: Moment, b: Moment)
      requires (a.stale ==> b.stale) && VerdictsLast(a.verdicts, b.verdicts)
      ensures LaterMoment(a, b)
    {
    }

    lemma ExcuseMeans()
      ensures Excused() == (reader.failures > 0 || reader.stale)
    {
    }

    lemma NothingYet(start: Trace, excused: bool, m: Moment)
      requires VerdictsLast(m.verdicts, m.verdicts)
      ensures AllFit(start, [], [], excused) && TraceOf(start, [], []) == start
      ensures InTime([m]) && AllRefused(start, [], [], [m])
    {
    }

    /** Once every file is released and every read is over, no place in the budget is taken. */
    lemma NothingRetained()
      requires Valid() && open == {} && flights == map[]
      ensures budget.retained == 0
    {
      hide PoolRests, FlightRests, VerdictsRight, DecoderBudget.Valid, ResultRight, OthersApart, Catalogue;
      TotalOfNothing(IdleCounts(files));
    }

    lemma RecordsMean(entryOf: seq<nat>, flights: map<nat, Flight<S>>)
      requires Records(entryOf, flights)
      ensures Catalogue() && VerdictsRight() && reader.disk.Honest()
      ensures ResultsRight(entryOf, flights, excuse)
    {
    }

    lemma RecordsAfter(entryOf: seq<nat>, flights: map<nat, Flight<S>>, failed: bool)
      requires Catalogue() && VerdictsRight() && reader.disk.Honest()
      requires ResultsRight(entryOf, flights, failed) && (failed ==> excuse)
      ensures Records(entryOf, flights)
    {
      hide Catalogue, VerdictsRight;
    }

    lemma MoreExcused(e: nat, offset: nat, size: nat, r: Result<seq<byte>, IoError>, a: bool, b: bool)
      requires e < |metas| == |streams| == |locs| && Gives(e, offset, size, r, a) && (a ==> b)
      ensures Gives(e, offset, size, r, b)
    {
    }

    lemma ResultIs(e: nat, f: Flight<S>, failed: bool)
      requires f.result.Some? && e < |metas| == |streams| == |locs|
      requires Gives(e, f.offset, f.size, f.result.value, failed)
      ensures ResultRight(e, f, failed)
    {
    }

    lemma Differ(a: map<nat, Flight<S>>, b: map<nat, Flight<S>>, w: nat)
      requires (w in b && b == a[w := b[w]]) || b == a - {w}
      ensures SameBut(a, b, w)
    {
    }

    lemma OldObjects(k: int, w: int)
      ensures forall o :: o in Bystanders(files, flights, k, w) ==> allocated(o)
    {
    }

    lemma ZoneIs(k: nat, w: nat)
      requires k < |files|
      ensures Zone(k, w) == files[k].Reach() + (if w in flights then flights[w].decoder.Repr() else {})
    {
    }

    lemma ListedApart(k: nat, w: nat)
      requires k < |files|
      ensures forall i :: 0 <= i < |files| && i != k ==> files[i] in Bystanders(files, flights, k, w)
    {
    }

    /** Two lists of reads that differ at most in one. */
    ghost predicate SameBut(a: map<nat, Flight<S>>, b: map<nat, Flight<S>>, w: nat) {
      forall t :: t != w ==> (t in a <==> t in b) && (t in a ==> a[t] == b[t])
    }

    /** The others do not depend on what read `w` is. */
    lemma OtherFlights(
        files: seq<EntryPool<S>>, entryOf: seq<nat>, a: map<nat, Flight<S>>, b: map<nat, Flight<S>>, k: nat, w: nat)
      requires OthersRest(files, entryOf, a, k, w) && SameBut(a, b, w)
      ensures OthersRest(files, entryOf, b, k, w) && Bystanders(files, b, k, w) == Bystanders(files, a, k, w)
    {
      hide PoolRests, FlightRests;
      assert Flying(b, w) == Flying(a, w);
    }

    lemma AllParts(k: int, w: int)
      requires OthersRest(files, entryOf, flights, -1, -1)
      ensures OnlyParts<S>(Resting(files, k)) && OnlyParts<S>(Flying(flights, w))
    {
      hide EntryPool.Kit, FlightRests, OthersApart, On;
      forall o | o in Resting(files, k)
        ensures o is PositionedDecoder<S> || o is BufSource || o is array<byte>
      {
        var i :| 0 <= i < |files| && i != k && o in files[i].owned;
        assert PoolRests(files[i], entryOf[i]);
      }
    }
  }

  lemma ApartAgain<S(!new)>(files: seq<EntryPool<S>>, flights: map<nat, Flight<S>>, k: nat, w: nat)
    requires OthersApart(files, flights, k, w) && k < |files|
    requires files[k] !in Bystanders(files, flights, k, w) && Bystanders(files, flights, k, w) !! files[k].owned
    requires w in flights ==> flights[w].decoder.Repr() !! Bystanders(files, flights, k, w) + files[k].owned
    ensures OthersApart(files, flights, -1, -1)
  {
    forall i | 0 <= i < |files| && i != k
      ensures files[i] != files[k] && files[i].owned !! files[k].owned
      ensures w in flights ==> files[i].owned !! flights[w].decoder.Repr()
    {
      assert files[i].owned <= Resting(files, k) && files[i] in Bystanders(files, flights, k, w);
    }
    forall t | t in flights && t != w
      ensures flights[t].decoder.Repr() !! files[k].owned
      ensures w in flights ==> flights[t].decoder.Repr() !! flights[w].decoder.Repr()
    {
      assert flights[t].decoder.Repr() <= Flying(flights, w);
    }
  }

  lemma AllTogether<S(!new)>(files: seq<EntryPool<S>>, flights: map<nat, Flight<S>>, k: nat, w: nat)
    requires k < |files|
    ensures Bystanders(files, flights, -1, -1) == Bystanders(files, flights, k, w) + {files[k]} + files[k].owned +
                                                  (if w in flights then flights[w].decoder.Repr() else {})
  {
  }

  lemma InReach<S(!new)>(p: EntryPool<S>)
    ensures p.owned <= p.Reach() && p.budget.Arrays() <= p.Reach() && (p.Apart() ==> p.owned !! p.budget.Arrays())
  {
  }

  lemma StillApart<S(!new)>(files: seq<EntryPool<S>>, flights: map<nat, Flight<S>>, p: EntryPool<S>, w: nat)
    requires OthersApart(files, flights, -1, -1)
    ensures OthersApart(files + [p], flights, |files|, w)
  {
  }

  lemma SameBystanders<S(!new)>(files: seq<EntryPool<S>>, flights: map<nat, Flight<S>>, p: EntryPool<S>, w: nat)
    requires w !in flights
    ensures Bystanders(files + [p], flights, |files|, w) == Bystanders(files, flights, -1, -1)
  {
    var files' := files + [p];
    forall o | o in Resting(files, -1) ensures o in Resting(files', |files|) {
      var i :| 0 <= i < |files| && o in files[i].owned;
      assert files'[i] == files[i];
    }
    forall o | o in Resting(files', |files|) ensures o in Resting(files, -1) {
      var i :| 0 <= i < |files'| && i != |files| && o in files'[i].owned;
      assert files'[i] == files[i];
    }
    var a, b := set i | 0 <= i < |files| && i != -1 :: files[i], set i | 0 <= i < |files'| && i != |files| :: files'[i];
    forall o | o in a ensures o in b {
      var i :| 0 <= i < |files| && files[i] == o;
      assert files'[i] == o;
    }
    assert Flying(flights, w) == Flying(flights, -1);
  }

  lemma NothingShared<S(!new)>(p: EntryPool<S>)
    requires p.owned == {}
    ensures p.Apart() && p.Reach() == p.budget.Arrays()
  {
  }

  lemma PoolsAreNotStored<S(!new)>(p: EntryPool<S>, budget: DecoderBudget<S>)
    ensures p !in budget.Arrays()
  {
  }

  lemma ArraysAreParts<S(!new)>(budget: DecoderBudget<S>)
    ensures OnlyParts<S>(budget.Arrays())
  {
  }

  lemma RestingGrows<S(!new)>(files: seq<EntryPool<S>>, k: nat)
    ensures Resting(files, k) <= Resting(files, -1)
  {
  }

  /** What is apart from everything else is apart from all of it together. */
  lemma SharesNothing<S(!new)>(files: seq<EntryPool<S>>, flights: map<nat, Flight<S>>, k: nat, w: nat)
    requires OthersApart(files, flights, -1, -1) && k < |files|
    ensures Resting(files, k) !! files[k].owned && Flying(flights, w) !! files[k].owned
    ensures w in flights ==>
      Resting(files, k) !! flights[w].decoder.Repr() && Flying(flights, w) !! flights[w].decoder.Repr()
    ensures forall i :: 0 <= i < |files| && i != k ==> files[i] != files[k]
    ensures Flying(flights, w) <= Flying(flights, -1)
  {
    forall o | o in Resting(files, k)
      ensures o !in files[k].owned && (w in flights ==> o !in flights[w].decoder.Repr())
    {
      var i :| 0 <= i < |files| && i != k && o in files[i].owned;
      assert files[i].owned !! files[k].owned;
    }
    forall o | o in Flying(flights, w)
      ensures o !in files[k].owned && (w in flights ==> o !in flights[w].decoder.Repr())
    {
      var t :| t in flights && t != w && o in flights[t].decoder.Repr();
    }
  }
}
