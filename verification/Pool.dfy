/**
 The decoders of one open file, and the mount-wide budget they share. A checked out decoder is
 proved to be able to reach the offset without going backwards, so reads through the pool return
 the right bytes whatever happened before.
 */
module Pooling {
  import opened Bytes
  import opened Guarding
  import opened Sources
  import opened Codecs
  import opened Decoding

  function Slot(m: Method): nat {
    match m
    case Stored => 0
    case Deflated => 1
    case Zstandard => 2
  }

  const METHODS: nat := 3

  /** A machine of some method, in whatever state it was left. */
  datatype Machine<S> = Machine(compression: Method, state: S)

  /** The parts of a decoder worth keeping. */
  datatype CoreParts<S> = CoreParts(machine: Machine<S>, buf: array<byte>, skip: array<byte>)

  /** Removes an element the way `swap_remove` does: the last one takes its place. */
  function SwapRemove<T>(s: seq<T>, i: nat): seq<T>
    requires i < |s|
  {
    if i == |s| - 1 then s[..i] else s[i := s[|s| - 1]][..|s| - 1]
  }

  const MIN_SOURCE_BUFFER: nat := 0x1000
  const MAX_SOURCE_BUFFER: nat := 0x100_0000
  const SKIP_BUFFER: nat := 0x1_0000

  /** The value of a range that is closest to a given one. */
  ghost predicate Nearest(lo: nat, hi: nat, x: nat, r: nat) {
    && lo <= r <= hi
    && (x < r ==> r == lo) && (x > r ==> r == hi)
  }

  /** 0o10000, one above the permission bits. */
  const MODE_UNITS: nat := 0x1000

  /** The settings of a mount. */
  class Config {
    var sourceBuffer: nat
    var decodersPerFile: nat
    var maxRetainedDecoders: nat
    var threads: nat
    var verify: bool
    var fileMode: nat
    var dirMode: nat

    /** Within its permitted range: what the rest of the mount relies on. */
    ghost predicate Clamped()
      reads this
    {
      && MIN_SOURCE_BUFFER <= sourceBuffer <= MAX_SOURCE_BUFFER
      && 1 <= threads && 1 <= decodersPerFile <= maxRetainedDecoders
      && fileMode < MODE_UNITS && dirMode < MODE_UNITS
    }

    constructor (
        sourceBuffer: nat, decodersPerFile: nat, maxRetainedDecoders: nat, threads: nat, verify: bool,
        fileMode: nat, dirMode: nat)
      ensures this.sourceBuffer == sourceBuffer && this.decodersPerFile == decodersPerFile
      ensures this.maxRetainedDecoders == maxRetainedDecoders && this.threads == threads && this.verify == verify
      ensures this.fileMode == fileMode && this.dirMode == dirMode
    {
      this.sourceBuffer, this.decodersPerFile := sourceBuffer, decodersPerFile;
      this.maxRetainedDecoders, this.threads, this.verify := maxRetainedDecoders, threads, verify;
      this.fileMode, this.dirMode := fileMode, dirMode;
    }

    /** `clamp`: settings already in range are left alone. */
    method Clamp()
      modifies this
      ensures Clamped()
      ensures old(Clamped()) ==>
        && sourceBuffer == old(sourceBuffer) && threads == old(threads)
        && decodersPerFile == old(decodersPerFile) && maxRetainedDecoders == old(maxRetainedDecoders)
        && fileMode == old(fileMode) && dirMode == old(dirMode)
      ensures fileMode == old(fileMode) % MODE_UNITS && dirMode == old(dirMode) % MODE_UNITS
      ensures Nearest(MIN_SOURCE_BUFFER, MAX_SOURCE_BUFFER, old(sourceBuffer), sourceBuffer)
      ensures threads == (if old(threads) == 0 then 1 else old(threads))
      ensures maxRetainedDecoders == (if old(maxRetainedDecoders) == 0 then 1 else old(maxRetainedDecoders))
      ensures Nearest(1, maxRetainedDecoders, old(decodersPerFile), decodersPerFile)
      ensures verify == old(verify)
    {
      if sourceBuffer < MIN_SOURCE_BUFFER {
        sourceBuffer := MIN_SOURCE_BUFFER;
      } else if sourceBuffer > MAX_SOURCE_BUFFER {
        sourceBuffer := MAX_SOURCE_BUFFER;
      }
      if threads < 1 {
        threads := 1;
      }
      if maxRetainedDecoders < 1 {
        maxRetainedDecoders := 1;
      }
      if decodersPerFile < 1 {
        decodersPerFile := 1;
      } else if decodersPerFile > maxRetainedDecoders {
        decodersPerFile := maxRetainedDecoders;
      }
      // Masking with 0o7777 keeps the remainder modulo 0o10000.
      fileMode := fileMode % MODE_UNITS;
      dirMode := dirMode % MODE_UNITS;
    }
  }

  class DecoderBudget<S(!new)> {
    var retained: nat
    const maxRetained: nat
    var machines: seq<seq<Machine<S>>>
    var buffers: seq<array<byte>>
    var skips: seq<array<byte>>
    const maxCores: nat
    const sourceBuffer: nat
    const skipBuffer: nat
    const verify: bool
    const codecs: Method -> Codec<S>
    const sum: Checksum

    /** The arrays the store holds. */
    ghost function Arrays(): set<object>
      reads this`buffers, this`skips
    {
      (set a | a in buffers) + (set a | a in skips)
    }

    ghost predicate Sorted()
      reads this`machines
    {
      && |machines| == METHODS
      && (forall m :: 0 <= m < METHODS ==> |machines[m]| <= maxCores)
      && (forall m, i :: 0 <= m < METHODS && 0 <= i < |machines[m]| ==> Slot(machines[m][i].compression) == m)
    }

    ghost predicate Stocked()
      reads this`buffers, this`skips
    {
      && |buffers| <= maxCores && |skips| <= maxCores
      && (forall i :: 0 <= i < |buffers| ==> buffers[i].Length == sourceBuffer)
      && (forall i :: 0 <= i < |skips| ==> skips[i].Length == skipBuffer)
      && (forall i, j :: 0 <= i < j < |buffers| ==> buffers[i] != buffers[j])
      && (forall i, j :: 0 <= i < j < |skips| ==> skips[i] != skips[j])
      && (forall i, j :: 0 <= i < |buffers| && 0 <= j < |skips| ==> buffers[i] != skips[j])
    }

    /** What is kept fits: machines under their method, arrays of the configured size, each once. */
    ghost predicate Valid()
      reads this
    {
      0 < sourceBuffer && 0 < skipBuffer && retained <= maxRetained && Sorted() && Stocked()
    }

    /** `new`: empty, with the sizes of clamped settings, so that no buffer is ever empty. */
    constructor (config: Config, codecs: Method -> Codec<S>, sum: Checksum)
      requires config.Clamped()
      ensures Valid() && retained == 0 && Arrays() == {} && maxRetained == config.maxRetainedDecoders
      ensures sourceBuffer == config.sourceBuffer && skipBuffer == SKIP_BUFFER && maxCores == config.threads * 2
      ensures verify == config.verify && this.codecs == codecs && this.sum == sum
    {
      retained, maxRetained := 0, config.maxRetainedDecoders;
      machines, buffers, skips := [[], [], []], [], [];
      maxCores := config.threads * 2;
      sourceBuffer, skipBuffer, verify := config.sourceBuffer, SKIP_BUFFER, config.verify;
      this.codecs, this.sum := codecs, sum;
    }

    /** `try_retain`: a place for one more idle decoder, if there is one. */
    method TryRetain() returns (ok: bool)
      requires Valid()
      modifies this`retained
      ensures Valid() && ok == (old(retained) < maxRetained)
      ensures retained == old(retained) + (if ok then 1 else 0)
    {
      ok := retained < maxRetained;
      if ok {
        retained := retained + 1;
      }
    }

    /** `release_retain`: never below zero, since a place was taken before. */
    method ReleaseRetain()
      requires Valid() && 0 < retained
      modifies this`retained
      ensures Valid() && retained == old(retained) - 1
    {
      retained := retained - 1;
    }

    /** A machine of a method, kept or new. */
    method TakeMachine(m: Method) returns (machine: Machine<S>)
      requires Valid()
      modifies this`machines
      ensures Valid() && machine.compression == m
      ensures if old(machines[Slot(m)]) == [] then machine.state == codecs(m).start && machines == old(machines)
              else
                && old(machines[Slot(m)]) == machines[Slot(m)] + [machine]
                && machines == old(machines)[Slot(m) := machines[Slot(m)]]
    {
      hide Stocked;
      machine := Machine(m, codecs(m).start);
      var kept := machines[Slot(m)];
      if kept != [] {
        machine := kept[|kept| - 1];
        machines := machines[Slot(m) := kept[..|kept| - 1]];
        assert Slot(machine.compression) == Slot(m);
      }
    }

    /** `take_core`: parts of the right method and size, recycled where possible. */
    method TakeCore(m: Method) returns (parts: CoreParts<S>)
      requires Valid()
      modifies this`machines, this`buffers, this`skips
      ensures Valid() && parts.machine.compression == m
      ensures parts.buf.Length == sourceBuffer && parts.skip.Length == skipBuffer && parts.buf != parts.skip
      ensures Arrays() <= old(Arrays()) && parts.buf !in Arrays() && parts.skip !in Arrays()
      ensures if old(buffers) == [] then fresh(parts.buf) && buffers == []
              else parts.buf == old(buffers[|buffers| - 1]) && buffers == old(buffers[..|buffers| - 1])
      ensures if old(skips) == [] then fresh(parts.skip) && skips == []
              else parts.skip == old(skips[|skips| - 1]) && skips == old(skips[..|skips| - 1])
    {
      hide Sorted;
      var machine := TakeMachine(m);
      var buf, skip: array<byte>;
      if buffers != [] {
        buf := buffers[|buffers| - 1];
        buffers := buffers[..|buffers| - 1];
      } else {
        buf := new byte[sourceBuffer](_ => 0);
      }
      if skips != [] {
        skip := skips[|skips| - 1];
        skips := skips[..|skips| - 1];
      } else {
        skip := new byte[skipBuffer](_ => 0);
      }
      return CoreParts(machine, buf, skip);
    }

    /** Each part was put last in its list, if there was room in it. */
    ghost predicate Recycled(ms: seq<seq<Machine<S>>>, bs: seq<array<byte>>, ss: seq<array<byte>>, parts: CoreParts<S>)
      reads this
    {
      var slot := Slot(parts.machine.compression);
      && |ms| == METHODS
      && machines == (if |ms[slot]| < maxCores then ms[slot := ms[slot] + [parts.machine]] else ms)
      && buffers == bs + (if |bs| < maxCores then [parts.buf] else [])
      && skips == ss + (if |ss| < maxCores then [parts.skip] else [])
    }

    /** `recycle_core`: keeps each part while there is room for it. */
    method RecycleCore(parts: CoreParts<S>)
      requires Valid() && parts.buf.Length == sourceBuffer && parts.skip.Length == skipBuffer
      requires parts.buf != parts.skip && parts.buf !in Arrays() && parts.skip !in Arrays()
      modifies this`machines, this`buffers, this`skips
      ensures Valid() && Arrays() <= old(Arrays()) + {parts.buf, parts.skip}
      ensures Recycled(old(machines), old(buffers), old(skips), parts)
    {
      var slot := Slot(parts.machine.compression);
      if |machines[slot]| < maxCores {
        machines := machines[slot := machines[slot] + [parts.machine]];
      }
      if |buffers| < maxCores {
        buffers := buffers + [parts.buf];
      }
      if |skips| < maxCores {
        skips := skips + [parts.skip];
      }
    }
  }

  // ----- choosing a decoder

  ghost predicate Usable<S(!new)>(d: PositionedDecoder<S>, offset: nat)
    reads d
  {
    d.pos <= offset && !d.finished
  }

  /** The choice `checkout` makes among the idle decoders: the furthest one that can still be used. */
  method FindUsable<S(!new)>(idle: seq<PositionedDecoder<S>>, offset: nat) returns (r: Option<nat>)
    ensures r.Some? ==> r.value < |idle| && Usable(idle[r.value], offset)
    ensures r.Some? ==> forall j :: 0 <= j < |idle| && Usable(idle[j], offset) ==> idle[j].pos <= idle[r.value].pos
    ensures r.None? ==> forall j :: 0 <= j < |idle| ==> !Usable(idle[j], offset)
    ensures r.Some? ==> forall j :: 0 <= j < |idle| && Usable(idle[j], offset) && idle[j].pos == idle[r.value].pos ==>
      if idle[j].pos == offset then r.value <= j else j <= r.value
  {
    for i: nat := 0 to |idle|
      invariant forall j :: 0 <= j < i ==> !(idle[j].pos == offset && !idle[j].finished)
    {
      if idle[i].pos == offset && !idle[i].finished {
        return Some(i);
      }
    }
    r := None;
    for i: nat := 0 to |idle|
      invariant r.Some? ==> r.value < i && Usable(idle[r.value], offset)
      invariant r.Some? ==> forall j :: 0 <= j < i && Usable(idle[j], offset) ==> idle[j].pos <= idle[r.value].pos
      invariant r.Some? ==>
        forall j :: r.value < j < i && Usable(idle[j], offset) ==> idle[j].pos < idle[r.value].pos
      invariant r.None? ==> forall j :: 0 <= j < i ==> !Usable(idle[j], offset)
    {
      if idle[i].pos <= offset && !idle[i].finished && (r.None? || idle[r.value].pos <= idle[i].pos) {
        r := Some(i);
      }
    }
  }

  /** The decoder to rewind: the one furthest along. */
  method FindFurthest<S(!new)>(idle: seq<PositionedDecoder<S>>) returns (r: Option<nat>)
    ensures r.None? <==> idle == []
    ensures r.Some? ==> r.value < |idle| && forall j :: 0 <= j < |idle| ==> idle[j].pos <= idle[r.value].pos
    ensures r.Some? ==> forall j :: r.value < j < |idle| ==> idle[j].pos < idle[r.value].pos
  {
    r := None;
    for i: nat := 0 to |idle|
      invariant r.None? <==> i == 0
      invariant r.Some? ==> r.value < i && forall j :: 0 <= j < i ==> idle[j].pos <= idle[r.value].pos
      invariant r.Some? ==> forall j :: r.value < j < i ==> idle[j].pos < idle[r.value].pos
    {
      if r.None? || idle[r.value].pos <= idle[i].pos {
        r := Some(i);
      }
    }
  }

  lemma SwapRemoveKeepsOthers<T>(s: seq<T>, i: nat)
    requires i < |s|
    ensures multiset(SwapRemove(s, i)) + multiset{s[i]} == multiset(s)
    ensures |SwapRemove(s, i)| == |s| - 1
    ensures forall x :: x in SwapRemove(s, i) ==> x in s
  {
    var last := |s| - 1;
    assert s == s[..last] + [s[last]];
    if i < last {
      SwapParts(s, i);
    }
    forall x | x in SwapRemove(s, i) ensures x in s {
      assert x in multiset(SwapRemove(s, i));
    }
  }

  lemma SwapParts<T>(s: seq<T>, i: nat)
    requires i < |s| - 1
    ensures multiset(SwapRemove(s, i)) + multiset{s[i]} == multiset(s)
  {
    var last := |s| - 1;
    var front, back := s[..i], s[i + 1..last];
    assert SwapRemove(s, i) == front + [s[last]] + back;
    assert s == front + [s[i]] + back + [s[last]];
  }

  // ----- the pool

  /** `into_parts`. */
  function PartsOf<S(!new)>(d: PositionedDecoder<S>): CoreParts<S>
    reads d
  {
    CoreParts(Machine(d.compression, d.state), d.src.buf, d.skip)
  }

  /** Nothing but decoders, their sources and their arrays. */
  ghost predicate OnlyParts<S(!new)>(objects: set<object>) {
    forall o :: o in objects ==> o is PositionedDecoder<S> || o is BufSource || o is array<byte>
  }

  function Buffers<S(!new)>(ds: seq<PositionedDecoder<S>>): seq<array<byte>> {
    seq(|ds|, i requires 0 <= i < |ds| => ds[i].src.buf)
  }

  function Skips<S(!new)>(ds: seq<PositionedDecoder<S>>): seq<array<byte>> {
    seq(|ds|, i requires 0 <= i < |ds| => ds[i].skip)
  }

  /** A list with as many more as it has room for. */
  function Topped<T>(s: seq<T>, more: seq<T>, room: nat): seq<T> {
    if |s| >= room then s else s + more[..Min(|more|, room - |s|)]
  }

  /** Two decoders that share nothing. */
  ghost predicate Separate<S(!new)>(d: PositionedDecoder<S>, e: PositionedDecoder<S>) {
    && d != e && d.src != e.src && d.src.buf != e.src.buf && d.skip != e.skip
    && d.src.buf != e.skip && d.skip != e.src.buf
  }

  ghost predicate AllSeparate<S(!new)>(ds: seq<PositionedDecoder<S>>) {
    forall i, j :: 0 <= i < j < |ds| ==> Separate(ds[i], ds[j])
  }

  lemma StillSeparate<S(!new)>(ds: seq<PositionedDecoder<S>>, i: nat)
    requires i < |ds| && AllSeparate(ds)
    ensures AllSeparate(SwapRemove(ds, i))
    ensures forall d :: d in SwapRemove(ds, i) ==> d in ds && Separate(ds[i], d)
  {
    var after := SwapRemove(ds, i);
    forall k | 0 <= k < |after| ensures after[k] == ds[if k == i then |ds| - 1 else k] {
    }
  }

  lemma AppendSeparate<S(!new)>(ds: seq<PositionedDecoder<S>>, d: PositionedDecoder<S>)
    requires AllSeparate(ds) && forall e :: e in ds ==> Separate(d, e)
    ensures AllSeparate(ds + [d])
  {
    forall i | 0 <= i < |ds| ensures Separate(ds[i], d) {
      assert Separate(d, ds[i]);
    }
  }

  /** Where an idle decoder is, and whether a read can use it there. */
  datatype Seat = Seat(pos: nat, usable: bool)

  ghost predicate AnyUsable(seats: seq<Seat>) {
    exists i :: 0 <= i < |seats| && seats[i].usable
  }

  class EntryPool<S(!new)> {
    var idle: seq<PositionedDecoder<S>>
    const perHandleCap: nat
    const budget: DecoderBudget<S>
    const reader: GuardedFile
    const loc: Location
    /** What the entry's coded bytes stand for, and the size it is declared to have. */
    ghost const z: Stream<S>
    ghost const declared: nat
    /** The objects of the idle decoders. */
    ghost var owned: set<object>

    /** A decoder in good order, on this entry, made of parts of the configured size. */
    ghost predicate Fits(d: PositionedDecoder<S>)
      reads d, d.src, d.src.buf
    {
      && d.Valid() && d.z == z && d.src.reader == reader
      && d.src.start == loc.dataStart && d.src.len == loc.compressedSize
      && d.codec == budget.codecs(loc.compression) && d.compression == loc.compression && d.sum == budget.sum
      && (d.crc.Some? <==> budget.verify)
      && d.src.buf.Length == budget.sourceBuffer && d.skip.Length == budget.skipBuffer
      && (d.verified ==> d.pos >= declared)
    }

    /** The entry the pool serves: a stream the machine decodes, in a range within 64 bits. */
    ghost predicate Serves() {
      && loc.dataStart + loc.compressedSize <= U64_MAX
      && CodedIn(z, reader.disk.mounted, loc.dataStart, loc.compressedSize)
      && Decodes(budget.codecs(loc.compression), z)
    }

    ghost predicate Owns(d: PositionedDecoder<S>)
      reads this
    {
      d in owned && d.src in owned && d.src.buf in owned && d.skip in owned
    }

    /** The budget's store does not hold the decoder's arrays. */
    ghost predicate NotInStore(d: PositionedDecoder<S>)
      reads budget
    {
      d.src.buf !in budget.Arrays() && d.skip !in budget.Arrays()
    }

    ghost predicate Valid()
      reads this, budget, owned
    {
      && Serves() && budget.Valid()
      && |idle| <= perHandleCap && |idle| <= budget.retained && OnlyParts<S>(owned)
      && (forall d :: d in idle ==> Owns(d) && Fits(d) && NotInStore(d))
      && AllSeparate(idle)
    }

    /** The part of `Valid` that does not depend on the state of the budget. */
    ghost predicate Kit()
      reads this, owned
    {
      && Serves() && |idle| <= perHandleCap && OnlyParts<S>(owned)
      && (forall d :: d in idle ==> Owns(d) && Fits(d))
      && AllSeparate(idle)
    }

    lemma KitOfValid()
      requires Valid()
      ensures Kit() && budget.Valid() && OnlyParts<S>(owned)
    {
    }

    lemma ValidFromKit()
      requires Kit() && Apart() && budget.Valid() && |idle| <= budget.retained
      ensures Valid()
    {
    }

    /** The budget's store and the pool have nothing in common. */
    ghost predicate Apart()
      reads this, budget
    {
      forall o :: o in owned ==> o !in budget.Arrays()
    }

    /** A decoder outside the pool that may come back to it. */
    ghost predicate Outside(d: PositionedDecoder<S>)
      reads this, budget
    {
      NotInStore(d) && (forall e :: e in idle ==> Separate(d, e)) && d.Repr() !! owned
    }

    constructor (
        budget: DecoderBudget<S>, reader: GuardedFile, loc: Location, perHandleCap: nat,
        ghost z: Stream<S>, ghost declared: nat)
      requires budget.Valid() && loc.dataStart + loc.compressedSize <= U64_MAX
      requires CodedIn(z, reader.disk.mounted, loc.dataStart, loc.compressedSize)
      requires Decodes(budget.codecs(loc.compression), z)
      ensures Valid() && idle == [] && owned == {}
      ensures this.budget == budget && this.reader == reader && this.z == z && this.loc == loc
      ensures this.declared == declared && fresh(this)
    {
      idle, owned := [], {};
      this.budget, this.reader, this.loc, this.perHandleCap := budget, reader, loc, perHandleCap;
      this.z, this.declared := z, declared;
    }

    /** Takes one idle decoder out of the list. */
    method Pull(i: nat) returns (d: PositionedDecoder<S>)
      requires Valid() && i < |idle|
      modifies this`idle, this`owned, budget`retained
      ensures Valid() && d == old(idle[i]) && Fits(d) && Outside(d)
      ensures multiset(idle) + multiset{d} == old(multiset(idle)) && budget.retained == old(budget.retained) - 1
      ensures |idle| == |old(idle)| - 1 && idle == SwapRemove(old(idle), i)
      ensures owned <= old(owned) && d.Repr() <= old(owned)
    {
      hide Decodes, CodedIn, PositionedDecoder.Valid, DecoderBudget.Stocked, DecoderBudget.Sorted, AllSeparate;
      d := idle[i];
      SwapRemoveKeepsOthers(idle, i);
      StillSeparate(idle, i);
      idle := SwapRemove(idle, i);
      owned := owned - d.Repr();
      budget.ReleaseRetain();
    }

    /** Rewinds a decoder that was pulled. */
    method Rewind(d: PositionedDecoder<S>)
      requires Valid() && Fits(d) && Outside(d)
      modifies d, d.src
      ensures Valid() && Fits(d) && Outside(d) && d.pos == 0 && !d.finished
    {
      d.Reinit(loc);
    }

    /** A new decoder from recycled or new parts. */
    method Make() returns (d: PositionedDecoder<S>)
      requires Valid() && idle == [] && owned == {}
      modifies budget
      ensures Valid() && Fits(d) && Outside(d) && d.pos == 0 && !d.finished
      ensures fresh(d) && fresh(d.Repr() - old(budget.Arrays())) && budget.retained == old(budget.retained)
      ensures budget.Arrays() <= old(budget.Arrays())
    {
      var parts := budget.TakeCore(loc.compression);
      d := new PositionedDecoder(
        reader, loc, budget.codecs(loc.compression), budget.sum, parts.buf, parts.skip, budget.verify, z);
    }

    /** Which idle decoder to take, and whether it has to be rewound. */
    method Choose(offset: nat) returns (r: Option<(nat, bool)>)
      ensures r.None? <==> idle == []
      ensures r.Some? ==> r.value.0 < |idle| && r.value.1 == !AnyUsable(Seats(offset))
      ensures r.Some? && !r.value.1 ==> Usable(idle[r.value.0], offset)
      ensures r.Some? && !r.value.1 ==>
        forall i :: 0 <= i < |idle| && Usable(idle[i], offset) ==> idle[i].pos <= idle[r.value.0].pos
      ensures r.Some? && r.value.1 ==> forall i :: 0 <= i < |idle| ==> idle[i].pos <= idle[r.value.0].pos
    {
      ghost var seats := Seats(offset);
      var usable := FindUsable(idle, offset);
      if usable.Some? {
        assert seats[usable.value].usable;
        return Some((usable.value, false));
      }
      var furthest := FindFurthest(idle);
      r := if furthest.Some? then Some((furthest.value, true)) else None;
    }

    /**
     `checkout`: the furthest idle decoder that can still reach the offset, or else one at zero,
     rewound or new. What comes out is never finished and never past the offset.
     */
    method Checkout(offset: nat) returns (d: PositionedDecoder<S>)
      requires Valid()
      modifies this`idle, this`owned, budget, owned
      ensures Valid() && Fits(d) && Outside(d) && Usable(d, offset)
      ensures Picked(old(idle), old(Seats(offset)), idle, d)
      ensures old(idle) != [] ==> multiset(idle) + multiset{d} == old(multiset(idle)) && d.Repr() <= old(owned)
      ensures old(idle) == [] ==> idle == [] && fresh(d) && fresh(d.Repr() - old(budget.Arrays()))
      ensures owned <= old(owned) && budget.Arrays() <= old(budget.Arrays())
      ensures budget.retained - |idle| == old(budget.retained - |idle|)
      ensures |idle| == if old(idle) == [] then 0 else old(|idle|) - 1
    {
      hide Fits, Outside, DecoderBudget.Valid, Serves, Separate, AllSeparate, NotInStore, OnlyParts, Owns;
      var choice := Choose(offset);
      if choice.Some? {
        var (k, rewind) := choice.value;
        ghost var before, seats := idle, Seats(offset);
        d := Pull(k);
        if rewind {
          Rewind(d);
        }
        assert PickedAt(before, seats, idle, d, k);
        return;
      }
      owned := {};
      d := Make();
    }

    /** For each idle decoder, its position and whether it can be used for an offset. */
    ghost function Seats(offset: nat): seq<Seat>
      reads this, idle
    {
      seq(|idle|, i requires 0 <= i < |idle| reads this, idle => Seat(idle[i].pos, Usable(idle[i], offset)))
    }

    /**
     The pick: the furthest usable decoder as it is, or the furthest of all rewound, or a new one.
     The others stay.
     */
    ghost predicate Picked(
        before: seq<PositionedDecoder<S>>, seats: seq<Seat>,
        after: seq<PositionedDecoder<S>>, d: PositionedDecoder<S>)
      reads d
    {
      && |seats| == |before|
      && if before == [] then after == [] && d.pos == 0
         else exists k :: PickedAt(before, seats, after, d, k)
    }

    ghost predicate PickedAt(
        before: seq<PositionedDecoder<S>>, seats: seq<Seat>,
        after: seq<PositionedDecoder<S>>, d: PositionedDecoder<S>, k: nat)
      reads d
    {
      && k < |before| == |seats| && d == before[k] && after == SwapRemove(before, k)
      && if AnyUsable(seats) then
           && seats[k].usable && d.pos == seats[k].pos
           && forall i :: 0 <= i < |seats| && seats[i].usable ==> seats[i].pos <= d.pos
         else
           && d.pos == 0
           && forall i :: 0 <= i < |seats| ==> seats[i].pos <= seats[k].pos
    }

    /** `give_back`: idle again while there is room here and in the budget, otherwise taken apart. */
    method GiveBack(d: PositionedDecoder<S>)
      requires Valid() && Fits(d) && Outside(d)
      modifies this`idle, this`owned, budget
      ensures Valid()
      ensures |old(idle)| < perHandleCap && old(budget.retained) < budget.maxRetained ==> idle == old(idle) + [d]
      ensures !(|old(idle)| < perHandleCap && old(budget.retained) < budget.maxRetained) ==>
        idle == old(idle) && budget.Recycled(old(budget.machines), old(budget.buffers), old(budget.skips), PartsOf(d))
      ensures budget.retained - |idle| == old(budget.retained - |idle|)
      ensures owned <= old(owned) + d.Repr() && budget.Arrays() <= old(budget.Arrays()) + d.Repr()
      ensures old(Apart()) ==> Apart()
    {
      hide Decodes, CodedIn, PositionedDecoder.Valid, DecoderBudget.Stocked, DecoderBudget.Sorted;
      hide Separate, AllSeparate, DecoderBudget.Recycled;
      if |idle| < perHandleCap {
        var ok := budget.TryRetain();
        if ok {
          AppendSeparate(idle, d);
          idle := idle + [d];
          owned := owned + d.Repr();
          return;
        }
      }
      PartsDiffer(d);
      budget.RecycleCore(PartsOf(d));
    }

    lemma PartsDiffer(d: PositionedDecoder<S>)
      requires d.Valid()
      ensures d.src.buf != d.skip
    {
    }

    /** `drop`: every idle decoder gives its place back, and its parts are recycled. */
    method Close()
      requires Valid()
      modifies this`idle, this`owned, budget
      ensures Valid() && idle == [] && budget.retained == old(budget.retained - |idle|)
      ensures owned == {} && budget.Arrays() <= old(budget.Arrays()) + old(owned)
      ensures budget.buffers == Topped(old(budget.buffers), old(Buffers(idle)), budget.maxCores)
      ensures budget.skips == Topped(old(budget.skips), old(Skips(idle)), budget.maxCores)
    {
      hide Decodes, CodedIn, PositionedDecoder.Valid, DecoderBudget.Stocked, Separate, Serves;
      hide DecoderBudget.Sorted, DecoderBudget.Arrays, Topped, Buffers, Skips, Slot;
      var taken := idle;
      NothingRecycled(taken, budget.buffers, budget.skips);
      forall d | d in taken ensures FitForStore(d) {
        PartsDiffer(d);
      }
      idle, owned := [], {};
      for i := 0 to |taken|
        invariant Valid() && idle == [] && owned == {} && budget.retained == old(budget.retained) - i
        invariant forall k :: i <= k < |taken| ==> NotInStore(taken[k])
        invariant budget.Arrays() <= old(budget.Arrays()) + old(owned)
        invariant budget.buffers == Topped(old(budget.buffers), Buffers(taken[..i]), budget.maxCores)
        invariant budget.skips == Topped(old(budget.skips), Skips(taken[..i]), budget.maxCores)
      {
        budget.ReleaseRetain();
        OthersSeparate(taken, i);
        assert FitForStore(taken[i]);
        ghost var bs, ss := budget.buffers, budget.skips;
        budget.RecycleCore(PartsOf(taken[i]));
        OneMoreRecycled(taken, i, old(budget.buffers), old(budget.skips), bs, ss);
      }
      assert taken[..|taken|] == taken;
    }

    lemma WithinLimits()
      requires Valid()
      ensures |idle| <= perHandleCap && budget.retained <= budget.maxRetained
    {
    }

    lemma NothingRecycled(taken: seq<PositionedDecoder<S>>, buffers: seq<array<byte>>, skips: seq<array<byte>>)
      ensures Topped(buffers, Buffers(taken[..0]), budget.maxCores) == buffers
      ensures Topped(skips, Skips(taken[..0]), budget.maxCores) == skips
    {
    }

    lemma OneMoreRecycled(
        taken: seq<PositionedDecoder<S>>, i: nat,
        buffers: seq<array<byte>>, skips: seq<array<byte>>, bs: seq<array<byte>>, ss: seq<array<byte>>)
      requires i < |taken| && bs == Topped(buffers, Buffers(taken[..i]), budget.maxCores)
      requires ss == Topped(skips, Skips(taken[..i]), budget.maxCores)
      ensures Topped(buffers, Buffers(taken[..i + 1]), budget.maxCores)
           == bs + (if |bs| < budget.maxCores then [taken[i].src.buf] else [])
      ensures Topped(skips, Skips(taken[..i + 1]), budget.maxCores)
           == ss + (if |ss| < budget.maxCores then [taken[i].skip] else [])
    {
      assert Buffers(taken[..i + 1]) == Buffers(taken[..i]) + [taken[i].src.buf];
      assert Skips(taken[..i + 1]) == Skips(taken[..i]) + [taken[i].skip];
    }

    /** The arrays of a decoder can go into the store. */
    ghost predicate FitForStore(d: PositionedDecoder<S>) {
      d.src.buf != d.skip && d.src.buf.Length == budget.sourceBuffer && d.skip.Length == budget.skipBuffer
    }

    lemma OthersSeparate(ds: seq<PositionedDecoder<S>>, i: nat)
      requires i < |ds| && AllSeparate(ds)
      ensures forall k :: i < k < |ds| ==>
        ds[k].src.buf !in {ds[i].src.buf, ds[i].skip} && ds[k].skip !in {ds[i].src.buf, ds[i].skip}
    {
    }

    /** The verdict on record is right about the entry this pool serves. */
    ghost predicate VerdictIsRight(meta: EntryMeta)
      reads meta
    {
      meta.uncompressedSize == declared && VerdictHolds(meta.verifyState, SoundFor(meta), Inside())
    }

    ghost predicate SoundFor(meta: EntryMeta) {
      Sound(z, budget.sum, meta.uncompressedSize, meta.crc32)
    }

    ghost predicate Inside() {
      InArchive(reader.disk.mounted, loc.dataStart, loc.compressedSize)
    }

    /** What a read of `room` bytes at an offset may answer. */
    ghost predicate Answers(meta: EntryMeta, offset: nat, room: nat, r: Result<seq<byte>, IoError>) {
      match r
      case Ok(bytes) =>
        && |bytes| <= room && offset + |bytes| <= |z.plain| && bytes == z.plain[offset..offset + |bytes|]
        && (bytes != [] ==> offset + |bytes| <= meta.uncompressedSize)
        && (|bytes| < room && offset + |bytes| < meta.uncompressedSize ==> offset + |bytes| == |z.plain|)
        && (budget.verify && offset < meta.uncompressedSize == offset + |bytes| ==> SoundFor(meta))
      case Err(e) =>
        && e != InvalidInput
        && (Blameless(meta, offset) ==> e in {StaleArchive, OtherError})
    }

    /** With checks on, a read that reaches the end of the entry leaves the verdict that it is good. */
    ghost predicate Confirmed(meta: EntryMeta, offset: nat, r: Result<seq<byte>, IoError>)
      reads meta
    {
      r.Ok? && budget.verify && offset < meta.uncompressedSize == offset + |r.value| ==> meta.verifyState == VerifiedOk
    }

    /** What can keep a read from being answered as the entry deserves. */
    ghost predicate Excuse(before: nat)
      reads reader
    {
      reader.failures > before || reader.stale || !Inside()
    }

    /**
     With checks on, a read up to the declared size of a stream that gets there is answered, and the
     verdict recorded, as the entry deserves: good if it is sound, and bad if it is not.
     */
    ghost predicate Judged(meta: EntryMeta, offset: nat, room: nat, r: Result<seq<byte>, IoError>)
      reads meta
    {
      && budget.verify && offset < meta.uncompressedSize <= Min(offset + room, |z.plain|) && z.ending != Corrupt
      ==> r.Ok? == SoundFor(meta) && meta.verifyState == if SoundFor(meta) then VerifiedOk else VerifiedBad
    }

    /** Nothing about the entry stands in the way of a read at this offset. */
    ghost predicate Blameless(meta: EntryMeta, offset: nat) {
      Inside() &&
      if CutShort(meta) then offset <= |z.plain| else SoundFor(meta) && offset <= meta.uncompressedSize
    }

    /** The stream is undamaged as far as it goes, but ends before the declared size. */
    ghost predicate CutShort(meta: EntryMeta) {
      |z.plain| < meta.uncompressedSize && z.ending != Corrupt
    }

    /**
     Truncation. An entry whose stream ends early, inside the archive, is read up to that end: the
     read fails exactly when it starts beyond it, and otherwise returns all there is, in silence.
     */
    ghost predicate TruncatedInSilence(meta: EntryMeta, offset: nat, room: nat, r: Result<seq<byte>, IoError>) {
      CutShort(meta) && Inside() ==>
        && (r.Ok? <==> offset <= |z.plain|)
        && (r.Ok? ==> |r.value| == Min(room, |z.plain| - offset))
    }

    /** One read on a decoder that was checked out; the pool it came from is not disturbed. */
    method Use(d: PositionedDecoder<S>, offset: nat, room: nat, meta: EntryMeta)
      returns (r: Result<seq<byte>, IoError>)
      requires Valid() && Fits(d) && Outside(d) && Usable(d, offset)
      requires reader.disk.Honest() && VerdictIsRight(meta)
      modifies d, d.src, d.src.buf, d.skip, reader, reader.disk, meta
      ensures Valid() && Fits(d) && Outside(d) && reader.disk.Honest() && VerdictIsRight(meta)
      ensures Answers(meta, offset, room, r)
      ensures r == Err(StaleArchive) ==> reader.stale
      ensures r.Err? && Blameless(meta, offset) ==> reader.failures > old(reader.failures) || reader.stale
      ensures reader.Later(old(reader.failures), old(reader.stale))
      ensures !Excuse(old(reader.failures)) ==> TruncatedInSilence(meta, offset, room, r)
      ensures !Excuse(old(reader.failures)) ==> Judged(meta, offset, room, r)
      ensures Sticks(old(meta.verifyState), meta.verifyState, Inside())
      ensures Confirmed(meta, offset, r)
    {
      hide Decodes, CodedIn, PositionedDecoder.Valid, DecoderBudget.Valid, AllSeparate, Separate;
      var out := new byte[room](_ => 0);
      var n := d.ReadAt(offset, out, meta);
      match n
      case Err(e) => r := Err(e);
      case Ok(count) => r := Ok(out[..count]);
    }

    // ----- as a neighbour sees it

    /** All that a checkout can reach. */
    ghost function Reach(): set<object>
      reads this, budget
    {
      owned + budget.Arrays()
    }

    /** `checkout`, with nothing said of which decoder it is: whatever it takes was within reach or is new. */
    method Borrow(offset: nat) returns (d: PositionedDecoder<S>)
      requires Valid() && Apart()
      modifies this, owned, budget
      ensures Valid() && Apart() && Fits(d) && Usable(d, offset) && d.Repr() !! Reach()
      ensures forall o :: o in Reach() || o in d.Repr() ==> o in old(Reach()) || fresh(o)
      ensures budget.retained - |idle| == old(budget.retained - |idle|)
    {
      hide DecoderBudget.Valid, EntryPool.Valid, Fits, Picked, AllSeparate;
      d := Checkout(offset);
    }

    /** A read on a borrowed decoder. */
    method WorkWith(d: PositionedDecoder<S>, offset: nat, room: nat, meta: EntryMeta)
      returns (r: Result<seq<byte>, IoError>)
      requires Valid() && Apart() && Fits(d) && d.Repr() !! Reach() && Usable(d, offset)
      requires reader.disk.Honest() && VerdictIsRight(meta)
      modifies d.Repr(), reader, reader.disk, meta
      ensures Valid() && Apart() && Fits(d) && reader.disk.Honest() && VerdictIsRight(meta)
      ensures Answers(meta, offset, room, r) && reader.Later(old(reader.failures), old(reader.stale))
      ensures r.Err? && Blameless(meta, offset) ==> reader.failures > 0 || reader.stale
      ensures Sticks(old(meta.verifyState), meta.verifyState, Inside())
    {
      hide DecoderBudget.Valid, Fits, Answers, Blameless, VerdictIsRight;
      hide AllSeparate, Confirmed, TruncatedInSilence, Judged;
      OutsideOf(d);
      r := Use(d, offset, room, meta);
    }

    /** `give_back` of a borrowed decoder. */
    method TakeBack(d: PositionedDecoder<S>)
      requires Valid() && Apart() && Fits(d) && d.Repr() !! Reach()
      modifies this, budget
      ensures Valid() && Apart() && Reach() <= old(Reach()) + d.Repr()
      ensures budget.retained - |idle| == old(budget.retained - |idle|)
      ensures |idle| == old(|idle|) +
        (if old(|idle|) < perHandleCap && old(budget.retained) < budget.maxRetained then 1 else 0)
    {
      hide DecoderBudget.Valid, Fits, AllSeparate, DecoderBudget.Recycled, EntryPool.Valid;
      OutsideOf(d);
      GiveBack(d);
    }

    lemma OutsideOf(d: PositionedDecoder<S>)
      requires Valid() && d.Repr() !! Reach()
      ensures Outside(d)
    {
      hide DecoderBudget.Valid, Fits, Serves, AllSeparate;
      forall e | e in idle ensures Separate(d, e) {
        assert Owns(e);
      }
    }

    /**
     The `Coded` case of `read`: check out, read, give back. Whatever the pool has been through,
     the answer is the plaintext at that offset, and no decoder is ever found past it.
     */
    method Read(offset: nat, room: nat, meta: EntryMeta) returns (r: Result<seq<byte>, IoError>)
      requires Valid() && reader.disk.Honest() && VerdictIsRight(meta)
      modifies this`idle, this`owned, budget, owned, budget.Arrays(), reader, reader.disk, meta
      ensures Valid() && reader.disk.Honest() && VerdictIsRight(meta)
      ensures Answers(meta, offset, room, r)
      ensures r == Err(StaleArchive) ==> reader.stale
      ensures r.Err? && Blameless(meta, offset) ==> reader.failures > old(reader.failures) || reader.stale
      ensures !Excuse(old(reader.failures)) ==> TruncatedInSilence(meta, offset, room, r)
      ensures !Excuse(old(reader.failures)) ==> Judged(meta, offset, room, r)
      ensures Sticks(old(meta.verifyState), meta.verifyState, Inside())
      ensures Confirmed(meta, offset, r)
      ensures reader.Later(old(reader.failures), old(reader.stale))
      ensures forall o :: o in owned ==> o in old(owned) || o in old(budget.Arrays()) || fresh(o)
      ensures forall o :: o in budget.Arrays() ==> o in old(owned) || o in old(budget.Arrays()) || fresh(o)
      ensures budget.retained - |idle| == old(budget.retained - |idle|) && (old(Apart()) ==> Apart())
      ensures |idle| == if old(idle) != [] then old(|idle|)
                        else if 0 < perHandleCap && old(budget.retained) < budget.maxRetained then 1 else 0
    {
      hide Fits, Outside, Answers, Blameless, Confirmed, TruncatedInSilence, Judged, Sticks;
      hide DecoderBudget.Valid, Serves;
      hide DecoderBudget.Arrays, Picked, DecoderBudget.Recycled;
      WithinLimits();
      var d := Checkout(offset);
      r := Use(d, offset, room, meta);
      GiveBack(d);
    }
  }
}
