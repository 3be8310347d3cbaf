/**
 The `read` operation of the filesystem, over both kinds of entry: what reaches the kernel is
 either an error or the plaintext at the offset asked for.
 */
module Serving {
  import opened Bytes
  import opened Guarding
  import opened Codecs
  import opened Decoding
  import opened StoredReads
  import opened Pooling

  datatype Errno = ESTALE | EIO | EBADF | ENOENT | OtherErrno(code: int)

  datatype Reply = Data(bytes: seq<byte>) | Error(errno: Errno)

  /** How an open file gets at its bytes. */
  datatype OpenKind<S(!new)> =
    | Empty
    | Direct(loc: Location, watcher: Option<StoreVerify>)
    | Coded(pool: EntryPool<S>)

  /** The errno of a failed read: a changed archive says so itself, anything else is EIO. */
  function ErrnoOf(e: IoError): Errno {
    if e == StaleArchive then ESTALE else EIO
  }

  /** `diagnose`: EIO is the cue to examine the archive, and a change is reported as such. */
  method Diagnose(reader: GuardedFile, errno: Errno) returns (e: Errno)
    modifies reader`stale, reader`unsure, reader`failures
    ensures reader.failures >= old(reader.failures)
    ensures e == errno || (errno == EIO && e == ESTALE && reader.stale)
    ensures e == EIO ==> !reader.stale
    ensures old(reader.stale) ==> reader.stale && (errno == EIO ==> e == ESTALE)
    ensures errno != EIO ==> reader.stale == old(reader.stale)
  {
    if errno == EIO {
      var f := reader.Check();
      if f == Stale {
        return ESTALE;
      }
    }
    return errno;
  }

  class OpenFile<S(!new)> {
    const reader: GuardedFile
    const meta: EntryMeta
    const kind: OpenKind<S>
    const sum: Checksum
    /** What the entry contains. */
    ghost const plain: seq<byte>

    constructor (reader: GuardedFile, meta: EntryMeta, kind: OpenKind<S>, sum: Checksum, ghost plain: seq<byte>)
      ensures this.reader == reader && this.meta == meta && this.kind == kind && this.sum == sum && this.plain == plain
    {
      this.reader, this.meta, this.kind, this.sum, this.plain := reader, meta, kind, sum, plain;
    }

    /** A stored entry's plaintext is its range of the archive, as far as the archive goes. */
    ghost predicate DirectFits()
      requires kind.Direct?
    {
      && kind.loc.compressedSize == meta.uncompressedSize == |plain|
      && kind.loc.dataStart + |plain| <= U64_MAX
      && CodedIn(StoredStream(plain), reader.disk.mounted, kind.loc.dataStart, |plain|)
    }

    /** The entry lies inside the archive. */
    ghost predicate Inside() {
      match kind
      case Empty => true
      case Direct(loc, _) => InArchive(reader.disk.mounted, loc.dataStart, loc.compressedSize)
      case Coded(pool) => pool.Inside()
    }

    ghost predicate WatcherFits()
      requires kind.Direct?
      reads if kind.watcher.Some? then {kind.watcher.value} else {}
    {
      kind.watcher.Some? ==>
        kind.watcher.value.Valid() && kind.watcher.value.sum == sum && Follows(kind.watcher.value.watch, plain)
    }

    /** The verdict on a stored entry is right. */
    ghost predicate DirectVerdict()
      reads meta
    {
      VerdictHolds(meta.verifyState, Sound(StoredStream(plain), sum, meta.uncompressedSize, meta.crc32), true)
    }

    /** What a read may change besides the reader and the verdict. */
    ghost function Footprint(): set<object>
      reads if kind.Coded? then {kind.pool, kind.pool.budget} else {}
    {
      match kind
      case Empty => {}
      case Direct(_, watcher) => if watcher.Some? then {watcher.value} else {}
      case Coded(pool) => {pool, pool.budget} + pool.owned + pool.budget.Arrays()
    }

    /** The file is in good order, however many reads it has served. */
    ghost predicate Valid()
      reads meta, if kind.Coded? then {kind.pool, kind.pool.budget} else {}, Footprint()
    {
      match kind
      case Empty => meta.uncompressedSize == 0
      case Direct(_, _) => DirectFits() && WatcherFits() && DirectVerdict()
      case Coded(pool) => pool.Valid() && pool.reader == reader && pool.z.plain == plain && pool.VerdictIsRight(meta)
    }

    /** Nothing about the entry stands in the way of a read at this offset. */
    ghost predicate Blameless(offset: nat) {
      match kind
      case Empty => false
      case Direct(_, _) => Inside() && Sound(StoredStream(plain), sum, meta.uncompressedSize, meta.crc32)
      case Coded(pool) => pool.Blameless(meta, offset) && pool.SoundFor(meta)
    }

    /** What can keep a read from being answered as the entry deserves. */
    ghost predicate Excuse(before: nat)
      reads reader
    {
      reader.failures > before || reader.stale || !Inside()
    }

    ghost predicate DirectSound() {
      Sound(StoredStream(plain), sum, meta.uncompressedSize, meta.crc32)
    }

    /** Where the watcher of a stored entry is; without one, nowhere. */
    ghost function WatchNow(): Watch
      reads if kind.Direct? && kind.watcher.Some? then {kind.watcher.value} else {}
    {
      if kind.Direct? && kind.watcher.Some? then kind.watcher.value.watch else Watch([], true)
    }

    /** What a watcher makes of bytes of the entry. */
    ghost function Watched(before: Watch, offset: nat, n: nat): (Watch, Option<bool>)
      requires offset + n <= |plain|
    {
      Observed(sum, before, Block(offset, plain[offset..offset + n]), meta.uncompressedSize, meta.crc32)
    }

    /** A stored read that the watcher follows and that gets to the end of the entry. */
    ghost predicate Completes(before: Watch, offset: nat, n: nat) {
      kind.Direct? && !before.disabled && offset == |before.fed| && 0 < n && offset + n == |plain|
    }

    /** The verdict on a stored entry is what it deserves. */
    ghost predicate DirectlyJudged()
      reads meta
    {
      meta.verifyState == if DirectSound() then VerifiedOk else VerifiedBad
    }

    /** Bytes of the entry, as many as were asked for unless it ends first. */
    ghost predicate Right(bytes: seq<byte>, offset: nat, size: nat) {
      && |bytes| <= size
      && (bytes != [] ==> offset + |bytes| <= |plain| && bytes == plain[offset..offset + |bytes|])
      && (|bytes| < size && offset + |bytes| < meta.uncompressedSize ==> offset + |bytes| == |plain|)
    }

    /** With checks on, bytes up to the end of a compressed entry are handed out only if it is sound. */
    ghost predicate EndIsSound(offset: nat, n: nat) {
      kind.Coded? && kind.pool.budget.verify && offset < meta.uncompressedSize == offset + n ==>
        kind.pool.SoundFor(meta)
    }

    /** What a stored read does to the watcher and to the verdict, whatever comes of it. */
    ghost predicate AfterStored(before: Watch, state: VerifyState, offset: nat, n: nat, r: Result<seq<byte>, Errno>)
      requires kind.Direct? && offset + n <= |plain|
      reads meta, if kind.watcher.Some? then {kind.watcher.value} else {}
    {
      if kind.watcher.None? then meta.verifyState == state
      else
        var (next, verdict) := Watched(before, offset, n);
        || (r.Err? && WatchNow() == before && meta.verifyState == state)
        || (WatchNow() == next && meta.verifyState == StateAfter(state, verdict) && r.Ok? == (verdict != Some(false)))
    }

    ghost function StateAfter(state: VerifyState, verdict: Option<bool>): VerifyState {
      match verdict
      case None => state
      case Some(good) => if good then VerifiedOk else VerifiedBad
    }

    /** The bytes came through: only the watcher can have refused them. */
    ghost predicate Passed(before: Watch, offset: nat, n: nat, r: Result<seq<byte>, Errno>)
      requires kind.Direct? && offset + n <= |plain|
      reads if kind.watcher.Some? then {kind.watcher.value} else {}
    {
      if kind.watcher.None? then r.Ok?
      else
        var (next, verdict) := Watched(before, offset, n);
        WatchNow() == next && r.Ok? == (verdict != Some(false))
    }

    /** `read`: refused once a change is known, and otherwise the right bytes or an error. */
    method Read(offset: nat, size: nat) returns (reply: Reply)
      requires Valid() && reader.disk.Honest()
      modifies reader, reader.disk, meta, Footprint()
      ensures Valid() && reader.disk.Honest()
      ensures old(reader.stale) ==> reply == Error(ESTALE)
      ensures reply.Data? ==> Right(reply.bytes, offset, size)
      ensures reply == Error(ESTALE) ==> reader.stale
      ensures reply == Error(EIO) ==> !reader.stale
      ensures reader.Later(old(reader.failures), old(reader.stale))
      ensures reply.Error? && !old(reader.stale) && Blameless(offset) ==>
        reader.failures > old(reader.failures) || reader.stale
      ensures reply.Error? ==> reply.errno in {EIO, ESTALE}
      ensures old(meta.verifyState) == VerifiedBad ==> reply.Error? && meta.verifyState == VerifiedBad
      ensures kind.Empty? && !old(reader.stale) && old(meta.verifyState) != VerifiedBad ==> reply == Data([])
      ensures reply.Data? && Completes(old(WatchNow()), offset, |reply.bytes|) ==> DirectSound() && DirectlyJudged()
      ensures offset < |plain| <= offset + size && Completes(old(WatchNow()), offset, |plain| - offset) ==>
        || Excuse(old(reader.failures)) || old(meta.verifyState) == VerifiedBad
        || (reply.Data? == DirectSound() && DirectlyJudged())
      ensures reply.Data? && reply.bytes != [] ==> WatchNow() == Watched(old(WatchNow()), offset, |reply.bytes|).0
      ensures reply.Data? && reply.bytes == [] ==> WatchNow() == old(WatchNow())
      ensures kind.Direct? && reply.Data? && reply.bytes == [] ==> meta.verifyState == old(meta.verifyState)
      ensures offset >= meta.uncompressedSize ==>
        (reply.Data? ==> reply.bytes == []) && meta.verifyState == old(meta.verifyState)
      ensures reply.Error? ==> WatchNow() == old(WatchNow()) || meta.verifyState == VerifiedBad
      ensures Sticks(old(meta.verifyState), meta.verifyState, Inside())
      ensures reply.Data? ==> EndIsSound(offset, |reply.bytes|)
    {
      hide PositionedDecoder.Valid, AllSeparate, DecoderBudget.Valid, Sound, CodedIn, DecoderBudget.Arrays;
      if reader.stale {
        return Error(ESTALE);
      }
      if meta.verifyState == VerifiedBad {
        var e := Diagnose(reader, EIO);
        return Error(e);
      }
      var available := if offset < meta.uncompressedSize then meta.uncompressedSize - offset else 0;
      var want := Min(size, available);
      if want == 0 {
        return Data([]);
      }
      var result := Fetch(offset, want);
      match result
      case Ok(bytes) => return Data(bytes);
      case Err(errno) =>
        var e := Diagnose(reader, errno);
        return Error(e);
    }

    /**
     A stored entry read from its start to its end on one handle, with any block sizes, and again
     where a block could not be read: the last byte is handed out only if the entry is sound.
     */
    method ReadInARow(sizes: seq<nat>) returns (replies: seq<Reply>, bytes: seq<byte>)
      requires Valid() && reader.disk.Honest() && WatchNow() == WATCHING
      modifies reader, reader.disk, meta, Footprint()
      ensures Valid() && |replies| == |sizes| && bytes <= plain
      ensures bytes == plain && plain != [] ==> DirectSound() && meta.verifyState == VerifiedOk
      ensures !DirectSound() && plain != [] ==> |bytes| < |plain|
      ensures !DirectSound() && plain != [] ==>
        forall i :: 0 <= i < |sizes| && sizes[i] >= |plain| ==> replies[i].Error?
    {
      hide *;
      replies, bytes := [], [];
      NothingSoFar();
      for i := 0 to |sizes|
        invariant Valid() && reader.disk.Honest() && |replies| == i && SoFar(bytes) && kind.Direct?
        invariant Footprint() == old(Footprint())
        invariant forall k :: 0 <= k < i && sizes[k] >= |plain| && replies[k].Data? ==> bytes == plain
      {
        var reply;
        reply, bytes := NextInARow(bytes, sizes[i]);
        replies := replies + [reply];
      }
      SoFarMeans(bytes);
    }

    /** What a run of reads has brought: a beginning of the entry that the watcher follows, or all of it. */
    ghost predicate SoFar(bytes: seq<byte>)
      reads meta, if kind.Direct? && kind.watcher.Some? then {kind.watcher.value} else {}
    {
      && bytes <= plain
      && (|bytes| < |plain| ==> WatchNow() == Watch(bytes, false) || meta.verifyState == VerifiedBad)
      && (bytes == plain && plain != [] ==> DirectSound() && meta.verifyState == VerifiedOk)
    }

    lemma NothingSoFar()
      requires Valid() && WatchNow() == WATCHING
      ensures SoFar([]) && kind.Direct?
    {
    }

    lemma SoFarMeans(bytes: seq<byte>)
      requires SoFar(bytes)
      ensures bytes <= plain
      ensures |bytes| < |plain| ==> WatchNow() == Watch(bytes, false) || meta.verifyState == VerifiedBad
      ensures bytes == plain && plain != [] ==> DirectSound() && meta.verifyState == VerifiedOk
    {
    }

    method NextInARow(bytes: seq<byte>, size: nat) returns (reply: Reply, bytes': seq<byte>)
      requires Valid() && reader.disk.Honest() && kind.Direct? && SoFar(bytes)
      modifies reader, reader.disk, meta, Footprint()
      ensures Valid() && reader.disk.Honest() && SoFar(bytes') && Footprint() == old(Footprint())
      ensures size >= |plain| && reply.Data? ==> bytes' == plain
      ensures bytes == plain ==> bytes' == plain
      ensures bytes' == bytes + (if reply.Data? then reply.bytes else [])
    {
      hide *;
      DirectSize();
      SoFarMeans(bytes);
      ghost var w := WatchNow();
      reply := Read(|bytes|, size);
      bytes' := bytes;
      if reply.Data? {
        bytes' := bytes + reply.bytes;
        MoreSoFar(bytes, reply.bytes, size, w);
      } else {
        StillSoFar(bytes, w);
      }
    }

    /** More bytes of a run: the watcher follows on, or has just seen the end. */
    lemma MoreSoFar(bytes: seq<byte>, more: seq<byte>, size: nat, w: Watch)
      requires kind.Direct? && meta.uncompressedSize == |plain| && bytes <= plain && Right(more, |bytes|, size)
      requires |bytes| < |plain| ==> w == Watch(bytes, false)
      requires bytes == plain && plain != [] ==> DirectSound() && (more == [] ==> meta.verifyState == VerifiedOk)
      requires Completes(w, |bytes|, |more|) ==> DirectSound() && DirectlyJudged()
      requires more != [] ==> WatchNow() == Watched(w, |bytes|, |more|).0
      requires more == [] ==> WatchNow() == w
      ensures SoFar(bytes + more) && (size >= |plain| ==> bytes + more == plain)
    {
      hide Sound, SumOf;
      if more != [] {
        assert plain[..|bytes|] + more == plain[..|bytes| + |more|];
        assert plain[|bytes|..|bytes| + |more|] == more;
        assert |bytes| + |more| == |plain| ==> Completes(w, |bytes|, |more|);
      } else {
        assert bytes + more == bytes;
      }
    }

    lemma StillSoFar(bytes: seq<byte>, w: Watch)
      requires bytes <= plain && (|bytes| < |plain| ==> w == Watch(bytes, false) || meta.verifyState == VerifiedBad)
      requires WatchNow() == w || meta.verifyState == VerifiedBad
      requires bytes == plain && plain != [] ==> DirectSound() && meta.verifyState == VerifiedOk
      ensures SoFar(bytes)
    {
    }

    lemma DirectSize()
      requires Valid() && kind.Direct?
      ensures meta.uncompressedSize == |plain|
    {
    }

    /** The dispatch on the kind of entry. */
    method Fetch(offset: nat, want: nat) returns (r: Result<seq<byte>, Errno>)
      requires Valid() && reader.disk.Honest() && 0 < want && offset + want <= meta.uncompressedSize
      modifies reader, reader.disk, meta, Footprint()
      ensures Valid() && reader.disk.Honest()
      ensures r.Ok? ==> Right(r.value, offset, want) && (|r.value| < want ==> offset + |r.value| == |plain|)
      ensures r == Err(ESTALE) ==> reader.stale
      ensures reader.Later(old(reader.failures), old(reader.stale))
      ensures r.Err? && Blameless(offset) ==> reader.failures > old(reader.failures) || reader.stale
      ensures r.Err? ==> r.error in {EIO, ESTALE}
      ensures kind.Direct? ==> AfterStored(old(WatchNow()), old(meta.verifyState), offset, want, r)
      ensures kind.Direct? && !Excuse(old(reader.failures)) ==> Passed(old(WatchNow()), offset, want, r)
      ensures !kind.Direct? ==> WatchNow() == old(WatchNow())
      ensures Sticks(old(meta.verifyState), meta.verifyState, Inside())
      ensures r.Ok? ==> EndIsSound(offset, |r.value|)
    {
      hide EntryPool.Valid, EntryPool.Confirmed, EntryPool.TruncatedInSilence, Sound, CodedIn, DecoderBudget.Arrays;
      match kind
      case Direct(_, _) =>
        r := ReadStored(offset, want);
      case Coded(pool) =>
        var answer := pool.Read(offset, want, meta);
        match answer {
          case Ok(bytes) => r := Ok(bytes);
          case Err(e) => r := Err(ErrnoOf(e));
        }
    }

    /** A read of a stored entry: straight out of the archive, then past the watcher. */
    method ReadStored(offset: nat, want: nat) returns (r: Result<seq<byte>, Errno>)
      requires kind.Direct? && DirectFits() && WatcherFits() && DirectVerdict() && reader.disk.Honest()
      requires offset + want <= |plain|
      modifies reader, reader.disk, meta, if kind.watcher.Some? then {kind.watcher.value} else {}
      ensures WatcherFits() && DirectVerdict() && reader.disk.Honest()
      ensures r.Ok? ==> r.value == plain[offset..offset + want]
      ensures r == Err(ESTALE) ==> reader.stale
      ensures reader.Later(old(reader.failures), old(reader.stale))
      ensures r.Err? && Blameless(offset) ==> reader.failures > old(reader.failures) || reader.stale
      ensures r.Err? ==> r.error in {EIO, ESTALE}
      ensures AfterStored(old(WatchNow()), old(meta.verifyState), offset, want, r)
      ensures !Excuse(old(reader.failures)) ==> Passed(old(WatchNow()), offset, want, r)
      ensures Sticks(old(meta.verifyState), meta.verifyState, true)
    {
      hide Sound, SumOf, Observed, Follows, CodedIn;
      var buf := new byte[want](_ => 0);
      var read := ReadDirect(reader, kind.loc, offset, buf);
      if read.Err? {
        return Err(ErrnoOf(read.error));
      }
      RangeOfRange(reader.disk.mounted, kind.loc.dataStart, plain, offset, buf[..]);
      r := PastWatcher(offset, buf[..]);
    }

    /** Bytes of a stored entry on their way past its watcher. */
    method PastWatcher(offset: nat, data: seq<byte>) returns (r: Result<seq<byte>, Errno>)
      requires kind.Direct? && meta.uncompressedSize == |plain| && WatcherFits() && DirectVerdict()
      requires offset + |data| <= |plain| && data == plain[offset..offset + |data|]
      modifies meta, if kind.watcher.Some? then {kind.watcher.value} else {}
      ensures WatcherFits() && DirectVerdict() && Sticks(old(meta.verifyState), meta.verifyState, true)
      ensures r == if r.Ok? then Ok(data) else Err(EIO)
      ensures AfterStored(old(WatchNow()), old(meta.verifyState), offset, |data|, r)
      ensures Passed(old(WatchNow()), offset, |data|, r)
      ensures r.Err? ==> !DirectSound()
    {
      hide Sound, SumOf, Observed, Follows;
      if kind.watcher.Some? {
        ghost var block := Block(offset, data);
        ObservedIsRight(sum, kind.watcher.value.watch, block, plain, meta.crc32);
        var ok := kind.watcher.value.Observe(offset, data, meta);
        if !ok {
          return Err(EIO);
        }
      }
      return Ok(data);
    }
  }

  lemma RangeOfRange(file: seq<byte>, start: nat, plain: seq<byte>, offset: nat, data: seq<byte>)
    requires CodedIn(StoredStream(plain), file, start, |plain|)
    requires Holds(data, file, start + offset) && offset + |data| <= |plain|
    ensures data == plain[offset..offset + |data|]
  {
    forall i | 0 <= i < |data| ensures data[i] == plain[offset..offset + |data|][i] {
      assert plain[offset + i] == file[start + (offset + i)];
    }
  }
}
