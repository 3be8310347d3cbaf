/**
 Stored entries: read straight out of the archive, and checked while reads arrive in order. The
 watcher is proved, over every order of arrival, to reach a verdict exactly when an initial run
 of reads covers the entry without a gap, and then to be right.
 */
module StoredReads {
  import opened Bytes
  import opened Guarding
  import opened Codecs
  import opened Decoding

  /** One block as it was read. */
  datatype Block = Block(offset: nat, data: seq<byte>)

  /** What has been fed in order, and whether the watcher still follows. */
  datatype Watch = Watch(fed: seq<byte>, disabled: bool)

  const WATCHING := Watch([], false)

  /** One block: the watcher afterwards, and the verdict if this block completes the entry. */
  function Observed(sum: Checksum, w: Watch, b: Block, size: nat, crc32: nat): (Watch, Option<bool>) {
    if w.disabled || b.offset != |w.fed| then (w.(disabled := true), None)
    else
      var fed := w.fed + b.data;
      if |fed| < size then (Watch(fed, false), None)
      else (Watch(fed, true), Some(SumOf(sum, fed) == crc32))
  }

  class StoreVerify {
    var crc: nat
    var pos: nat
    var disabled: bool
    const sum: Checksum
    ghost var watch: Watch

    ghost predicate Valid()
      reads this
    {
      watch.disabled == disabled && (!disabled ==> pos == |watch.fed| && crc == Feed(sum, sum.init, watch.fed))
    }

    constructor (sum: Checksum)
      ensures Valid() && watch == WATCHING && this.sum == sum
    {
      this.sum, crc, pos, disabled, watch := sum, sum.init, 0, false, WATCHING;
    }

    /** `observe`: false once the entry is known not to match. */
    method Observe(offset: nat, data: seq<byte>, meta: EntryMeta) returns (ok: bool)
      requires Valid()
      modifies this, meta
      ensures Valid()
      ensures var (next, verdict) := Observed(sum, old(watch), Block(offset, data), meta.uncompressedSize, meta.crc32);
              && watch == next
              && ok == (verdict != Some(false))
              && meta.verifyState == (match verdict
                                      case None => old(meta.verifyState)
                                      case Some(good) => if good then VerifiedOk else VerifiedBad)
      ensures Sticks(old(meta.verifyState), meta.verifyState, false)
    {
      watch := Observed(sum, watch, Block(offset, data), meta.uncompressedSize, meta.crc32).0;
      if disabled || offset != pos {
        disabled := true;
        return true;
      }
      FeedInBlocks(sum, sum.init, old(watch).fed, data);
      crc := Feed(sum, crc, data);
      pos := pos + |data|;
      if pos < meta.uncompressedSize {
        return true;
      }
      disabled := true;
      var matches := sum.finish(crc) == meta.crc32;
      meta.SetVerifyState(if matches then VerifiedOk else VerifiedBad);
      return matches;
    }
  }

  // ----- every order of arrival

  /** The watcher after a number of blocks. */
  function After(sum: Checksum, blocks: seq<Block>, size: nat, crc32: nat): Watch {
    if blocks == [] then WATCHING
    else Observed(sum, After(sum, blocks[..|blocks| - 1], size, crc32), blocks[|blocks| - 1], size, crc32).0
  }

  /** The verdict, if any, that block `k` brings. */
  function VerdictAt(sum: Checksum, blocks: seq<Block>, size: nat, crc32: nat, k: nat): Option<bool>
    requires k < |blocks|
  {
    Observed(sum, After(sum, blocks[..k], size, crc32), blocks[k], size, crc32).1
  }

  function Covered(blocks: seq<Block>, k: nat): nat
    requires k <= |blocks|
  {
    if k == 0 then 0 else Covered(blocks, k - 1) + |blocks[k - 1].data|
  }

  /** The first `k` blocks follow one another from offset zero. */
  ghost predicate InARow(blocks: seq<Block>, k: nat)
    requires k <= |blocks|
  {
    forall i :: 0 <= i < k ==> blocks[i].offset == Covered(blocks, i)
  }

  /** They complete an entry of this size with the last of them, and not before. */
  ghost predicate Completes(blocks: seq<Block>, size: nat, k: nat)
    requires k < |blocks|
  {
    InARow(blocks, k + 1) && Covered(blocks, k + 1) >= size && (k > 0 ==> Covered(blocks, k) < size)
  }

  /** Blocks that really are parts of one entry. */
  ghost predicate PartsOf(blocks: seq<Block>, plain: seq<byte>) {
    forall i :: 0 <= i < |blocks| ==>
      blocks[i].offset + |blocks[i].data| <= |plain| &&
      blocks[i].data == plain[blocks[i].offset..blocks[i].offset + |blocks[i].data|]
  }

  lemma {:induction false} CoveredGrows(blocks: seq<Block>, j: nat, k: nat)
    requires j <= k <= |blocks|
    ensures Covered(blocks, j) <= Covered(blocks, k)
    decreases k
  {
    if j < k {
      CoveredGrows(blocks, j, k - 1);
    }
  }

  /** The watcher follows exactly as long as the blocks are in a row and short of the size. */
  lemma {:induction false} FollowsInARow(sum: Checksum, blocks: seq<Block>, size: nat, crc32: nat, k: nat)
    requires k <= |blocks|
    ensures var w := After(sum, blocks[..k], size, crc32);
            && (!w.disabled <==> InARow(blocks, k) && (k > 0 ==> Covered(blocks, k) < size))
            && (!w.disabled ==> |w.fed| == Covered(blocks, k))
    decreases k
  {
    if k > 0 {
      FollowsInARow(sum, blocks, size, crc32, k - 1);
      AfterOneMore(sum, blocks, size, crc32, k - 1);
      OneMoreInARow(blocks, k - 1);
      hide After, InARow, Covered, SumOf;
    }
  }

  lemma AfterOneMore(sum: Checksum, blocks: seq<Block>, size: nat, crc32: nat, k: nat)
    requires k < |blocks|
    ensures After(sum, blocks[..k + 1], size, crc32)
         == Observed(sum, After(sum, blocks[..k], size, crc32), blocks[k], size, crc32).0
  {
    assert blocks[..k + 1][..k] == blocks[..k];
  }

  lemma OneMoreInARow(blocks: seq<Block>, k: nat)
    requires k < |blocks|
    ensures InARow(blocks, k + 1) <==> InARow(blocks, k) && blocks[k].offset == Covered(blocks, k)
    ensures Covered(blocks, k + 1) == Covered(blocks, k) + |blocks[k].data| && Covered(blocks, 0) == 0
  {
  }

  /** A verdict comes with a block exactly when that block completes a gapless run from the start. */
  lemma VerdictIffComplete(sum: Checksum, blocks: seq<Block>, size: nat, crc32: nat, k: nat)
    requires k < |blocks|
    ensures VerdictAt(sum, blocks, size, crc32, k).Some? <==> Completes(blocks, size, k)
  {
    FollowsInARow(sum, blocks, size, crc32, k);
  }

  /** So there is at most one, and a read is failed at most once. */
  lemma AtMostOneVerdict(sum: Checksum, blocks: seq<Block>, size: nat, crc32: nat, j: nat, k: nat)
    requires j < |blocks| && k < |blocks|
    requires VerdictAt(sum, blocks, size, crc32, j).Some? && VerdictAt(sum, blocks, size, crc32, k).Some?
    ensures j == k
  {
    VerdictIffComplete(sum, blocks, size, crc32, j);
    VerdictIffComplete(sum, blocks, size, crc32, k);
    if j < k {
      CoveredGrows(blocks, j + 1, k);
    } else if k < j {
      CoveredGrows(blocks, k + 1, j);
    }
  }

  /** What was fed so far is the beginning of the entry. */
  ghost predicate Follows(w: Watch, plain: seq<byte>) {
    !w.disabled ==> w.fed <= plain
  }

  /** One block of an entry: the watcher keeps following, and a verdict is the truth. */
  lemma ObservedIsRight(sum: Checksum, w: Watch, b: Block, plain: seq<byte>, crc32: nat)
    requires Follows(w, plain) && PartsOf([b], plain)
    ensures var (next, verdict) := Observed(sum, w, b, |plain|, crc32);
            && Follows(next, plain)
            && (verdict.Some? ==> (verdict.value <==> Sound(StoredStream(plain), sum, |plain|, crc32)))
  {
    assert [b][0] == b;
    if !w.disabled && b.offset == |w.fed| {
      var fed := w.fed + b.data;
      assert fed == plain[..|fed|];
      assert |fed| >= |plain| ==> fed == plain;
    }
  }

  lemma {:induction false} FollowsThroughout(sum: Checksum, blocks: seq<Block>, plain: seq<byte>, crc32: nat, k: nat)
    requires k <= |blocks| && PartsOf(blocks, plain)
    ensures Follows(After(sum, blocks[..k], |plain|, crc32), plain)
    decreases k
  {
    if k > 0 {
      FollowsThroughout(sum, blocks, plain, crc32, k - 1);
      assert blocks[..k][..k - 1] == blocks[..k - 1];
      ObservedIsRight(sum, After(sum, blocks[..k - 1], |plain|, crc32), blocks[k - 1], plain, crc32);
    }
  }

  /** And it is the truth about the whole entry. */
  lemma VerdictIsRight(sum: Checksum, blocks: seq<Block>, plain: seq<byte>, crc32: nat, k: nat)
    requires k < |blocks| && PartsOf(blocks, plain)
    requires VerdictAt(sum, blocks, |plain|, crc32, k).Some?
    ensures VerdictAt(sum, blocks, |plain|, crc32, k).value
        <==> Sound(StoredStream(plain), sum, |plain|, crc32)
  {
    FollowsThroughout(sum, blocks, plain, crc32, k);
    ObservedIsRight(sum, After(sum, blocks[..k], |plain|, crc32), blocks[k], plain, crc32);
  }

  // ----- reading without a decoder

  /** `read_direct`: refuses anything outside the entry, and never computes an offset that wraps. */
  method ReadDirect(reader: GuardedFile, loc: Location, offset: nat, buf: array<byte>) returns (r: Result<(), IoError>)
    requires reader.disk.Honest()
    modifies reader, reader.disk, buf
    ensures reader.disk.Honest()
    ensures r.Ok? ==> offset + buf.Length <= loc.compressedSize && loc.dataStart + offset + buf.Length <= U64_MAX
    ensures r.Ok? ==> Holds(buf[..], reader.disk.mounted, loc.dataStart + offset)
    ensures r == Err(StaleArchive) ==> reader.stale
    ensures reader.Later(old(reader.failures), old(reader.stale))
    ensures r.Err? && r.error != InvalidInput ==>
      || reader.failures > old(reader.failures) || reader.stale
      || loc.dataStart + offset + buf.Length > |reader.disk.mounted|
    ensures r == Err(InvalidInput) <==>
      offset + buf.Length > Min(loc.compressedSize, U64_MAX) || loc.dataStart + offset + buf.Length > U64_MAX
  {
    if offset + buf.Length > U64_MAX {
      return Err(InvalidInput);
    }
    if offset + buf.Length > loc.compressedSize {
      return Err(InvalidInput);
    }
    if loc.dataStart + offset > U64_MAX {
      return Err(InvalidInput);
    }
    if loc.dataStart + offset + buf.Length > U64_MAX {
      return Err(InvalidInput);
    }
    r := reader.ReadExactAt(buf, buf.Length, loc.dataStart + offset);
    assert buf[..buf.Length] == buf[..];
  }

  /** `verify_stored`: the verdict on a stored entry that was read whole. */
  method VerifyStored(verify: bool, sum: Checksum, meta: EntryMeta, data: seq<byte>) returns (r: Result<(), IoError>)
    requires |data| == meta.uncompressedSize
    requires VerdictHolds(meta.verifyState, Sound(StoredStream(data), sum, meta.uncompressedSize, meta.crc32), true)
    modifies meta
    ensures VerdictHolds(meta.verifyState, Sound(StoredStream(data), sum, meta.uncompressedSize, meta.crc32), true)
    ensures !verify ==> r.Ok? && meta.verifyState == old(meta.verifyState)
    ensures verify ==> meta.verifyState == (if r.Ok? then VerifiedOk else VerifiedBad)
    ensures verify ==> (r.Ok? <==> Sound(StoredStream(data), sum, meta.uncompressedSize, meta.crc32))
  {
    if !verify {
      return Ok(());
    }
    var matches := sum.finish(Feed(sum, sum.init, data)) == meta.crc32;
    meta.SetVerifyState(if matches then VerifiedOk else VerifiedBad);
    return if matches then Ok(()) else Err(OtherError);
  }

  // ----- locating an entry

  const NOT_LOCATED: nat := U64_MAX

  datatype LocateError = InvalidRange | SizesDisagree | NoHeader

  /** The remembered start of an entry's data is one that was checked against its size. */
  ghost predicate CacheHolds(cached: nat, compressedSize: nat) {
    cached != NOT_LOCATED ==> cached + compressedSize <= U64_MAX
  }

  /** `data_start`: the answer from the local header, remembered once its range is known to fit. */
  method DataStart(cached: nat, compressedSize: nat, header: Result<(nat, nat), LocateError>)
    returns (r: Result<nat, LocateError>, cache: nat)
    requires CacheHolds(cached, compressedSize)
    requires header.Ok? ==> header.value.0 <= U64_MAX && header.value.1 <= U64_MAX
    ensures CacheHolds(cache, compressedSize)
    ensures r.Ok? ==> r.value + compressedSize <= U64_MAX && (cached == NOT_LOCATED ==> cache == r.value)
    ensures cached != NOT_LOCATED ==> r == Ok(cached) && cache == cached
    ensures cached == NOT_LOCATED ==>
      (r.Ok? <==> header.Ok? && header.value.1 == header.value.0 + compressedSize)
    ensures r.Err? ==> cache == cached
  {
    cache := cached;
    if cached != NOT_LOCATED {
      return Ok(cached), cache;
    }
    if header.Err? {
      return Err(header.error), cache;
    }
    var (start, end) := header.value;
    if end < start {
      return Err(InvalidRange), cache;
    }
    if end - start != compressedSize {
      return Err(SizesDisagree), cache;
    }
    return Ok(start), start;
  }
}
