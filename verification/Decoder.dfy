/**
 A decompressor together with the offset it has reached. Every byte it produces goes through the
 running checksum, delivered or skipped, so reaching the declared size is enough to check the
 whole entry. Reads are proved to return exactly the plaintext at the offset asked for.
 */
module Decoding {
  import opened Bytes
  import opened Guarding
  import opened Sources
  import opened Codecs

  /** Where an entry's coded bytes are and how to read them. */
  datatype Location = Location(dataStart: nat, compressedSize: nat, compression: Method)

  datatype VerifyState = Unverified | VerifiedOk | VerifiedBad

  /** The part of an entry's metadata that reading uses; the verdict is the only thing that changes. */
  class EntryMeta {
    const uncompressedSize: nat
    const crc32: nat
    var verifyState: VerifyState

    constructor (uncompressedSize: nat, crc32: nat)
      ensures this.uncompressedSize == uncompressedSize && this.crc32 == crc32 && verifyState == Unverified
    {
      this.uncompressedSize, this.crc32, verifyState := uncompressedSize, crc32, Unverified;
    }

    method SetVerifyState(state: VerifyState)
      modifies this
      ensures verifyState == state
    {
      verifyState := state;
    }
  }

  /** The entry is what the central directory says: length, checksum and an undamaged stream. */
  ghost predicate Sound<S>(z: Stream<S>, sum: Checksum, size: nat, crc32: nat) {
    |z.plain| == size && z.ending != Corrupt && SumOf(sum, z.plain) == crc32
  }

  /** The coded bytes of a stream are the bytes of its range, as far as the archive goes. */
  ghost predicate CodedIn<S>(z: Stream<S>, mounted: seq<byte>, start: nat, len: nat) {
    |z.coded| == len && forall k :: 0 <= k < len && start + k < |mounted| ==> z.coded[k] == mounted[start + k]
  }

  ghost predicate InArchive(mounted: seq<byte>, start: nat, len: nat) {
    start + len <= |mounted|
  }

  /** A verdict is never wrong about an entry whose range lies inside the archive. */
  ghost predicate VerdictHolds(state: VerifyState, sound: bool, inside: bool) {
    && (state == VerifiedOk ==> sound)
    && (state == VerifiedBad && inside ==> !sound)
  }

  /**
   A verdict lasts: whoever checks the entry again, and whenever, one is never taken back, and for
   an entry inside the archive never reversed.
   */
  ghost predicate Sticks(before: VerifyState, after: VerifyState, inside: bool) {
    before != Unverified ==> after != Unverified && (inside ==> after == before)
  }

  lemma OfferOf<S>(z: Stream<S>, mounted: seq<byte>, start: nat, len: nat, i: nat, input: seq<byte>)
    requires CodedIn(z, mounted, start, len) && i + |input| <= len
    requires Holds(input, mounted, start + i) && (input == [] <==> i == len)
    ensures Offers(z.coded, i, input)
  {
    forall k | 0 <= k < |input| ensures input[k] == z.coded[i..i + |input|][k] {
      assert z.coded[i + k] == mounted[start + (i + k)];
    }
    assert input == z.coded[i..i + |input|];
  }

  lemma NothingWritten(s: seq<byte>, from: nat)
    requires from <= |s|
    ensures s == s[..from] + [] + s[from..]
  {
  }

  /** `proves_bad`. */
  predicate ProvesBad(e: IoError) {
    e == InvalidData || e == UnexpectedEof
  }

  /** Two buffers that differ at most in one stretch. */
  ghost predicate Scribbled(before: seq<byte>, after: seq<byte>, from: nat, room: nat) {
    && |before| == |after| && from + room <= |before|
    && after[..from] == before[..from] && after[from + room..] == before[from + room..]
  }

  class PositionedDecoder<S(!new)> {
    /** The next uncompressed offset. */
    var pos: nat
    /** The stream has run out. */
    var finished: bool
    /** The entry has been checked by this decoder. */
    var verified: bool
    var crc: Option<nat>
    var state: S
    const codec: Codec<S>
    const compression: Method
    const sum: Checksum
    const src: BufSource
    const skip: array<byte>
    /** What the coded bytes stand for. */
    ghost var z: Stream<S>

    ghost function Repr(): set<object> {
      {this, src, src.buf, skip}
    }

    /** Where the machine stands: at the end, in the middle, or failed. */
    ghost predicate Standing()
      reads this, src
    {
      if finished then pos == |z.plain| && z.ending != Corrupt
      else z.at(state, src.Handed(), pos) || (z.dead(state) && z.ending.Corrupt?)
    }

    /** The running checksum covers exactly the bytes produced so far. */
    ghost predicate SumIsCurrent()
      reads this`pos, this`crc, this`z
    {
      pos <= |z.plain| && (crc.Some? ==> crc.value == Feed(sum, sum.init, z.plain[..pos]))
    }

    /** The source serves the coded bytes, and the machine keeps its contract on them. */
    ghost predicate Wired()
      reads this`z, src, src.buf
    {
      && src.Valid() && 0 < skip.Length && skip != src.buf
      && CodedIn(z, src.reader.disk.mounted, src.start, src.len)
      && Decodes(codec, z)
    }

    ghost predicate Valid()
      reads this, src, src.buf
    {
      Wired() && SumIsCurrent() && Standing()
    }

    ghost predicate Inside()
      reads this, src
    {
      InArchive(src.reader.disk.mounted, src.start, src.len)
    }

    /** `new`: at offset zero, from recycled parts. */
    constructor (
        reader: GuardedFile, loc: Location, codec: Codec<S>, sum: Checksum,
        buf: array<byte>, skip: array<byte>, verify: bool, ghost z: Stream<S>)
      requires 0 < buf.Length && 0 < skip.Length && buf != skip && loc.dataStart + loc.compressedSize <= U64_MAX
      requires CodedIn(z, reader.disk.mounted, loc.dataStart, loc.compressedSize) && Decodes(codec, z)
      ensures Valid() && pos == 0 && !finished && !verified && this.z == z
      ensures src.reader == reader && src.start == loc.dataStart && src.len == loc.compressedSize
      ensures this.codec == codec && this.sum == sum && this.skip == skip && src.buf == buf
      ensures compression == loc.compression && (crc.Some? <==> verify)
      ensures fresh(this) && fresh(src)
    {
      pos, finished, verified := 0, false, false;
      crc := if verify then Some(sum.init) else None;
      this.codec, this.sum, this.skip, this.z := codec, sum, skip, z;
      compression := loc.compression;
      var source := new BufSource(reader, loc.dataStart, loc.compressedSize, buf);
      src := source;
      state := codec.start;
      new;
      assert z.plain[..0] == [];
    }

    /** `reinit`: back to offset zero, whatever happened before. */
    method Reinit(loc: Location)
      requires src.Valid() && 0 < skip.Length && skip != src.buf && Decodes(codec, z)
      requires loc.dataStart + loc.compressedSize <= U64_MAX
      requires CodedIn(z, src.reader.disk.mounted, loc.dataStart, loc.compressedSize)
      modifies this`pos, this`finished, this`verified, this`crc, this`state, src
      ensures Valid() && pos == 0 && !finished && !verified
      ensures src.start == loc.dataStart && src.len == loc.compressedSize
      ensures crc.Some? <==> old(crc.Some?)
    {
      state := codec.start;
      src.Retarget(loc.dataStart, loc.compressedSize);
      pos := 0;
      finished := false;
      verified := false;
      if crc.Some? {
        crc := Some(sum.init);
      }
      assert z.plain[..0] == [];
    }

    /** Writes a step's output and moves the offset and the checksum along. */
    method Deliver(out: array<byte>, from: nat, output: seq<byte>)
      requires from + |output| <= out.Length && pos + |output| <= |z.plain|
      requires output == z.plain[pos..pos + |output|] && SumIsCurrent()
      modifies this`pos, this`crc, out
      ensures pos == old(pos) + |output| && SumIsCurrent() && (crc.Some? <==> old(crc.Some?))
      ensures output == [] ==> crc == old(crc)
      ensures out[..] == old(out[..from]) + output + old(out[from + |output|..])
    {
      forall k | 0 <= k < |output| {
        out[from + k] := output[k];
      }
      assert out[..] == old(out[..from]) + output + old(out[from + |output|..]);
      FeedInBlocks(sum, sum.init, z.plain[..pos], output);
      assert z.plain[..pos] + output == z.plain[..pos + |output|];
      if crc.Some? {
        crc := Some(Feed(sum, crc.value, output));
      }
      pos := pos + |output|;
    }

    /** Offers the machine what is buffered and takes note of what it took. */
    method Turn(room: nat) returns (r: Result<(Outcome<S>, bool), IoError>)
      requires Valid() && src.reader.disk.Honest() && room > 0 && !finished
      modifies this`state, src`consumed, src`filled, src`pos, src.buf, src.reader, src.reader.disk
      ensures Wired() && src.reader.disk.Honest()
      ensures src.reader.Later(old(src.reader.failures), old(src.reader.stale))
      ensures r.Err? ==> Standing() && PumpError(r.error, old(src.reader.failures))
      ensures r.Ok? ==> r.value.0.Stepped? && Turned(r.value.0, r.value.1, room)
      ensures r.Ok? && r.value.0.consumed > 0 ==> src.Handed() > old(src.Handed())
    {
      hide Decodes, CodedIn, Feed, Holds, Offers, SumIsCurrent;
      var filled := src.FillBuf();
      if filled.Err? {
        return Err(filled.error);
      }
      var input := filled.value;
      OfferOf(z, src.reader.disk.mounted, src.start, src.len, src.Handed(), input);
      r := Offer(input, room);
    }

    /** One step of the machine on buffered input. */
    method Offer(input: seq<byte>, room: nat) returns (r: Result<(Outcome<S>, bool), IoError>)
      requires Valid() && room > 0 && !finished
      requires Offers(z.coded, src.Handed(), input) && |input| == src.filled - src.pos
      modifies this`state, src`pos
      ensures Wired()
      ensures r.Err? ==> r.error == InvalidData && Standing() && z.ending.Corrupt?
      ensures r.Ok? ==> r.value.0.Stepped? && Turned(r.value.0, r.value.1, room)
      ensures r.Ok? && r.value.0.consumed > 0 ==> src.Handed() > old(src.Handed())
    {
      hide Decodes, CodedIn, Feed, Holds, Offers, SumIsCurrent;
      var step := codec.step(state, input, room);
      StepIsGood(input, room);
      state := step.state;
      if step.Failed? {
        return Err(InvalidData);
      }
      src.Consume(step.consumed);
      return Ok((step, input == []));
    }

    /** Where the machine stands once its output is delivered. */
    ghost predicate Turned(step: Outcome<S>, inputEmpty: bool, room: nat)
      requires step.Stepped?
      reads this, src
    {
      var o := pos + |step.output|;
      && |step.output| <= room && o <= |z.plain| && step.output == z.plain[pos..o]
      && (if step.done then o == |z.plain| && z.ending.Complete? else z.at(state, src.Handed(), o))
      && (!step.done && step.output == [] && step.consumed == 0 ==>
          if inputEmpty then o == |z.plain| && z.ending.Exhausted? else z.ending.Corrupt?)
    }

    /** Whatever a failing step may have left in the room it was given. */
    method Scribble(out: array<byte>, from: nat, room: nat)
      requires from + room <= out.Length
      modifies out
      ensures Scribbled(old(out[..]), out[..], from, room)
    {
      for i := from to from + room
        invariant Scribbled(old(out[..]), out[..], from, room)
      {
        var b: byte := *;
        out[i] := b;
      }
    }

    lemma SumCoversPlain()
      requires SumIsCurrent()
      ensures pos <= |z.plain|
    {
    }

    /** One round of the pump: offers what is buffered and keeps what comes out, or nothing. */
    method PumpRound(out: array<byte>, from: nat, room: nat) returns (r: Result<Option<nat>, IoError>)
      requires Valid() && src.reader.disk.Honest() && from + room <= out.Length && out != src.buf
      requires room > 0 && !finished
      modifies this`pos, this`finished, this`crc, this`state, src`consumed, src`filled, src`pos, src.buf
      modifies src.reader, src.reader.disk, out
      ensures Valid() && src.reader.disk.Honest() && (crc.Some? <==> old(crc.Some?))
      ensures src.reader.Later(old(src.reader.failures), old(src.reader.stale))
      ensures r.Ok? && r.value.Some? ==> Pumped(old(pos), old(out[..]), out[..], from, room, r.value.value)
      ensures r.Ok? && r.value.None? ==> src.Handed() > old(src.Handed())
      ensures !(r.Ok? && r.value.Some?) ==> pos == old(pos) && !finished && crc == old(crc)
      ensures r.Ok? && r.value.None? ==> out[..] == old(out[..])
      ensures r.Err? ==> PumpError(r.error, old(src.reader.failures)) && Scribbled(old(out[..]), out[..], from, room)
    {
      hide Wired, Feed, SumIsCurrent, Holds;
      ghost var was := out[..];
      SumCoversPlain();
      var turn := Turn(room);
      if turn.Err? {
        Scribble(out, from, room);
        return Err(turn.error);
      }
      var step, inputEmpty := turn.value.0, turn.value.1;
      Deliver(out, from, step.output);
      NothingWritten(was, from);
      SumCoversPlain();
      if step.output != [] {
        if step.done {
          finished := true;
        }
        return Ok(Some(|step.output|));
      }
      if step.done {
        finished := true;
        return Ok(Some(0));
      }
      if step.consumed == 0 {
        if inputEmpty {
          finished := true;
          return Ok(Some(0));
        }
        return Err(InvalidData);
      }
      return Ok(None);
    }

    /** What a successful pump step did: the next plain bytes are in place and nothing else moved. */
    ghost predicate Pumped(was: nat, before: seq<byte>, after: seq<byte>, from: nat, room: nat, n: nat)
      reads this
    {
      && n <= room && pos == was + n <= |z.plain| && from + room <= |before|
      && after == before[..from] + z.plain[was..pos] + before[from + n..]
      && (n == 0 && room > 0 ==> finished)
    }

    /** What a failed pump step may report. */
    ghost predicate PumpError(e: IoError, before: nat)
      reads this, src, src.reader
    {
      && (e != InvalidData ==> src.Excuse(before))
      && e in {StaleArchive, UnexpectedEof, InvalidData, OtherError}
      && (e == StaleArchive ==> src.reader.stale)
      && (Inside() ==> e != UnexpectedEof)
      && (e == InvalidData ==> z.ending.Corrupt?)
    }

    /**
     `Pump::step`: at least one byte, or none at the end of the stream. The loop ends because
     every round that produces nothing takes some of the coded bytes that are left.
     */
    method PumpStep(out: array<byte>, from: nat, room: nat) returns (r: Result<nat, IoError>)
      requires Valid() && src.reader.disk.Honest() && from + room <= out.Length && out != src.buf
      modifies this`pos, this`finished, this`crc, this`state, src`consumed, src`filled, src`pos, src.buf
      modifies src.reader, src.reader.disk, out
      ensures Valid() && src.reader.disk.Honest() && (crc.Some? <==> old(crc.Some?))
      ensures src.reader.Later(old(src.reader.failures), old(src.reader.stale))
      ensures r.Ok? ==> Pumped(old(pos), old(out[..]), out[..], from, room, r.value)
      ensures r.Err? ==> PumpError(r.error, old(src.reader.failures)) && room > 0
      ensures r.Err? ==> pos == old(pos) && !finished && Scribbled(old(out[..]), out[..], from, room)
    {
      hide Decodes, CodedIn, Feed, Holds;
      if room == 0 || finished {
        NothingWritten(out[..], from);
        assert z.plain[pos..pos] == [];
        return Ok(0);
      }
      while true
        invariant Valid() && src.reader.disk.Honest() && !finished && pos == old(pos)
        invariant src.reader.Later(old(src.reader.failures), old(src.reader.stale))
        invariant out[..] == old(out[..]) && crc == old(crc)
        decreases src.len - src.Handed()
      {
        var round := PumpRound(out, from, room);
        match round
        case Err(e) => return Err(e);
        case Ok(Some(n)) => return Ok(n);
        case Ok(None) =>
      }
    }

    /** The archive could not be read, or changed; nothing is wrong with the entry itself. */
    ghost predicate IoFailed(e: IoError, before: nat)
      reads src.reader
    {
      e in {StaleArchive, OtherError} && (src.reader.failures > before || src.reader.stale)
    }

    /** The verdict on record is right about this entry. */
    ghost predicate VerdictIsRight(meta: EntryMeta)
      reads this, src, meta
    {
      VerdictHolds(meta.verifyState, SoundFor(meta), Inside())
    }

    ghost predicate SoundFor(meta: EntryMeta)
      reads this`z
    {
      Sound(z, sum, meta.uncompressedSize, meta.crc32)
    }

    /** The verdict on record is what the entry deserves, and so is the answer. */
    ghost predicate Judged(meta: EntryMeta, ok: bool)
      reads this`z, meta
    {
      ok == SoundFor(meta) && meta.verifyState == if SoundFor(meta) then VerifiedOk else VerifiedBad
    }

    /** A read that cannot but reach the end of the declared size. */
    ghost predicate CoversEnd(meta: EntryMeta, offset: nat, room: nat)
      reads this`z
    {
      offset <= meta.uncompressedSize <= Min(offset + room, |z.plain|) && z.ending != Corrupt
    }

    /** Whether the stream goes on past this point. */
    method OneByteMore() returns (r: Result<bool, IoError>)
      requires Valid() && src.reader.disk.Honest()
      modifies this`pos, this`finished, this`crc, this`state
      modifies src`consumed, src`filled, src`pos, src.buf, src.reader, src.reader.disk
      ensures Valid() && src.reader.disk.Honest() && (crc.Some? <==> old(crc.Some?))
      ensures src.reader.Later(old(src.reader.failures), old(src.reader.stale)) && pos >= old(pos)
      ensures r.Err? ==> PumpError(r.error, old(src.reader.failures)) && pos == old(pos)
      ensures r.Ok? && r.value ==> |z.plain| > old(pos)
      ensures r.Ok? && !r.value ==> pos == old(pos) == |z.plain| && finished && z.ending != Corrupt
    {
      hide Wired, Feed;
      var extra := new byte[1];
      var step := PumpStep(extra, 0, 1);
      match step
      case Err(e) => return Err(e);
      case Ok(n) => return Ok(n > 0);
    }

    /** `verify`: checks the finished entry once, by length, checksum and one byte too many. */
    method Verify(meta: EntryMeta) returns (r: Result<(), IoError>)
      requires Valid() && src.reader.disk.Honest() && pos >= meta.uncompressedSize && VerdictIsRight(meta)
      modifies this`pos, this`finished, this`verified, this`crc, this`state
      modifies src`consumed, src`filled, src`pos, src.buf, src.reader, src.reader.disk, meta
      ensures Valid() && src.reader.disk.Honest() && (crc.Some? <==> old(crc.Some?))
      ensures src.reader.Later(old(src.reader.failures), old(src.reader.stale)) && pos >= old(pos)
      ensures VerdictIsRight(meta)
      ensures old(verified) ==> r.Ok? && pos == old(pos) && finished == old(finished)
      ensures !old(verified) && r.Ok? ==> pos == old(pos) == meta.uncompressedSize
      ensures !old(verified) && r.Ok? && crc.Some? ==> meta.verifyState == VerifiedOk && finished && SoundFor(meta)
      ensures r.Err? && SoundFor(meta) && Inside() ==> IoFailed(r.error, old(src.reader.failures))
      ensures r.Err? ==> r.error in {StaleArchive, UnexpectedEof, InvalidData, OtherError}
      ensures r == Err(StaleArchive) ==> src.reader.stale
      ensures r.Err? && r.error in {StaleArchive, OtherError} ==> !verified && meta.verifyState == old(meta.verifyState)
      ensures Sticks(old(meta.verifyState), meta.verifyState, Inside()) && pos >= meta.uncompressedSize
      ensures r.Err? && r.error in {InvalidData, UnexpectedEof} ==> meta.verifyState == VerifiedBad && verified
      ensures r.Ok? ==> verified
      ensures !old(verified) && crc.Some? && !src.Excuse(old(src.reader.failures)) ==> Judged(meta, r.Ok?)
      ensures !old(verified) && crc.None? ==>
        if old(pos) == meta.uncompressedSize then r.Ok? && meta.verifyState == old(meta.verifyState)
        else r.Err? && meta.verifyState == VerifiedBad
    {
      hide Wired, Feed;
      if verified {
        return Ok(());
      }
      verified := true;
      if pos != meta.uncompressedSize {
        meta.SetVerifyState(VerifiedBad);
        return Err(UnexpectedEof);
      }
      if crc.None? {
        return Ok(());
      }
      var total := sum.finish(crc.value);
      assert total == SumOf(sum, z.plain[..pos]);
      var step := OneByteMore();
      if step.Err? {
        if ProvesBad(step.error) {
          meta.SetVerifyState(VerifiedBad);
        } else {
          verified := false;
        }
        return Err(step.error);
      }
      var overrun := step.value;
      assert z.plain[..|z.plain|] == z.plain;
      if total != meta.crc32 || overrun {
        meta.SetVerifyState(VerifiedBad);
        return Err(InvalidData);
      }
      meta.SetVerifyState(VerifiedOk);
      return Ok(());
    }

    /** The first loop of `read_at`: decompresses and discards up to an offset. */
    method SkipTo(offset: nat) returns (r: Result<(), IoError>)
      requires Valid() && src.reader.disk.Honest() && pos <= offset
      modifies this`pos, this`finished, this`crc, this`state
      modifies src`consumed, src`filled, src`pos, src.buf, src.reader, src.reader.disk, skip
      ensures Valid() && src.reader.disk.Honest() && (crc.Some? <==> old(crc.Some?))
      ensures src.reader.Later(old(src.reader.failures), old(src.reader.stale))
      ensures old(pos) <= pos <= offset
      ensures r.Ok? ==> pos == offset
      ensures r.Err? ==> pos < offset
      ensures r.Err? ==>
        PumpError(r.error, old(src.reader.failures)) || (r.error == UnexpectedEof && |z.plain| < offset)
    {
      hide Decodes, CodedIn, Feed, Holds;
      while pos < offset
        invariant Valid() && src.reader.disk.Honest() && (crc.Some? <==> old(crc.Some?))
        invariant src.reader.Later(old(src.reader.failures), old(src.reader.stale))
        invariant old(pos) <= pos <= offset
        decreases offset - pos
      {
        var want := Min(offset - pos, skip.Length);
        var step := PumpStep(skip, 0, want);
        if step.Err? {
          return Err(step.error);
        }
        if step.value == 0 {
          return Err(UnexpectedEof);
        }
      }
      return Ok(());
    }

    /** `n` bytes of a buffer are the plaintext from an offset on. */
    ghost predicate Shows(out: seq<byte>, offset: nat, n: nat)
      reads this`z
    {
      n <= |out| && offset + n <= |z.plain| && out[..n] == z.plain[offset..offset + n]
    }

    /** The second loop of `read_at`: fills the reply, stopping at the declared size. */
    method FillOut(offset: nat, out: array<byte>, total: nat) returns (r: Result<nat, IoError>)
      requires Valid() && src.reader.disk.Honest() && pos == offset && out != src.buf
      modifies this`pos, this`finished, this`crc, this`state
      modifies src`consumed, src`filled, src`pos, src.buf, src.reader, src.reader.disk, out
      ensures Valid() && src.reader.disk.Honest() && (crc.Some? <==> old(crc.Some?))
      ensures src.reader.Later(old(src.reader.failures), old(src.reader.stale)) && pos >= offset
      ensures r.Err? ==> PumpError(r.error, old(src.reader.failures))
      ensures r.Ok? ==> pos == offset + r.value && Shows(out[..], offset, r.value) && r.value <= out.Length
      ensures r.Ok? && r.value > 0 ==> pos <= total
      ensures r.Ok? && r.value < out.Length && pos < total ==> finished && pos == |z.plain| && z.ending != Corrupt
      ensures r.Err? ==> pos < total
    {
      hide Decodes, CodedIn, Feed, Holds;
      var written := 0;
      while written < out.Length && pos < total
        invariant Valid() && src.reader.disk.Honest() && (crc.Some? <==> old(crc.Some?))
        invariant src.reader.Later(old(src.reader.failures), old(src.reader.stale))
        invariant written <= out.Length && pos == offset + written && Shows(out[..], offset, written)
        invariant written > 0 ==> pos <= total
        decreases out.Length - written
      {
        var room := Min(total - pos, out.Length - written);
        ghost var was, before := pos, out[..];
        var step := PumpStep(out, written, room);
        if step.Err? {
          return Err(step.error);
        }
        ShowsMore(before, out[..], offset, written, was, room, step.value);
        if step.value == 0 {
          return Ok(written);
        }
        written := written + step.value;
      }
      return Ok(written);
    }

    lemma ShowsMore(before: seq<byte>, after: seq<byte>, offset: nat, written: nat, was: nat, room: nat, n: nat)
      requires Shows(before, offset, written) && was == offset + written
      requires Pumped(was, before, after, written, room, n)
      ensures Shows(after, offset, written + n) && |after| == |before|
    {
      var shown, more := z.plain[offset..was], z.plain[was..was + n];
      assert before[..written] == shown;
      assert after[..written + n] == shown + more;
      assert shown + more == z.plain[offset..was + n];
    }

    /**
     `read_at`: the plaintext at an offset. A short result means the stream ended there; on a
     sound entry inside the archive nothing but the file itself can make a read fail.
     */
    method ReadAt(offset: nat, out: array<byte>, meta: EntryMeta) returns (r: Result<nat, IoError>)
      requires Valid() && src.reader.disk.Honest() && VerdictIsRight(meta)
      requires out != src.buf && out != skip
      modifies this`pos, this`finished, this`verified, this`crc, this`state
      modifies src`consumed, src`filled, src`pos, src.buf, src.reader, src.reader.disk, skip, out, meta
      ensures Valid() && src.reader.disk.Honest() && VerdictIsRight(meta) && (crc.Some? <==> old(crc.Some?))
      ensures src.reader.Later(old(src.reader.failures), old(src.reader.stale))
      ensures r == Err(InvalidInput) <==> old(pos) > offset
      ensures r == Err(StaleArchive) ==> src.reader.stale
      ensures r.Ok? ==> r.value <= out.Length && Shows(out[..], offset, r.value)
      ensures r.Ok? && r.value > 0 ==> offset + r.value <= meta.uncompressedSize
      ensures r.Ok? && r.value < out.Length && offset + r.value < meta.uncompressedSize ==>
        offset + r.value == |z.plain|
      ensures r.Err? && old(pos) <= offset <= meta.uncompressedSize && SoundFor(meta) && Inside() ==>
        IoFailed(r.error, old(src.reader.failures))
      ensures r.Err? && old(pos) <= offset <= |z.plain| < meta.uncompressedSize && z.ending != Corrupt && Inside() ==>
        IoFailed(r.error, old(src.reader.failures))
      ensures r.Ok? && !old(verified) && crc.Some? && offset + r.value >= meta.uncompressedSize ==>
        meta.verifyState == VerifiedOk && SoundFor(meta)
      ensures Sticks(old(meta.verifyState), meta.verifyState, Inside())
      ensures (old(verified) ==> old(pos) >= meta.uncompressedSize) ==> (verified ==> pos >= meta.uncompressedSize)
      ensures old(pos) <= offset && CoversEnd(meta, offset, out.Length) && !src.Excuse(old(src.reader.failures)) ==>
        pos >= meta.uncompressedSize
      ensures old(pos) <= offset <= meta.uncompressedSize <= pos && !old(verified) && crc.Some? ==>
        src.Excuse(old(src.reader.failures)) || Judged(meta, r.Ok?)
    {
      hide Wired, Feed, Standing, SumIsCurrent, Judged, VerdictHolds;
      if pos > offset {
        return Err(InvalidInput);
      }
      var total := meta.uncompressedSize;
      var skipped := SkipTo(offset);
      if skipped.Err? {
        return Err(skipped.error);
      }
      var filled := FillOut(offset, out, total);
      if filled.Err? {
        return Err(filled.error);
      }
      if pos >= total {
        var checked := Verify(meta);
        if checked.Err? {
          return Err(checked.error);
        }
      }
      return Ok(filled.value);
    }

    /** What the contract says of the next step. */
    lemma StepIsGood(input: seq<byte>, room: nat)
      requires Valid() && !finished && Offers(z.coded, src.Handed(), input) && room > 0
      ensures var r := codec.step(state, input, room);
              if z.dead(state) && !z.at(state, src.Handed(), pos) then r.Failed? && z.dead(r.state) && z.ending.Corrupt?
              else GoodStep(z, src.Handed(), pos, input, room, r)
    {
    }
  }
}
