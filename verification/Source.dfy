/** A buffered reader over one byte range of the archive. */
module Sources {
  import opened Bytes
  import opened Guarding

  class BufSource {
    const reader: GuardedFile
    var start: nat
    var len: nat
    /** Bytes of the range that have already left the buffer. */
    var consumed: nat
    const buf: array<byte>
    var filled: nat
    var pos: nat

    /** The buffer holds mounted bytes from the right place, and the range stays within 64 bits. */
    ghost predicate Valid()
      reads this, buf
    {
      && 0 < buf.Length && pos <= filled <= buf.Length
      && consumed + filled <= len && start + len <= U64_MAX
      && Holds(buf[..filled], reader.disk.mounted, start + consumed)
    }

    /** How many bytes of the range have been handed out. */
    function Handed(): nat
      reads this
    {
      consumed + pos
    }

    /** What can keep a refill from succeeding: a failed call, a changed archive, or an archive too short. */
    ghost predicate Excuse(before: nat)
      reads this, reader
    {
      reader.failures > before || reader.stale || start + len > |reader.disk.mounted|
    }

    constructor (reader: GuardedFile, start: nat, len: nat, buf: array<byte>)
      requires 0 < buf.Length && start + len <= U64_MAX
      ensures Valid() && Handed() == 0
      ensures this.reader == reader && this.start == start && this.len == len && this.buf == buf
    {
      this.reader, this.start, this.len, this.buf := reader, start, len, buf;
      consumed, filled, pos := 0, 0, 0;
    }

    /** `retarget`: another range, from its start. */
    method Retarget(start: nat, len: nat)
      requires Valid() && start + len <= U64_MAX
      modifies this
      ensures Valid() && Handed() == 0 && this.start == start && this.len == len
    {
      this.start, this.len := start, len;
      Rewind();
    }

    method Rewind()
      requires 0 < buf.Length && start + len <= U64_MAX
      modifies this`consumed, this`filled, this`pos
      ensures Valid() && Handed() == 0
    {
      consumed, filled, pos := 0, 0, 0;
    }

    /** `remaining`: never below zero. */
    method Remaining() returns (n: nat)
      requires Valid()
      ensures n == len - Handed()
    {
      n := len - consumed - pos;
    }

    /**
     `fill_buf`: the next bytes of the range, at least one unless the range is used up. A failed
     refill loses nothing: the same bytes are asked for again next time.
     */
    method FillBuf() returns (r: Result<seq<byte>, IoError>)
      requires Valid() && reader.disk.Honest()
      modifies this`consumed, this`filled, this`pos, buf, reader, reader.disk
      ensures Valid() && reader.disk.Honest() && Handed() == old(Handed()) && (old(reader.stale) ==> reader.stale)
      ensures r.Ok? ==> |r.value| == filled - pos && Holds(r.value, reader.disk.mounted, start + Handed())
      ensures r.Ok? ==> |r.value| <= len - Handed() && (r.value == [] <==> Handed() == len)
      ensures r.Err? ==> r.error in {StaleArchive, UnexpectedEof, OtherError} && pos == filled == 0
      ensures r == Err(StaleArchive) ==> reader.stale
      ensures reader.failures >= old(reader.failures) && (r.Err? ==> Excuse(old(reader.failures)))
      ensures r == Err(UnexpectedEof) ==> start + len > |reader.disk.mounted|
      ensures r.Ok? && old(reader.stale) && r.value != [] ==> old(pos < filled)
      ensures old(pos < filled || Handed() == len) ==> r.Ok? && unchanged(reader) && unchanged(reader.disk)
    {
      hide Holds;
      if pos == filled {
        var refilled := Refill();
        if refilled.Err? {
          return Err(refilled.error);
        }
      }
      ghost var held := buf[..filled];
      HoldsPart(held, reader.disk.mounted, start + consumed, pos, filled);
      assert held[pos..filled] == buf[pos..filled];
      return Ok(buf[pos..filled]);
    }

    /** A used-up buffer takes the next stretch of the range, if anything is left of it. */
    method Refill() returns (r: Result<(), IoError>)
      requires Valid() && reader.disk.Honest() && pos == filled
      modifies this`consumed, this`filled, this`pos, buf, reader, reader.disk
      ensures Valid() && reader.disk.Honest() && Handed() == old(Handed()) && pos == 0
      ensures old(reader.stale) ==> reader.stale
      ensures r.Ok? ==> (filled == 0 <==> Handed() == len) && (old(reader.stale) ==> filled == 0)
      ensures r.Err? ==> r.error in {StaleArchive, UnexpectedEof, OtherError} && filled == 0
      ensures r == Err(StaleArchive) ==> reader.stale
      ensures reader.failures >= old(reader.failures) && (r.Err? ==> Excuse(old(reader.failures)))
      ensures r == Err(UnexpectedEof) ==> start + len > |reader.disk.mounted|
      ensures old(Handed()) == len ==> r.Ok? && unchanged(reader) && unchanged(reader.disk)
    {
      consumed := consumed + filled;
      pos := 0;
      filled := 0;
      var remaining := len - consumed;
      if remaining == 0 {
        return Ok(());
      }
      var want := Min(remaining, buf.Length);
      assert start + consumed + want <= U64_MAX;
      r := reader.ReadExactAt(buf, want, start + consumed);
      if r.Ok? {
        filled := want;
      }
    }

    /** `consume`: the caller took some of the buffered bytes. */
    method Consume(amount: nat)
      requires Valid()
      modifies this`pos
      ensures Valid() && pos == Min(old(pos) + amount, filled)
    {
      pos := Min(pos + amount, filled);
    }

    /**
     A caller that asks again and again, takes as much as it likes each time, and points the source
     elsewhere when it likes: whatever the amounts, and however many refills fail in between, what it
     gets of each range is that range from its start, in order and without a gap.
     */
    method Drain(ops: seq<SourceOp>) returns (taken: seq<Stretch>)
      requires Valid() && reader.disk.Honest() && forall i :: 0 <= i < |ops| ==> InRange(ops[i])
      modifies this, buf, reader, reader.disk
      ensures Valid() && reader.disk.Honest()
      ensures Starts(taken) == Aims(ops, old(start + Handed())) && AllHeld(taken, reader.disk.mounted)
      ensures taken != [] && Last(taken).at + |Last(taken).bytes| == start + Handed() <= start + len
      ensures AllTakeSome(ops) && !Excuse(old(reader.failures)) ==>
        Handed() == len || |Last(taken).bytes| >= TakesSinceAim(ops)
    {
      hide Holds;
      taken := [Stretch(start + Handed(), [])];
      NoneHeld(reader.disk.mounted, start + Handed());
      for i := 0 to |ops|
        invariant Valid() && reader.disk.Honest() && reader.failures >= old(reader.failures)
        invariant Starts(taken) == Aims(ops[..i], old(start + Handed())) && AllHeld(taken, reader.disk.mounted)
        invariant taken != [] && Last(taken).at + |Last(taken).bytes| == start + Handed()
        invariant AllTakeSome(ops[..i]) && !Excuse(old(reader.failures)) ==>
          Handed() == len || |Last(taken).bytes| >= TakesSinceAim(ops[..i])
      {
        assert ops[..i + 1][..i] == ops[..i];
        assert AllTakeSome(ops[..i + 1]) ==> AllTakeSome(ops[..i]);
        match ops[i]
        case Aim(start, len) =>
          Retarget(start, len);
          NoneHeld(reader.disk.mounted, start);
          taken := taken + [Stretch(start, [])];
        case Take(amount) =>
          var more := TakeSome(amount);
          HoldsBoth(Last(taken).bytes, more, reader.disk.mounted, Last(taken).at);
          taken := taken[|taken| - 1 := Stretch(Last(taken).at, Last(taken).bytes + more)];
      }
      assert ops[..|ops|] == ops;
    }

    /** One request of such a caller: what is buffered, up to an amount, or nothing if a refill failed. */
    method TakeSome(amount: nat) returns (bytes: seq<byte>)
      requires Valid() && reader.disk.Honest()
      modifies this`consumed, this`filled, this`pos, buf, reader, reader.disk
      ensures Valid() && reader.disk.Honest() && reader.failures >= old(reader.failures)
      ensures Handed() == old(Handed()) + |bytes| && Holds(bytes, reader.disk.mounted, start + old(Handed()))
      ensures amount > 0 && !Excuse(old(reader.failures)) ==> bytes != [] || Handed() == len
      ensures old(reader.stale) ==> reader.stale
      ensures old(Handed()) == len ==> bytes == []
    {
      hide Holds;
      var got := FillBuf();
      if got.Err? {
        NoneHeld(reader.disk.mounted, start + Handed());
        return [];
      }
      bytes := got.value[..Min(amount, |got.value|)];
      HoldsPart(got.value, reader.disk.mounted, start + Handed(), 0, |bytes|);
      Consume(amount);
    }
  }

  /** What a caller of a source may do. */
  datatype SourceOp = Take(amount: nat) | Aim(start: nat, len: nat)

  /** Bytes that were taken one after the other, and where in the archive the first of them is. */
  datatype Stretch = Stretch(at: nat, bytes: seq<byte>)

  predicate InRange(op: SourceOp) {
    op.Aim? ==> op.start + op.len <= U64_MAX
  }

  function Last<T>(s: seq<T>): T
    requires s != []
  {
    s[|s| - 1]
  }

  function Starts(taken: seq<Stretch>): seq<nat> {
    seq(|taken|, i requires 0 <= i < |taken| => taken[i].at)
  }

  /** Where each range the caller read from begins. */
  function Aims(ops: seq<SourceOp>, first: nat): seq<nat> {
    if ops == [] then [first]
    else Aims(ops[..|ops| - 1], first) + (if Last(ops).Aim? then [Last(ops).start] else [])
  }

  function TakesSinceAim(ops: seq<SourceOp>): nat {
    if ops == [] || Last(ops).Aim? then 0 else TakesSinceAim(ops[..|ops| - 1]) + 1
  }

  ghost predicate AllTakeSome(ops: seq<SourceOp>) {
    forall i :: 0 <= i < |ops| && ops[i].Take? ==> ops[i].amount > 0
  }

  ghost predicate AllHeld(taken: seq<Stretch>, file: seq<byte>) {
    forall i :: 0 <= i < |taken| ==> Holds(taken[i].bytes, file, taken[i].at)
  }

  lemma NoneHeld(file: seq<byte>, offset: nat)
    ensures Holds([], file, offset)
  {
  }

  /** Bytes that follow one another in a file. */
  lemma HoldsBoth(a: seq<byte>, b: seq<byte>, file: seq<byte>, offset: nat)
    requires Holds(a, file, offset) && Holds(b, file, offset + |a|)
    ensures Holds(a + b, file, offset)
  {
    if b == [] {
      assert a + b == a;
    } else {
      assert a + b == file[offset..offset + |a| + |b|];
    }
  }
}
