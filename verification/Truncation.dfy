/**
 A coded stream that was cut off before it could announce its end: not an error, but a short read.
 This also puts a whole stack together, from the file to the pool, on a machine that keeps the
 contract.
 */
module Truncation {
  import opened Bytes
  import opened Guarding
  import opened Codecs
  import opened Decoding
  import opened Pooling

  const NO_SUM: Checksum := Checksum(0, (n: nat, b: byte) => 0, (n: nat) => n)

  /** A file that holds only the beginning of a marked stream, and a pool on its one entry. */
  method Assemble(coded: seq<byte>, declared: nat, verify: bool) returns (pool: EntryPool<Progress>, meta: EntryMeta)
    requires Unmarked(coded) == |coded| < declared && |coded| <= U64_MAX
    ensures pool.Valid() && pool.reader.disk.Honest() && pool.VerdictIsRight(meta) && pool.reader.failures == 0
    ensures pool.z.plain == coded && pool.CutShort(meta) && pool.Inside()
    ensures fresh(pool) && fresh(pool.budget) && fresh(pool.reader) && fresh(pool.reader.disk) && fresh(meta)
    ensures pool.owned == {} && pool.budget.Arrays() == {}
  {
    hide Decodes, CodedIn, Unmarked;
    MarkedMeetsContract(coded);
    MarkedIsCoded(coded);
    var disk := new Disk(coded, Stamp(0, 0, |coded|, 0, 0));
    var reader := new GuardedFile(disk, false);
    var config := new Config(0, 1, 1, 1, verify, 0, 0);
    config.Clamp();
    var budget := new DecoderBudget(config, (m: Method) => MARKED_CODEC, NO_SUM);
    pool := new EntryPool(budget, reader, Location(0, |coded|, Deflated), 1, MarkedStream(coded), declared);
    meta := new EntryMeta(declared, 0);
  }

  lemma MarkedIsCoded(coded: seq<byte>)
    requires Unmarked(coded) == |coded|
    ensures CodedIn(MarkedStream(coded), coded, 0, |coded|)
    ensures MarkedStream(coded).plain == coded && MarkedStream(coded).ending == Exhausted
  {
  }

  /**
   A read of such an entry, at any offset: as long as no call fails and the archive does not change,
   it fails exactly when it starts past the end of what is there, and otherwise returns what is there.
   */
  method ReadTruncated(coded: seq<byte>, declared: nat, verify: bool, offset: nat, room: nat)
    returns (r: Result<seq<byte>, IoError>, reader: GuardedFile)
    requires Unmarked(coded) == |coded| < declared && |coded| <= U64_MAX
    ensures reader.failures == 0 && !reader.stale ==>
      if offset <= |coded| then r == Ok(coded[offset..offset + Min(room, |coded| - offset)]) else r.Err?
  {
    hide EntryPool.Valid, DecoderBudget.Valid, Unmarked;
    var pool, meta := Assemble(coded, declared, verify);
    reader := pool.reader;
    r := pool.Read(offset, room, meta);
  }

  /** One byte of two: the read of both succeeds with the one, checks on or off. */
  method ShortRead(verify: bool) returns (r: Result<seq<byte>, IoError>, reader: GuardedFile)
    ensures reader.failures == 0 && !reader.stale ==> r == Ok([7])
  {
    var coded: seq<byte> := [7];
    assert Unmarked(coded) == 1;
    r, reader := ReadTruncated(coded, 2, verify, 0, 2);
    assert coded[0..1] == [7];
  }
}
