/**
 Decompressors as deterministic machines driven a buffer at a time, and what is asked of one:
 whatever pieces its input comes in, it produces the next bytes of one fixed plaintext and ends
 in one fixed way.
 */
module Codecs {
  import opened Bytes

  datatype Method = Stored | Deflated | Zstandard

  /** What one call achieved; a failed machine still has a state. */
  datatype Outcome<+S> =
    | Stepped(state: S, consumed: nat, output: seq<byte>, done: bool)
    | Failed(state: S)

  /** A machine: where it starts, and one step on some input with room for some output. */
  datatype Codec<!S> = Codec(start: S, step: (S, seq<byte>, nat) -> Outcome<S>)

  /** The stream announces its end, simply runs out, or turns out to be damaged. */
  datatype Ending = Complete | Exhausted | Corrupt

  /**
   What a coded stream stands for. `at(s, i, o)` says that a machine in state `s` has taken `i`
   coded bytes and delivered `o` plain ones; `dead(s)` that it has failed.
   */
  datatype Stream<!S> = Stream(
    coded: seq<byte>,
    plain: seq<byte>,
    ending: Ending,
    at: (S, nat, nat) -> bool,
    dead: S -> bool)

  /** Some input that continues a coded stream; nothing is offered only at its end. */
  ghost predicate Offers(coded: seq<byte>, i: nat, input: seq<byte>) {
    i + |input| <= |coded| && input == coded[i..i + |input|] && (input == [] ==> i == |coded|)
  }

  ghost predicate GoodStep<S(!new)>(z: Stream<S>, i: nat, o: nat, input: seq<byte>, room: nat, r: Outcome<S>) {
    match r
    case Failed(s) => z.ending.Corrupt? && z.dead(s)
    case Stepped(s, consumed, output, done) =>
      && consumed <= |input| && |output| <= room
      && o + |output| <= |z.plain| && output == z.plain[o..o + |output|]
      && (if done then o + |output| == |z.plain| && z.ending.Complete? else z.at(s, i + consumed, o + |output|))
      && (!done && output == [] && consumed == 0 ==>
          if input == [] then o == |z.plain| && z.ending.Exhausted? else z.ending.Corrupt?)
  }

  /** The contract: it holds however the input is cut up, and a failure lasts until a reset. */
  ghost predicate Decodes<S(!new)>(c: Codec<S>, z: Stream<S>) {
    && z.at(c.start, 0, 0)
    && (forall s, i: nat, o: nat, input, room: nat ::
        z.at(s, i, o) && o <= |z.plain| && Offers(z.coded, i, input) && room > 0 ==>
        GoodStep(z, i, o, input, room, c.step(s, input, room)))
    && (forall s, input, room: nat ::
        z.dead(s) ==> c.step(s, input, room).Failed? && z.dead(c.step(s, input, room).state))
  }

  // ----- the stored codec

  /** `Store::step`: copies what fits and never announces an end. */
  function StoreStep(s: (), input: seq<byte>, room: nat): Outcome<()> {
    var n := Min(|input|, room);
    Stepped((), n, input[..n], false)
  }

  const STORE_CODEC: Codec<()> := Codec((), StoreStep)

  /** A stored stream is its own plaintext. */
  function StoredStream(coded: seq<byte>): Stream<()> {
    Stream(coded, coded, Exhausted, (s: (), i: nat, o: nat) => i == o, (s: ()) => false)
  }

  lemma StoreMeetsContract(coded: seq<byte>)
    ensures Decodes(STORE_CODEC, StoredStream(coded))
  {
    var z := StoredStream(coded);
    forall s, i: nat, o: nat, input, room: nat | z.at(s, i, o) && o <= |z.plain| && Offers(coded, i, input) && room > 0
      ensures GoodStep(z, i, o, input, room, STORE_CODEC.step(s, input, room))
    {
      var n := Min(|input|, room);
      assert input[..n] == coded[o..o + n];
    }
  }

  /** It moves as much as there is, or as there is room for, at once. */
  lemma StoreMovesAll(input: seq<byte>, room: nat)
    ensures var r := StoreStep((), input, room);
            r.Stepped? && r.consumed == |r.output| && r.output <= input && (r.output == input || |r.output| == room)
  {
  }

  // ----- a machine that ends in every way

  datatype Progress = Running | Dead

  /** How many bytes at the front are neither of the two marks. */
  function Unmarked(bytes: seq<byte>): (n: nat)
    ensures n <= |bytes| && (n < |bytes| ==> bytes[n] in {END_MARK, BAD_MARK})
    ensures forall k :: 0 <= k < n ==> bytes[k] !in {END_MARK, BAD_MARK}
  {
    if bytes == [] || bytes[0] in {END_MARK, BAD_MARK} then 0 else 1 + Unmarked(bytes[1..])
  }

  const END_MARK: byte := 0
  const BAD_MARK: byte := 255

  /** Copies up to a mark; one mark announces the end and the other is damage. */
  function MarkedStep(s: Progress, input: seq<byte>, room: nat): Outcome<Progress> {
    var n := Min(Unmarked(input), room);
    if s.Dead? then Failed(Dead)
    else if n > 0 || room == 0 || input == [] then Stepped(Running, n, input[..n], false)
    else if input[0] == END_MARK then Stepped(Running, 1, [], true)
    else Failed(Dead)
  }

  const MARKED_CODEC: Codec<Progress> := Codec(Running, MarkedStep)

  function MarkedStream(coded: seq<byte>): Stream<Progress> {
    var n := Unmarked(coded);
    var ending := if n == |coded| then Exhausted else if coded[n] == END_MARK then Complete else Corrupt;
    Stream(coded, coded[..n], ending, (s: Progress, i: nat, o: nat) => s.Running? && i == o, (s: Progress) => s.Dead?)
  }

  /** The contract can be met by streams that run out, that announce their end and that are damaged. */
  lemma MarkedMeetsContract(coded: seq<byte>)
    ensures Decodes(MARKED_CODEC, MarkedStream(coded))
  {
    var z := MarkedStream(coded);
    forall s, i: nat, o: nat, input, room: nat | z.at(s, i, o) && o <= |z.plain| && Offers(coded, i, input) && room > 0
      ensures GoodStep(z, i, o, input, room, MARKED_CODEC.step(s, input, room))
    {
      MarkedStepIsGood(coded, i, input, room);
    }
  }

  lemma MarkedStepIsGood(coded: seq<byte>, i: nat, input: seq<byte>, room: nat)
    requires i <= Unmarked(coded) && Offers(coded, i, input) && room > 0
    ensures GoodStep(MarkedStream(coded), i, i, input, room, MarkedStep(Running, input, room))
  {
    UnmarkedFrom(coded, i, input);
    hide Unmarked;
    var n := Min(Unmarked(input), room);
    PlainPart(coded, Unmarked(coded), i, input, n);
    if n == 0 && input != [] {
      assert input[0] == coded[i];
    }
  }

  lemma PlainPart(coded: seq<byte>, end: nat, i: nat, input: seq<byte>, n: nat)
    requires Offers(coded, i, input) && n <= |input| && i + n <= end <= |coded|
    ensures input[..n] == coded[..end][i..i + n]
  {
  }

  lemma UnmarkedFrom(coded: seq<byte>, i: nat, input: seq<byte>)
    requires i <= Unmarked(coded) && Offers(coded, i, input)
    ensures Unmarked(input) == Min(Unmarked(coded) - i, |input|)
  {
    var n, end := Unmarked(input), Unmarked(coded);
    hide Unmarked;
    if n < |input| {
      assert input[n] == coded[i + n];
    }
    if end < |coded| && end - i < |input| {
      assert input[end - i] == coded[end];
    }
  }

  // ----- checksums

  /** A running checksum: any fold over bytes, with a final transformation. */
  datatype Checksum = Checksum(init: nat, feed: (nat, byte) -> nat, finish: nat -> nat)

  function Feed(c: Checksum, state: nat, bytes: seq<byte>): nat {
    if bytes == [] then state else c.feed(Feed(c, state, bytes[..|bytes| - 1]), bytes[|bytes| - 1])
  }

  /** Updating block by block is updating once with everything. */
  lemma {:induction false} FeedInBlocks(c: Checksum, state: nat, a: seq<byte>, b: seq<byte>)
    ensures Feed(c, Feed(c, state, a), b) == Feed(c, state, a + b)
    decreases |b|
  {
    if b == [] {
      assert a + b == a;
    } else {
      FeedInBlocks(c, state, a, b[..|b| - 1]);
      assert (a + b)[..|a + b| - 1] == a + b[..|b| - 1];
    }
  }

  function SumOf(c: Checksum, bytes: seq<byte>): nat {
    c.finish(Feed(c, c.init, bytes))
  }
}
