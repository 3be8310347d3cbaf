/**
 The guard as a protocol: any number of readers, each with its own buffered source, and a writer,
 taking steps in any order. A refill copies byte by byte, then looks at the latch, then at the
 stamps, and only then counts as filled; each of these is a step of its own. A run is any
 sequence of steps; a step that is not enabled does nothing.
 */
module GuardProtocol {
  import opened Bytes
  import opened Guarding

  /** What does not change during a mount. */
  datatype Mount = Mount(data: seq<byte>, stamp: Stamp)

  datatype Phase =
    | Ready
    | Copying(want: nat, got: nat)
    | Verifying(want: nat, complete: bool)
    | Examining(want: nat, complete: bool)
    | Marking

  /** What a refill told its caller: bytes accepted, the archive changed, or a failure that may pass. */
  datatype Report = Accepted | Changed | Broken

  /** One reader: the range it serves, its buffer, how far a refill has come, and what refills reported. */
  datatype Reader = Reader(
    start: nat,
    len: nat,
    consumed: nat,
    filled: nat,
    pos: nat,
    buf: seq<byte>,
    phase: Phase,
    reports: seq<Report>)

  datatype Delivery = Delivery(at: nat, bytes: seq<byte>)

  datatype World = World(
    data: seq<byte>,
    stamp: Stamp,
    stale: bool,
    unsure: bool,
    readers: seq<Reader>,
    delivered: seq<Delivery>)

  datatype Step =
    | MoveStamp(stamp: Stamp)
    | WriteData(data: seq<byte>)
    | BeginRefill(who: nat)
    | CopyByte(who: nat)
    | EndCopy(who: nat, complete: bool)
    | ReadLatch(who: nat)
    | LookAtStamps(who: nat, named: Option<Result<Stamp, IoError>>, fails: bool)
    | SetLatch(who: nat)
    | Take(who: nat, count: nat)
    | Retarget(who: nat, start: nat, len: nat)

  function Base(r: Reader): nat {
    r.start + r.consumed
  }

  // ----- the steps of one reader

  function BeginRefillOf(r: Reader): Reader {
    if r.phase.Ready? && r.pos == r.filled && r.consumed + r.filled < r.len && |r.buf| > 0 then
      var consumed := r.consumed + r.filled;
      r.(consumed := consumed, pos := 0, filled := 0, phase := Copying(Min(r.len - consumed, |r.buf|), 0))
    else r
  }

  function CopyByteOf(r: Reader, data: seq<byte>): Reader {
    if r.phase.Copying? && r.phase.got < r.phase.want && r.phase.got < |r.buf| && Base(r) + r.phase.got < |data| then
      r.(buf := r.buf[r.phase.got := data[Base(r) + r.phase.got]], phase := Copying(r.phase.want, r.phase.got + 1))
    else r
  }

  function EndCopyOf(r: Reader, complete: bool): Reader {
    if r.phase.Copying? && (complete ==> r.phase.got == r.phase.want) then
      r.(phase := Verifying(r.phase.want, complete))
    else r
  }

  function ReadLatchOf(r: Reader, stale: bool): Reader {
    if !r.phase.Verifying? then r
    else if stale then Reported(r, Changed)
    else r.(phase := Examining(r.phase.want, r.phase.complete))
  }

  /** The refill is over, with nothing buffered. */
  function Reported(r: Reader, report: Report): Reader {
    r.(phase := Ready, reports := r.reports + [report])
  }

  function SetLatchOf(r: Reader): Reader {
    if r.phase.Marking? then Reported(r, Changed) else r
  }

  function LookOf(r: Reader, found: Result<Option<Change>, IoError>): Reader {
    if !r.phase.Examining? then r
    else
      match found
      case Err(_) => Reported(r, Broken)
      case Ok(Some(_)) => r.(phase := Marking)
      case Ok(None) =>
        if r.phase.complete then Reported(r, Accepted).(filled := r.phase.want) else Reported(r, Broken)
  }

  function TakeOf(r: Reader, count: nat): Reader {
    if r.phase.Ready? && r.pos + count <= r.filled then r.(pos := r.pos + count) else r
  }

  function RetargetOf(r: Reader, start: nat, len: nat): Reader {
    if r.phase.Ready? then r.(start := start, len := len, consumed := 0, filled := 0, pos := 0) else r
  }

  // ----- the steps of the world

  /** What the comparison says when the open file shows the current stamp, or fails. */
  function Found(m: Mount, w: World, s: Step): Result<Option<Change>, IoError>
    requires s.LookAtStamps?
  {
    CompareStamps(m.stamp, Look(if s.fails then Err(OtherError) else Ok(w.stamp), s.named))
  }

  predicate ByReader(w: World, s: Step) {
    !s.MoveStamp? && !s.WriteData? && s.who < |w.readers|
  }

  /** The reader after its step. */
  function NextReader(m: Mount, w: World, s: Step): Reader
    requires ByReader(w, s)
  {
    var r := w.readers[s.who];
    match s
    case BeginRefill(_) => BeginRefillOf(r)
    case CopyByte(_) => CopyByteOf(r, w.data)
    case EndCopy(_, complete) => EndCopyOf(r, complete)
    case ReadLatch(_) => ReadLatchOf(r, w.stale)
    case LookAtStamps(_, _, _) => LookOf(r, Found(m, w, s))
    case SetLatch(_) => SetLatchOf(r)
    case Take(_, count) => TakeOf(r, count)
    case Retarget(_, start, len) => RetargetOf(r, start, len)
  }

  /** What a reader's step hands out. */
  function HandedOut(w: World, s: Step): seq<Delivery>
    requires ByReader(w, s)
  {
    var r := w.readers[s.who];
    if s.Take? && r.phase.Ready? && r.pos + s.count <= r.filled <= |r.buf| then
      [Delivery(Base(r) + r.pos, r.buf[r.pos..r.pos + s.count])]
    else []
  }

  function UnsureAfter(m: Mount, w: World, s: Step): bool
    requires ByReader(w, s)
  {
    if s.LookAtStamps? && w.readers[s.who].phase.Examining? then
      match Found(m, w, s)
      case Ok(change) => w.unsure && change.Some?
      case Err(_) => true
    else w.unsure
  }

  function ReaderStep(m: Mount, w: World, s: Step): World
    requires ByReader(w, s)
  {
    w.(
      stale := w.stale || (s.SetLatch? && w.readers[s.who].phase.Marking?),
      unsure := UnsureAfter(m, w, s),
      readers := w.readers[s.who := NextReader(m, w, s)],
      delivered := w.delivered + HandedOut(w, s))
  }

  function Apply(m: Mount, w: World, s: Step): World {
    match s
    case MoveStamp(stamp) => if Unchanged(stamp, m.stamp) then w else w.(stamp := stamp)
    case WriteData(data) => if Unchanged(w.stamp, m.stamp) then w else w.(data := data)
    case _ => if ByReader(w, s) then ReaderStep(m, w, s) else w
  }

  function Run(m: Mount, w: World, steps: seq<Step>): World {
    if steps == [] then w else Apply(m, Run(m, w, steps[..|steps| - 1]), steps[|steps| - 1])
  }

  /** A fresh mount: nothing latched, every source empty. */
  predicate Fresh(m: Mount, w: World) {
    && w.data == m.data && w.stamp == m.stamp && !w.stale && !w.unsure && w.delivered == []
    && forall i :: 0 <= i < |w.readers| ==>
         var r := w.readers[i]; r.phase.Ready? && r.consumed == r.filled == r.pos == 0 && r.reports == []
  }

  // ----- safety

  /** What the first `n` bytes of a buffer hold of the mounted file. */
  ghost predicate HoldsMounted(m: Mount, r: Reader, n: nat) {
    n <= |r.buf| && Holds(r.buf[..n], m.data, Base(r))
  }

  /** Filled bytes are mounted bytes for good; bytes still in doubt are, unless the stamp moved. */
  ghost predicate SafeReader(m: Mount, stamp: Stamp, r: Reader) {
    && r.pos <= r.filled && HoldsMounted(m, r, r.filled)
    && (!r.phase.Ready? ==> r.filled == 0)
    && (Unchanged(stamp, m.stamp) ==>
        match r.phase
        case Copying(_, got) => HoldsMounted(m, r, got)
        case Verifying(want, complete) => complete ==> HoldsMounted(m, r, want)
        case Examining(want, complete) => complete ==> HoldsMounted(m, r, want)
        case _ => true)
  }

  ghost predicate SafeDelivery(m: Mount, d: Delivery) {
    Holds(d.bytes, m.data, d.at)
  }

  ghost predicate Safe(m: Mount, w: World) {
    && (Unchanged(w.stamp, m.stamp) ==> w.data == m.data)
    && (forall i :: 0 <= i < |w.readers| ==> SafeReader(m, w.stamp, w.readers[i]))
    && (forall i :: 0 <= i < |w.delivered| ==> SafeDelivery(m, w.delivered[i]))
  }

  lemma CopyByteIsSafe(m: Mount, w: World, r: Reader)
    requires SafeReader(m, w.stamp, r) && (Unchanged(w.stamp, m.stamp) ==> w.data == m.data)
    ensures SafeReader(m, w.stamp, CopyByteOf(r, w.data))
  {
    var r' := CopyByteOf(r, w.data);
    if r' != r {
      var got := r.phase.got;
      assert r'.buf[..got + 1] == r.buf[..got] + [w.data[Base(r) + got]];
      if Unchanged(w.stamp, m.stamp) {
        HoldsOneMore(r.buf[..got], m.data, Base(r));
      }
    }
  }

  lemma LookIsSafe(m: Mount, w: World, r: Reader, s: Step)
    requires s.LookAtStamps? && SafeReader(m, w.stamp, r)
    ensures SafeReader(m, w.stamp, LookOf(r, Found(m, w, s)))
  {
    NoChangeFound(m.stamp, Look(if s.fails then Err(OtherError) else Ok(w.stamp), s.named));
  }

  lemma TakeIsSafe(m: Mount, w: World, r: Reader, count: nat)
    requires SafeReader(m, w.stamp, r) && r.pos + count <= r.filled <= |r.buf|
    ensures SafeDelivery(m, Delivery(Base(r) + r.pos, r.buf[r.pos..r.pos + count]))
  {
    HoldsPart(r.buf[..r.filled], m.data, Base(r), r.pos, r.pos + count);
    assert r.buf[..r.filled][r.pos..r.pos + count] == r.buf[r.pos..r.pos + count];
  }

  lemma NextReaderIsSafe(m: Mount, w: World, s: Step)
    requires ByReader(w, s) && SafeReader(m, w.stamp, w.readers[s.who])
    requires Unchanged(w.stamp, m.stamp) ==> w.data == m.data
    ensures SafeReader(m, w.stamp, NextReader(m, w, s))
  {
    var r := w.readers[s.who];
    match s
    case CopyByte(_) => CopyByteIsSafe(m, w, r);
    case LookAtStamps(_, _, _) => LookIsSafe(m, w, r, s);
    case _ =>
  }

  lemma HandedOutIsSafe(m: Mount, w: World, s: Step)
    requires ByReader(w, s) && SafeReader(m, w.stamp, w.readers[s.who])
    ensures forall i :: 0 <= i < |HandedOut(w, s)| ==> SafeDelivery(m, HandedOut(w, s)[i])
  {
    if HandedOut(w, s) != [] {
      TakeIsSafe(m, w, w.readers[s.who], s.count);
    }
  }

  lemma StepIsSafe(m: Mount, w: World, s: Step)
    requires Safe(m, w)
    ensures Safe(m, Apply(m, w, s))
  {
    hide NextReader, HandedOut, SafeDelivery, HoldsMounted, UnsureAfter;
    if ByReader(w, s) {
      hide SafeReader;
      NextReaderIsSafe(m, w, s);
      HandedOutIsSafe(m, w, s);
    }
  }

  lemma {:induction false} RunsAreSafe(m: Mount, w: World, steps: seq<Step>)
    requires Safe(m, w)
    ensures Safe(m, Run(m, w, steps))
  {
    if steps != [] {
      RunsAreSafe(m, w, steps[..|steps| - 1]);
      StepIsSafe(m, Run(m, w, steps[..|steps| - 1]), steps[|steps| - 1]);
    }
  }

  /** In every interleaving, every byte that was ever handed out is the byte the mount had there. */
  lemma OnlyMountedBytes(m: Mount, w: World, steps: seq<Step>, d: nat, k: nat)
    requires Fresh(m, w) && d < |Run(m, w, steps).delivered| && k < |Run(m, w, steps).delivered[d].bytes|
    ensures var del := Run(m, w, steps).delivered[d];
            del.at + k < |m.data| && del.bytes[k] == m.data[del.at + k]
  {
    RunsAreSafe(m, w, steps);
    assert SafeDelivery(m, Run(m, w, steps).delivered[d]);
  }

  /**
   What a refill reports is true: bytes are accepted only if all of them arrived and one look found
   the stamp unmoved, a change is reported only if it was latched or is being latched, and any other
   failure only if something was missing or could not be looked at.
   */
  lemma ReportsAreTrue(m: Mount, w: World, s: Step)
    requires ByReader(w, s)
    ensures var r, r' := w.readers[s.who], NextReader(m, w, s);
            || (r'.reports == r.reports && r'.filled <= r.filled)
            || (r'.reports == r.reports + [Accepted] && Unchanged(w.stamp, m.stamp)
                && r.phase == Examining(r'.filled, true) && r'.phase.Ready?)
            || (r'.reports == r.reports + [Changed] && r'.filled == r.filled
                && (w.stale || (r.phase.Marking? && ReaderStep(m, w, s).stale)))
            || (r'.reports == r.reports + [Broken] && r'.filled == r.filled && r.phase.Examining?
                && (!r.phase.complete || LookFailed(Look(if s.fails then Err(OtherError) else Ok(w.stamp), s.named))))
  {
    if s.LookAtStamps? {
      NoChangeFound(m.stamp, Look(if s.fails then Err(OtherError) else Ok(w.stamp), s.named));
    }
  }

  // ----- the latch

  lemma {:induction false} StaleForGood(m: Mount, w: World, steps: seq<Step>)
    requires w.stale
    ensures Run(m, w, steps).stale
  {
    if steps != [] {
      StaleForGood(m, w, steps[..|steps| - 1]);
    }
  }

  /** These reports, and after them only that the archive changed. */
  ghost predicate ThenStale(before: seq<Report>, after: seq<Report>) {
    before <= after && forall k :: |before| <= k < |after| ==> after[k] == Changed
  }

  /**
   Once a change is latched, a reader that is not in the middle of a look accepts nothing more, and
   every refill it ends reports the change, whatever the other readers are doing at the time.
   */
  lemma {:induction false} OnlyStaleOnceLatched(m: Mount, w: World, steps: seq<Step>, i: nat)
    requires w.stale && i < |w.readers| && !w.readers[i].phase.Examining?
    ensures Run(m, w, steps).stale && i < |Run(m, w, steps).readers|
    ensures !Run(m, w, steps).readers[i].phase.Examining?
    ensures ThenStale(w.readers[i].reports, Run(m, w, steps).readers[i].reports)
  {
    if steps != [] {
      var w1, s := Run(m, w, steps[..|steps| - 1]), steps[|steps| - 1];
      OnlyStaleOnceLatched(m, w, steps[..|steps| - 1], i);
      LatchedStep(m, w1, s, i);
      hide Run;
      StaleStill(w.readers[i].reports, w1.readers[i].reports, Apply(m, w1, s).readers[i].reports);
    }
  }

  ghost predicate ReportsOnlyChange(before: World, after: World, i: nat) {
    && i < |before.readers| && i < |after.readers|
    && ThenStale(before.readers[i].reports, after.readers[i].reports)
  }

  /** In particular, when no look is under way at all, no reader accepts anything from then on. */
  lemma NothingAcceptedOnceStale(m: Mount, w: World, steps: seq<Step>)
    requires w.stale && forall i :: 0 <= i < |w.readers| ==> !w.readers[i].phase.Examining?
    ensures forall i :: 0 <= i < |w.readers| ==> ReportsOnlyChange(w, Run(m, w, steps), i)
  {
    forall i | 0 <= i < |w.readers| ensures ReportsOnlyChange(w, Run(m, w, steps), i) {
      OnlyStaleOnceLatched(m, w, steps, i);
    }
  }

  lemma StaleStill(a: seq<Report>, b: seq<Report>, c: seq<Report>)
    requires ThenStale(a, b) && ThenStale(b, c)
    ensures ThenStale(a, c)
  {
  }

  lemma LatchedStep(m: Mount, w: World, s: Step, i: nat)
    requires w.stale && i < |w.readers| && !w.readers[i].phase.Examining?
    ensures Apply(m, w, s).stale && i < |Apply(m, w, s).readers|
    ensures !Apply(m, w, s).readers[i].phase.Examining?
    ensures ThenStale(w.readers[i].reports, Apply(m, w, s).readers[i].reports)
  {
    hide Found, UnsureAfter, HandedOut, NextReader;
    if ByReader(w, s) && s.who == i {
      LatchedReader(m, w, s);
    }
  }

  lemma LatchedReader(m: Mount, w: World, s: Step)
    requires ByReader(w, s) && w.stale && !w.readers[s.who].phase.Examining?
    ensures !NextReader(m, w, s).phase.Examining?
    ensures ThenStale(w.readers[s.who].reports, NextReader(m, w, s).reports)
  {
  }

  /** A look that was under way when the change was latched is the last thing that can end otherwise. */
  ghost predicate OnceThenStale(before: seq<Report>, after: seq<Report>) {
    before <= after && forall k :: |before| < k < |after| ==> after[k] == Changed
  }

  /** So of all the refills a reader ends after the latch, at most the first does not report the change. */
  lemma {:induction false} AtMostOneLateReport(m: Mount, w: World, steps: seq<Step>, i: nat)
    requires w.stale && i < |w.readers|
    ensures Run(m, w, steps).stale && i < |Run(m, w, steps).readers|
    ensures OnceThenStale(w.readers[i].reports, Run(m, w, steps).readers[i].reports)
    ensures Run(m, w, steps).readers[i].phase.Examining? ==> Run(m, w, steps).readers[i].reports == w.readers[i].reports
  {
    if steps != [] {
      var w1, s := Run(m, w, steps[..|steps| - 1]), steps[|steps| - 1];
      AtMostOneLateReport(m, w, steps[..|steps| - 1], i);
      if w1.readers[i].phase.Examining? {
        LookEnds(m, w1, s, i);
      } else {
        LatchedStep(m, w1, s, i);
      }
    }
  }

  lemma LookEnds(m: Mount, w: World, s: Step, i: nat)
    requires w.stale && i < |w.readers| && w.readers[i].phase.Examining?
    ensures Apply(m, w, s).stale && i < |Apply(m, w, s).readers|
    ensures var r, r' := w.readers[i], Apply(m, w, s).readers[i];
            r'.reports == r.reports || (exists last :: r'.reports == r.reports + [last] && r'.phase.Ready?)
  {
    hide UnsureAfter, HandedOut;
  }

  /** A moved stamp can never again be taken for the mounted one, so what was seen once stays seen. */
  lemma {:induction false} MovedStampStaysMoved(m: Mount, w: World, steps: seq<Step>)
    requires !Unchanged(w.stamp, m.stamp)
    ensures !Unchanged(Run(m, w, steps).stamp, m.stamp)
  {
    if steps != [] {
      MovedStampStaysMoved(m, w, steps[..|steps| - 1]);
    }
  }

  // ----- progress

  function Copies(who: nat, k: nat): seq<Step> {
    seq(k, _ => CopyByte(who))
  }

  /** What follows a complete copy: the latch, then the stamps. */
  function Checks(who: nat, named: Option<Result<Stamp, IoError>>): seq<Step> {
    [EndCopy(who, true)] + [ReadLatch(who)] + [LookAtStamps(who, named, false)]
  }

  /** The steps of a refill in which every system call succeeds. */
  function Refill(who: nat, want: nat, named: Option<Result<Stamp, IoError>>): seq<Step> {
    [BeginRefill(who)] + Copies(who, want) + Checks(who, named)
  }

  /** The path, if it is looked at, still names the mounted file. */
  predicate Clear(m: Mount, named: Option<Result<Stamp, IoError>>) {
    named.Some? ==> named.value.Ok? && SameFile(named.value.value, m.stamp) && Unchanged(named.value.value, m.stamp)
  }

  lemma {:induction false} RunInTwo(m: Mount, w: World, a: seq<Step>, b: seq<Step>)
    ensures Run(m, w, a + b) == Run(m, Run(m, w, a), b)
    decreases |b|
  {
    if b == [] {
      assert a + b == a;
    } else {
      RunInTwo(m, w, a, b[..|b| - 1]);
      assert (a + b)[..|a + b| - 1] == a + b[..|b| - 1];
    }
  }

  lemma RunOne(m: Mount, w: World, s: Step)
    ensures Run(m, w, [s]) == Apply(m, w, s)
  {
    assert [s][..0] == [];
  }

  /** A reader with an empty buffer and something left to read, inside the archive. */
  predicate CanRefill(w: World, who: nat) {
    && who < |w.readers|
    && var r := w.readers[who];
       && r.phase.Ready? && r.pos == r.filled && r.consumed + r.filled < r.len && |r.buf| > 0
       && r.start + r.len <= |w.data|
  }

  lemma {:induction false} CopiesArrive(m: Mount, w: World, who: nat, k: nat)
    requires who < |w.readers| && w.readers[who].phase.Copying? && w.readers[who].phase.got == 0
    requires k <= w.readers[who].phase.want <= |w.readers[who].buf|
    requires Base(w.readers[who]) + w.readers[who].phase.want <= |w.data|
    ensures var r, w' := w.readers[who], Run(m, w, Copies(who, k));
            && w'.stamp == w.stamp && w'.stale == w.stale && w'.data == w.data && |w'.readers| == |w.readers|
            && |w'.readers[who].buf| == |r.buf|
            && w'.readers[who] == r.(buf := w'.readers[who].buf, phase := Copying(r.phase.want, k))
    decreases k
  {
    if k > 0 {
      CopiesArrive(m, w, who, k - 1);
      assert Copies(who, k) == Copies(who, k - 1) + [CopyByte(who)];
      assert Copies(who, k)[..k - 1] == Copies(who, k - 1);
    }
  }

  /** How much a refill asks for. */
  function Wanted(r: Reader): nat {
    if r.consumed + r.filled <= r.len then Min(r.len - r.consumed - r.filled, |r.buf|) else 0
  }

  /** The buffer is full again, or holds the rest of the range, and nothing was found wrong. */
  predicate Refilled(r: Reader, w: World, who: nat) {
    && who < |w.readers| && !w.stale && Wanted(r) > 0
    && w.readers[who].phase.Ready? && w.readers[who].filled == Wanted(r) && w.readers[who].pos == 0
    && w.readers[who].reports == r.reports + [Accepted]
  }

  lemma LastStepsSucceed(m: Mount, w: World, who: nat, r: Reader, named: Option<Result<Stamp, IoError>>)
    requires who < |w.readers| && !w.stale && Unchanged(w.stamp, m.stamp) && Wanted(r) > 0 && Clear(m, named)
    requires w.readers[who].phase == Copying(Wanted(r), Wanted(r)) && w.readers[who].pos == 0
    requires w.readers[who].reports == r.reports
    ensures Refilled(r, Run(m, w, Checks(who, named)), who)
  {
    hide Run;
    var b, c, d := EndCopy(who, true), ReadLatch(who), LookAtStamps(who, named, false);
    RunInTwo(m, w, [b] + [c], [d]);
    RunInTwo(m, w, [b], [c]);
    RunOne(m, w, b);
    var w1 := Apply(m, w, b);
    RunOne(m, w1, c);
    var w2 := Apply(m, w1, c);
    assert w2.readers[who].phase == Examining(Wanted(r), true);
    RunOne(m, w2, d);
  }

  lemma RefillAlone(m: Mount, w: World, who: nat, named: Option<Result<Stamp, IoError>>)
    requires CanRefill(w, who) && !w.stale && Unchanged(w.stamp, m.stamp) && Clear(m, named)
    ensures Refilled(w.readers[who], Run(m, w, Refill(who, Wanted(w.readers[who]), named)), who)
  {
    hide Run, Copies, Refilled;
    var r := w.readers[who];
    var want := Wanted(r);
    var a, b := [BeginRefill(who)], Copies(who, want);
    RunInTwo(m, w, a + b, Checks(who, named));
    RunInTwo(m, w, a, b);
    RunOne(m, w, BeginRefill(who));
    var w1 := Apply(m, w, BeginRefill(who));
    CopiesArrive(m, w1, who, want);
    LastStepsSucceed(m, Run(m, w1, b), who, r, named);
  }

  /** The steps one reader takes in a run. */
  function Only(who: nat, steps: seq<Step>): seq<Step> {
    if steps == [] then []
    else
      var s := steps[|steps| - 1];
      Only(who, steps[..|steps| - 1]) + (if !s.MoveStamp? && !s.WriteData? && s.who == who then [s] else [])
  }

  /** What a reader can see of a world. */
  ghost predicate LooksAlike(a: World, b: World, who: nat) {
    && a.stale == b.stale && a.stamp == b.stamp && a.data == b.data
    && who < |a.readers| == |b.readers| && a.readers[who] == b.readers[who]
  }

  /** As long as nothing changes, the other readers make no difference to one of them. */
  lemma {:induction false} OthersDoNotMatter(m: Mount, w: World, steps: seq<Step>, who: nat)
    requires who < |w.readers| && !Run(m, w, steps).stale && Unchanged(Run(m, w, steps).stamp, m.stamp)
    ensures LooksAlike(Run(m, w, steps), Run(m, w, Only(who, steps)), who)
  {
    if steps != [] {
      var front, s := steps[..|steps| - 1], steps[|steps| - 1];
      OthersDoNotMatter(m, w, front, who);
      var a, b := Run(m, w, front), Run(m, w, Only(who, front));
      StepLooksAlike(m, a, b, s, who);
      if Only(who, steps) != Only(who, front) {
        assert Only(who, steps)[..|Only(who, steps)| - 1] == Only(who, front);
      }
    }
  }

  lemma StepLooksAlike(m: Mount, a: World, b: World, s: Step, who: nat)
    requires LooksAlike(a, b, who) && !Apply(m, a, s).stale && Unchanged(Apply(m, a, s).stamp, m.stamp)
    requires Unchanged(a.stamp, m.stamp)
    ensures var b' := if !s.MoveStamp? && !s.WriteData? && s.who == who then Apply(m, b, s) else b;
            LooksAlike(Apply(m, a, s), b', who)
  {
    hide UnsureAfter, HandedOut;
  }

  /**
   A refill whose calls all succeed is accepted, with all its bytes, however the steps of other
   readers and of the writer fall in between, unless a change shows before it is over.
   */
  lemma RefillSucceeds(m: Mount, w: World, steps: seq<Step>, who: nat, named: Option<Result<Stamp, IoError>>)
    requires CanRefill(w, who) && Clear(m, named)
    requires Only(who, steps) == Refill(who, Wanted(w.readers[who]), named)
    requires !Run(m, w, steps).stale && Unchanged(Run(m, w, steps).stamp, m.stamp)
    ensures Refilled(w.readers[who], Run(m, w, steps), who)
  {
    if w.stale {
      StaleForGood(m, w, steps);
    }
    if !Unchanged(w.stamp, m.stamp) {
      MovedStampStaysMoved(m, w, steps);
    }
    OthersDoNotMatter(m, w, steps, who);
    RefillAlone(m, w, who, named);
  }
}
