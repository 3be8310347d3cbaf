/**
 The decoder budget as a protocol. Threads check decoders out of pools, give them back and drop
 pools, and every atomic action is a step of its own: popping the idle list and releasing the
 place in the budget are two steps, claiming a place and pushing are two, and a dropped pool
 releases its places one by one. A run is any sequence of steps; a step that is not enabled does
 nothing.
 */
module BudgetProtocol {
  import opened Bytes

  /** What a thread is in the middle of. */
  datatype Thread =
    | Free
    /** Took a decoder from the list; its place is not released yet. */
    | Popped(pool: nat)
    /** Reads with a decoder of its own. */
    | Reading(pool: nat)
    /** Holds the pool's lock and found room in its list. */
    | Checking(pool: nat)
    /** Holds the lock and a place in the budget, and is about to push. */
    | Claimed(pool: nat)
    /** Dropped a pool; this many places are still to be released. */
    | Dropping(places: nat)

  datatype Pool = Pool(idle: nat, cap: nat, holder: Option<nat>, alive: bool)

  datatype World = World(retained: int, pools: seq<Pool>, threads: seq<Thread>)

  datatype Step =
    | Open(cap: nat)
    | Pop(who: nat, pool: nat)
    | Release(who: nat)
    | Build(who: nat, pool: nat)
    | LockForReturn(who: nat)
    | TryRetain(who: nat)
    | Push(who: nat)
    | Drop(who: nat, pool: nat)

  predicate Uses(t: Thread, p: nat) {
    match t
    case Popped(q) => q == p
    case Reading(q) => q == p
    case Checking(q) => q == p
    case Claimed(q) => q == p
    case _ => false
  }

  /** A pool is dropped only when nobody borrows from it. */
  predicate Unused(w: World, p: nat) {
    forall t :: 0 <= t < |w.threads| ==> !Uses(w.threads[t], p)
  }

  predicate Unlocked(w: World, p: nat) {
    p < |w.pools| && w.pools[p].alive && w.pools[p].holder.None?
  }

  function Set(w: World, t: nat, thread: Thread): World
    requires t < |w.threads|
  {
    w.(threads := w.threads[t := thread])
  }

  function SetBoth(w: World, t: nat, thread: Thread, p: nat, pool: Pool): World
    requires t < |w.threads| && p < |w.pools|
  {
    w.(threads := w.threads[t := thread], pools := w.pools[p := pool])
  }

  function ThreadStep(max: nat, w: World, s: Step): World
    requires !s.Open? && s.who < |w.threads|
  {
    var t := s.who;
    match s
    case Pop(_, p) =>
      if w.threads[t].Free? && Unlocked(w, p) && w.pools[p].idle > 0 then
        SetBoth(w, t, Popped(p), p, w.pools[p].(idle := w.pools[p].idle - 1))
      else w
    case Release(_) =>
      match w.threads[t] {
        case Popped(p) => Set(w, t, Reading(p)).(retained := w.retained - 1)
        case Dropping(n) =>
          if n > 0 then Set(w, t, Dropping(n - 1)).(retained := w.retained - 1) else Set(w, t, Free)
        case _ => w
      }
    case Build(_, p) =>
      if w.threads[t].Free? && Unlocked(w, p) && w.pools[p].idle == 0 then Set(w, t, Reading(p)) else w
    case LockForReturn(_) =>
      if w.threads[t].Reading? && Unlocked(w, w.threads[t].pool) then
        var p := w.threads[t].pool;
        if w.pools[p].idle < w.pools[p].cap then
          SetBoth(w, t, Checking(p), p, w.pools[p].(holder := Some(t)))
        else Set(w, t, Free)
      else w
    case TryRetain(_) =>
      if w.threads[t].Checking? && w.threads[t].pool < |w.pools| then
        var p := w.threads[t].pool;
        if w.retained < max then Set(w, t, Claimed(p)).(retained := w.retained + 1)
        else SetBoth(w, t, Free, p, w.pools[p].(holder := None))
      else w
    case Push(_) =>
      if w.threads[t].Claimed? && w.threads[t].pool < |w.pools| then
        var p := w.threads[t].pool;
        SetBoth(w, t, Free, p, w.pools[p].(idle := w.pools[p].idle + 1, holder := None))
      else w
    case Drop(_, p) =>
      if w.threads[t].Free? && Unlocked(w, p) && Unused(w, p) then
        SetBoth(w, t, Dropping(w.pools[p].idle), p, w.pools[p].(idle := 0, alive := false))
      else w
  }

  function Apply(max: nat, w: World, s: Step): World {
    match s
    case Open(cap) => w.(pools := w.pools + [Pool(0, cap, None, true)])
    case _ => if s.who < |w.threads| then ThreadStep(max, w, s) else w
  }

  function Run(max: nat, w: World, steps: seq<Step>): World {
    if steps == [] then w else Apply(max, Run(max, w, steps[..|steps| - 1]), steps[|steps| - 1])
  }

  predicate Fresh(w: World) {
    w.retained == 0 && w.pools == [] && forall t :: 0 <= t < |w.threads| ==> w.threads[t].Free?
  }

  // ----- counting places

  function Idle(pools: seq<Pool>): nat {
    if pools == [] then 0 else Idle(pools[..|pools| - 1]) + pools[|pools| - 1].idle
  }

  /** The places a thread has still to hand on. */
  function Tokens(t: Thread): nat {
    match t
    case Popped(_) => 1
    case Claimed(_) => 1
    case Dropping(n) => n
    case _ => 0
  }

  function InFlight(threads: seq<Thread>): nat {
    if threads == [] then 0 else InFlight(threads[..|threads| - 1]) + Tokens(threads[|threads| - 1])
  }

  lemma {:induction false} IdleAfterUpdate(pools: seq<Pool>, p: nat, pool: Pool)
    requires p < |pools|
    ensures Idle(pools[p := pool]) + pools[p].idle == Idle(pools) + pool.idle
    decreases |pools|
  {
    var last := |pools| - 1;
    if p == last {
      assert pools[p := pool][..last] == pools[..last];
    } else {
      IdleAfterUpdate(pools[..last], p, pool);
      assert pools[p := pool][..last] == pools[..last][p := pool];
    }
  }

  lemma {:induction false} InFlightAfterUpdate(threads: seq<Thread>, t: nat, thread: Thread)
    requires t < |threads|
    ensures InFlight(threads[t := thread]) + Tokens(threads[t]) == InFlight(threads) + Tokens(thread)
    decreases |threads|
  {
    var last := |threads| - 1;
    if t == last {
      assert threads[t := thread][..last] == threads[..last];
    } else {
      InFlightAfterUpdate(threads[..last], t, thread);
      assert threads[t := thread][..last] == threads[..last][t := thread];
    }
  }

  // ----- the invariant

  /** A pool keeps to its cap, and a dead one is empty. */
  ghost predicate PoolFits(pool: Pool) {
    pool.idle <= pool.cap && (!pool.alive ==> pool.idle == 0 && pool.holder.None?)
  }

  /** A thread that says it holds a lock does, and then the list has room. */
  ghost predicate ThreadFits(w: World, t: nat)
    requires t < |w.threads|
  {
    match w.threads[t]
    case Popped(p) => p < |w.pools| && w.pools[p].alive
    case Reading(p) => p < |w.pools| && w.pools[p].alive
    case Checking(p) => p < |w.pools| && w.pools[p].holder == Some(t) && w.pools[p].idle < w.pools[p].cap
    case Claimed(p) => p < |w.pools| && w.pools[p].holder == Some(t) && w.pools[p].idle < w.pools[p].cap
    case _ => true
  }

  /** The counter is exactly the idle decoders plus the places in flight, and within the limit. */
  ghost predicate Kept(max: nat, w: World) {
    && w.retained == Idle(w.pools) + InFlight(w.threads)
    && w.retained <= max
    && (forall p :: 0 <= p < |w.pools| ==> PoolFits(w.pools[p]))
    && (forall t :: 0 <= t < |w.threads| ==> ThreadFits(w, t))
  }

  lemma ThreadStepKeeps(max: nat, w: World, s: Step)
    requires Kept(max, w) && !s.Open? && s.who < |w.threads|
    ensures Kept(max, ThreadStep(max, w, s))
  {
    var t, w' := s.who, ThreadStep(max, w, s);
    PoolStepKeeps(max, w, s);
    assert ThreadFits(w, t);
    CountsStay(max, w, s);
    forall u | 0 <= u < |w'.threads| ensures ThreadFits(w', u) {
      ThreadStaysFit(max, w, s, u);
    }
  }

  lemma CountsStay(max: nat, w: World, s: Step)
    requires !s.Open? && s.who < |w.threads| && ThreadFits(w, s.who)
    requires w.retained == Idle(w.pools) + InFlight(w.threads) <= max
    requires PoolCount(max, w, s)
    ensures var w' := ThreadStep(max, w, s);
            w'.retained == Idle(w'.pools) + InFlight(w'.threads) && w'.retained <= max
  {
    hide Idle, InFlight;
    var t, w' := s.who, ThreadStep(max, w, s);
    InFlightAfterUpdate(w.threads, t, w'.threads[t]);
    assert w'.threads == w.threads[t := w'.threads[t]];
  }

  lemma ThreadStaysFit(max: nat, w: World, s: Step, u: nat)
    requires Kept(max, w) && !s.Open? && s.who < |w.threads| && u < |w.threads|
    ensures u < |ThreadStep(max, w, s).threads| && ThreadFits(ThreadStep(max, w, s), u)
  {
    assert ThreadFits(w, s.who) && ThreadFits(w, u);
    hide PoolFits, Idle, InFlight;
  }

  /** The pool a step works on, if it changes one. */
  function Touched(w: World, s: Step): Option<nat>
    requires !s.Open? && s.who < |w.threads|
  {
    match s
    case Pop(_, p) => Some(p)
    case Drop(_, p) => Some(p)
    case LockForReturn(t) => if w.threads[t].Reading? then Some(w.threads[t].pool) else None
    case TryRetain(t) => if w.threads[t].Checking? then Some(w.threads[t].pool) else None
    case Push(t) => if w.threads[t].Claimed? then Some(w.threads[t].pool) else None
    case _ => None
  }

  /** A step changes the number of idle decoders only in the pool it works on. */
  ghost predicate PoolCount(max: nat, w: World, s: Step)
    requires !s.Open? && s.who < |w.threads|
  {
    var w' := ThreadStep(max, w, s);
    && |w'.pools| == |w.pools|
    && match Touched(w, s)
       case None => w'.pools == w.pools
       case Some(p) => p < |w.pools| ==>
         w'.pools == w.pools[p := w'.pools[p]] && Idle(w'.pools) + w.pools[p].idle == Idle(w.pools) + w'.pools[p].idle
  }

  lemma PoolStepKeeps(max: nat, w: World, s: Step)
    requires Kept(max, w) && !s.Open? && s.who < |w.threads|
    ensures var w' := ThreadStep(max, w, s);
            && |w'.pools| == |w.pools|
            && (forall p :: 0 <= p < |w'.pools| ==> PoolFits(w'.pools[p]))
    ensures PoolCount(max, w, s)
  {
    var w' := ThreadStep(max, w, s);
    assert ThreadFits(w, s.who);
    match Touched(w, s)
    case None =>
    case Some(p) =>
      if p < |w.pools| {
        assert PoolFits(w.pools[p]);
        assert w'.pools == w.pools[p := w'.pools[p]];
        IdleAfterUpdate(w.pools, p, w'.pools[p]);
      }
  }

  lemma StepKeeps(max: nat, w: World, s: Step)
    requires Kept(max, w)
    ensures Kept(max, Apply(max, w, s))
  {
    match s
    case Open(cap) =>
      var w' := Apply(max, w, s);
      assert w'.pools[..|w.pools|] == w.pools;
      forall t | 0 <= t < |w'.threads| ensures ThreadFits(w', t) {
        assert ThreadFits(w, t);
      }
    case _ =>
      if s.who < |w.threads| {
        ThreadStepKeeps(max, w, s);
      }
  }

  /** In every interleaving the budget is kept: exact, within its limit, never below zero. */
  lemma {:induction false} RunsKeepBudget(max: nat, w: World, steps: seq<Step>)
    requires Kept(max, w)
    ensures Kept(max, Run(max, w, steps))
  {
    if steps != [] {
      RunsKeepBudget(max, w, steps[..|steps| - 1]);
      StepKeeps(max, Run(max, w, steps[..|steps| - 1]), steps[|steps| - 1]);
    }
  }

  lemma {:induction false} FreshIsKept(max: nat, w: World)
    requires Fresh(w)
    ensures Kept(max, w)
  {
    NobodyHoldsPlaces(w.threads);
  }

  lemma {:induction false} NobodyHoldsPlaces(threads: seq<Thread>)
    requires forall t :: 0 <= t < |threads| ==> threads[t].Free?
    ensures InFlight(threads) == 0
  {
    if threads != [] {
      NobodyHoldsPlaces(threads[..|threads| - 1]);
    }
  }

  lemma {:induction false} DeadPoolsAreEmpty(pools: seq<Pool>)
    requires forall p :: 0 <= p < |pools| ==> PoolFits(pools[p]) && !pools[p].alive
    ensures Idle(pools) == 0
  {
    if pools != [] {
      DeadPoolsAreEmpty(pools[..|pools| - 1]);
    }
  }

  /** Every pool was dropped and no thread is in the middle of anything. */
  predicate AllGone(w: World) {
    && (forall p :: 0 <= p < |w.pools| ==> !w.pools[p].alive)
    && (forall t :: 0 <= t < |w.threads| ==> w.threads[t].Free?)
  }

  /** After any run from a fresh mount: the limits hold, and nothing leaks once all pools are gone. */
  lemma BudgetIsKept(max: nat, w: World, steps: seq<Step>)
    requires Fresh(w)
    ensures var w' := Run(max, w, steps);
            && 0 <= w'.retained <= max
            && w'.retained == Idle(w'.pools) + InFlight(w'.threads)
            && (forall p :: 0 <= p < |w'.pools| ==> w'.pools[p].idle <= w'.pools[p].cap)
            && (AllGone(w') ==> w'.retained == 0)
  {
    var w' := Run(max, w, steps);
    FreshIsKept(max, w);
    RunsKeepBudget(max, w, steps);
    assert forall p :: 0 <= p < |w'.pools| ==> PoolFits(w'.pools[p]);
    if AllGone(w') {
      NobodyHoldsPlaces(w'.threads);
      DeadPoolsAreEmpty(w'.pools);
    }
  }

  /** A place that is about to be released was counted, so the decrement never underflows. */
  lemma ReleaseNeverUnderflows(max: nat, w: World, steps: seq<Step>, t: nat)
    requires Fresh(w) && t < |Run(max, w, steps).threads| && Tokens(Run(max, w, steps).threads[t]) > 0
    ensures Run(max, w, steps).retained > 0
  {
    var w' := Run(max, w, steps);
    FreshIsKept(max, w);
    RunsKeepBudget(max, w, steps);
    InFlightAfterUpdate(w'.threads, t, Free);
  }
}
