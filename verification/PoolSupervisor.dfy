module PoolSupervisor {
  // The supervisor of the shared process pool (indexer/extract_pool.py): which
  // executor is current, when a broken one is rebuilt, and when the pool gives up.
  // Threads interleave between the sections the lock makes atomic, and an executor
  // taken out of service is disposed of after the lock is released.

  import opened Wrappers

  const MAX_POOL_REBUILDS: nat := 3

  /** Executors are numbered in order of creation; `retiring` are those a thread has yet to dispose of. */
  datatype PoolState = PoolState(
    generation: nat,
    rebuilds: nat,
    latched: bool,
    executor: Option<nat>,
    created: nat,
    retiring: multiset<nat>,
    disposed: multiset<nat>)

  /** One atomic section of one thread. A rebuild may fail to create its executor: `_new_executor` raises. */
  datatype Event =
    | ReadCurrent
    | ReportBroken(generation: nat, creates: bool)
    | Shutdown
    | Dispose(executor: nat)

  function Initial(nProcesses: int): PoolState {
    if nProcesses >= 2 then PoolState(0, 0, false, Some(0), 1, multiset{}, multiset{})
    else PoolState(0, 0, false, None, 0, multiset{}, multiset{})
  }

  function Retire(s: PoolState): multiset<nat> {
    if s.executor.Some? then s.retiring + multiset{s.executor.value} else s.retiring
  }

  /** Is the report of a break acted upon? */
  predicate ActsOn(s: PoolState, generation: nat) {
    !s.latched && generation == s.generation
  }

  /** Does a report of the current break fail to rebuild? It has used up a generation all the same. */
  predicate FailsToRebuild(s: PoolState, generation: nat, creates: bool) {
    ActsOn(s, generation) && s.rebuilds < MAX_POOL_REBUILDS && !creates
  }

  /** After a failed rebuild the broken executor is still the current one, under the next generation. */
  function AfterBroken(s: PoolState, generation: nat, creates: bool): PoolState {
    if !ActsOn(s, generation) then s
    else if s.rebuilds >= MAX_POOL_REBUILDS then
      s.(latched := true, executor := None, retiring := Retire(s))
    else if !creates then
      s.(rebuilds := s.rebuilds + 1, generation := s.generation + 1)
    else
      s.(rebuilds := s.rebuilds + 1, generation := s.generation + 1, executor := Some(s.created),
         created := s.created + 1, retiring := Retire(s))
  }

  function AfterShutdown(s: PoolState): PoolState {
    s.(latched := true, executor := None, retiring := Retire(s))
  }

  predicate Enabled(s: PoolState, e: Event) {
    e.Dispose? ==> e.executor in s.retiring
  }

  function Apply(s: PoolState, e: Event): PoolState {
    match e
    case ReadCurrent => s
    case ReportBroken(generation, creates) => AfterBroken(s, generation, creates)
    case Shutdown => AfterShutdown(s)
    case Dispose(x) => s.(retiring := s.retiring - multiset{x}, disposed := s.disposed + multiset{x})
  }

  /** The supervisor's fields, changed in place under the lock. */
  class ExtractionPool {
    var generation: nat
    var rebuilds: nat
    var latched: bool
    var executor: Option<nat>
    var created: nat
    ghost var retiring: multiset<nat>
    ghost var disposed: multiset<nat>

    ghost function View(): PoolState
      reads this
    {
      PoolState(generation, rebuilds, latched, executor, created, retiring, disposed)
    }

    constructor (nProcesses: int)
      ensures View() == Initial(nProcesses)
    {
      generation, rebuilds, latched := 0, 0, false;
      retiring, disposed := multiset{}, multiset{};
      if nProcesses >= 2 {
        executor, created := Some(0), 1;
      } else {
        executor, created := None, 0;
      }
    }

    method Current() returns (current: Option<nat>, tag: nat)
      ensures current == executor && tag == generation
    {
      return executor, generation;
    }

    /**
     The locked part of `_handle_broken`; the caller disposes of what it returns. If
     the new executor cannot be created, the section raises and nobody disposes of the old.
     */
    method HandleBroken(tag: nat, creates: bool) returns (taken: Option<nat>, raised: bool)
      modifies this
      ensures View() == Apply(old(View()), ReportBroken(tag, creates))
      ensures raised <==> !old(latched) && tag == old(generation) && old(rebuilds) < 3 && !creates
      ensures taken == if !old(latched) && tag == old(generation) && !raised then old(executor) else None
    {
      if latched || tag != generation {
        return None, false;
      }
      taken, raised := executor, false;
      if rebuilds >= MAX_POOL_REBUILDS {
        latched := true;
        executor := None;
      } else {
        rebuilds := rebuilds + 1;
        generation := generation + 1;
        if !creates {
          return None, true;
        }
        executor, created := Some(created), created + 1;
      }
      if taken.Some? {
        retiring := retiring + multiset{taken.value};
      }
    }

    /** The locked part of `shutdown`. */
    method Close() returns (taken: Option<nat>)
      modifies this
      ensures View() == Apply(old(View()), Shutdown)
      ensures taken == old(executor)
    {
      taken := executor;
      if executor.Some? {
        retiring := retiring + multiset{executor.value};
      }
      executor := None;
      latched := true;
    }

    /** `executor.shutdown`, outside the lock. */
    ghost method DisposeOf(x: nat)
      requires x in retiring
      modifies this
      ensures View() == Apply(old(View()), Dispose(x))
    {
      retiring := retiring - multiset{x};
      disposed := disposed + multiset{x};
    }
  }

  // ------------------------------------------------------------------ every interleaving

  /** How often an executor is in service, awaiting disposal, or disposed of. */
  function Places(s: PoolState, x: nat): nat {
    (if s.executor == Some(x) then 1 else 0) + s.retiring[x] + s.disposed[x]
  }

  ghost predicate Sound(s: PoolState) {
    && s.generation == s.rebuilds <= MAX_POOL_REBUILDS
    && s.created <= s.generation + 1
    && (s.latched ==> s.executor == None)
    && forall x: nat :: Places(s, x) == if x < s.created then 1 else 0
  }

  lemma EventKeepsSound(s: PoolState, e: Event)
    requires Sound(s) && Enabled(s, e)
    ensures Sound(Apply(s, e))
  {
    var t := Apply(s, e);
    forall x: nat
      ensures Places(t, x) == if x < t.created then 1 else 0
    {
      assert Places(s, x) == if x < s.created then 1 else 0;
      if e.ReportBroken? && ActsOn(s, e.generation) && s.rebuilds < MAX_POOL_REBUILDS {
        assert Places(s, s.created) == 0;
        if s.executor.Some? {
          assert Places(s, s.executor.value) >= 1;
        }
      }
    }
  }

  ghost predicate IsRun(nProcesses: int, events: seq<Event>, states: seq<PoolState>) {
    && |states| == |events| + 1 && states[0] == Initial(nProcesses)
    && forall i | 0 <= i < |events| :: Enabled(states[i], events[i]) && states[i + 1] == Apply(states[i], events[i])
  }

  /**
   Under every interleaving of readers, stale or fresh reports of a break, rebuilds
   that fail, shutdowns and disposals: the generation counts the rebuilds and never
   exceeds the budget, and every executor ever created is at each moment in exactly one
   place: current, awaiting disposal, or disposed of, once.
   */
  lemma {:induction false} RunsStaySound(nProcesses: int, events: seq<Event>, states: seq<PoolState>, i: nat)
    requires IsRun(nProcesses, events, states) && i <= |events|
    ensures Sound(states[i])
  {
    if i > 0 {
      RunsStaySound(nProcesses, events, states, i - 1);
      EventKeepsSound(states[i - 1], events[i - 1]);
    }
  }

  /** Latching is final: no executor comes back and none is created. */
  lemma {:induction false} LatchingIsPermanent(nProcesses: int, events: seq<Event>, states: seq<PoolState>, i: nat, j: nat)
    requires IsRun(nProcesses, events, states) && i <= j <= |events| && states[i].latched
    ensures states[j].latched && states[j].executor == None
    ensures states[j].created == states[i].created && states[j].generation == states[i].generation
    decreases j
  {
    RunsStaySound(nProcesses, events, states, i);
    if i < j {
      LatchingIsPermanent(nProcesses, events, states, i, j - 1);
    }
  }

  lemma {:induction false} GenerationsGrow(nProcesses: int, events: seq<Event>, states: seq<PoolState>, i: nat, j: nat)
    requires IsRun(nProcesses, events, states) && i <= j <= |events|
    ensures states[i].generation <= states[j].generation
    decreases j
  {
    if i < j {
      GenerationsGrow(nProcesses, events, states, i, j - 1);
    }
  }

  predicate ActsAt(events: seq<Event>, states: seq<PoolState>, i: nat)
    requires i < |events| <= |states|
  {
    events[i].ReportBroken? && ActsOn(states[i], events[i].generation)
  }

  /** The reports acted upon among the first `n` events. */
  function Acted(events: seq<Event>, states: seq<PoolState>, n: nat): nat
    requires n <= |events| < |states|
  {
    if n == 0 then 0 else Acted(events, states, n - 1) + if ActsAt(events, states, n - 1) then 1 else 0
  }

  /** What one event does to the latch and to the rebuilds, after `acted` reports acted upon. */
  lemma EventCounts(s: PoolState, e: Event, acted: nat, down: bool)
    requires s.latched <==> down || acted > 3
    requires s.rebuilds == if acted <= 3 then acted else 3
    ensures var next := acted + if e.ReportBroken? && ActsOn(s, e.generation) then 1 else 0;
      && (Apply(s, e).latched <==> down || e == Shutdown || next > 3)
      && Apply(s, e).rebuilds == (if next <= 3 then next else 3)
    ensures (s.latched || s.executor.Some?) ==> (Apply(s, e).latched || Apply(s, e).executor.Some?)
  {
  }

  lemma RunStarts(nProcesses: int, events: seq<Event>, states: seq<PoolState>)
    requires IsRun(nProcesses, events, states)
    ensures !states[0].latched && states[0].rebuilds == 0 && Acted(events, states, 0) == 0
    ensures nProcesses >= 2 ==> states[0].executor.Some?
  {
  }

  lemma RunStep(nProcesses: int, events: seq<Event>, states: seq<PoolState>, n: nat)
    requires IsRun(nProcesses, events, states) && 0 < n <= |events|
    ensures |states| == |events| + 1 && states[n] == Apply(states[n - 1], events[n - 1])
  {
  }

  lemma ActedStep(events: seq<Event>, states: seq<PoolState>, n: nat)
    requires 0 < n <= |events| < |states|
    ensures Acted(events, states, n)
         == Acted(events, states, n - 1)
            + if events[n - 1].ReportBroken? && ActsOn(states[n - 1], events[n - 1].generation) then 1 else 0
    ensures Shutdown in events[..n] <==> Shutdown in events[..n - 1] || events[n - 1] == Shutdown
  {
    assert events[..n] == events[..n - 1] + [events[n - 1]];
  }

  /**
   The pool rebuilds on each of the first three breaks it acts upon, and gives up on
   the fourth or at its shutdown, and at no other time.
   */
  lemma {:induction false} LatchesExactlyWhen(nProcesses: int, events: seq<Event>, states: seq<PoolState>, n: nat)
    requires IsRun(nProcesses, events, states) && n <= |events|
    ensures states[n].latched <==> Shutdown in events[..n] || Acted(events, states, n) > 3
    ensures states[n].rebuilds == if Acted(events, states, n) <= 3 then Acted(events, states, n) else 3
    ensures nProcesses >= 2 && !states[n].latched ==> states[n].executor.Some?
    decreases n
  {
    hide *;
    if n > 0 {
      LatchesExactlyWhen(nProcesses, events, states, n - 1);
      RunStep(nProcesses, events, states, n);
      ActedStep(events, states, n);
      EventCounts(states[n - 1], events[n - 1], Acted(events, states, n - 1), Shutdown in events[..n - 1]);
    } else {
      RunStarts(nProcesses, events, states);
    }
  }

  /** As long as no rebuild fails, each generation has an executor of its own, numbered like it. */
  lemma {:induction false} ExecutorOfGeneration(nProcesses: int, events: seq<Event>, states: seq<PoolState>, i: nat)
    requires IsRun(nProcesses, events, states) && nProcesses >= 2 && i <= |events|
    requires forall k | 0 <= k < i && events[k].ReportBroken? ::
      !FailsToRebuild(states[k], events[k].generation, events[k].creates)
    ensures states[i].created == states[i].generation + 1
    ensures states[i].executor == if states[i].latched then None else Some(states[i].generation)
    decreases i
  {
    if i > 0 {
      ExecutorOfGeneration(nProcesses, events, states, i - 1);
    }
  }

  /** Whatever the number of threads that report the break of one generation, one of them acts. */
  lemma EachBreakActedOnOnce(nProcesses: int, events: seq<Event>, states: seq<PoolState>, i: nat, j: nat)
    requires IsRun(nProcesses, events, states) && i < j < |events|
    requires ActsAt(events, states, i) && ActsAt(events, states, j)
    ensures events[i].generation < events[j].generation
  {
    if states[i + 1].latched {
      LatchingIsPermanent(nProcesses, events, states, i + 1, j);
    } else {
      GenerationsGrow(nProcesses, events, states, i + 1, j);
    }
  }

  /** Once the threads are done and the pool is shut down, every executor has been disposed of exactly once. */
  lemma ShutdownDisposesAll(nProcesses: int, events: seq<Event>, states: seq<PoolState>)
    requires IsRun(nProcesses, events, states)
    requires Shutdown in events && states[|events|].retiring == multiset{}
    ensures forall x: nat :: states[|events|].disposed[x] == if x < states[|events|].created then 1 else 0
  {
    var i :| 0 <= i < |events| && events[i] == Shutdown;
    LatchingIsPermanent(nProcesses, events, states, i + 1, |events|);
    RunsStaySound(nProcesses, events, states, |events|);
    var last := states[|events|];
    forall x: nat
      ensures last.disposed[x] == if x < last.created then 1 else 0
    {
      assert Places(last, x) == if x < last.created then 1 else 0;
      assert last.retiring[x] == 0;
    }
  }
}
