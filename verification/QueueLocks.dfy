/** Which uses of append_from can deadlock. It takes the lock of the receiving queue first and then, with
 * that lock held, the lock of the other one. */
module QueueLocks {
  import opened Distinctness
  import opened QueueThreads

  /** A pair is a queue that is appended to and the queue it is appended from. */
  type Appends = set<(nat, nat)>

  predicate Inside(p: Pc) {
    p.Locking? || p.Moving? || p.Copied?
  }

  predicate CanGoOn(s: System, t: nat)
    requires Fits(s)
  {
    Enabled(s, t, Lock) || Enabled(s, t, Copy) || Enabled(s, t, Remove) || Enabled(s, t, Finish)
  }

  /** There are threads inside append_from, and none of them can go on. */
  ghost predicate Stuck(s: System)
    requires Fits(s)
  {
    && (exists t :: 0 <= t < |s.pc| && Inside(s.pc[t]))
    && forall t :: 0 <= t < |s.pc| && Inside(s.pc[t]) ==> !CanGoOn(s, t)
  }

  ghost predicate Within(trace: Trace, e: Appends) {
    forall k :: 0 <= k < |trace| && trace[k].1.Append? ==> (trace[k].1.dst, trace[k].1.src) in e
  }

  ghost predicate StuckAfter(queues: nat, threads: nat, trace: Trace) {
    StartInv(queues, threads);
    Runs(Start(queues, threads), trace) && Stuck(After(Start(queues, threads), trace))
  }

  /** Some program that appends only the pairs of `e` can come to a standstill. */
  ghost predicate CanDeadlock(queues: nat, threads: nat, e: Appends) {
    exists trace :: Within(trace, e) && StuckAfter(queues, threads, trace)
  }

  function Next(qs: seq<nat>, i: nat): nat
    requires i < |qs|
  {
    if i + 1 == |qs| then qs[0] else qs[i + 1]
  }

  /** Each queue of the list is appended to from the next one, the last from the first. */
  predicate Cycle(e: Appends, queues: nat, qs: seq<nat>) {
    qs != [] && forall i :: 0 <= i < |qs| ==> qs[i] < queues && (qs[i], Next(qs, i)) in e
  }

  ghost predicate HasCycle(e: Appends, queues: nat, threads: nat) {
    exists qs :: Cycle(e, queues, qs) && |qs| <= threads
  }

  /** A cycle that goes through a queue twice contains a shorter one. */
  lemma {:induction false} SimpleCycle(e: Appends, queues: nat, qs: seq<nat>) returns (simple: seq<nat>)
    requires Cycle(e, queues, qs)
    ensures Cycle(e, queues, simple) && Distinct(simple) && |simple| <= |qs|
    decreases |qs|
  {
    if Distinct(qs) {
      simple := qs;
    } else {
      var i, j :| 0 <= i < j < |qs| && qs[i] == qs[j];
      var part := qs[i..j];
      forall k | 0 <= k < |part| ensures part[k] < queues && (part[k], Next(part, k)) in e {
        assert part[k] == qs[i + k] && Next(part, k) == Next(qs, i + k);
      }
      simple := SimpleCycle(e, queues, part);
    }
  }

  // ---------------------------------------------- a standstill shows a cycle

  predicate OnlyFrom(s: System, e: Appends) {
    forall t :: 0 <= t < |s.pc| && Inside(s.pc[t]) ==> (s.pc[t].dst, s.pc[t].src) in e
  }

  lemma StepOnlyFrom(s: System, t: nat, a: Action, e: Appends)
    requires Fits(s) && Enabled(s, t, a) && OnlyFrom(s, e) && (a.Append? ==> (a.dst, a.src) in e)
    ensures OnlyFrom(Step(s, t, a), e)
  {
    StepShape(s, t, a);
  }

  lemma {:induction false} RunOnlyFrom(s: System, trace: Trace, e: Appends)
    requires Inv(s) && Runs(s, trace) && OnlyFrom(s, e) && Within(trace, e)
    ensures OnlyFrom(After(s, trace), e)
    decreases |trace|
  {
    hide Step, Enabled, OnlyFrom, Fifo, Sound, HeldProperly;
    if trace != [] {
      var (t, a) := trace[0];
      assert trace[0].1 == a;
      StepInv(s, t, a);
      StepOnlyFrom(s, t, a, e);
      assert forall k :: 0 <= k < |trace[1..]| ==> trace[1..][k] == trace[k + 1];
      RunOnlyFrom(Step(s, t, a), trace[1..], e);
    }
  }

  /** A thread holds the lock of q and waits for that of the result. */
  predicate Waits(s: System, q: nat, next: nat) {
    exists t :: 0 <= t < |s.pc| && s.pc[t] == Locking(q, next)
  }

  /** At a standstill everybody waits for a lock that somebody has who waits as well. */
  lemma WaitsOn(s: System, q: nat, next: nat) returns (after: nat)
    requires Inv(s) && Stuck(s) && Waits(s, q, next)
    ensures q < |s.queue| && next < |s.queue| && Waits(s, next, after)
  {
    hide Fifo;
    var t :| 0 <= t < |s.pc| && s.pc[t] == Locking(q, next);
    assert PcFits(s, s.pc[t]) && Sound(s, t) && !CanGoOn(s, t);
    assert HeldProperly(s, next);
    var u := s.holder[next].thread;
    assert Inside(s.pc[u]);
    LockingOnly(s, u);
    after := s.pc[u].src;
    assert s.pc[u] == Locking(next, after);
  }

  lemma LockingOnly(s: System, t: nat)
    requires Inv(s) && Stuck(s) && t < |s.pc| && Inside(s.pc[t])
    ensures s.pc[t].Locking?
  {
    hide Fifo, HeldProperly;
    assert Sound(s, t) && !CanGoOn(s, t);
  }

  /** Following the locks that are waited for. */
  lemma {:induction false} Chain(s: System, q: nat, next: nat, n: nat) returns (qs: seq<nat>)
    requires Inv(s) && Stuck(s) && Waits(s, q, next)
    ensures |qs| == n + 2 && qs[0] == q && qs[1] == next
    ensures forall i :: 0 <= i < |qs| - 1 ==> qs[i] < |s.queue| && Waits(s, qs[i], qs[i + 1])
    decreases n
  {
    hide Stuck, Waits, Inv;
    var after := WaitsOn(s, q, next);
    if n == 0 {
      qs := [q, next];
    } else {
      var rest := Chain(s, next, after, n - 1);
      qs := [q] + rest;
      forall i | 0 <= i < |qs| - 1 ensures qs[i] < |s.queue| && Waits(s, qs[i], qs[i + 1]) {
        if i > 0 {
          assert qs[i] == rest[i - 1] && qs[i + 1] == rest[i];
        }
      }
    }
  }

  lemma WaitsAreAppends(s: System, q: nat, next: nat, e: Appends)
    requires Waits(s, q, next) && OnlyFrom(s, e)
    ensures (q, next) in e
  {
  }

  lemma StuckHasCycle(s: System, e: Appends) returns (cycle: seq<nat>)
    requires Inv(s) && Stuck(s) && OnlyFrom(s, e)
    ensures Cycle(e, |s.queue|, cycle)
  {
    hide Inv, Waits, OnlyFrom;
    var t :| 0 <= t < |s.pc| && Inside(s.pc[t]);
    LockingOnly(s, t);
    ThreadWaits(s, t);
    var qs := Chain(s, s.pc[t].dst, s.pc[t].src, |s.queue|);
    var path := qs[..|qs| - 1];
    if Distinct(path) {
      DistinctBelow(path, |s.queue|);
      assert false;
    }
    var i, j :| 0 <= i < j < |path| && path[i] == path[j];
    cycle := path[i..j];
    forall k | 0 <= k < |cycle| ensures cycle[k] < |s.queue| && (cycle[k], Next(cycle, k)) in e {
      assert cycle[k] == qs[i + k] && Next(cycle, k) == qs[i + k + 1];
      WaitsAreAppends(s, qs[i + k], qs[i + k + 1], e);
    }
  }

  lemma ThreadWaits(s: System, t: nat)
    requires t < |s.pc| && s.pc[t].Locking?
    ensures Waits(s, s.pc[t].dst, s.pc[t].src)
  {
  }

  /** Who waits for what. */
  function Waiters(s: System): Appends {
    set t: nat | t < |s.pc| && s.pc[t].Locking? :: (s.pc[t].dst, s.pc[t].src)
  }

  lemma HolderWaits(s: System, q: nat, next: nat)
    requires Inv(s) && (q, next) in Waiters(s)
    ensures q < |s.queue| == |s.holder| && s.holder[q].Held? && s.holder[q].thread < |s.pc|
    ensures s.pc[s.holder[q].thread] == Locking(q, next)
  {
    hide Fifo, HeldProperly;
    var t: nat :| t < |s.pc| && s.pc[t].Locking? && (q, next) == (s.pc[t].dst, s.pc[t].src);
    assert Sound(s, t) && PcFits(s, s.pc[t]);
  }

  /** Each queue of a cycle of waiting threads has a thread of its own. */
  lemma CycleNeedsThreads(s: System, qs: seq<nat>)
    requires Inv(s) && Cycle(Waiters(s), |s.queue|, qs) && Distinct(qs)
    ensures |qs| <= |s.pc|
  {
    hide Inv, Waiters;
    var holders: seq<nat> := [];
    while |holders| < |qs|
      invariant |holders| <= |qs|
      invariant forall i :: 0 <= i < |holders| ==>
                  holders[i] < |s.pc| && s.pc[holders[i]] == Locking(qs[i], Next(qs, i))
    {
      HolderWaits(s, qs[|holders|], Next(qs, |holders|));
      holders := holders + [s.holder[qs[|holders|]].thread];
    }
    forall i, j | 0 <= i < j < |holders| ensures holders[i] != holders[j] {
      assert qs[i] != qs[j];
    }
    DistinctBelow(holders, |s.pc|);
  }

  /** A standstill has a cycle that is no longer than there are threads. */
  lemma StuckHasShortCycle(s: System, e: Appends) returns (cycle: seq<nat>)
    requires Inv(s) && Stuck(s) && OnlyFrom(s, e)
    ensures Cycle(e, |s.queue|, cycle) && |cycle| <= |s.pc|
  {
    hide Inv, Stuck;
    forall t | 0 <= t < |s.pc| && Inside(s.pc[t])
      ensures s.pc[t].Locking? && (s.pc[t].dst, s.pc[t].src) in Waiters(s)
    {
      LockingOnly(s, t);
    }
    cycle := StuckHasCycle(s, Waiters(s));
    cycle := SimpleCycle(Waiters(s), |s.queue|, cycle);
    CycleNeedsThreads(s, cycle);
    forall i | 0 <= i < |cycle| ensures (cycle[i], Next(cycle, i)) in e {
      assert (cycle[i], Next(cycle, i)) in Waiters(s);
    }
  }

  /** Threads that all wait for one another. */
  ghost predicate Knot(s: System, threads: set<nat>)
    requires Fits(s)
  {
    forall t :: t in threads ==>
      t < |s.pc| && s.pc[t].Locking? && s.holder[s.pc[t].src].Held? && s.holder[s.pc[t].src].thread in threads
  }

  predicate Still(s: System, later: System, threads: set<nat>) {
    forall u :: u in threads ==> u < |s.pc| && u < |later.pc| && later.pc[u] == s.pc[u]
  }

  lemma KnotStep(s: System, t: nat, a: Action, threads: set<nat>)
    requires Inv(s) && Enabled(s, t, a) && Knot(s, threads)
    ensures Inv(Step(s, t, a)) && Knot(Step(s, t, a), threads)
    ensures Still(s, Step(s, t, a), threads)
  {
    hide Step, Fifo, Sound, HeldProperly;
    StepInv(s, t, a);
    StepShape(s, t, a);
    assert t !in threads;
    forall u | u in threads
      ensures Step(s, t, a).pc[u] == s.pc[u] && Step(s, t, a).holder[s.pc[u].src] == s.holder[s.pc[u].src]
    {
      assert PcFits(s, s.pc[u]);
      StepLeaves(s, t, a, s.pc[u].src);
    }
  }

  lemma {:induction false} KnotStays(s: System, trace: Trace, threads: set<nat>)
    requires Inv(s) && Runs(s, trace) && Knot(s, threads)
    ensures Knot(After(s, trace), threads)
    ensures Still(s, After(s, trace), threads)
    decreases |trace|
  {
    hide Step, Enabled, Fifo, Sound, HeldProperly;
    if trace != [] {
      KnotStep(s, trace[0].0, trace[0].1, threads);
      KnotStays(Step(s, trace[0].0, trace[0].1), trace[1..], threads);
    }
  }

  function Insiders(s: System): set<nat> {
    set t: nat | t < |s.pc| && Inside(s.pc[t])
  }

  lemma StuckIsKnot(s: System)
    requires Inv(s) && Stuck(s)
    ensures Knot(s, Insiders(s))
  {
    hide Fifo;
    forall t | 0 <= t < |s.pc| && Inside(s.pc[t])
      ensures s.pc[t].Locking? && PcFits(s, s.pc[t]) && s.holder[s.pc[t].src].Held?
      ensures s.holder[s.pc[t].src].thread < |s.pc| && Inside(s.pc[s.holder[s.pc[t].src].thread])
    {
      LockingOnly(s, t);
      assert PcFits(s, s.pc[t]) && !CanGoOn(s, t);
      assert HeldProperly(s, s.pc[t].src);
    }
  }

  /** A standstill is for ever: whatever the other threads go on to do, these never leave append_from. */
  lemma StuckForEver(s: System, trace: Trace, t: nat)
    requires Inv(s) && Stuck(s) && Runs(s, trace) && t < |s.pc| && Inside(s.pc[t])
    ensures t < |After(s, trace).pc| && After(s, trace).pc[t] == s.pc[t]
  {
    hide Stuck, Runs, Inv, After, Knot;
    StuckIsKnot(s);
    KnotStays(s, trace, Insiders(s));
    assert t in Insiders(s);
  }

  // --------------------------------------------- a cycle brings a standstill

  /** Thread i asks for the i-th append of the cycle; all of them take their first lock. */
  function Ring(qs: seq<nat>, n: nat): (trace: Trace)
    requires n <= |qs|
    ensures |trace| == n
  {
    if n == 0 then [] else Ring(qs, n - 1) + [(n - 1, Append(qs[n - 1], Next(qs, n - 1)))]
  }

  predicate RingAt(s: System, queues: nat, threads: nat, qs: seq<nat>, n: nat)
    requires n <= |qs|
  {
    && Fits(s) && |s.queue| == queues && |s.pc| == threads
    && (forall i :: 0 <= i < n ==>
          i < threads && qs[i] < queues && s.holder[qs[i]] == Held(i) && s.pc[i] == Locking(qs[i], Next(qs, i)))
    && (forall t :: n <= t < threads ==> s.pc[t] == Idle)
    && (forall q :: 0 <= q < queues && q !in qs[..n] ==> s.holder[q] == Free)
  }

  lemma {:induction false} RunsSnoc(s: System, trace: Trace, t: nat, a: Action)
    requires Inv(s) && Runs(s, trace) && Enabled(After(s, trace), t, a)
    ensures Runs(s, trace + [(t, a)]) && After(s, trace + [(t, a)]) == Step(After(s, trace), t, a)
    decreases |trace|
  {
    hide Step, Enabled, Fifo, Sound, HeldProperly;
    if trace == [] {
      assert trace + [(t, a)] == [(t, a)] && [(t, a)][1..] == [];
      StepInv(s, t, a);
    } else {
      var (u, b) := trace[0];
      StepInv(s, u, b);
      assert (trace + [(t, a)])[1..] == trace[1..] + [(t, a)];
      RunsSnoc(Step(s, u, b), trace[1..], t, a);
    }
  }

  lemma RingStep(s: System, queues: nat, threads: nat, qs: seq<nat>, n: nat)
    requires n < |qs| <= threads && Distinct(qs) && (forall i :: 0 <= i < |qs| ==> qs[i] < queues)
    requires RingAt(s, queues, threads, qs, n)
    ensures var a := Append(qs[n], Next(qs, n));
            Enabled(s, n, a) && RingAt(Step(s, n, a), queues, threads, qs, n + 1)
  {
    assert qs[n] !in qs[..n];
    assert qs[..n + 1] == qs[..n] + [qs[n]];
    assert s.pc[n] == Idle;
  }

  lemma {:induction false} RingRuns(queues: nat, threads: nat, qs: seq<nat>, n: nat)
    requires n <= |qs| <= threads && Distinct(qs) && (forall i :: 0 <= i < |qs| ==> qs[i] < queues)
    requires Inv(Start(queues, threads))
    ensures Runs(Start(queues, threads), Ring(qs, n))
    ensures RingAt(After(Start(queues, threads), Ring(qs, n)), queues, threads, qs, n)
  {
    hide Inv, Step, Enabled;
    if n > 0 {
      RingRuns(queues, threads, qs, n - 1);
      var s := After(Start(queues, threads), Ring(qs, n - 1));
      RingStep(s, queues, threads, qs, n - 1);
      RunsSnoc(Start(queues, threads), Ring(qs, n - 1), n - 1, Append(qs[n - 1], Next(qs, n - 1)));
    }
  }

  lemma LockedOut(s: System, t: nat)
    requires Fits(s) && t < |s.pc| && s.pc[t].Locking? && s.pc[t].src < |s.queue| && s.holder[s.pc[t].src].Held?
    ensures !CanGoOn(s, t)
  {
  }

  lemma RingIsStuck(s: System, queues: nat, threads: nat, qs: seq<nat>)
    requires qs != [] && RingAt(s, queues, threads, qs, |qs|)
    ensures Stuck(s)
  {
    hide CanGoOn, Enabled, PcFits;
    assert Inside(s.pc[0]);
    forall t | 0 <= t < |s.pc| && Inside(s.pc[t]) ensures !CanGoOn(s, t) {
      assert t < |qs|;
      var next := if t + 1 == |qs| then 0 else t + 1;
      assert Next(qs, t) == qs[next] && s.holder[qs[next]] == Held(next);
      LockedOut(s, t);
    }
  }

  lemma {:induction false} RingWithin(e: Appends, queues: nat, qs: seq<nat>, n: nat)
    requires Cycle(e, queues, qs) && n <= |qs|
    ensures Within(Ring(qs, n), e)
  {
    if n > 0 {
      RingWithin(e, queues, qs, n - 1);
    }
  }

  /** Programs that append only these pairs of queues are free of deadlock if and only if the pairs have no
   * cycle of at most as many queues as there are threads. */
  lemma DeadlockExactly(queues: nat, threads: nat, e: Appends)
    ensures CanDeadlock(queues, threads, e) <==> HasCycle(e, queues, threads)
  {
    hide StuckAfter, Within;
    if CanDeadlock(queues, threads, e) {
      var trace :| Within(trace, e) && StuckAfter(queues, threads, trace);
      var cycle := DeadlockHasCycle(queues, threads, trace, e);
    }
    if HasCycle(e, queues, threads) {
      var qs :| Cycle(e, queues, qs) && |qs| <= threads;
      var trace := CycleDeadlocks(queues, threads, qs, e);
    }
  }

  lemma DeadlockHasCycle(queues: nat, threads: nat, trace: Trace, e: Appends) returns (cycle: seq<nat>)
    requires Within(trace, e) && StuckAfter(queues, threads, trace)
    ensures Cycle(e, queues, cycle) && |cycle| <= threads
  {
    hide Runs, Stuck, OnlyFrom, Step, Enabled, Cycle, Within, Fifo, Sound, HeldProperly;
    StartInv(queues, threads);
    StartOnlyFrom(queues, threads, e);
    RunOnlyFrom(Start(queues, threads), trace, e);
    RunShape(Start(queues, threads), trace);
    cycle := StuckHasShortCycle(After(Start(queues, threads), trace), e);
  }

  lemma CycleDeadlocks(queues: nat, threads: nat, qs: seq<nat>, e: Appends) returns (trace: Trace)
    requires Cycle(e, queues, qs) && |qs| <= threads
    ensures Within(trace, e) && StuckAfter(queues, threads, trace)
  {
    hide Runs, Stuck, RingAt, Step, Enabled, Within, Fifo, Sound, HeldProperly;
    StartInv(queues, threads);
    var simple := SimpleCycle(e, queues, qs);
    trace := Ring(simple, |simple|);
    RingRuns(queues, threads, simple, |simple|);
    RingIsStuck(After(Start(queues, threads), trace), queues, threads, simple);
    RingWithin(e, queues, simple, |simple|);
  }

  lemma StartOnlyFrom(queues: nat, threads: nat, e: Appends)
    ensures OnlyFrom(Start(queues, threads), e)
    ensures |Start(queues, threads).queue| == queues && |Start(queues, threads).pc| == threads
  {
  }

  lemma {:induction false} RunShape(s: System, trace: Trace)
    requires Inv(s) && Runs(s, trace)
    ensures |After(s, trace).queue| == |s.queue| && |After(s, trace).pc| == |s.pc|
    decreases |trace|
  {
    hide Step, Enabled, Fifo, Sound, HeldProperly;
    if trace != [] {
      StepInv(s, trace[0].0, trace[0].1);
      StepShape(s, trace[0].0, trace[0].1);
      RunShape(Step(s, trace[0].0, trace[0].1), trace[1..]);
    }
  }
}
