/** What a call of pop or wait_pop comes to: it returns once, and then it is over. */
module QueueCalls {
  import opened Bytes
  import opened DataQueue
  import opened QueueThreads

  predicate Takes(a: Action) {
    a.Pop? || a.WaitPop? || a.Wake?
  }

  /** A step that returns something ends the call; a step that returns nothing leaves the thread waiting for the
   * same queue, as patiently as it was asked to. A call that waits for ever does not come back without an item. */
  lemma CallEnds(s: System, t: nat, a: Action)
    requires Inv(s) && Enabled(s, t, a) && Takes(a)
    ensures t < |Step(s, t, a).pc|
    ensures Result(s, t, a) != Nothing <==> Step(s, t, a).pc[t] == Idle
    ensures a.Pop? ==> Result(s, t, a) != Nothing
    ensures a.WaitPop? ==>
              && Result(s, t, a) != Null
              && (Result(s, t, a) == Nothing ==> Step(s, t, a).pc[t] == Waiting(a.q, a.forever))
    ensures a.Wake? ==>
              && s.pc[t].Waiting? && (s.pc[t].forever ==> Result(s, t, a) != Null)
              && (Result(s, t, a) == Nothing ==> s.pc[t].forever && Step(s, t, a).pc[t] == s.pc[t])
  {
    hide Fifo, Sound, HeldProperly;
  }

  /** A step of append_from or push is no part of such a call. */
  lemma OthersReturnNothing(s: System, t: nat, a: Action)
    requires Inv(s) && Enabled(s, t, a) && !Takes(a)
    ensures t < |Step(s, t, a).pc| && Result(s, t, a) == Nothing && !s.pc[t].Waiting? && !Step(s, t, a).pc[t].Waiting?
    ensures Step(s, t, a).popped == s.popped
  {
    hide Fifo, Sound, HeldProperly;
  }

  // ---------------------------------------------------------------- over runs

  /** What the calls of all threads return on a run, with the thread that made the call. */
  function Returns(s: System, trace: Trace): seq<(nat, Returned)>
    requires Inv(s) && Runs(s, trace)
    decreases |trace|
  {
    if trace == [] then [] else
    var (t, a) := trace[0];
    StepInv(s, t, a);
    (if Result(s, t, a) == Nothing then [] else [(t, Result(s, t, a))]) + Returns(Step(s, t, a), trace[1..])
  }

  function ReturnsTo(given: seq<(nat, Returned)>, t: nat): nat {
    if given == [] then 0 else (if given[0].0 == t then 1 else 0) + ReturnsTo(given[1..], t)
  }

  function ItemIn(r: Returned): seq<Item> {
    if r.Item? then [r.data] else []
  }

  function Items(given: seq<(nat, Returned)>): seq<Item> {
    if given == [] then [] else ItemIn(given[0].1) + Items(given[1..])
  }

  /** How often thread t calls pop or wait_pop. */
  function Calls(trace: Trace, t: nat): nat {
    if trace == [] then 0 else
    (if trace[0].0 == t && (trace[0].1.Pop? || trace[0].1.WaitPop?) then 1 else 0) + Calls(trace[1..], t)
  }

  function Unfinished(s: System, t: nat): nat {
    if t < |s.pc| && s.pc[t].Waiting? then 1 else 0
  }

  lemma StepBalance(s: System, u: nat, a: Action, t: nat)
    requires Inv(s) && Enabled(s, u, a)
    ensures (if u == t && Result(s, u, a) != Nothing then 1 else 0) + Unfinished(Step(s, u, a), t)
         == (if u == t && (a.Pop? || a.WaitPop?) then 1 else 0) + Unfinished(s, t)
  {
    hide Step, Result, Fifo, Sound, HeldProperly;
    StepShape(s, u, a);
    if u == t {
      IdleBefore(s, t, a);
      if Takes(a) {
        CallEnds(s, t, a);
      } else {
        OthersReturnNothing(s, t, a);
      }
    }
  }

  lemma IdleBefore(s: System, t: nat, a: Action)
    requires Fits(s) && Enabled(s, t, a)
    ensures (a.Pop? || a.WaitPop? ==> s.pc[t] == Idle) && (a.Wake? ==> s.pc[t].Waiting?)
  {
  }

  /** On every run each call returns once, unless its thread is still waiting. */
  lemma {:induction false} CallsReturnOnce(s: System, trace: Trace, t: nat)
    requires Inv(s) && Runs(s, trace)
    ensures ReturnsTo(Returns(s, trace), t) + Unfinished(After(s, trace), t) == Calls(trace, t) + Unfinished(s, t)
    decreases |trace|
  {
    hide Step, Result, Enabled, Unfinished, Fifo, Sound, HeldProperly;
    if trace != [] {
      var (u, a) := trace[0];
      StepInv(s, u, a);
      StepBalance(s, u, a, t);
      CallsReturnOnce(Step(s, u, a), trace[1..], t);
      FirstReturn(u, Result(s, u, a), Returns(Step(s, u, a), trace[1..]), t);
    }
  }

  lemma FirstReturn(u: nat, r: Returned, rest: seq<(nat, Returned)>, t: nat)
    ensures ReturnsTo([(u, r)] + rest, t) == (if u == t then 1 else 0) + ReturnsTo(rest, t)
    ensures r == Nothing ==> ItemIn(r) + Items(rest) == Items(rest)
    ensures Items([(u, r)] + rest) == ItemIn(r) + Items(rest)
    ensures ReturnsTo([] + rest, t) == ReturnsTo(rest, t) && Items([] + rest) == Items(rest)
  {
    assert ([(u, r)] + rest)[1..] == rest;
    assert [] + rest == rest;
    assert [] + Items(rest) == Items(rest);
  }

  /** An item that is popped is returned by exactly one call, and in the order in which items are popped. */
  lemma {:induction false} PoppedIsReturned(s: System, trace: Trace)
    requires Inv(s) && Runs(s, trace)
    ensures After(s, trace).popped == s.popped + Items(Returns(s, trace))
    decreases |trace|
  {
    hide Step, Result, Enabled, Fifo, Sound, HeldProperly, Items, ItemIn;
    if trace == [] {
      NoItems();
      assert s.popped + [] == s.popped;
    } else {
      var (u, a) := trace[0];
      StepInv(s, u, a);
      StepPopped(s, u, a);
      var rest := Returns(Step(s, u, a), trace[1..]);
      PoppedIsReturned(Step(s, u, a), trace[1..]);
      FirstReturn(u, Result(s, u, a), rest, u);
      Assoc(s.popped, ItemIn(Result(s, u, a)), Items(rest));
    }
  }

  lemma NoItems()
    ensures Items([]) == []
  {
  }

  lemma StepPopped(s: System, t: nat, a: Action)
    requires Inv(s) && Enabled(s, t, a)
    ensures Step(s, t, a).popped == s.popped + ItemIn(Result(s, t, a))
  {
    hide Fifo, Sound, HeldProperly;
    assert s.popped + [] == s.popped;
  }

  // ------------------------------------------------------ when a call can begin

  /** A thread inside append_from that holds the lock of the queue. */
  ghost predicate UsedBy(s: System, q: nat, u: nat) {
    u < |s.pc| &&
    match s.pc[u]
    case Locking(dst, _) => q == dst
    case Moving(dst, src, _) => q == dst || q == src
    case Copied(dst, src, _) => q == dst || q == src
    case _ => false
  }

  /** On any run, an idle thread gets to push, pop, wait and append, and a waiting one to wake up, exactly as long
   * as no thread is inside append_from with a lock of that queue. */
  lemma CallsBegin(s: System, t: nat, q: nat, d: Item, forever: bool, other: nat)
    requires Inv(s) && t < |s.pc| && q < |s.queue| && other < |s.queue|
    ensures var free := !exists u :: UsedBy(s, q, u);
            && (s.pc[t] == Idle ==>
                  && (Enabled(s, t, Push(q, d)) <==> free) && (Enabled(s, t, Pop(q)) <==> free)
                  && (Enabled(s, t, WaitPop(q, forever)) <==> free) && (Enabled(s, t, Append(q, other)) <==> free))
            && (s.pc[t] == Locking(other, q) ==> (Enabled(s, t, Lock) <==> free))
            && (s.pc[t] == Waiting(q, forever) ==> (Enabled(s, t, Wake) <==> free))
  {
    hide Fifo;
    assert HeldProperly(s, q);
    if s.holder[q].Held? {
      assert UsedBy(s, q, s.holder[q].thread);
    }
    forall u | UsedBy(s, q, u) ensures s.holder[q] == Held(u) {
      assert Sound(s, u);
    }
  }
}
