/** Any number of threads that use any number of queues. What runs under one lock is one step;
 * append_from, which takes two locks, is taken apart. */
module QueueThreads {
  import opened DataQueue

  /** Where a thread is. The snapshot `all` is what the two queues held when both locks were taken. */
  datatype Pc =
    | Idle
    | Waiting(q: nat, forever: bool)
    | Locking(dst: nat, src: nat)
    | Moving(dst: nat, src: nat, all: seq<Item>)
    | Copied(dst: nat, src: nat, all: seq<Item>)

  /** `holder[q]` is the thread that holds the lock of queue q across steps. The rest is history: per
   * queue what entered and left it, and over all what was pushed and popped. */
  datatype System = System(queue: seq<seq<Item>>, holder: seq<Holder>, pc: seq<Pc>,
                           entered: seq<seq<Item>>, left: seq<seq<Item>>, pushed: seq<Item>, popped: seq<Item>)

  datatype Holder = Free | Held(thread: nat)

  datatype Action =
    | Push(q: nat, data: Item)
    | Pop(q: nat)
    | WaitPop(q: nat, forever: bool)
    | Wake
    | Append(dst: nat, src: nat)
    | Lock
    | Copy
    | Remove
    | Finish

  predicate Shape(s: System) {
    |s.queue| == |s.holder| == |s.entered| == |s.left|
  }

  predicate PcFits(s: System, p: Pc) {
    match p
    case Idle => true
    case Waiting(q, _) => q < |s.queue|
    case Locking(dst, src) => dst < |s.queue| && src < |s.queue|
    case Moving(dst, src, _) => dst < |s.queue| && src < |s.queue|
    case Copied(dst, src, _) => dst < |s.queue| && src < |s.queue|
  }

  predicate Fits(s: System) {
    Shape(s) && forall t :: 0 <= t < |s.pc| ==> PcFits(s, s.pc[t])
  }

  predicate Unlocked(s: System, q: nat)
    requires Shape(s)
  {
    q < |s.queue| && s.holder[q] == Free
  }

  /** A wake-up needs no signal: it may be spurious or a timeout. */
  predicate Enabled(s: System, t: nat, a: Action)
    requires Fits(s)
  {
    t < |s.pc| &&
    match a
    case Push(q, _) => s.pc[t] == Idle && Unlocked(s, q)
    case Pop(q) => s.pc[t] == Idle && Unlocked(s, q)
    case WaitPop(q, _) => s.pc[t] == Idle && Unlocked(s, q)
    case Wake => s.pc[t].Waiting? && Unlocked(s, s.pc[t].q)
    case Append(dst, src) => s.pc[t] == Idle && Unlocked(s, dst) && src < |s.queue|
    case Lock => s.pc[t].Locking? && Unlocked(s, s.pc[t].src)
    case Copy => s.pc[t].Moving? && s.queue[s.pc[t].src] != []
    case Remove => s.pc[t].Copied? && s.queue[s.pc[t].src] != []
    case Finish => s.pc[t].Moving? && s.queue[s.pc[t].src] == []
  }

  function Popped(s: System, q: nat): System
    requires Shape(s) && q < |s.queue|
  {
    if s.queue[q] == [] then s else
    var d := s.queue[q][0];
    s.(queue := s.queue[q := s.queue[q][1..]], left := s.left[q := s.left[q] + [d]], popped := s.popped + [d])
  }

  function Entered(s: System, q: nat, d: Item): System
    requires Shape(s) && q < |s.queue|
  {
    s.(queue := s.queue[q := s.queue[q] + [d]], entered := s.entered[q := s.entered[q] + [d]])
  }

  function At(s: System, t: nat, p: Pc): System
    requires t < |s.pc|
  {
    s.(pc := s.pc[t := p])
  }

  function Step(s: System, t: nat, a: Action): System
    requires Fits(s) && Enabled(s, t, a)
  {
    match a
    case Push(q, d) => Entered(s, q, d).(pushed := s.pushed + [d])
    case Pop(q) => Popped(s, q)
    case WaitPop(q, forever) => if s.queue[q] != [] then Popped(s, q) else At(s, t, Waiting(q, forever))
    case Wake =>
      if s.queue[s.pc[t].q] == [] && s.pc[t].forever then s else At(Popped(s, s.pc[t].q), t, Idle)
    case Append(dst, src) => At(s.(holder := s.holder[dst := Held(t)]), t, Locking(dst, src))
    case Lock =>
      var p := s.pc[t];
      At(s.(holder := s.holder[p.src := Held(t)]), t, Moving(p.dst, p.src, s.queue[p.dst] + s.queue[p.src]))
    case Copy =>
      var p := s.pc[t];
      At(Entered(s, p.dst, s.queue[p.src][0]), t, Copied(p.dst, p.src, p.all))
    case Remove =>
      var p := s.pc[t];
      var d := s.queue[p.src][0];
      At(s.(queue := s.queue[p.src := s.queue[p.src][1..]], left := s.left[p.src := s.left[p.src] + [d]]),
         t, Moving(p.dst, p.src, p.all))
    case Finish =>
      var p := s.pc[t];
      At(s.(holder := s.holder[p.dst := Free][p.src := Free]), t, Idle)
  }

  /** What a call that ends with this step returns: an item, or null. */
  datatype Returned = Nothing | Null | Item(data: Item)

  function Result(s: System, t: nat, a: Action): Returned
    requires Fits(s) && Enabled(s, t, a)
  {
    match a
    case Pop(q) => if s.queue[q] == [] then Null else Item(s.queue[q][0])
    case WaitPop(q, _) => if s.queue[q] == [] then Nothing else Item(s.queue[q][0])
    case Wake =>
      var q := s.pc[t].q;
      if s.queue[q] != [] then Item(s.queue[q][0]) else if s.pc[t].forever then Nothing else Null
    case _ => Nothing
  }

  // ---------------------------------------------------------------- invariants

  predicate Fifo(s: System, q: nat)
    requires Shape(s) && q < |s.queue|
  {
    s.entered[q] == s.left[q] + s.queue[q]
  }

  /** A thread inside append_from holds its locks, and has lost and added nothing so far. */
  predicate Sound(s: System, t: nat)
    requires Fits(s) && t < |s.pc|
  {
    match s.pc[t]
    case Locking(dst, _) => s.holder[dst] == Held(t)
    case Moving(dst, src, all) =>
      && s.holder[dst] == Held(t) && s.holder[src] == Held(t) && dst != src
      && s.queue[dst] + s.queue[src] == all
    case Copied(dst, src, all) =>
      && s.holder[dst] == Held(t) && s.holder[src] == Held(t) && dst != src
      && s.queue[src] != [] && s.queue[dst] != []
      && s.queue[dst][|s.queue[dst]| - 1] == s.queue[src][0]
      && s.queue[dst] + s.queue[src][1..] == all
    case _ => true
  }

  /** A lock is held only by a thread inside append_from, which will give it back. */
  predicate HeldProperly(s: System, q: nat)
    requires Fits(s) && q < |s.queue|
  {
    s.holder[q].Held? ==>
      s.holder[q].thread < |s.pc| &&
      match s.pc[s.holder[q].thread]
      case Locking(dst, _) => q == dst
      case Moving(dst, src, _) => q == dst || q == src
      case Copied(dst, src, _) => q == dst || q == src
      case _ => false
  }

  predicate Inv(s: System) {
    && Fits(s)
    && (forall q :: 0 <= q < |s.queue| ==> Fifo(s, q) && HeldProperly(s, q))
    && (forall t :: 0 <= t < |s.pc| ==> Sound(s, t))
  }

  lemma StepFits(s: System, t: nat, a: Action)
    requires Inv(s) && Enabled(s, t, a)
    ensures Fits(Step(s, t, a))
  {
  }

  /** No thread touches a queue whose lock another thread holds. */
  lemma StepLeaves(s: System, t: nat, a: Action, q: nat)
    requires Inv(s) && Enabled(s, t, a) && q < |s.queue| && s.holder[q].Held? && s.holder[q].thread != t
    ensures Step(s, t, a).queue[q] == s.queue[q] && Step(s, t, a).holder[q] == s.holder[q]
  {
    hide Fifo, HeldProperly;
    assert Sound(s, t);
  }

  lemma StepOther(s: System, t: nat, a: Action, u: nat)
    requires Inv(s) && Enabled(s, t, a) && u < |s.pc| && u != t
    ensures Fits(Step(s, t, a)) && Sound(Step(s, t, a), u)
  {
    hide Step, Enabled, Fifo, HeldProperly;
    assert Sound(s, u) && PcFits(s, s.pc[u]);
    StepFits(s, t, a);
    StepShape(s, t, a);
    match s.pc[u] {
      case Locking(dst, _) => StepLeaves(s, t, a, dst);
      case Moving(dst, src, _) => StepLeaves(s, t, a, dst); StepLeaves(s, t, a, src);
      case Copied(dst, src, _) => StepLeaves(s, t, a, dst); StepLeaves(s, t, a, src);
      case _ =>
    }
  }

  lemma StepOwn(s: System, t: nat, a: Action)
    requires Inv(s) && Enabled(s, t, a)
    ensures Fits(Step(s, t, a)) && Sound(Step(s, t, a), t)
  {
    hide Fifo, HeldProperly;
    assert Sound(s, t) && PcFits(s, s.pc[t]);
    StepFits(s, t, a);
    if a.Copy? {
      var p := s.pc[t];
      assert s.queue[p.src] == [s.queue[p.src][0]] + s.queue[p.src][1..];
    }
  }

  lemma StepFifo(s: System, t: nat, a: Action, q: nat)
    requires Inv(s) && Enabled(s, t, a) && q < |s.queue|
    ensures Shape(Step(s, t, a)) && |Step(s, t, a).queue| == |s.queue| && Fifo(Step(s, t, a), q)
  {
    hide HeldProperly;
    assert Sound(s, t) && Fifo(s, q) && PcFits(s, s.pc[t]);
    if s.queue[q] != [] {
      assert s.queue[q] == [s.queue[q][0]] + s.queue[q][1..];
    }
  }

  lemma StepHolders(s: System, t: nat, a: Action, q: nat)
    requires Inv(s) && Enabled(s, t, a) && q < |s.queue|
    ensures Fits(Step(s, t, a)) && HeldProperly(Step(s, t, a), q)
  {
    hide Fifo;
    assert Sound(s, t) && HeldProperly(s, q);
    StepFits(s, t, a);
  }

  lemma StepInv(s: System, t: nat, a: Action)
    requires Inv(s) && Enabled(s, t, a)
    ensures Inv(Step(s, t, a))
  {
    hide Step, Sound, HeldProperly, Fifo, Enabled;
    StepFits(s, t, a);
    StepShape(s, t, a);
    forall u | 0 <= u < |s.pc| ensures Sound(Step(s, t, a), u) {
      if u == t {
        StepOwn(s, t, a);
      } else {
        StepOther(s, t, a, u);
      }
    }
    forall q | 0 <= q < |s.queue| ensures Fifo(Step(s, t, a), q) && HeldProperly(Step(s, t, a), q) {
      StepFifo(s, t, a, q);
      StepHolders(s, t, a, q);
    }
  }

  lemma StepShape(s: System, t: nat, a: Action)
    requires Fits(s) && Enabled(s, t, a)
    ensures |Step(s, t, a).queue| == |s.queue| && |Step(s, t, a).pc| == |s.pc|
    ensures forall u :: 0 <= u < |s.pc| && u != t ==> Step(s, t, a).pc[u] == s.pc[u]
  {
  }

  // ---------------------------------------------------------------------- runs

  function Start(queues: nat, threads: nat): System {
    System(seq(queues, _ => []), seq(queues, _ => Free), seq(threads, _ => Idle),
           seq(queues, _ => []), seq(queues, _ => []), [], [])
  }

  type Trace = seq<(nat, Action)>

  predicate Runs(s: System, trace: Trace)
    requires Inv(s)
    decreases |trace|
  {
    trace == [] ||
    (Enabled(s, trace[0].0, trace[0].1) &&
     (StepInv(s, trace[0].0, trace[0].1); Runs(Step(s, trace[0].0, trace[0].1), trace[1..])))
  }

  function After(s: System, trace: Trace): (r: System)
    requires Inv(s) && Runs(s, trace)
    ensures Inv(r)
    decreases |trace|
  {
    if trace == [] then s else
    StepInv(s, trace[0].0, trace[0].1);
    After(Step(s, trace[0].0, trace[0].1), trace[1..])
  }

  lemma StartInv(queues: nat, threads: nat)
    ensures Inv(Start(queues, threads))
  {
  }

  /** Whatever the threads do, and however they interleave: what left a queue and then what is in it is
   * what entered it, in that order. */
  lemma AlwaysFifo(queues: nat, threads: nat, trace: Trace, q: nat)
    requires Inv(Start(queues, threads)) && Runs(Start(queues, threads), trace)
    requires q < |After(Start(queues, threads), trace).queue|
    ensures var s := After(Start(queues, threads), trace); s.entered[q] == s.left[q] + s.queue[q]
  {
    hide Runs, Fifo, Sound, HeldProperly;
    var s := After(Start(queues, threads), trace);
    assert Fifo(s, q);
    FifoMeans(s, q);
  }

  lemma FifoMeans(s: System, q: nat)
    requires Shape(s) && q < |s.queue| && Fifo(s, q)
    ensures s.entered[q] == s.left[q] + s.queue[q]
  {
  }

  /** The queue a step takes an item from. */
  function TakesFrom(s: System, t: nat, a: Action): nat
    requires Fits(s) && Enabled(s, t, a) && (a.Pop? || a.WaitPop? || a.Wake?)
  {
    if a.Wake? then s.pc[t].q else a.q
  }

  /** Over all interleavings: whoever gets an item gets the oldest that has entered the queue and has not been
   * taken, and whoever gets none has come when everything that ever entered was taken. */
  lemma OldestIsReturned(queues: nat, threads: nat, trace: Trace, t: nat, a: Action)
    requires Inv(Start(queues, threads)) && Runs(Start(queues, threads), trace)
    requires Enabled(After(Start(queues, threads), trace), t, a) && (a.Pop? || a.WaitPop? || a.Wake?)
    ensures var s := After(Start(queues, threads), trace);
            var q, r := TakesFrom(s, t, a), Result(s, t, a);
            && q < |s.queue|
            && (r == Null ==> s.entered[q] == s.left[q])
            && (r.Item? ==> |s.left[q]| < |s.entered[q]| && r.data == s.entered[q][|s.left[q]|]
                            && Step(s, t, a).left[q] == s.left[q] + [r.data]
                            && Step(s, t, a).popped == s.popped + [r.data])
  {
    hide Runs, Sound, HeldProperly;
    var s := After(Start(queues, threads), trace);
    assert Fits(s) && PcFits(s, s.pc[t]);
    var q := TakesFrom(s, t, a);
    assert Fifo(s, q);
    if s.queue[q] == [] {
      assert s.left[q] + [] == s.left[q];
    }
  }

  // --------------------------------------------------- append_from is one step

  predicate Appending(p: Pc, dst: nat, src: nat, all: seq<Item>) {
    p == Moving(dst, src, all) || p == Copied(dst, src, all)
  }

  predicate NotFinished(trace: Trace, t: nat) {
    forall k :: 0 <= k < |trace| ==> trace[k] != (t, Finish)
  }

  /** From the moment a thread has both locks until it gives them back, nobody else changes the two
   * queues; in the end the one holds all of both, in order, and the other is empty. */
  lemma {:induction false} AppendIsAtomic(s: System, t: nat, trace: Trace, dst: nat, src: nat, all: seq<Item>)
    requires Inv(s) && Runs(s, trace) && NotFinished(trace, t)
    requires t < |s.pc| && Appending(s.pc[t], dst, src, all)
    ensures var r := After(s, trace);
            && t < |r.pc| && Appending(r.pc[t], dst, src, all) && dst < |r.queue| && src < |r.queue|
            && (Enabled(r, t, Finish) ==> r.queue[dst] == all && r.queue[src] == [])
    decreases |trace|
  {
    hide Step, Enabled, Fifo, HeldProperly, Sound, PcFits;
    if trace == [] {
      assert Sound(s, t) && PcFits(s, s.pc[t]);
      FinishHasAll(s, t);
    } else {
      var (u, a) := trace[0];
      assert trace[0] != (t, Finish);
      StepInv(s, u, a);
      StepShape(s, u, a);
      if u == t {
        StaysAppending(s, t, a, dst, src, all);
      }
      assert forall k :: 0 <= k < |trace[1..]| ==> trace[1..][k] == trace[k + 1];
      AppendIsAtomic(Step(s, u, a), t, trace[1..], dst, src, all);
    }
  }

  lemma StaysAppending(s: System, t: nat, a: Action, dst: nat, src: nat, all: seq<Item>)
    requires Fits(s) && Enabled(s, t, a) && a != Finish && Appending(s.pc[t], dst, src, all)
    ensures Appending(Step(s, t, a).pc[t], dst, src, all)
  {
  }

  lemma FinishHasAll(s: System, t: nat)
    requires Fits(s) && t < |s.pc| && Sound(s, t) && PcFits(s, s.pc[t]) && (s.pc[t].Moving? || s.pc[t].Copied?)
    ensures s.pc[t].dst < |s.queue| && s.pc[t].src < |s.queue|
    ensures Enabled(s, t, Finish) ==> s.queue[s.pc[t].dst] == s.pc[t].all && s.queue[s.pc[t].src] == []
  {
    if Enabled(s, t, Finish) {
      assert s.queue[s.pc[t].dst] + [] == s.pc[t].all;
    }
  }

  // -------------------------------------------------------------- conservation

  /** A queue without the item that append_from has copied from it but not yet removed. */
  function Visible(s: System, q: nat): seq<Item>
    requires Fits(s) && q < |s.queue|
  {
    var h := s.holder[q];
    if h.Held? && h.thread < |s.pc| && s.pc[h.thread].Copied? && s.pc[h.thread].src == q && s.queue[q] != []
    then s.queue[q][1..] else s.queue[q]
  }

  function View(s: System): (v: seq<seq<Item>>)
    requires Fits(s)
    ensures |v| == |s.queue| && forall q :: 0 <= q < |v| ==> v[q] == Visible(s, q)
  {
    seq(|s.queue|, q requires 0 <= q < |s.queue| => Visible(s, q))
  }

  function Bag(v: seq<seq<Item>>): multiset<Item> {
    if v == [] then multiset{} else multiset(v[0]) + Bag(v[1..])
  }

  lemma {:induction false} BagAdd(v: seq<seq<Item>>, q: nat, d: Item)
    requires q < |v|
    ensures Bag(v[q := v[q] + [d]]) == Bag(v) + multiset{d}
  {
    if q == 0 {
      assert v[q := v[q] + [d]][1..] == v[1..];
      assert multiset(v[q] + [d]) == multiset(v[q]) + multiset{d};
    } else {
      assert v[q := v[q] + [d]][1..] == v[1..][q - 1 := v[1..][q - 1] + [d]];
      BagAdd(v[1..], q - 1, d);
    }
  }

  lemma {:induction false} BagTake(v: seq<seq<Item>>, q: nat)
    requires q < |v| && v[q] != []
    ensures Bag(v) == multiset{v[q][0]} + Bag(v[q := v[q][1..]])
  {
    if q == 0 {
      assert v[q := v[q][1..]][1..] == v[1..];
      assert v[q] == [v[q][0]] + v[q][1..];
    } else {
      assert v[q := v[q][1..]][1..] == v[1..][q - 1 := v[1..][q - 1][1..]];
      BagTake(v[1..], q - 1);
    }
  }

  /** How a step changes what is visible: an item comes in, one goes out, or one goes over. */
  function Moved(v: seq<seq<Item>>, s: System, t: nat, a: Action): seq<seq<Item>>
    requires Inv(s) && Enabled(s, t, a) && v == View(s)
  {
    var r := Result(s, t, a);
    if a.Push? then v[a.q := v[a.q] + [a.data]]
    else if r.Item? then
      var q := if a.Wake? then s.pc[t].q else a.q;
      v[q := s.queue[q][1..]]
    else if a.Copy? then
      var p := s.pc[t];
      v[p.dst := v[p.dst] + [s.queue[p.src][0]]][p.src := s.queue[p.src][1..]]
    else v
  }

  lemma StepView(s: System, t: nat, a: Action)
    requires Inv(s) && Enabled(s, t, a)
    ensures Fits(Step(s, t, a)) && View(Step(s, t, a)) == Moved(View(s), s, t, a)
  {
    StepFits(s, t, a);
    StepShape(s, t, a);
    forall q | 0 <= q < |s.queue| ensures Visible(Step(s, t, a), q) == Moved(View(s), s, t, a)[q] {
      StepVisible(s, t, a, q);
    }
  }

  lemma StepVisible(s: System, t: nat, a: Action, q: nat)
    requires Inv(s) && Enabled(s, t, a) && q < |s.queue|
    ensures Fits(Step(s, t, a)) && Visible(Step(s, t, a), q) == Moved(View(s), s, t, a)[q]
  {
    StepFits(s, t, a);
    if s.holder[q].Held? && s.holder[q].thread != t {
      VisibleToHolder(s, t, a, q);
    } else {
      VisibleHere(s, t, a, q);
    }
  }

  lemma VisibleToHolder(s: System, t: nat, a: Action, q: nat)
    requires Inv(s) && Enabled(s, t, a) && q < |s.queue| && s.holder[q].Held? && s.holder[q].thread != t
    ensures Fits(Step(s, t, a)) && Visible(Step(s, t, a), q) == Visible(s, q) == Moved(View(s), s, t, a)[q]
  {
    hide Fifo, HeldProperly, Step;
    assert Sound(s, t);
    StepFits(s, t, a);
    StepShape(s, t, a);
    StepLeaves(s, t, a, q);
  }

  lemma VisibleHere(s: System, t: nat, a: Action, q: nat)
    requires Inv(s) && Enabled(s, t, a) && q < |s.queue| && (s.holder[q].Held? ==> s.holder[q].thread == t)
    ensures Fits(Step(s, t, a)) && Visible(Step(s, t, a), q) == Moved(View(s), s, t, a)[q]
  {
    hide Fifo, Visible, View, Sound, HeldProperly, Moved, Step, Enabled;
    StepFits(s, t, a);
    if a.Lock? || a.Copy? || a.Remove? || a.Finish? {
      VisibleInside(s, t, a, q);
    } else {
      VisibleOutside(s, t, a, q);
    }
  }

  lemma VisibleInside(s: System, t: nat, a: Action, q: nat)
    requires Inv(s) && Enabled(s, t, a) && q < |s.queue| && (s.holder[q].Held? ==> s.holder[q].thread == t)
    requires (a.Lock? || a.Copy? || a.Remove? || a.Finish?) && Fits(Step(s, t, a))
    ensures Visible(Step(s, t, a), q) == Moved(View(s), s, t, a)[q]
  {
    hide Fifo;
    assert Sound(s, t) && HeldProperly(s, q);
  }

  lemma VisibleOutside(s: System, t: nat, a: Action, q: nat)
    requires Inv(s) && Enabled(s, t, a) && q < |s.queue| && (s.holder[q].Held? ==> s.holder[q].thread == t)
    requires !(a.Lock? || a.Copy? || a.Remove? || a.Finish?) && Fits(Step(s, t, a))
    ensures Visible(Step(s, t, a), q) == Moved(View(s), s, t, a)[q]
  {
    hide Fifo;
    assert Sound(s, t) && HeldProperly(s, q);
  }

  predicate Conserved(s: System)
    requires Fits(s)
  {
    multiset(s.pushed) == multiset(s.popped) + Bag(View(s))
  }

  lemma StepConserves(s: System, t: nat, a: Action)
    requires Inv(s) && Enabled(s, t, a) && Conserved(s)
    ensures Fits(Step(s, t, a)) && Conserved(Step(s, t, a))
  {
    hide Bag, View, Fifo, Sound, HeldProperly;
    StepFits(s, t, a);
    StepView(s, t, a);
    ViewIs(s);
    var v, r := View(s), Result(s, t, a);
    if a.Push? {
      BagAdd(v, a.q, a.data);
    } else if r.Item? {
      var q := if a.Wake? then s.pc[t].q else a.q;
      VisibleUnlocked(s, q);
      BagTake(v, q);
    } else if a.Copy? {
      var p := s.pc[t];
      MovingVisible(s, t);
      var w := v[p.dst := v[p.dst] + [s.queue[p.src][0]]];
      BagAdd(v, p.dst, s.queue[p.src][0]);
      BagTake(w, p.src);
      Cancel(Bag(v), Bag(w[p.src := s.queue[p.src][1..]]), s.queue[p.src][0]);
    }
  }

  lemma Cancel(a: multiset<Item>, b: multiset<Item>, d: Item)
    requires a + multiset{d} == multiset{d} + b
    ensures a == b
  {
    assert a == (a + multiset{d}) - multiset{d} == b;
  }

  lemma ViewIs(s: System)
    requires Fits(s)
    ensures |View(s)| == |s.queue| && forall q :: 0 <= q < |s.queue| ==> View(s)[q] == Visible(s, q)
  {
  }

  lemma VisibleUnlocked(s: System, q: nat)
    requires Fits(s) && q < |s.queue| && s.holder[q] == Free
    ensures Visible(s, q) == s.queue[q]
  {
  }

  lemma MovingVisible(s: System, t: nat)
    requires Inv(s) && t < |s.pc| && s.pc[t].Moving?
    ensures var p := s.pc[t]; p.src < |s.queue| && p.dst != p.src && Visible(s, p.src) == s.queue[p.src]
  {
    assert Sound(s, t);
  }

  /** Over any run nothing is lost and nothing is doubled: what was pushed was popped or is in exactly
   * one queue, also while append_from is at work. */
  lemma {:induction false} NothingLost(s: System, trace: Trace)
    requires Inv(s) && Runs(s, trace) && Conserved(s)
    ensures Conserved(After(s, trace))
    decreases |trace|
  {
    hide Conserved, Step, Enabled, Fits;
    if trace != [] {
      StepInv(s, trace[0].0, trace[0].1);
      StepConserves(s, trace[0].0, trace[0].1);
      NothingLost(Step(s, trace[0].0, trace[0].1), trace[1..]);
    }
  }

  lemma {:induction false} StartConserved(queues: nat, threads: nat)
    ensures Conserved(Start(queues, threads))
  {
    EmptyBag(View(Start(queues, threads)));
  }

  lemma {:induction false} EmptyBag(v: seq<seq<Item>>)
    requires forall q :: 0 <= q < |v| ==> v[q] == []
    ensures Bag(v) == multiset{}
  {
    if v != [] {
      EmptyBag(v[1..]);
    }
  }
}
