/**
The hand-off of functors to an event loop in glacier/eventloop.cc.  Other threads push under the
mutex and then write to an eventfd; the loop thread blocks in epoll_wait on it (edge-triggered),
reads it, swaps the pending functors out and runs them.  Each event below is one step of one
thread, so a sequence of events is an interleaving with any number of producers.
*/
module EventLoops {
  import opened Sequences

  /** A callback, known by what it stands for and by the callbacks it queues when it runs. */
  datatype Functor = Functor(id: int, queues: seq<Functor>)

  /** Where the loop thread stands: blocked in or about to call poll; handling the channels poll returned,
      `wake` while the wakeup channel is still among them; running the swapped batch; then removing expired
      timers; out of the loop. */
  datatype Phase = Polling | Handling(wake: bool) | Calling | Expiring | Quit

  datatype State = State(
    pending: seq<Functor>,            // pendingFunctors_
    calling: bool,                    // callingPendingFunctors_
    counter: nat,                     // the eventfd
    edge: bool,                       // epoll holds a notification for it
    writers: nat,                     // producers between their push and their write
    phase: Phase,
    batch: seq<Functor>,              // what is left of the swapped batch
    executed: seq<Functor>,
    quit: bool)

  datatype Event =
    | Push(f: Functor)                // a producer's half of queueInLoop
    | Wakeup                          // its other half
    | PollReturns(wake: bool)
    | HandleRead
    | QueueInLoop(f: Functor)         // called on the loop thread
    | RequestQuit                     // quit() by another thread: the flag; its wakeup is a Push-less write
    | SwapPending
    | RunOne
    | EndCalling
    | HandleExpired

  function Init(): State {
    State([], false, 0, false, 0, Polling, [], [], false)
  }

  function WakeupStep(s: State): State {
    s.(counter := s.counter + 1, edge := true)
  }

  /** queueInLoop on the loop thread writes to the eventfd only while functors are being called. */
  function LoopQueues(s: State, f: Functor): State {
    var s1 := s.(pending := s.pending + [f]);
    if s.calling then WakeupStep(s1) else s1
  }

  function QueueAll(s: State, fs: seq<Functor>): State {
    if fs == [] then s else LoopQueues(QueueAll(s, fs[..|fs| - 1]), fs[|fs| - 1])
  }

  predicate Enabled(s: State, e: Event) {
    match e
    case Push(_) => true
    case Wakeup => s.writers > 0
    case PollReturns(wake) => s.phase.Polling? && (wake ==> s.edge && s.counter > 0)
    case HandleRead => s.phase == Handling(true)
    case QueueInLoop(_) => s.phase.Handling? || s.phase.Calling?
    case RequestQuit => true
    case SwapPending => s.phase == Handling(false)
    case RunOne => s.phase.Calling? && s.batch != []
    case EndCalling => s.phase.Calling? && s.batch == []
    case HandleExpired => s.phase.Expiring?
  }

  function Step(s: State, e: Event): State
    requires Enabled(s, e)
  {
    match e
    case Push(f) => s.(pending := s.pending + [f], writers := s.writers + 1)
    case Wakeup => WakeupStep(s.(writers := s.writers - 1))
    case PollReturns(wake) => s.(phase := Handling(wake), edge := if wake then false else s.edge)
    case HandleRead => s.(phase := Handling(false), counter := 0)
    case QueueInLoop(f) => LoopQueues(s, f)
    case RequestQuit => s.(quit := true, writers := s.writers + 1)
    case SwapPending => s.(phase := Calling, calling := true, batch := s.pending, pending := [])
    case RunOne =>
      QueueAll(s.(batch := s.batch[1..], executed := s.executed + [s.batch[0]]), s.batch[0].queues)
    case EndCalling => s.(phase := Expiring, calling := false)
    case HandleExpired => s.(phase := if s.quit then Quit else Polling)
  }

  /** The state after the events, none when one of them is not possible in its turn. */
  function RunFrom(s: State, es: seq<Event>): Option<State> {
    if es == [] then Some(s)
    else
      match RunFrom(s, es[..|es| - 1])
      case None => None
      case Some(t) => if Enabled(t, es[|es| - 1]) then Some(Step(t, es[|es| - 1])) else None
  }

  function Run(es: seq<Event>): Option<State> {
    RunFrom(Init(), es)
  }

  /** What the step `e` from `s` queues. */
  function Adds(s: State, e: Event): seq<Functor> {
    match e
    case Push(f) => [f]
    case QueueInLoop(f) => [f]
    case RunOne => if s.batch == [] then [] else s.batch[0].queues
    case _ => []
  }

  /** Everything ever queued, in the order of the pushes under the mutex. */
  function Queued(es: seq<Event>): seq<Functor> {
    if es == [] then []
    else
      var before := es[..|es| - 1];
      Queued(before) + (match Run(before) case Some(s) => Adds(s, es[|es| - 1]) case None => [])
  }

  // ---------- no lost wakeup ----------

  /** Something will bring the loop thread out of epoll_wait. */
  predicate Signalled(s: State) {
    (s.counter > 0 && s.edge) || s.writers > 0
  }

  predicate WakeupSafe(s: State) {
    s.pending != [] ==> Signalled(s)
  }

  predicate Inv(s: State) {
    (s.calling <==> s.phase.Calling?) && (!s.phase.Calling? ==> s.batch == [])
    && (s.counter > 0 ==> s.edge || s.phase == Handling(true))
    && (!s.phase.Handling? ==> WakeupSafe(s))
  }

  lemma {:induction false} QueueAllKeeps(s: State, fs: seq<Functor>)
    ensures var s' := QueueAll(s, fs);
            s' == s.(pending := s.pending + fs, counter := s'.counter, edge := s'.edge)
            && s'.counter >= s.counter && (s.edge ==> s'.edge)
            && (s.calling && fs != [] ==> s'.counter > 0 && s'.edge)
            && (!s.calling || fs == [] ==> s'.counter == s.counter && s'.edge == s.edge)
  {
    if fs == [] {
      assert s.pending + fs == s.pending;
    } else {
      QueueAllKeeps(s, fs[..|fs| - 1]);
      assert s.pending + fs == s.pending + fs[..|fs| - 1] + [fs[|fs| - 1]];
    }
  }

  lemma StepKeepsInv(s: State, e: Event)
    requires Inv(s) && Enabled(s, e)
    ensures Inv(Step(s, e))
  {
    if e.RunOne? {
      QueueAllKeeps(s.(batch := s.batch[1..], executed := s.executed + [s.batch[0]]), s.batch[0].queues);
    }
  }

  /** Every functor runs once, in the order of queueing, those queued by running functors included. */
  predicate InOrder(s: State, queued: seq<Functor>) {
    s.executed + s.batch + s.pending == queued
  }

  lemma StepKeepsOrder(s: State, e: Event, queued: seq<Functor>)
    requires Inv(s) && Enabled(s, e) && InOrder(s, queued)
    ensures InOrder(Step(s, e), queued + Adds(s, e))
  {
    hide LoopQueues, QueueAll, WakeupSafe;
    if e.RunOne? {
      QueueAllKeeps(s.(batch := s.batch[1..], executed := s.executed + [s.batch[0]]), s.batch[0].queues);
      assert s.batch == [s.batch[0]] + s.batch[1..];
    } else if e.QueueInLoop? {
      LoopQueuesOne(s, e.f);
    }
  }

  lemma LoopQueuesOne(s: State, f: Functor)
    ensures var s' := LoopQueues(s, f);
            s'.pending == s.pending + [f] && s'.batch == s.batch && s'.executed == s.executed
  {
  }

  /** In every reachable state of every interleaving: what has run, then the rest of the batch, then what is
      pending, is exactly what was queued, in order; and whenever the loop thread is about to block in poll with
      functors pending, the eventfd will wake it or a producer is about to write to it. */
  lemma {:induction false} EveryRun(es: seq<Event>)
    requires Run(es).Some?
    ensures var s := Run(es).value;
            Inv(s) && InOrder(s, Queued(es)) && (s.phase.Polling? ==> WakeupSafe(s))
  {
    hide Step, Adds, Enabled, InOrder;
    if es == [] {
      assert InOrder(Init(), []) by { InitInOrder(); }
    } else {
      var before := es[..|es| - 1];
      EveryRun(before);
      StepKeepsInv(Run(before).value, es[|es| - 1]);
      StepKeepsOrder(Run(before).value, es[|es| - 1], Queued(before));
    }
  }

  lemma InitInOrder()
    ensures InOrder(Init(), [])
  {
  }

  // ---------- progress ----------

  /** The steps of the loop thread alone from poll up to the end of one batch. */
  function OneTurn(s: State): seq<Event> {
    [PollReturns(true), HandleRead, SwapPending] + Runs(|s.pending|)
  }

  function Runs(n: nat): seq<Event> {
    seq(n, _ => RunOne)
  }

  lemma RunOn(s: State, es: seq<Event>, t: State, e: Event)
    requires RunFrom(s, es) == Some(t) && Enabled(t, e)
    ensures RunFrom(s, es + [e]) == Some(Step(t, e))
  {
    hide Enabled, Step;
    assert (es + [e])[..|es|] == es;
  }

  lemma RunOneRuns(t: State)
    requires t.phase.Calling? && t.batch != []
    ensures var u := Step(t, RunOne);
            u.phase.Calling? && u.executed == t.executed + [t.batch[0]] && u.batch == t.batch[1..]
  {
    hide LoopQueues, QueueAll;
    QueueAllKeeps(t.(batch := t.batch[1..], executed := t.executed + [t.batch[0]]), t.batch[0].queues);
  }

  lemma {:induction false} BatchRuns(s: State, es: seq<Event>, t: State, n: nat)
    requires RunFrom(s, es) == Some(t) && t.phase.Calling? && n <= |t.batch|
    ensures var r := RunFrom(s, es + Runs(n));
            r.Some? && r.value.phase.Calling? && r.value.executed == t.executed + t.batch[..n]
            && r.value.batch == t.batch[n..]
    decreases n
  {
    hide RunFrom, Step;
    if n == 0 {
      assert es + Runs(0) == es;
    } else {
      BatchRuns(s, es, t, n - 1);
      var u := RunFrom(s, es + Runs(n - 1)).value;
      RunOneRuns(u);
      RunOn(s, es + Runs(n - 1), u, RunOne);
      assert es + Runs(n) == es + Runs(n - 1) + [RunOne];
      assert t.batch[..n] == t.batch[..n - 1] + [t.batch[n - 1]];
    }
  }

  /** Once the producers have finished their writes, a loop blocked in poll with functors pending can leave it
      and run every one of them, by its own steps. */
  lemma PendingCanRun(es: seq<Event>)
    requires Run(es).Some? && Run(es).value.phase.Polling?
    requires Run(es).value.pending != [] && Run(es).value.writers == 0
    ensures var s := Run(es).value;
            RunFrom(s, OneTurn(s)).Some? && RunFrom(s, OneTurn(s)).value.executed == s.executed + s.pending
  {
    var s := Run(es).value;
    EveryRun(es);
    hide Run, LoopQueues, QueueAll;
    var p1, p2 := [PollReturns(true)], [PollReturns(true), HandleRead];
    var p3 := [PollReturns(true), HandleRead, SwapPending];
    assert p1[..0] == [] && p2[..1] == p1 && p3[..2] == p2;
    var s1 := Step(s, PollReturns(true));
    var s2 := Step(s1, HandleRead);
    assert RunFrom(s, p1) == Some(s1);
    assert RunFrom(s, p2) == Some(s2);
    assert RunFrom(s, p3) == Some(Step(s2, SwapPending));
    var t := RunFrom(s, p3).value;
    BatchRuns(s, p3, t, |s.pending|);
    assert t.batch[..|s.pending|] == s.pending;
  }

  // ---------- quitting ----------

  /** A loop that has been asked to quit before it blocked again has been or will be woken; and none quits unasked. */
  predicate QuitSafe(s: State) {
    (s.quit && s.phase.Polling? ==> Signalled(s)) && (s.phase.Quit? ==> s.quit)
  }

  lemma StepKeepsQuit(s: State, e: Event)
    requires Inv(s) && QuitSafe(s) && Enabled(s, e)
    ensures QuitSafe(Step(s, e)) && (s.quit ==> Step(s, e).quit)
    ensures Step(s, e).quit ==> s.quit || e.RequestQuit?
  {
    if e.RunOne? {
      QueueAllKeeps(s.(batch := s.batch[1..], executed := s.executed + [s.batch[0]]), s.batch[0].queues);
    }
  }

  lemma {:induction false} EveryRunQuits(es: seq<Event>)
    requires Run(es).Some?
    ensures Inv(Run(es).value) && QuitSafe(Run(es).value)
    ensures Run(es).value.quit <==> exists i :: 0 <= i < |es| && es[i].RequestQuit?
  {
    hide Step, Enabled, QuitSafe, Inv;
    EveryRun(es);
    if es == [] {
      InitQuits();
    } else {
      var before, last := es[..|es| - 1], es[|es| - 1];
      EveryRunQuits(before);
      EveryRun(before);
      StepKeepsQuit(Run(before).value, last);
      if last.RequestQuit? {
        RequestSets(Run(before).value);
      } else if exists i :: 0 <= i < |es| && es[i].RequestQuit? {
        var i :| 0 <= i < |es| && es[i].RequestQuit?;
        assert before[i].RequestQuit?;
      }
    }
  }

  lemma InitQuits()
    ensures QuitSafe(Init()) && !Init().quit
  {
  }

  lemma RequestSets(s: State)
    ensures Step(s, RequestQuit).quit
  {
  }

  /** The loop thread's own steps, and the write that a quit or a push still owes. */
  predicate LoopAlone(es: seq<Event>) {
    forall i :: 0 <= i < |es| ==>
      !es[i].Push? && !es[i].RequestQuit? && !es[i].QueueInLoop? && es[i] != PollReturns(false)
  }

  lemma LoopStep(s: State, es: seq<Event>, t: State, e: Event)
    requires RunFrom(s, es) == Some(t) && Inv(t) && QuitSafe(t) && t.quit && Enabled(t, e)
    ensures RunFrom(s, es + [e]) == Some(Step(t, e)) && Inv(Step(t, e)) && QuitSafe(Step(t, e)) && Step(t, e).quit
  {
    hide Step, Enabled, Inv, QuitSafe;
    RunOn(s, es, t, e);
    StepKeepsInv(t, e);
    StepKeepsQuit(t, e);
  }

  /** From inside a turn to the look at the flag. */
  lemma {:induction false} FinishTurn(s: State, es: seq<Event>, t: State) returns (more: seq<Event>)
    requires RunFrom(s, es) == Some(t) && Inv(t) && QuitSafe(t) && t.quit
    requires t.phase.Handling? || t.phase.Calling? || t.phase.Expiring?
    ensures LoopAlone(more) && RunFrom(s, es + more).Some? && RunFrom(s, es + more).value.phase.Quit?
    decreases match t.phase case Handling(true) => 3 case Handling(false) => 2 case Calling => 1 case _ => 0, |t.batch|
  {
    hide RunFrom, Inv, QuitSafe, LoopQueues, QueueAll;
    var e := match t.phase
             case Handling(wake) => if wake then HandleRead else SwapPending
             case Calling => if t.batch == [] then EndCalling else RunOne
             case _ => HandleExpired;
    if e.RunOne? { RunOneRuns(t); }
    LoopStep(s, es, t, e);
    var u := Step(t, e);
    if u.phase.Quit? {
      more := [e];
    } else {
      var rest := FinishTurn(s, es + [e], u);
      more := [e] + rest;
      assert es + more == es + [e] + rest;
    }
  }

  /** Once it has been asked to quit, from every reachable state, the loop thread's own steps and the write the request
      owes bring it out of the loop. */
  lemma QuitIsReached(es: seq<Event>) returns (more: seq<Event>)
    requires Run(es).Some? && Run(es).value.quit && !Run(es).value.phase.Quit?
    ensures LoopAlone(more) && Run(es + more).Some? && Run(es + more).value.phase.Quit?
  {
    hide RunFrom, Inv, QuitSafe;
    EveryRunQuits(es);
    var t := Run(es).value;
    more := [];
    assert es + [] == es;
    if t.phase.Polling? {
      PollingIsSignalled(t);
      if !(t.counter > 0 && t.edge) {
        LoopStep(Init(), es, t, Wakeup);
        more, t := [Wakeup], Step(t, Wakeup);
      }
      LoopStep(Init(), es + more, t, PollReturns(true));
      assert es + more + [PollReturns(true)] == es + (more + [PollReturns(true)]);
      more, t := more + [PollReturns(true)], Step(t, PollReturns(true));
    }
    var rest := FinishTurn(Init(), es + more, t);
    assert es + more + rest == es + (more + rest);
    more := more + rest;
  }

  lemma PollingIsSignalled(s: State)
    requires QuitSafe(s) && s.quit && s.phase.Polling?
    ensures (s.counter > 0 && s.edge) || s.writers > 0
  {
  }

  /** Queueing on the loop thread is safe only where functors are called or the swap is still to come.  In this
      run a functor queued while expired timers are handled leaves the loop in poll with nothing to wake it:
      only another thread or another channel can. */
  lemma QueuedTooLate(f: Functor)
    ensures var es := [PollReturns(false), SwapPending, EndCalling];
            Run(es).Some? && Run(es).value.phase.Expiring?
            && var u := Step(LoopQueues(Run(es).value, f), HandleExpired);
               u.phase.Polling? && u.pending == [f] && !Signalled(u)
               && forall e :: Enabled(u, e) ==> e.Push? || e.RequestQuit? || e == PollReturns(false)
  {
    var a, b, c := PollReturns(false), SwapPending, EndCalling;
    assert [a][..0] == [] && [a, b][..1] == [a] && [a, b, c][..2] == [a, b];
    assert RunFrom(Init(), [a]) == Some(Step(Init(), a));
    assert RunFrom(Init(), [a, b]) == Some(Step(Step(Init(), a), b));
    assert Run([a, b, c]) == Some(Step(Step(Step(Init(), a), b), c));
  }

  // ---------- the class ----------

  /** What another thread does meanwhile: the push of its queueInLoop, or the write of one that has pushed. */
  datatype Other = Pushes(f: Functor) | Writes

  function PushesOf(os: seq<Other>): seq<Functor> {
    if os == [] then []
    else
      var last := os[|os| - 1];
      PushesOf(os[..|os| - 1]) + (if last.Pushes? then [last.f] else [])
  }

  /** What other threads do before functor `i` runs. */
  function Before(others: seq<seq<Other>>, i: nat): seq<Other> {
    if i < |others| then others[i] else []
  }

  /** What is queued while a batch runs: before each functor what others push, then what it queues itself. */
  function Merged(fs: seq<Functor>, others: seq<seq<Other>>): seq<Functor> {
    if fs == [] then []
    else Merged(fs[..|fs| - 1], others) + PushesOf(Before(others, |fs| - 1)) + fs[|fs| - 1].queues
  }

  lemma MergedNothing(others: seq<seq<Other>>)
    ensures Merged([], others) == []
  {
  }

  lemma MergedOn(fs: seq<Functor>, others: seq<seq<Other>>, i: nat)
    requires i < |fs|
    ensures Merged(fs[..i + 1], others) == Merged(fs[..i], others) + PushesOf(Before(others, i)) + fs[i].queues
  {
    assert fs[..i + 1][..i] == fs[..i];
  }

  /** EventLoop, its members kept in step with the transition system; `spec` adds the producers and the place
      of the loop thread. */
  class EventLoop {
    var pendingFunctors: seq<Functor>
    var callingPendingFunctors: bool
    var counter: nat                  // wakeupFd_
    var edge: bool
    var writers: nat                  // other threads between their push and their write
    var executed: seq<Functor>
    ghost var spec: State

    ghost predicate Mirrors()
      reads this
    {
      spec.pending == pendingFunctors && spec.calling == callingPendingFunctors
      && spec.counter == counter && spec.edge == edge && spec.writers == writers && spec.executed == executed
    }

    ghost predicate Valid()
      reads this
    {
      Mirrors() && Inv(spec)
    }

    constructor ()
      ensures Valid() && spec == Init()
    {
      pendingFunctors, callingPendingFunctors, counter, edge, writers, executed := [], false, 0, false, 0, [];
      spec := Init();
    }

    /** The critical section of queueInLoop, on a thread other than the loop's. */
    method Push(cb: Functor)
      requires Valid()
      modifies this`pendingFunctors, this`writers, this`spec
      ensures Valid() && spec == Step(old(spec), Event.Push(cb))
    {
      StepKeepsInv(spec, Event.Push(cb));
      pendingFunctors, writers := pendingFunctors + [cb], writers + 1;
      spec := Step(spec, Event.Push(cb));
    }

    /** The write to the eventfd that follows it. */
    method Wakeup()
      requires Valid() && writers > 0
      modifies this`counter, this`edge, this`writers, this`spec
      ensures Valid() && spec == Step(old(spec), Event.Wakeup)
    {
      StepKeepsInv(spec, Event.Wakeup);
      counter, edge, writers := counter + 1, true, writers - 1;
      spec := Step(spec, Event.Wakeup);
    }

    /** queueInLoop on the loop thread. */
    method QueueInLoop(cb: Functor)
      requires Mirrors()
      modifies this`pendingFunctors, this`counter, this`edge, this`spec
      ensures Mirrors() && spec == LoopQueues(old(spec), cb)
    {
      pendingFunctors := pendingFunctors + [cb];
      if callingPendingFunctors {
        counter, edge := counter + 1, true;
      }
      spec := LoopQueues(spec, cb);
    }

    /** Running a functor queues what it queues, each with a write to the eventfd. */
    method Call(f: Functor)
      requires Valid() && spec.batch != [] && spec.batch[0] == f && callingPendingFunctors
      modifies this`pendingFunctors, this`counter, this`edge, this`executed, this`spec
      ensures Valid() && spec == Step(old(spec), RunOne)
      ensures executed == old(executed) + [f] && pendingFunctors == old(pendingFunctors) + f.queues
      ensures spec.batch == old(spec).batch[1..] && spec.phase == old(spec).phase
      ensures (old(counter > 0 && edge) || f.queues != []) ==> counter > 0 && edge
    {
      hide LoopQueues;
      StepKeepsInv(spec, RunOne);
      ghost var after := Step(spec, RunOne);
      executed := executed + [f];
      spec := spec.(batch := spec.batch[1..], executed := spec.executed + [f]);
      ghost var start := spec;
      QueueAllKeeps(start, f.queues);
      assert f.queues[..0] == [];
      for i := 0 to |f.queues|
        invariant Mirrors() && spec == QueueAll(start, f.queues[..i])
      {
        assert f.queues[..i + 1][..i] == f.queues[..i];
        QueueInLoop(f.queues[i]);
      }
      assert f.queues[..|f.queues|] == f.queues;
      assert spec == after;
    }

    method HandleRead()
      requires Valid() && spec.phase == Handling(true)
      modifies this`counter, this`spec
      ensures Valid() && spec == Step(old(spec), Event.HandleRead)
    {
      StepKeepsInv(spec, Event.HandleRead);
      counter := 0;
      spec := Step(spec, Event.HandleRead);
    }

    /** Other threads queue functors while the loop thread works; some are left between their push and their
        write. */
    method OthersStep(os: seq<Other>)
      requires Valid()
      modifies this`pendingFunctors, this`counter, this`edge, this`writers, this`spec
      ensures Valid() && pendingFunctors == old(pendingFunctors) + PushesOf(os)
      ensures spec.batch == old(spec).batch && spec.phase == old(spec).phase
    {
      hide Inv, LoopQueues, QueueAll;
      for i := 0 to |os|
        invariant Valid() && pendingFunctors == old(pendingFunctors) + PushesOf(os[..i])
        invariant spec.batch == old(spec).batch && spec.phase == old(spec).phase && spec.calling == old(spec).calling
      {
        assert os[..i + 1][..i] == os[..i];
        match os[i] {
          case Pushes(f) => Push(f);
          case Writes => if writers > 0 { Wakeup(); }
        }
      }
      assert os[..|os|] == os;
    }

    /** The loop over the swapped batch; `others[i]` is what other threads do before functor `i` runs. */
    method RunBatch(functors: seq<Functor>, others: seq<seq<Other>>)
      requires Valid() && spec.batch == functors && callingPendingFunctors && pendingFunctors == []
      modifies this`pendingFunctors, this`counter, this`edge, this`writers, this`executed, this`spec
      ensures Valid() && spec.batch == [] && spec.phase == old(spec).phase
      ensures executed == old(executed) + functors && pendingFunctors == Merged(functors, others)
    {
      hide Step, Inv, Merged;
      var i := 0;
      assert functors[..0] == [];
      MergedNothing(others);
      while i < |functors|
        invariant 0 <= i <= |functors|
        invariant Valid() && spec.batch == functors[i..] && callingPendingFunctors && spec.phase == old(spec).phase
        invariant executed == old(executed) + functors[..i]
        invariant pendingFunctors == Merged(functors[..i], others)
      {
        assert functors[i..][1..] == functors[i + 1..] && functors[..i + 1] == functors[..i] + [functors[i]];
        MergedOn(functors, others, i);
        OthersStep(Before(others, i));
        Call(functors[i]);
        i := i + 1;
      }
      assert functors[..i] == functors;
    }

    /** doPendingFunctors: exactly the functors pending before it run, in order; those they queue, and those
        other threads push meanwhile, wait for the next turn, with the eventfd written or a producer about to
        write it. */
    method DoPendingFunctors(others: seq<seq<Other>>)
      requires Valid() && spec.phase == Handling(false)
      modifies this
      ensures Valid() && spec.phase.Expiring? && !callingPendingFunctors
      ensures executed == old(executed) + old(pendingFunctors)
      ensures pendingFunctors == Merged(old(pendingFunctors), others)
      ensures pendingFunctors != [] ==> (counter > 0 && edge) || writers > 0
    {
      hide LoopQueues, QueueAll, Merged;
      StepKeepsInv(spec, SwapPending);
      spec := Step(spec, SwapPending);
      callingPendingFunctors := true;
      var functors := pendingFunctors;
      pendingFunctors := [];
      RunBatch(functors, others);
      StepKeepsInv(spec, EndCalling);
      callingPendingFunctors := false;
      spec := Step(spec, EndCalling);
    }
  }
}
