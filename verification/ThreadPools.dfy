/**
The queue of glacier/base/threadpool.h under its mutex and condition variable: any number of
committers, a fixed number of workers.  A worker tests the wait predicate while it holds the mutex
and gives the mutex up only when it blocks; notifications may fall anywhere between.
*/
module ThreadPools {
  import opened Sequences

  type Task = int

  /** A worker at `while (!stoped_)`; wanting the mutex to test the predicate; holding it with the predicate
      false; blocked in wait; running a task; returned. */
  datatype Worker = AtHead | Wanting | Tested | Parked | Running(task: Task) | Exited

  datatype State = State(
    tasks: seq<Task>,
    workers: seq<Worker>,
    lock: Option<nat>,               // the worker between its test and its wait, if any
    notices: nat,                    // committers between their push and their notify_one
    stoped: bool,
    stopping: bool,                  // the destructor is between its store and its notify_all
    dequeued: seq<(Task, nat)>)

  datatype Event =
    | Commit(t: Task)                // the template overload: push, the notification follows outside the mutex
    | Notify(wakes: Option<nat>)       // that notification, and the worker it wakes
    | CommitVoid(t: Task, wakes: Option<nat>)   // the other overload notifies inside the mutex
    | LoopTest(w: nat)
    | Test(w: nat)
    | Block(w: nat)
    | Spurious(w: nat)
    | Finish(w: nat)
    | Stop
    | NotifyAll

  function Init(n: nat): State {
    State([], seq(n, _ => AtHead), None, 0, false, false, [])
  }

  predicate Wakes(s: State, w: Option<nat>) {
    if w.Some? then w.value < |s.workers| && s.workers[w.value].Parked?
    else forall i :: 0 <= i < |s.workers| ==> !s.workers[i].Parked?
  }

  /** notify_one wakes one blocked worker when there is one, and is lost otherwise. */
  function NotifyOne(s: State, w: Option<nat>): State
    requires Wakes(s, w)
  {
    if w.Some? then s.(workers := s.workers[w.value := Wanting]) else s
  }

  predicate Enabled(s: State, e: Event) {
    match e
    case Commit(_) => s.lock.None?
    case Notify(w) => s.notices > 0 && Wakes(s, w)
    case CommitVoid(_, w) => s.lock.None? && Wakes(s, w)
    case LoopTest(w) => w < |s.workers| && s.workers[w].AtHead?
    case Test(w) => w < |s.workers| && s.workers[w].Wanting? && s.lock.None?
    case Block(w) => w < |s.workers| && s.workers[w].Tested?
    case Spurious(w) => w < |s.workers| && s.workers[w].Parked?
    case Finish(w) => w < |s.workers| && s.workers[w].Running?
    case Stop => !s.stoped
    case NotifyAll => s.stopping
  }

  function TestStep(s: State, w: nat): State
    requires w < |s.workers|
  {
    if !s.stoped && s.tasks == [] then s.(workers := s.workers[w := Tested], lock := Some(w))
    else if s.tasks == [] then s.(workers := s.workers[w := Exited])
    else
      s.(tasks := s.tasks[1..], workers := s.workers[w := Running(s.tasks[0])],
         dequeued := s.dequeued + [(s.tasks[0], w)])
  }

  function Step(s: State, e: Event): State
    requires Enabled(s, e)
  {
    match e
    case Commit(t) => s.(tasks := s.tasks + [t], notices := s.notices + 1)
    case Notify(w) => NotifyOne(s.(notices := s.notices - 1), w)
    case CommitVoid(t, w) => NotifyOne(s.(tasks := s.tasks + [t]), w)
    case LoopTest(w) => s.(workers := s.workers[w := if s.stoped then Exited else Wanting])
    case Test(w) => TestStep(s, w)
    case Block(w) => s.(workers := s.workers[w := Parked], lock := None)
    case Spurious(w) => s.(workers := s.workers[w := Wanting])
    case Finish(w) => s.(workers := s.workers[w := AtHead])
    case Stop => s.(stoped := true, stopping := true)
    case NotifyAll =>
      s.(stopping := false,
         workers := seq(|s.workers|, i requires 0 <= i < |s.workers| =>
                          if s.workers[i].Parked? then Wanting else s.workers[i]))
  }

  /** The state after the events, none when one of them is not possible in its turn. */
  function RunFrom(s: State, es: seq<Event>): Option<State> {
    if es == [] then Some(s)
    else
      match RunFrom(s, es[..|es| - 1])
      case None => None
      case Some(t) => if Enabled(t, es[|es| - 1]) then Some(Step(t, es[|es| - 1])) else None
  }

  function Run(n: nat, es: seq<Event>): Option<State> {
    RunFrom(Init(n), es)
  }

  function Committed(es: seq<Event>): seq<Task> {
    if es == [] then []
    else
      Committed(es[..|es| - 1]) + Adds(es[|es| - 1])
  }

  function Tasks(ds: seq<(Task, nat)>): seq<Task> {
    if ds == [] then [] else Tasks(ds[..|ds| - 1]) + [ds[|ds| - 1].0]
  }

  // ---------- the invariant ----------

  /** The workers that will test the predicate before they can block. */
  function Seekers(ws: seq<Worker>): nat {
    if ws == [] then 0
    else Seekers(ws[..|ws| - 1]) + (if Seeks(ws[|ws| - 1]) then 1 else 0)
  }

  predicate Seeks(w: Worker) {
    w.AtHead? || w.Wanting?
  }

  predicate SomeParked(s: State) {
    exists i :: 0 <= i < |s.workers| && s.workers[i].Parked?
  }

  /** While a worker sleeps, every queued task has a worker on its way to the queue, or a notification, of its
      own. */
  predicate Attended(s: State) {
    SomeParked(s) ==> |s.tasks| <= Seekers(s.workers) + s.notices
  }

  predicate Inv(s: State) {
    (forall w :: 0 <= w < |s.workers| && s.workers[w].Tested? ==> s.lock == Some(w))
    && (s.lock.Some? ==> s.tasks == [] || s.stoped)
    && (s.lock.Some? ==> s.lock.value < |s.workers| && s.workers[s.lock.value].Tested?)
    && (!s.stoped ==> Attended(s))
  }

  lemma {:induction false} SeekersUpdate(ws: seq<Worker>, i: nat, w: Worker)
    requires i < |ws|
    ensures Seekers(ws[i := w]) + (if Seeks(ws[i]) then 1 else 0) == Seekers(ws) + (if Seeks(w) then 1 else 0)
  {
    var n := |ws| - 1;
    var ws' := ws[i := w];
    if i < n {
      assert ws'[..n] == ws[..n][i := w];
      SeekersUpdate(ws[..n], i, w);
    } else {
      assert ws'[..n] == ws[..n];
    }
  }

  /** The worker whose state a step changes, if it is one worker's. */
  function Acts(e: Event): Option<nat> {
    match e
    case Notify(w) => w
    case CommitVoid(_, w) => w
    case LoopTest(w) => Some(w)
    case Test(w) => Some(w)
    case Block(w) => Some(w)
    case Spurious(w) => Some(w)
    case Finish(w) => Some(w)
    case _ => None
  }

  lemma StepKeepsInv(s: State, e: Event)
    requires Inv(s) && Enabled(s, e)
    ensures Inv(Step(s, e))
  {
    hide Seekers;
    if Acts(e).Some? { SeekersUpdate(s.workers, Acts(e).value, Step(s, e).workers[Acts(e).value]); }
  }

  /** The task a step commits. */
  function Adds(e: Event): seq<Task> {
    match e
    case Commit(t) => [t]
    case CommitVoid(t, _) => [t]
    case _ => []
  }

  lemma TasksSnoc(ds: seq<(Task, nat)>, d: (Task, nat))
    ensures Tasks(ds + [d]) == Tasks(ds) + [d.0]
  {
    assert (ds + [d])[..|ds|] == ds;
  }

  lemma TestKeepsOrder(s: State, w: nat, committed: seq<Task>)
    requires w < |s.workers| && committed == Tasks(s.dequeued) + s.tasks
    ensures Tasks(TestStep(s, w).dequeued) + TestStep(s, w).tasks == committed
  {
    hide Tasks;
    if s.tasks != [] { TasksSnoc(s.dequeued, (s.tasks[0], w)); }
  }

  lemma OtherKeepsOrder(s: State, e: Event)
    requires Enabled(s, e) && !e.Test?
    ensures Step(s, e).dequeued == s.dequeued && Step(s, e).tasks == s.tasks + Adds(e)
  {
    hide Tasks, Seekers;
  }

  lemma StepKeepsOrder(s: State, e: Event, committed: seq<Task>)
    requires Enabled(s, e) && committed == Tasks(s.dequeued) + s.tasks
    ensures Tasks(Step(s, e).dequeued) + Step(s, e).tasks == committed + Adds(e)
  {
    hide Tasks, TestStep, NotifyOne, Wakes;
    if e.Test? {
      TestKeepsOrder(s, e.w, committed);
    } else {
      OtherKeepsOrder(s, e);
    }
  }

  /** In every interleaving, also after stop: every committed task is in exactly one place, dequeued by one
      worker or still queued, first in first out. */
  lemma {:induction false} EveryRun(n: nat, es: seq<Event>)
    requires Run(n, es).Some?
    ensures var s := Run(n, es).value;
            Inv(s) && Committed(es) == Tasks(s.dequeued) + s.tasks && |s.workers| == n
  {
    hide Step, Inv, Enabled, Tasks;
    if es == [] {
      InitInv(n);
    } else {
      var before := es[..|es| - 1];
      EveryRun(n, before);
      StepKeepsInv(Run(n, before).value, es[|es| - 1]);
      StepKeepsOrder(Run(n, before).value, es[|es| - 1], Committed(before));
      SameWorkers(Run(n, before).value, es[|es| - 1]);
    }
  }

  lemma InitInv(n: nat)
    ensures Inv(Init(n)) && Tasks(Init(n).dequeued) + Init(n).tasks == []
  {
  }

  lemma SameWorkers(s: State, e: Event)
    requires Enabled(s, e)
    ensures |Step(s, e).workers| == |s.workers|
  {
  }

  lemma {:induction false} SomeSeeker(ws: seq<Worker>)
    requires Seekers(ws) > 0
    ensures exists i :: 0 <= i < |ws| && Seeks(ws[i])
  {
    var n := |ws| - 1;
    if !Seeks(ws[n]) {
      SomeSeeker(ws[..n]);
      var i :| 0 <= i < n && Seeks(ws[..n][i]);
      assert Seeks(ws[i]);
    }
  }

  /** No lost wakeup before stop: while any worker sleeps there are, for the tasks in the queue, at least as many
      workers on their way to it or notifications to come; and with at least one worker in the pool a non-empty
      queue never finds them all asleep with no notification to come. */
  lemma NoLostWakeup(n: nat, es: seq<Event>)
    requires n > 0 && Run(n, es).Some? && !Run(n, es).value.stoped
    ensures Attended(Run(n, es).value)
    ensures var s := Run(n, es).value;
            s.tasks != [] ==> s.notices > 0 || exists i :: 0 <= i < |s.workers| && !s.workers[i].Parked?
  {
    hide Run, Committed;
    EveryRun(n, es);
    var s := Run(n, es).value;
    if s.tasks != [] && s.notices == 0 {
      if SomeParked(s) {
        SomeSeeker(s.workers);
        var i :| 0 <= i < n && Seeks(s.workers[i]);
        assert !s.workers[i].Parked?;
      } else {
        assert !s.workers[0].Parked?;
      }
    }
  }

  // ---------- progress ----------

  lemma RunOn(s: State, es: seq<Event>, t: State, e: Event) returns (u: State)
    requires (es == [] && t == s) || RunFrom(s, es) == Some(t)
    requires Enabled(t, e)
    ensures u == Step(t, e) && RunFrom(s, es + [e]) == Some(u)
  {
    hide Enabled, Step;
    u := Step(t, e);
    assert (es + [e])[..|es|] == es;
  }

  lemma {:induction false} RunConcat(s: State, es: seq<Event>, t: State, fs: seq<Event>)
    requires RunFrom(s, es) == Some(t)
    ensures RunFrom(s, es + fs) == RunFrom(t, fs)
    decreases fs
  {
    hide Step, Enabled;
    if fs == [] {
      assert es + fs == es;
    } else {
      assert (es + fs)[..|es + fs| - 1] == es + fs[..|fs| - 1];
      RunConcat(s, es, t, fs[..|fs| - 1]);
    }
  }

  /** What the workers do by themselves, with the notifications still to come. */
  predicate OnlyWorkers(es: seq<Event>) {
    forall i :: 0 <= i < |es| ==> es[i].Notify? || es[i].LoopTest? || es[i].Test? || es[i].Finish?
  }

  /** Before stop the invariant holds and no worker has returned. */
  predicate Serving(s: State) {
    Inv(s) && !s.stoped && forall w :: 0 <= w < |s.workers| ==> !s.workers[w].Exited?
  }

  lemma StaysServing(s: State, e: Event)
    requires Serving(s) && Enabled(s, e) && !e.Stop?
    ensures Serving(Step(s, e))
  {
    hide Inv;
    StepKeepsInv(s, e);
  }

  lemma {:induction false} ServingBeforeStop(n: nat, es: seq<Event>)
    requires Run(n, es).Some? && !Run(n, es).value.stoped
    ensures Serving(Run(n, es).value)
  {
    hide Step, Enabled, Inv, Serving;
    if es == [] {
      InitServes(n);
    } else {
      var s := Run(n, es[..|es| - 1]).value;
      OnlyStopStops(s, es[|es| - 1]);
      ServingBeforeStop(n, es[..|es| - 1]);
      StaysServing(s, es[|es| - 1]);
    }
  }

  lemma InitServes(n: nat)
    ensures Serving(Init(n))
  {
    InitInv(n);
  }

  lemma OnlyStopStops(s: State, e: Event)
    requires Enabled(s, e) && !Step(s, e).stoped
    ensures !s.stoped && !e.Stop?
  {
  }

  /** With a task in the queue and a worker in the pool, some worker can be brought to test the predicate: one
      that is on its way, one that finishes its task, or a sleeping one that a notification wakes. */
  lemma SomeoneComes(s: State) returns (w: nat, es: seq<Event>)
    requires Serving(s) && s.tasks != [] && s.workers != []
    ensures OnlyWorkers(es) && RunFrom(s, es).Some? && w < |s.workers|
    ensures var t := RunFrom(s, es).value;
            Serving(t) && t.tasks == s.tasks && t.dequeued == s.dequeued && |t.workers| == |s.workers|
            && t.workers[w].Wanting? && t.lock.None?
  {
    hide Seekers, RunFrom;
    es := [];
    RunOfNone(s);
    assert s.lock.None?;
    if i :| 0 <= i < |s.workers| && !s.workers[i].Parked? {
      w := i;
      var t := s;
      if t.workers[w].Running? {
        StaysServing(t, Finish(w));
        t := RunOn(s, es, t, Finish(w));
        es := es + [Finish(w)];
      }
      if t.workers[w].AtHead? {
        StaysServing(t, LoopTest(w));
        t := RunOn(s, es, t, LoopTest(w));
        es := es + [LoopTest(w)];
      }
    } else {
      AllAsleep(s);
      w := 0;
      StaysServing(s, Notify(Some(0)));
      var t := RunOn(s, es, s, Notify(Some(0)));
      es := es + [Notify(Some(0))];
    }
  }

  lemma RunOfNone(s: State)
    ensures RunFrom(s, []) == Some(s)
  {
  }

  lemma AllAsleep(s: State)
    requires Serving(s) && s.tasks != [] && s.workers != []
    requires forall i :: 0 <= i < |s.workers| ==> s.workers[i].Parked?
    ensures s.notices > 0
  {
    if Seekers(s.workers) > 0 { SomeSeeker(s.workers); }
    assert s.workers[0].Parked?;
  }

  /** A worker that wants the mutex takes the first task. */
  lemma OneTask(s: State) returns (es: seq<Event>)
    requires Serving(s) && s.tasks != [] && s.workers != []
    ensures OnlyWorkers(es) && RunFrom(s, es).Some?
    ensures var t := RunFrom(s, es).value;
            Serving(t) && t.tasks == s.tasks[1..] && |t.workers| == |s.workers|
            && Tasks(t.dequeued) == Tasks(s.dequeued) + [s.tasks[0]]
  {
    hide Seekers, RunFrom, Inv, Tasks;
    var w;
    w, es := SomeoneComes(s);
    var t := RunFrom(s, es).value;
    StaysServing(t, Test(w));
    TasksSnoc(t.dequeued, (t.tasks[0], w));
    var u := RunOn(s, es, t, Test(w));
    es := es + [Test(w)];
  }

  lemma {:induction false} AllTasks(s: State) returns (es: seq<Event>)
    requires Serving(s) && s.workers != []
    ensures OnlyWorkers(es) && RunFrom(s, es).Some?
    ensures RunFrom(s, es).value.tasks == []
            && Tasks(RunFrom(s, es).value.dequeued) == Tasks(s.dequeued) + s.tasks
    decreases |s.tasks|
  {
    hide RunFrom, Serving, Tasks;
    if s.tasks == [] {
      es := [];
      RunOfNone(s);
    } else {
      es := OneTask(s);
      var t := RunFrom(s, es).value;
      var rest := AllTasks(t);
      RunConcat(s, es, t, rest);
      es := es + rest;
    }
  }

  /** From every reachable state before stop, with a worker in the pool, the workers' own steps and the
      notifications still to come are enough to dequeue every committed task, in order. */
  lemma EveryTaskIsTaken(n: nat, es: seq<Event>) returns (more: seq<Event>)
    requires n > 0 && Run(n, es).Some? && !Run(n, es).value.stoped
    ensures OnlyWorkers(more) && Run(n, es + more).Some?
    ensures Run(n, es + more).value.tasks == [] && Tasks(Run(n, es + more).value.dequeued) == Committed(es)
  {
    hide RunFrom, Serving, Inv, Tasks, Committed;
    EveryRun(n, es);
    ServingBeforeStop(n, es);
    var s := Run(n, es).value;
    more := AllTasks(s);
    RunConcat(Init(n), es, s, more);
  }

  // ---------- the destructor ----------

  /** The flag is stored, no worker is between its test and its wait, and once all are notified none sleeps. */
  predicate Awake(s: State) {
    s.stoped && s.lock.None?
    && forall w :: 0 <= w < |s.workers| ==> !s.workers[w].Tested? && (s.workers[w].Parked? ==> s.stopping)
  }

  /** With the flag stored no test ends in a wait again. */
  lemma AwakeStays(s: State, e: Event)
    requires Awake(s) && Enabled(s, e)
    ensures Awake(Step(s, e))
  {
  }

  lemma {:induction false} AwakeInEveryRun(s: State, es: seq<Event>)
    requires Awake(s) && RunFrom(s, es).Some?
    ensures Awake(RunFrom(s, es).value)
  {
    hide Awake, Step, Enabled;
    if es != [] {
      var before := es[..|es| - 1];
      AwakeInEveryRun(s, before);
      AwakeStays(RunFrom(s, before).value, es[|es| - 1]);
    }
  }

  /** What a worker's test comes to, before and after stop: while there is a task it takes the first; without one it
      waits with the mutex in hand before stop, and returns only after it. */
  lemma TestedExactly(s: State, w: nat)
    requires Enabled(s, Test(w))
    ensures var t := Step(s, Test(w));
            |t.workers| == |s.workers| && (forall v :: 0 <= v < |s.workers| && v != w ==> t.workers[v] == s.workers[v])
            && (if s.tasks != [] then t.workers[w] == Running(s.tasks[0]) && t.tasks == s.tasks[1..] && t.lock == None
                else if s.stoped then t.workers[w] == Exited && t.tasks == [] && t.lock == None
                else t.workers[w] == Tested && t.tasks == [] && t.lock == Some(w))
  {
  }

  /** A worker that wakes up, whether a notification or the system woke it, tests again and takes a task that waits. */
  lemma WokenIsServed(s: State, w: nat, e: Event)
    requires w < |s.workers| && s.workers[w].Parked? && s.lock == None && s.tasks != []
    requires e == Spurious(w) || (e == Notify(Some(w)) && s.notices > 0) || (e == NotifyAll && s.stopping)
    ensures Enabled(s, e) && Enabled(Step(s, e), Test(w))
    ensures Step(Step(s, e), Test(w)).workers[w] == Running(s.tasks[0])
  {
  }

  /** A worker's own steps after the flag is stored and the workers are notified: it returns, after one task at most. */
  lemma OneReturns(s: State, w: nat) returns (es: seq<Event>)
    requires Awake(s) && !s.stopping && w < |s.workers|
    ensures OnlyWorkers(es) && RunFrom(s, es).Some?
    ensures var t := RunFrom(s, es).value;
            Awake(t) && !t.stopping && |t.workers| == |s.workers| && t.workers[w].Exited?
            && (forall v :: 0 <= v < |s.workers| && v != w ==> t.workers[v] == s.workers[v])
  {
    hide RunFrom;
    es := [];
    RunOfNone(s);
    var t := s;
    if t.workers[w].Wanting? {
      AwakeStays(t, Test(w));
      t := RunOn(s, es, t, Test(w));
      es := es + [Test(w)];
    }
    if t.workers[w].Running? {
      AwakeStays(t, Finish(w));
      t := RunOn(s, es, t, Finish(w));
      es := es + [Finish(w)];
    }
    if t.workers[w].AtHead? {
      AwakeStays(t, LoopTest(w));
      t := RunOn(s, es, t, LoopTest(w));
      es := es + [LoopTest(w)];
    }
  }

  lemma {:induction false} FirstReturn(s: State, n: nat) returns (es: seq<Event>)
    requires Awake(s) && !s.stopping && n <= |s.workers|
    ensures OnlyWorkers(es) && RunFrom(s, es).Some?
    ensures var t := RunFrom(s, es).value;
            Awake(t) && !t.stopping && |t.workers| == |s.workers|
            && (forall v :: 0 <= v < n ==> t.workers[v].Exited?)
  {
    hide RunFrom, Awake;
    if n == 0 {
      es := [];
      RunOfNone(s);
    } else {
      es := FirstReturn(s, n - 1);
      var t := RunFrom(s, es).value;
      var rest := OneReturns(t, n - 1);
      RunConcat(s, es, t, rest);
      es := es + rest;
    }
  }

  /** Where nobody can be stranded everybody returns: from every such state the notification, if it is still to come,
      and the workers' own steps bring all workers to their end, so that the destructor can join them. */
  lemma AllReturn(s: State) returns (es: seq<Event>)
    requires Awake(s)
    ensures RunFrom(s, es).Some? && forall w :: 0 <= w < |es| ==> es[w].NotifyAll? || OnlyWorkers([es[w]])
    ensures |RunFrom(s, es).value.workers| == |s.workers|
            && forall w :: 0 <= w < |s.workers| ==> RunFrom(s, es).value.workers[w].Exited?
  {
    hide RunFrom, Awake;
    es := [];
    RunOfNone(s);
    var t := s;
    if s.stopping {
      AwakeStays(s, NotifyAll);
      t := RunOn(s, [], s, NotifyAll);
      es := [] + [NotifyAll];
    }
    var rest := FirstReturn(t, |t.workers|);
    RunConcat(s, es, t, rest);
    es := es + rest;
  }

  /** Between the store and the notification: all workers will be awake after it exactly when none of them holds the
      mutex between its test and its wait. */
  lemma NotifyAllReachesAllExactly(s: State)
    requires Inv(s) && s.stoped && s.stopping
    ensures s.lock.None?
            <==> forall w :: 0 <= w < |s.workers| ==> !Step(s, NotifyAll).workers[w].Tested?
                                                      && !Step(s, NotifyAll).workers[w].Parked?
  {
    hide Seekers;
    if s.lock.Some? { assert Step(s, NotifyAll).workers[s.lock.value].Tested?; }
  }

  /** A worker sleeps although the pool is stopped and all its workers have been notified. */
  ghost predicate Stranded(s: State) {
    s.stoped && !s.stopping && SomeParked(s)
  }

  /** The steps that leave the worker that holds the mutex asleep after the store of the flag. */
  function Stranding(w: nat): seq<Event> {
    [NotifyAll, Block(w)]
  }

  lemma StrandingRun(s: State, w: nat)
    requires Inv(s) && s.stoped && s.stopping && s.lock == Some(w)
    ensures RunFrom(s, Stranding(w)).Some? && RunFrom(s, Stranding(w)).value.workers[w].Parked?
            && Stranded(RunFrom(s, Stranding(w)).value)
  {
    hide Seekers;
    var es := Stranding(w);
    assert es[..1] == [NotifyAll] && [NotifyAll][..0] == [];
    var u := Step(s, NotifyAll);
    assert RunFrom(s, [NotifyAll]) == Some(u) && u.workers[w].Tested?;
    var v := Step(u, Block(w));
    assert RunFrom(s, es) == Some(v) && v.workers[w].Parked?;
  }

  /** The destructor can strand a worker exactly when its store of the flag falls between a worker's test and its
      wait.  Stored under the mutex, where no worker is there, it strands nobody in any run. */
  lemma StopStrandsExactly(s: State)
    requires Inv(s) && !s.stoped
    ensures (exists es :: RunFrom(Step(s, Stop), es).Some? && Stranded(RunFrom(Step(s, Stop), es).value))
            <==> s.lock.Some?
  {
    hide RunFrom, Inv, Stranded;
    var u := Step(s, Stop);
    StepKeepsInv(s, Stop);
    if s.lock.Some? {
      StrandingRun(u, s.lock.value);
    } else {
      StoredUnlocked(s);
      forall es | RunFrom(u, es).Some? ensures !Stranded(RunFrom(u, es).value) {
        AwakeInEveryRun(u, es);
        AwakeIsNotStranded(RunFrom(u, es).value);
      }
    }
  }

  lemma StoredUnlocked(s: State)
    requires Inv(s) && !s.stoped && s.lock.None?
    ensures Awake(Step(s, Stop))
  {
    hide Seekers;
  }

  lemma AwakeIsNotStranded(s: State)
    requires Awake(s)
    ensures !Stranded(s)
  {
  }

  /** The steps that could still wake a stranded worker: a commit, and the notification that follows it, or the
      system waking it for no reason. */
  predicate CouldWake(e: Event) {
    e.Commit? || e.CommitVoid? || e.Spurious?
  }

  /** Without them it sleeps for ever, and join waits for it. */
  lemma {:induction false} StrandedForGood(s: State, w: nat, es: seq<Event>)
    requires s.stoped && !s.stopping && s.notices == 0 && w < |s.workers| && s.workers[w].Parked?
    requires RunFrom(s, es).Some? && forall k :: 0 <= k < |es| ==> !CouldWake(es[k])
    ensures var u := RunFrom(s, es).value;
            u.stoped && !u.stopping && u.notices == 0 && w < |u.workers| && u.workers[w].Parked?
  {
    hide Seekers, Tasks;
    if es != [] {
      StrandedForGood(s, w, es[..|es| - 1]);
      assert !CouldWake(es[|es| - 1]);
    }
  }

  /** It does happen: one worker, and store and notify_all between its first test and its wait. */
  lemma StopCanStrandAWorker()
    ensures var es := [LoopTest(0), Test(0), Stop, NotifyAll, Block(0)];
            Run(1, es).Some? && Run(1, es).value.notices == 0 && Run(1, es).value.workers == [Parked]
            && Stranded(Run(1, es).value)
  {
    hide RunFrom, Seekers;
    var s0, a, b, c, d, e := Init(1), LoopTest(0), Test(0), Stop, NotifyAll, Block(0);
    var s1 := RunOn(s0, [], s0, a);
    assert [] + [a] == [a] && [a] + [b] == [a, b] && [a, b] + [c] == [a, b, c];
    assert [a, b, c] + [d] == [a, b, c, d] && [a, b, c, d] + [e] == [a, b, c, d, e];
    var s2 := RunOn(s0, [a], s1, b);
    var s3 := RunOn(s0, [a, b], s2, c);
    var s4 := RunOn(s0, [a, b, c], s3, d);
    var s5 := RunOn(s0, [a, b, c, d], s4, e);
    assert s5.workers[0].Parked?;
  }

  // ---------- the class ----------

  /** ThreadPool's members, each critical section in step with the transition system. */
  class ThreadPool {
    const threads: nat
    var tasks: seq<Task>
    var stoped: bool
    ghost var spec: State

    ghost predicate Valid()
      reads this
    {
      spec.tasks == tasks && spec.stoped == stoped && Inv(spec) && |spec.workers| == threads
    }

    constructor (numThread: nat)
      ensures Valid() && spec == Init(numThread) && threads == numThread
    {
      threads, tasks, stoped, spec := numThread, [], false, Init(numThread);
    }

    /** The test of the template commit, outside the mutex: it throws when the pool has been stopped.  Other
        threads may run between this and the push. */
    method Refuse() returns (thrown: bool)
      requires Valid()
      ensures thrown == spec.stoped
    {
      thrown := stoped;
    }

    /** Its critical section. */
    method Enqueue(t: Task)
      requires Valid() && spec.lock.None?
      modifies this
      ensures Valid() && spec == Step(old(spec), Event.Commit(t)) && tasks == old(tasks) + [t]
    {
      hide Inv;
      StepKeepsInv(spec, Event.Commit(t));
      tasks := tasks + [t];
      spec := Step(spec, Event.Commit(t));
    }

    /** The other overload: without workers the task is run by the caller, otherwise queued and notified under
        the mutex. */
    method CommitTask(t: Task, ghost wakes: Option<nat>) returns (ranHere: bool)
      requires Valid() && spec.lock.None? && Wakes(spec, wakes)
      modifies this
      ensures Valid() && ranHere == (threads == 0)
      ensures spec == if ranHere then old(spec) else Step(old(spec), CommitVoid(t, wakes))
      ensures tasks == if ranHere then old(tasks) else old(tasks) + [t]
    {
      hide Inv;
      ranHere := threads == 0;
      if !ranHere {
        StepKeepsInv(spec, CommitVoid(t, wakes));
        tasks := tasks + [t];
        spec := Step(spec, CommitVoid(t, wakes));
      }
    }

    /** The worker's critical section: a task, or none when it blocks or returns. */
    method Take(ghost w: nat) returns (task: Option<Task>)
      requires Valid() && Enabled(spec, Test(w))
      modifies this
      ensures Valid() && spec == Step(old(spec), Test(w))
      ensures task == if old(tasks) == [] then None else Some(old(tasks)[0])
      ensures tasks == if old(tasks) == [] then [] else old(tasks)[1..]
    {
      hide Inv;
      StepKeepsInv(spec, Test(w));
      spec := Step(spec, Test(w));
      task := None;
      if stoped || tasks != [] {
        if stoped && tasks == [] {
          return;
        }
        task := Some(tasks[0]);
        tasks := tasks[1..];
      }
    }
  }
}
