/**
The connection timers of glacier/timer.cc, glacier/timer.h, glacier/epoll.cc and glacier/httpdata.cc:
a heap of timers, of which the superseded ones stay behind marked as deleted, the connections they
watch, and the table of connections by descriptor, as one transition system for one event loop.

A shared pointer to a timer or a connection is an index into `timers` or `conns`; a timer lives as long
as it is in the heap, its only owner, so a weak pointer to it can be followed exactly while it is there.
Times are milliseconds since the epoch.
*/
module Timers {
  import opened Sequences

  const DEFAULT_EXPIRED_TIME: nat := 2000
  const DEFAULT_KEEP_ALIVE_TIME: nat := 300000
  const PERIOD: nat := 10000000

  // ---------- the clock ----------

  /** The reading the timers use, from the two fields of a struct timeval. */
  function Clock(sec: nat, usec: nat): int {
    (sec % 10000) * 1000 + usec / 1000
  }

  /** It is the time in milliseconds, which starts again every ten thousand seconds. */
  lemma ClockStartsAgain(sec: nat, usec: nat)
    requires usec < 1000000
    ensures Clock(sec, usec) == Reading(sec * 1000 + usec / 1000)
  {
  }

  function Reading(ms: nat): int {
    ms % PERIOD
  }

  lemma QuotientIs(n: int, q: int, r: int)
    requires n == PERIOD * q + r && 0 <= r < PERIOD
    ensures n % PERIOD == r && n / PERIOD == q
  {
  }

  /** How often the clock started again between two instants. */
  function Wraps(from: nat, to: nat): int {
    to / PERIOD - from / PERIOD
  }

  function Due(at: nat, timeout: nat): int {
    Reading(at) + timeout
  }

  /**
  A timer armed at `at` looks expired at `now` exactly when its timeout and one whole period for each
  restart of the clock have passed: never early, but late by whole periods.
  */
  lemma LooksExpiredExactly(at: nat, timeout: nat, now: nat)
    requires at <= now
    ensures Due(at, timeout) <= Reading(now) <==> now - at >= timeout + PERIOD * Wraps(at, now)
    ensures Wraps(at, now) >= 0
    ensures Due(at, timeout) <= Reading(now) ==> now - at >= timeout
  {
  }

  /** A timer can expire at all exactly when it falls due before the clock starts again. */
  lemma CanExpireExactly(at: nat, timeout: nat)
    ensures (exists now: nat :: now >= at && Due(at, timeout) <= Reading(now)) <==> Due(at, timeout) < PERIOD
  {
    if Due(at, timeout) < PERIOD {
      assert at + timeout == PERIOD * (at / PERIOD) + Due(at, timeout);
      QuotientIs(at + timeout, at / PERIOD, Due(at, timeout));
      assert Due(at, timeout) <= Reading(at + timeout);
    }
  }

  // ---------- what a connection decides after an event ----------

  datatype ConnectionState = CONNECTED | DISCONNECTING | DISCONNECTED

  datatype Outcome = Outcome(error: bool, state: ConnectionState, event: bool, out: bool, keepAlive: bool)

  datatype Action = Rearm(timeout: nat) | Leave | CloseNow

  /** handleConn, once the timer is separated; `event` says some event bit is set and `out` that EPOLLOUT is. */
  function Decide(o: Outcome): Action {
    if !o.error && o.state == CONNECTED then
      if o.event then Rearm(if o.keepAlive then DEFAULT_KEEP_ALIVE_TIME else DEFAULT_EXPIRED_TIME)
      else if o.keepAlive then Rearm(DEFAULT_KEEP_ALIVE_TIME)
      else Rearm(DEFAULT_KEEP_ALIVE_TIME / 2)
    else if !o.error && o.state == DISCONNECTING && o.out then Leave
    else CloseNow
  }

  // ---------- the transition system ----------

  datatype Timer = Timer(deleted: bool, expiredtime: int, httpdata: Option<nat>)

  datatype Arming = Arming(at: nat, timeout: nat)

  datatype Phase = Accepted | Open | Closed

  /** `armed` is the most recent arming of the connection's timer, for the statements below. */
  datatype Conn = Conn(fd: nat, phase: Phase, timer: Option<nat>, armed: Option<Arming>)

  datatype State = State(timers: seq<Timer>, heap: set<nat>, conns: seq<Conn>, fd2http: map<nat, nat>, now: nat)

  datatype Step =
    | Tick(ms: nat)
    | Accept(fd: nat)
    | NewEvent(conn: nat)
    | Handle(conn: nat, outcome: Outcome)
    | Pop(id: nat)

  ghost function Initial(now: nat): State {
    State([], {}, [], map[], now)
  }

  ghost predicate WellIndexed(s: State) {
    && (forall t :: t in s.heap ==> t < |s.timers|)
    && (forall t :: 0 <= t < |s.timers| && s.timers[t].httpdata.Some? ==> s.timers[t].httpdata.value < |s.conns|)
    && (forall c :: 0 <= c < |s.conns| && s.conns[c].timer.Some? ==> s.conns[c].timer.value < |s.timers|)
  }

  /** Something still owns the connection: a waiting newEvent, the table or a timer in the heap. */
  ghost predicate Owned(s: State, c: nat)
    requires WellIndexed(s) && c < |s.conns|
  {
    s.conns[c].phase == Accepted || (exists fd :: fd in s.fd2http && s.fd2http[fd] == c)
    || exists t :: t in s.heap && s.timers[t].httpdata == Some(c)
  }

  /** addTimer: a new timer in the heap, linked to the connection. */
  function Arm(s: State, c: nat, timeout: nat): State
    requires c < |s.conns|
  {
    s.(timers := s.timers + [Timer(false, Due(s.now, timeout), Some(c))],
       heap := s.heap + {|s.timers|},
       conns := s.conns[c := s.conns[c].(timer := Some(|s.timers|), armed := Some(Arming(s.now, timeout)))])
  }

  /** seperateTimer: the linked timer, if it lives, lets go of the connection and is marked as deleted. */
  function Separate(s: State, c: nat): State
    requires c < |s.conns| && (s.conns[c].timer.Some? ==> s.conns[c].timer.value < |s.timers|)
  {
    var link := s.conns[c].timer;
    if link.Some? && link.value in s.heap then
      s.(timers := s.timers[link.value := s.timers[link.value].(deleted := true, httpdata := None)],
         conns := s.conns[c := s.conns[c].(timer := None)])
    else s
  }

  /** handleClose: the descriptor's entry in the table goes, whosever it is. */
  function Close(s: State, c: nat): State
    requires c < |s.conns|
  {
    s.(conns := s.conns[c := s.conns[c].(phase := Closed)], fd2http := s.fd2http - {s.conns[c].fd})
  }

  /** The end of a timer that leaves the heap, deleted by now at the latest: it closes the connection it still
      holds. */
  ghost function Remove(s: State, t: nat): State
    requires WellIndexed(s) && t in s.heap
  {
    var u := s.(timers := s.timers[t := s.timers[t].(deleted := true)], heap := s.heap - {t});
    if s.timers[t].httpdata.Some? then Close(u, s.timers[t].httpdata.value) else u
  }

  /** heap_.top(): by TimerCmp no timer in the heap expires before it. */
  ghost predicate IsTop(s: State, t: nat)
    requires WellIndexed(s)
  {
    t in s.heap && forall u :: u in s.heap ==> s.timers[t].expiredtime <= s.timers[u].expiredtime
  }

  predicate Expired(s: State, t: nat)
    requires t < |s.timers|
  {
    s.timers[t].expiredtime <= Reading(s.now)
  }

  ghost predicate Enabled(s: State, e: Step) {
    WellIndexed(s) &&
    match e
    case Tick(_) => true
    case Accept(fd) => forall c :: 0 <= c < |s.conns| && s.conns[c].fd == fd ==> !Owned(s, c)
    case NewEvent(c) => c < |s.conns| && s.conns[c].phase == Accepted
    case Handle(c, _) => c < |s.conns| && s.conns[c].phase == Open
    case Pop(t) => IsTop(s, t) && (s.timers[t].deleted || Expired(s, t))
  }

  ghost function Next(s: State, e: Step): State
    requires Enabled(s, e)
  {
    match e
    case Tick(ms) => s.(now := s.now + ms)
    case Accept(fd) => s.(conns := s.conns + [Conn(fd, Accepted, None, None)])
    case NewEvent(c) => Register(s, c)
    case Handle(c, o) => HandleConn(s, c, o)
    case Pop(t) => Remove(s, t)
  }

  /** newEvent through epoll_add: a timer first, then the table entry. */
  function Register(s: State, c: nat): State
    requires c < |s.conns|
  {
    var u := Arm(s, c, DEFAULT_EXPIRED_TIME);
    u.(fd2http := u.fd2http[s.conns[c].fd := c], conns := u.conns[c := u.conns[c].(phase := Open)])
  }

  function HandleConn(s: State, c: nat, o: Outcome): State
    requires c < |s.conns| && (s.conns[c].timer.Some? ==> s.conns[c].timer.value < |s.timers|)
  {
    var u := Separate(s, c);
    match Decide(o)
    case Rearm(timeout) => Arm(u, c, timeout)
    case Leave => u
    case CloseNow => Close(u, c)
  }

  ghost predicate Run(s: State, es: seq<Step>, last: State)
    decreases es
  {
    if es == [] then s == last else Enabled(s, es[0]) && Run(Next(s, es[0]), es[1..], last)
  }

  // ---------- the invariant ----------

  /** A timer in the heap that still holds a connection is the one linked to it, armed last and not deleted. */
  ghost predicate TimerOk(s: State, t: nat)
    requires WellIndexed(s) && t < |s.timers|
  {
    var x := s.timers[t];
    (x.httpdata.None? ==> x.deleted)
    && (x.httpdata.Some? ==>
      var c := s.conns[x.httpdata.value];
      c.timer == Some(t) && !x.deleted && c.phase == Open
      && c.armed.Some? && c.armed.value.at <= s.now
      && x.expiredtime == Due(c.armed.value.at, c.armed.value.timeout))
  }

  ghost predicate ConnOk(s: State, c: nat)
    requires WellIndexed(s) && c < |s.conns|
  {
    var x := s.conns[c];
    && (x.phase == Open <==> x.fd in s.fd2http && s.fd2http[x.fd] == c)
    && (x.phase == Open && x.timer.Some? ==> x.timer.value in s.heap && s.timers[x.timer.value].httpdata == Some(c))
    && (x.phase == Accepted ==> x.timer == None)
  }

  ghost predicate OwnFd(s: State, c: nat, d: nat)
    requires c < |s.conns| && d < |s.conns|
  {
    c != d && s.conns[c].phase != Closed && s.conns[d].phase != Closed ==> s.conns[c].fd != s.conns[d].fd
  }

  ghost predicate TableOk(s: State, fd: nat)
  {
    fd in s.fd2http ==> s.fd2http[fd] < |s.conns| && s.conns[s.fd2http[fd]].fd == fd
                        && s.conns[s.fd2http[fd]].phase == Open
  }

  ghost predicate Inv(s: State) {
    && WellIndexed(s)
    && (forall t :: t in s.heap ==> TimerOk(s, t))
    && (forall c :: 0 <= c < |s.conns| ==> ConnOk(s, c))
    && (forall c, d :: 0 <= c < |s.conns| && 0 <= d < |s.conns| ==> OwnFd(s, c, d))
    && (forall fd :: TableOk(s, fd))
  }

  lemma InitialInv(now: nat)
    ensures Inv(Initial(now))
  {
  }

  /** No timer in the heap holds a connection that has no timer linked. */
  lemma UnlinkedIsUnheld(s: State, c: nat)
    requires Inv(s) && c < |s.conns| && s.conns[c].timer == None
    ensures forall t :: t in s.heap ==> s.timers[t].httpdata != Some(c)
  {
    forall t | t in s.heap ensures s.timers[t].httpdata != Some(c) { assert TimerOk(s, t); }
  }

  lemma SeparateKeepsInv(s: State, c: nat)
    requires Inv(s) && c < |s.conns| && s.conns[c].phase == Open
    ensures Inv(Separate(s, c))
    ensures Separate(s, c).conns[c] == s.conns[c].(timer := None)
  {
    assert ConnOk(s, c);
    var u := Separate(s, c);
    forall t | t in u.heap ensures TimerOk(u, t) { assert TimerOk(s, t); }
    forall d | 0 <= d < |u.conns| ensures ConnOk(u, d) { assert ConnOk(s, d); }
    forall a, b | 0 <= a < |u.conns| && 0 <= b < |u.conns| ensures OwnFd(u, a, b) { assert OwnFd(s, a, b); }
    forall fd ensures TableOk(u, fd) { assert TableOk(s, fd); }
  }

  lemma ArmKeepsInv(s: State, c: nat, timeout: nat)
    requires Inv(s) && c < |s.conns| && s.conns[c].phase == Open && s.conns[c].timer == None
    ensures Inv(Arm(s, c, timeout))
  {
    UnlinkedIsUnheld(s, c);
    var u := Arm(s, c, timeout);
    forall t | t in u.heap ensures TimerOk(u, t) { if t in s.heap { assert TimerOk(s, t); } }
    forall d | 0 <= d < |u.conns| ensures ConnOk(u, d) { assert ConnOk(s, d); }
    forall a, b | 0 <= a < |u.conns| && 0 <= b < |u.conns| ensures OwnFd(u, a, b) { assert OwnFd(s, a, b); }
    forall fd ensures TableOk(u, fd) { assert TableOk(s, fd); }
  }

  lemma CloseKeepsInv(s: State, c: nat)
    requires Inv(s) && c < |s.conns| && s.conns[c].phase == Open && s.conns[c].timer == None
    ensures Inv(Close(s, c))
  {
    UnlinkedIsUnheld(s, c);
    var u := Close(s, c);
    assert ConnOk(s, c);
    forall t | t in u.heap ensures TimerOk(u, t) { assert TimerOk(s, t); }
    forall d | 0 <= d < |u.conns| ensures ConnOk(u, d) { assert ConnOk(s, d); assert OwnFd(s, c, d); }
    forall a, b | 0 <= a < |u.conns| && 0 <= b < |u.conns| ensures OwnFd(u, a, b) { assert OwnFd(s, a, b); }
    forall fd ensures TableOk(u, fd) { assert TableOk(s, fd); }
  }

  lemma RemoveKeepsInv(s: State, t: nat)
    requires Inv(s) && t in s.heap
    ensures Inv(Remove(s, t))
  {
    assert TimerOk(s, t);
    var u := Remove(s, t);
    var h := s.timers[t].httpdata;
    forall v | v in u.heap ensures TimerOk(u, v) { assert TimerOk(s, v); }
    forall d | 0 <= d < |u.conns| ensures ConnOk(u, d) {
      assert ConnOk(s, d);
      if h.Some? { assert OwnFd(s, h.value, d); assert ConnOk(s, h.value); }
    }
    forall a, b | 0 <= a < |u.conns| && 0 <= b < |u.conns| ensures OwnFd(u, a, b) { assert OwnFd(s, a, b); }
    forall fd ensures TableOk(u, fd) { assert TableOk(s, fd); }
  }

  lemma RegisterKeepsInv(s: State, c: nat)
    requires Inv(s) && c < |s.conns| && s.conns[c].phase == Accepted
    ensures Inv(Register(s, c))
  {
    assert ConnOk(s, c);
    UnlinkedIsUnheld(s, c);
    var u := Register(s, c);
    forall t | t in u.heap ensures TimerOk(u, t) { if t in s.heap { assert TimerOk(s, t); } }
    forall d | 0 <= d < |u.conns| ensures ConnOk(u, d) { assert ConnOk(s, d); assert OwnFd(s, c, d); }
    forall a, b | 0 <= a < |u.conns| && 0 <= b < |u.conns| ensures OwnFd(u, a, b) { assert OwnFd(s, a, b); }
    forall fd ensures TableOk(u, fd) { assert TableOk(s, fd); }
  }

  /** A connection that is not closed is owned; so a free descriptor belongs to closed ones only. */
  lemma OwnedExactly(s: State, c: nat)
    requires Inv(s) && c < |s.conns|
    ensures Owned(s, c) <==> s.conns[c].phase != Closed
  {
    assert ConnOk(s, c);
    forall fd | fd in s.fd2http && s.fd2http[fd] == c ensures s.conns[c].phase == Open { assert TableOk(s, fd); }
    forall t | t in s.heap && s.timers[t].httpdata == Some(c) ensures s.conns[c].phase == Open { assert TimerOk(s, t); }
  }

  lemma AcceptKeepsInv(s: State, fd: nat)
    requires Inv(s) && Enabled(s, Step.Accept(fd))
    ensures Inv(Next(s, Step.Accept(fd)))
  {
    var u := Next(s, Step.Accept(fd));
    forall t | t in u.heap ensures TimerOk(u, t) { assert TimerOk(s, t); }
    forall d | 0 <= d < |u.conns| ensures ConnOk(u, d) {
      assert TableOk(s, fd);
      if d < |s.conns| { assert ConnOk(s, d); }
    }
    forall a, b | 0 <= a < |u.conns| && 0 <= b < |u.conns| ensures OwnFd(u, a, b) {
      if a < |s.conns| && b < |s.conns| { assert OwnFd(s, a, b); }
      if a < |s.conns| { OwnedExactly(s, a); }
      if b < |s.conns| { OwnedExactly(s, b); }
    }
    forall f ensures TableOk(u, f) { assert TableOk(s, f); }
  }

  lemma HandleKeepsInv(s: State, c: nat, o: Outcome)
    requires Inv(s) && c < |s.conns| && s.conns[c].phase == Open
    ensures Inv(HandleConn(s, c, o))
  {
    hide ConnOk, TimerOk, OwnFd, TableOk, Arm, Close;
    SeparateKeepsInv(s, c);
    var u := Separate(s, c);
    match Decide(o)
    case Rearm(timeout) => ArmKeepsInv(u, c, timeout);
    case Leave =>
    case CloseNow => CloseKeepsInv(u, c);
  }

  lemma TickKeepsInv(s: State, ms: nat)
    requires Inv(s)
    ensures Inv(s.(now := s.now + ms))
  {
    var u := s.(now := s.now + ms);
    forall t | t in u.heap ensures TimerOk(u, t) { assert TimerOk(s, t); }
    forall d | 0 <= d < |u.conns| ensures ConnOk(u, d) { assert ConnOk(s, d); }
    forall a, b | 0 <= a < |u.conns| && 0 <= b < |u.conns| ensures OwnFd(u, a, b) { assert OwnFd(s, a, b); }
    forall fd ensures TableOk(u, fd) { assert TableOk(s, fd); }
  }

  lemma StepKeepsInv(s: State, e: Step)
    requires Inv(s) && Enabled(s, e)
    ensures Inv(Next(s, e))
  {
    hide Inv, ConnOk, TimerOk, OwnFd, TableOk, Register, HandleConn, Remove;
    match e
    case Tick(ms) => TickKeepsInv(s, ms);
    case Accept(fd) => AcceptKeepsInv(s, fd);
    case NewEvent(c) => RegisterKeepsInv(s, c);
    case Handle(c, o) => HandleKeepsInv(s, c, o);
    case Pop(t) => RemoveKeepsInv(s, t);
  }

  lemma {:induction false} RunKeepsInv(s: State, es: seq<Step>, last: State)
    requires Inv(s) && Run(s, es, last)
    ensures Inv(last)
    decreases es
  {
    if es != [] {
      StepKeepsInv(s, es[0]);
      RunKeepsInv(Next(s, es[0]), es[1..], last);
    }
  }

  /** The milliseconds that pass. */
  function Elapsed(es: seq<Step>): nat {
    if es == [] then 0 else (match es[0] case Tick(ms) => ms case _ => 0) + Elapsed(es[1..])
  }

  /** Over a run as many milliseconds pass as its ticks say, and no connection or timer is forgotten. */
  lemma {:induction false} RunElapses(s: State, es: seq<Step>, last: State)
    requires Run(s, es, last)
    ensures last.now == s.now + Elapsed(es)
    ensures |last.conns| >= |s.conns| && |last.timers| >= |s.timers|
    decreases es
  {
    if es != [] { RunElapses(Next(s, es[0]), es[1..], last); }
  }

  lemma {:induction false} RunConcat(s: State, es: seq<Step>, u: State, fs: seq<Step>, last: State)
    requires Run(s, es, u) && Run(u, fs, last)
    ensures Run(s, es + fs, last)
    decreases es
  {
    if es == [] {
      assert es + fs == fs;
    } else {
      assert (es + fs)[1..] == es[1..] + fs;
      RunConcat(Next(s, es[0]), es[1..], u, fs, last);
    }
  }

  lemma RunOfOne(s: State, e: Step)
    requires Enabled(s, e)
    ensures Run(s, [e], Next(s, e))
  {
    assert [e][1..] == [];
  }

  lemma RunOn(s: State, es: seq<Step>, u: State, e: Step)
    requires Run(s, es, u) && Enabled(u, e)
    ensures Run(s, es + [e], Next(u, e))
  {
    RunOfOne(u, e);
    RunConcat(s, es, u, [e], Next(u, e));
  }

  lemma RunOfTwo(s: State, e: Step, f: Step)
    requires Enabled(s, e) && Enabled(Next(s, e), f)
    ensures Run(s, [e, f], Next(Next(s, e), f))
  {
    RunOfOne(Next(s, e), f);
    assert [e, f][1..] == [f];
  }

  // ---------- what a timer may close ----------

  /**
  The only connection a timer can close is the one it is linked to, and that only when the timeout of its
  most recent arming has passed; every other connection, its timer and its table entry stay as they are.
  Nor does it matter whether the clock has started again in between.
  */
  lemma ClosedOnlyWhenDue(s: State, t: nat, c: nat)
    requires Inv(s) && Enabled(s, Pop(t)) && c < |s.conns|
    ensures var u := Next(s, Pop(t));
            |u.conns| == |s.conns|
            && (u.conns[c] != s.conns[c] ==>
                  u.conns[c] == s.conns[c].(phase := Closed) && s.conns[c].phase == Open && s.conns[c].timer == Some(t)
                  && s.conns[c].armed.Some?
                  && s.now - s.conns[c].armed.value.at >= s.conns[c].armed.value.timeout)
            && (u.conns[c].phase == Open ==> s.conns[c].fd in u.fd2http && u.fd2http[s.conns[c].fd] == c)
  {
    assert TimerOk(s, t);
    RemoveKeepsInv(s, t);
    assert ConnOk(Next(s, Pop(t)), c);
    if s.timers[t].httpdata == Some(c) {
      var a := s.conns[c].armed.value;
      LooksExpiredExactly(a.at, a.timeout, s.now);
    }
  }

  /** The step, if any, that handles the connection itself. */
  predicate Concerns(e: Step, c: nat) {
    e == NewEvent(c) || (e.Handle? && e.conn == c)
  }

  /** What the other steps leave of a connection: all of it, or nothing once its time is over. */
  lemma UnconcernedStep(s: State, e: Step, c: nat)
    requires Inv(s) && Enabled(s, e) && c < |s.conns| && s.conns[c].phase == Open && !Concerns(e, c)
    ensures var u := Next(s, e);
            c < |u.conns| && s.now <= u.now
            && (u.conns[c] == s.conns[c]
                || (u.conns[c] == s.conns[c].(phase := Closed) && s.conns[c].timer.Some? && s.conns[c].armed.Some?
                    && s.now - s.conns[c].armed.value.at >= s.conns[c].armed.value.timeout))
  {
    if e.Pop? { ClosedOnlyWhenDue(s, e.id, c); }
  }

  /**
  A refreshed connection survives whatever timers it left behind: as long as its own events do not close
  or re-arm it, it is open until the timeout it was last armed with has passed.
  */
  lemma {:induction false} RefreshedSurvives(s: State, c: nat, es: seq<Step>, last: State)
    requires Inv(s) && Run(s, es, last) && forall k :: 0 <= k < |es| ==> !Concerns(es[k], c)
    requires c < |s.conns| && s.conns[c].phase == Open && s.conns[c].armed.Some?
    requires last.now < s.conns[c].armed.value.at + s.conns[c].armed.value.timeout
    ensures c < |last.conns| && last.conns[c] == s.conns[c] && s.now <= last.now
    decreases es
  {
    if es != [] {
      assert !Concerns(es[0], c);
      UnconcernedStep(s, es[0], c);
      StepKeepsInv(s, es[0]);
      TimeGoesOn(Next(s, es[0]), es[1..], last);
      forall k | 0 <= k < |es[1..]| ensures !Concerns(es[1..][k], c) { assert es[1..][k] == es[k + 1]; }
      RefreshedSurvives(Next(s, es[0]), c, es[1..], last);
    }
  }

  lemma {:induction false} TimeGoesOn(s: State, es: seq<Step>, last: State)
    requires Run(s, es, last)
    ensures s.now <= last.now
    decreases es
  {
    if es != [] { TimeGoesOn(Next(s, es[0]), es[1..], last); }
  }

  /** The connection is open and a timer in the heap will close it. */
  ghost predicate Watched(s: State, c: nat)
    requires c < |s.conns|
  {
    s.conns[c].phase == Open && s.conns[c].timer.Some? && s.conns[c].timer.value in s.heap
  }

  /** An open connection is without a timer exactly when its last event took the branch that arms none. */
  lemma UnwatchedExactly(s: State, e: Step, c: nat)
    requires Inv(s) && Enabled(s, e) && c < |s.conns| && s.conns[c].phase == Open
    requires c < |Next(s, e).conns| && Next(s, e).conns[c].phase == Open
    ensures !Watched(Next(s, e), c) <==> if Concerns(e, c) then Decide(e.outcome) == Leave else !Watched(s, c)
  {
    StepKeepsInv(s, e);
    assert ConnOk(s, c) && ConnOk(Next(s, e), c);
    if !Concerns(e, c) {
      UnconcernedStep(s, e, c);
    } else {
      SeparateKeepsInv(s, c);
    }
  }

  /** The connection is open and watched by a timer just armed for `timeout` milliseconds. */
  ghost predicate JustArmed(s: State, c: nat, timeout: nat)
    requires c < |s.conns|
  {
    Watched(s, c) && s.conns[c].armed == Some(Arming(s.now, timeout))
    && s.conns[c].timer.value < |s.timers|
    && s.timers[s.conns[c].timer.value] == Timer(false, s.now % 10000000 + timeout, Some(c))
  }

  /** What an event comes to.  A healthy connection is armed anew: for five minutes when it is kept alive, otherwise for
      two seconds after an event and for two and a half minutes without one.  A healthy one that is disconnecting with
      output left is left open without a timer.  Every other is closed and out of the table. */
  lemma HandledExactly(s: State, c: nat, o: Outcome)
    requires Inv(s) && c < |s.conns| && s.conns[c].phase == Open
    ensures var u := Next(s, Handle(c, o));
            |u.conns| == |s.conns| && u.now == s.now
            && (!o.error && o.state == CONNECTED ==>
                  JustArmed(u, c, if o.keepAlive then 300000 else if o.event then 2000 else 150000))
            && (u.conns[c].phase == Open && !Watched(u, c) <==> !o.error && o.state == DISCONNECTING && o.out)
            && (u.conns[c].phase == Closed
                <==> o.error || o.state == DISCONNECTED || (o.state == DISCONNECTING && !o.out))
            && (u.conns[c].phase == Closed ==> s.conns[c].fd !in u.fd2http)
  {
    hide Inv;
    SeparateKeepsInv(s, c);
  }

  /** Whatever comes of it, the timer that watched the connection is deleted and has let go of it, and no other timer
      and no other connection is touched. */
  lemma HandledLetsGo(s: State, c: nat, o: Outcome)
    requires Inv(s) && c < |s.conns| && s.conns[c].phase == Open
    ensures var u := Next(s, Handle(c, o));
            |u.timers| >= |s.timers| && |u.conns| == |s.conns| && s.heap <= u.heap
            && (Watched(s, c) ==>
                  u.timers[s.conns[c].timer.value].deleted && u.timers[s.conns[c].timer.value].httpdata == None)
            && (forall t :: 0 <= t < |s.timers| && s.conns[c].timer != Some(t) ==> u.timers[t] == s.timers[t])
            && (forall d :: 0 <= d < |s.conns| && d != c ==> u.conns[d] == s.conns[d])
  {
  }

  /** A new connection is in the table, watched by a timer armed for two seconds. */
  lemma RegisteredExactly(s: State, c: nat)
    requires Inv(s) && c < |s.conns| && s.conns[c].phase == Accepted
    ensures var u := Next(s, NewEvent(c));
            |u.conns| == |s.conns| && JustArmed(u, c, 2000) && u.fd2http == s.fd2http[s.conns[c].fd := c]
            && forall d :: 0 <= d < |s.conns| && d != c ==> u.conns[d] == s.conns[d]
  {
  }

  /** It does happen: accepted, registered, and left with output when its peer disconnects. */
  lemma LeftUnwatched(now: nat)
    ensures var o := Outcome(false, DISCONNECTING, true, true, false);
            var es := [Step.Accept(5), NewEvent(0), Handle(0, o)];
            exists last :: Run(Initial(now), es, last) && |last.conns| == 1 && last.conns[0].phase == Open
                           && !Watched(last, 0)
  {
    hide Inv;
    var o := Outcome(false, DISCONNECTING, true, true, false);
    var s0 := Initial(now);
    var s1 := Next(s0, Step.Accept(5));
    var s2 := Next(s1, NewEvent(0));
    assert s2.conns[0].phase == Open;
    var s3 := Next(s2, Handle(0, o));
    assert s3.conns[0].timer == None && s3.conns[0].phase == Open;
    RunOfTwo(s0, Step.Accept(5), NewEvent(0));
    RunOn(s0, [Step.Accept(5), NewEvent(0)], s2, Handle(0, o));
    assert [Step.Accept(5), NewEvent(0)] + [Handle(0, o)] == [Step.Accept(5), NewEvent(0), Handle(0, o)];
    assert !Watched(s3, 0);
  }

  /** Such a connection no timer ever closes: a peer that keeps silent now holds its descriptor for good. */
  lemma {:induction false} LeftIsNeverReaped(s: State, c: nat, es: seq<Step>, last: State)
    requires Inv(s) && Run(s, es, last) && forall k :: 0 <= k < |es| ==> !Concerns(es[k], c)
    requires c < |s.conns| && s.conns[c].phase == Open && !Watched(s, c)
    ensures c < |last.conns| && last.conns[c].phase == Open && !Watched(last, c)
    decreases es
  {
    if es != [] {
      assert !Concerns(es[0], c);
      assert ConnOk(s, c);
      UnconcernedStep(s, es[0], c);
      StepKeepsInv(s, es[0]);
      UnwatchedExactly(s, es[0], c);
      forall k | 0 <= k < |es[1..]| ensures !Concerns(es[1..][k], c) { assert es[1..][k] == es[k + 1]; }
      LeftIsNeverReaped(Next(s, es[0]), c, es[1..], last);
    }
  }

  /** Once no timer in the heap looks expired, no watched connection has outlived its timeout, but for restarts
      of the clock. */
  lemma WatchedIsNotDue(s: State, c: nat)
    requires Inv(s) && c < |s.conns| && Watched(s, c)
    requires forall t :: t in s.heap ==> !Expired(s, t)
    ensures s.conns[c].armed.Some? && s.conns[c].armed.value.at <= s.now
    ensures var a := s.conns[c].armed.value; s.now - a.at < a.timeout + PERIOD * Wraps(a.at, s.now)
  {
    assert ConnOk(s, c);
    assert TimerOk(s, s.conns[c].timer.value);
    var a := s.conns[c].armed.value;
    LooksExpiredExactly(a.at, a.timeout, s.now);
  }

  /** In every run: closed connections are let go of, and the table has one entry for each open one. */
  lemma EveryRun(now: nat, es: seq<Step>, last: State, c: nat)
    requires Run(Initial(now), es, last) && c < |last.conns|
    ensures Inv(last)
    ensures Owned(last, c) <==> last.conns[c].phase != Closed
    ensures last.conns[c].phase == Open <==> last.conns[c].fd in last.fd2http && last.fd2http[last.conns[c].fd] == c
    ensures forall t :: t in last.heap ==> (last.timers[t].deleted <==> last.timers[t].httpdata == None)
  {
    InitialInv(now);
    RunKeepsInv(Initial(now), es, last);
    OwnedExactly(last, c);
    assert ConnOk(last, c);
    forall t | t in last.heap ensures last.timers[t].deleted <==> last.timers[t].httpdata == None {
      assert TimerOk(last, t);
    }
  }

  // ---------- the program ----------

  lemma Indexed(s: State)
    requires Inv(s)
    ensures WellIndexed(s)
  {
  }

  /** The steps a look at the timers is made of. */
  ghost predicate OnlyTimers(es: seq<Step>) {
    forall k :: 0 <= k < |es| ==> es[k].Tick? || es[k].Pop?
  }

  /** A heap that is not empty has a top. */
  lemma TopExists(s: State, h: set<nat>) returns (t: nat)
    requires WellIndexed(s) && h <= s.heap && h != {}
    ensures t in h && forall u :: u in h ==> s.timers[t].expiredtime <= s.timers[u].expiredtime
    decreases |h|
  {
    t :| t in h;
    var rest := h - {t};
    assert forall u :: u in h ==> u == t || u in rest;
    if rest != {} {
      var v := TopExists(s, rest);
      if s.timers[v].expiredtime < s.timers[t].expiredtime { t := v; }
    }
  }

  /** Marking a timer as deleted before it is removed makes no difference. */
  lemma MarkedAlready(s: State, t: nat)
    requires WellIndexed(s) && t in s.heap
    ensures var u := s.(timers := s.timers[t := s.timers[t].(deleted := true)]);
            WellIndexed(u) && Remove(u, t) == Remove(s, t) && (s.timers[t].deleted ==> u == s)
  {
    if s.timers[t].deleted { assert s.timers[t := s.timers[t].(deleted := true)] == s.timers; }
  }

  lemma EmptyRun(s: State)
    ensures Run(s, [], s)
  {
  }

  /** The timers, connections and table of one event loop; `ticks` says how long passes before each look at the
      clock. */
  class Reactor {
    var timers: seq<Timer>
    var heap: set<nat>
    var conns: seq<Conn>
    var fd2http: map<nat, nat>
    var now: nat
    var ticks: seq<nat>

    ghost function View(): State
      reads this
    {
      State(timers, heap, conns, fd2http, now)
    }

    constructor (now: nat, ticks: seq<nat>)
      ensures View() == Initial(now) && Inv(View())
    {
      timers, heap, conns, fd2http, this.now, this.ticks := [], {}, [], map[], now, ticks;
      new;
      InitialInv(now);
    }

    method GetTimeOfDay() returns (temp: int, ghost ms: nat)
      modifies this`now, this`ticks
      ensures View() == old(View()).(now := old(now) + ms) && temp == Reading(now)
    {
      var wait := 0;
      if ticks != [] {
        wait := ticks[0];
        ticks := ticks[1..];
      }
      now, ms := now + wait, wait;
      temp := now % PERIOD;
    }

    method AddTimer(c: nat, timeout: nat)
      requires c < |conns|
      modifies this`timers, this`heap, this`conns
      ensures View() == Arm(old(View()), c, timeout)
    {
      var t := |timers|;
      timers := timers + [Timer(false, now % PERIOD + timeout, Some(c))];
      heap := heap + {t};
      conns := conns[c := conns[c].(timer := Some(t), armed := Some(Arming(now, timeout)))];
    }

    method SeparateTimer(c: nat)
      requires c < |conns| && WellIndexed(View())
      modifies this`timers, this`conns
      ensures View() == Separate(old(View()), c)
    {
      var link := conns[c].timer;
      if link.Some? && link.value in heap {
        var t := link.value;
        timers := timers[t := timers[t].(httpdata := None)];
        timers := timers[t := timers[t].(deleted := true)];
        conns := conns[c := conns[c].(timer := None)];
      }
    }

    method HandleClose(c: nat)
      requires c < |conns|
      modifies this`conns, this`fd2http
      ensures View() == Close(old(View()), c)
    {
      conns := conns[c := conns[c].(phase := Closed)];
      fd2http := fd2http - {conns[c].fd};
    }

    method NewEvent(c: nat)
      requires Inv(View()) && c < |conns| && conns[c].phase == Accepted
      modifies this`timers, this`heap, this`conns, this`fd2http
      ensures Inv(View()) && View() == Next(old(View()), Step.NewEvent(c))
    {
      RegisterKeepsInv(View(), c);
      AddTimer(c, DEFAULT_EXPIRED_TIME);
      fd2http := fd2http[conns[c].fd := c];
      conns := conns[c := conns[c].(phase := Open)];
    }

    method HandleConn(c: nat, o: Outcome)
      requires Inv(View()) && c < |conns| && conns[c].phase == Open
      modifies this`timers, this`heap, this`conns, this`fd2http
      ensures Inv(View()) && View() == Next(old(View()), Handle(c, o))
    {
      hide ConnOk, TimerOk, OwnFd, TableOk;
      StepKeepsInv(View(), Handle(c, o));
      SeparateTimer(c);
      if !o.error && o.state == CONNECTED {
        if o.event {
          var t := if o.keepAlive then DEFAULT_KEEP_ALIVE_TIME else DEFAULT_EXPIRED_TIME;
          AddTimer(c, t);
        } else if o.keepAlive {
          AddTimer(c, DEFAULT_KEEP_ALIVE_TIME);
        } else {
          AddTimer(c, DEFAULT_KEEP_ALIVE_TIME / 2);
        }
      } else if !o.error && o.state == DISCONNECTING && o.out {
      } else {
        HandleClose(c);
      }
    }

    /** isValid: an expired timer is marked as deleted. */
    method IsValid(t: nat) returns (valid: bool, ghost ms: nat)
      requires t < |timers|
      modifies this`timers, this`now, this`ticks
      ensures var u := old(View()).(now := old(now) + ms);
              valid == !Expired(u, t)
              && View() == if valid then u else u.(timers := u.timers[t := u.timers[t].(deleted := true)])
    {
      var temp;
      temp, ms := GetTimeOfDay();
      if temp < timers[t].expiredtime { return true, ms; }
      timers := timers[t := timers[t].(deleted := true)];
      return false, ms;
    }

    /** heap_.pop() and the end of the timer. */
    method PopTop(t: nat)
      requires WellIndexed(View()) && t in heap && timers[t].deleted
      modifies this`heap, this`conns, this`fd2http
      ensures View() == Remove(old(View()), t) && heap == old(heap) - {t}
    {
      assert timers[t := timers[t].(deleted := true)] == timers;
      heap := heap - {t};
      if timers[t].httpdata.Some? {
        HandleClose(timers[t].httpdata.value);
      }
    }

    /** One round of the loop of handleExpiredEvent: the top leaves the heap, or `done` says it is valid. */
    method VisitTop() returns (done: bool, ghost es: seq<Step>)
      requires Inv(View()) && heap != {}
      modifies this
      ensures Inv(View()) && OnlyTimers(es) && Run(old(View()), es, View())
      ensures done ==> forall t :: t in heap ==> t < |timers| && !Expired(View(), t)
      ensures !done ==> |heap| < |old(heap)|
    {
      hide Inv, Run, Remove;
      Indexed(View());
      ghost var top := TopExists(View(), heap);
      var t :| t in heap && forall u :: u in heap ==> timers[t].expiredtime <= timers[u].expiredtime;
      ghost var s := View();
      if !timers[t].deleted {
        var valid, ms := IsValid(t);
        StepKeepsInv(s, Tick(ms));
        RunOfOne(s, Tick(ms));
        if valid { return true, [Tick(ms)]; }
        MarkedAlready(Next(s, Tick(ms)), t);
        RunOfTwo(s, Tick(ms), Pop(t));
        es := [Tick(ms), Pop(t)];
      } else {
        MarkedAlready(s, t);
        RunOfOne(s, Pop(t));
        es := [Pop(t)];
      }
      PopTop(t);
      RunKeepsInv(s, es, View());
      done := false;
    }

    /**
    handleExpiredEvent: time passes, and timers that are deleted or expired leave the heap, top first;
    no timer that was expired at the last look at the clock is left anywhere in the heap.
    */
    method HandleExpiredEvent() returns (ghost es: seq<Step>)
      requires Inv(View())
      modifies this
      ensures Inv(View()) && OnlyTimers(es) && Run(old(View()), es, View())
      ensures forall t :: t in heap ==> t < |timers| && !Expired(View(), t)
    {
      hide Inv, Run;
      es := [];
      EmptyRun(View());
      while heap != {}
        invariant Inv(View()) && OnlyTimers(es) && Run(old(View()), es, View())
        decreases |heap|
      {
        ghost var s := View();
        var done, more := VisitTop();
        RunConcat(old(View()), es, s, more, View());
        es := es + more;
        if done { break; }
      }
    }
  }
}
