/**
The hand-off protocol of glacier/base/asynclogging.cc as a transition system: any number of
threads append under the mutex, one log thread swaps the full buffers out under it and works on
them in private.  A buffer is the list of lines in it.  Every event below is one critical
section or one private step of the log thread; an arbitrary sequence of events is an arbitrary
interleaving.
*/
module AsyncLog {
  import opened LogStreams
  import opened Sequences

  type Line = string
  type Buffer = seq<Line>

  const CAPACITY := LARGE_BUFFER
  const OVERLOAD := 25
  const KEPT := 2

  function Size(b: Buffer): nat {
    |Flatten(b)|
  }

  /** FixedBuffer::append: the whole line when it fits with a byte to spare, otherwise nothing. */
  function Put(b: Buffer, line: Line): Buffer {
    if CAPACITY - Size(b) > |line| then b + [line] else b
  }

  predicate Accepted(line: Line) {
    |line| < CAPACITY
  }

  /** What the log thread hands to the log file in one call. */
  datatype Chunk = Notice(when: string, larger: int) | Data(buffer: Buffer)

  /** Where the log thread stands: not started; created but not yet past its first assertion; testing
      `running_`; about to take the mutex; about to check for overload; about to write buffer `next`; about to
      recycle; finished. */
  datatype Phase = NotStarted | Starting | AtHead | ToCollect | Collected | Writing(next: nat) | ToRecycle | Done

  datatype State = State(
    current: Buffer, next: Option<Buffer>, buffers: seq<Buffer>,          // under the mutex
    new1: Option<Buffer>, new2: Option<Buffer>, toWrite: seq<Buffer>,     // private to the log thread
    running: bool, phase: Phase, output: seq<Chunk>)

  datatype Event =
    | Append(line: Line)          // any thread
    | Start                       // start() up to the creation of the log thread
    | Begin                       // the log thread up to its loop
    | Stop                        // any thread
    | TestRunning
    | Collect
    | CheckOverload(when: string)
    | Write
    | Recycle

  /** A step of the protocol, a step that is not possible now, or one that would use a null buffer or break
      an assertion of the code. */
  datatype Outcome = Next(s: State) | Disabled | Fault

  function Init(): State {
    State([], Some([]), [], None, None, [], false, NotStarted, [])
  }

  function AppendStep(s: State, line: Line): State {
    if CAPACITY - Size(s.current) > |line| then s.(current := Put(s.current, line))
    else
      var spare := if s.next.Some? then s.next.value else [];
      s.(buffers := s.buffers + [s.current], current := Put(spare, line), next := None)
  }

  /** The assertion at the head of threadFunc, then the log thread's own two buffers. */
  function BeginStep(s: State): Outcome {
    if !s.running then Fault else Next(s.(new1 := Some([]), new2 := Some([]), phase := AtHead))
  }

  /** The assertions at the head of the loop, then the critical section. */
  function CollectStep(s: State): Outcome {
    if s.new1 != Some([]) || s.new2 != Some([]) || s.toWrite != [] then Fault
    else
      Next(s.(buffers := s.toWrite, toWrite := s.buffers + [s.current], current := s.new1.value, new1 := None,
              next := if s.next.None? then s.new2 else s.next,
              new2 := if s.next.None? then None else s.new2,
              phase := Collected))
  }

  function OverloadStep(s: State, when: string): Outcome {
    if s.toWrite == [] then Fault
    else if |s.toWrite| > OVERLOAD then
      Next(s.(output := s.output + [Notice(when, |s.toWrite| - KEPT)], toWrite := s.toWrite[..KEPT],
              phase := Writing(0)))
    else Next(s.(phase := Writing(0)))
  }

  function WriteStep(s: State): Outcome
    requires s.phase.Writing?
  {
    var i := s.phase.next;
    if i < |s.toWrite| then Next(s.(output := s.output + [Data(s.toWrite[i])], phase := Writing(i + 1)))
    else Next(s.(phase := ToRecycle))
  }

  function RecycleStep(s: State): Outcome {
    var left0 := if |s.toWrite| > KEPT then s.toWrite[..KEPT] else s.toWrite;
    if s.new1.None? && left0 == [] then Fault
    else
      var left1 := if s.new1.None? then left0[..|left0| - 1] else left0;
      if s.new2.None? && left1 == [] then Fault
      else
        Next(s.(new1 := if s.new1.None? then Some([]) else s.new1,
                new2 := if s.new2.None? then Some([]) else s.new2,
                toWrite := [], phase := AtHead))
  }

  function Step(s: State, e: Event): Outcome {
    match e
    case Append(line) => Next(AppendStep(s, line))
    case Start => if s.phase.NotStarted? then Next(s.(running := true, phase := Starting)) else Disabled
    case Begin => if s.phase.Starting? then BeginStep(s) else Disabled
    case Stop => Next(s.(running := false))
    case TestRunning =>
      if s.phase.AtHead? then Next(s.(phase := if s.running then ToCollect else Done)) else Disabled
    case Collect => if s.phase.ToCollect? then CollectStep(s) else Disabled
    case CheckOverload(when) => if s.phase.Collected? then OverloadStep(s, when) else Disabled
    case Write => if s.phase.Writing? then WriteStep(s) else Disabled
    case Recycle => if s.phase.ToRecycle? then RecycleStep(s) else Disabled
  }

  function Run(es: seq<Event>): Outcome {
    if es == [] then Next(Init())
    else
      match Run(es[..|es| - 1])
      case Next(s) => Step(s, es[|es| - 1])
      case other => other
  }

  // ---------- what a run was asked to log, and in which batches ----------

  /** The buffers one pass of the log thread collected, with the time of its overload check. */
  datatype Batch = Batch(buffers: seq<Buffer>, when: string)

  /** The lines offered to append that a buffer can hold, in lock order, and the batches so far. */
  datatype History = History(lines: seq<Line>, batches: seq<Batch>)

  /** What the step `e`, possible in `s`, adds to the history. */
  function Observe(h: History, s: State, e: Event): History {
    match e
    case Append(line) => if Accepted(line) then h.(lines := h.lines + [line]) else h
    case Collect => h.(batches := h.batches + [Batch(s.buffers + [s.current], "")])
    case CheckOverload(when) =>
      if h.batches == [] then h
      else h.(batches := h.batches[..|h.batches| - 1] + [h.batches[|h.batches| - 1].(when := when)])
    case _ => h
  }

  function HistoryOf(es: seq<Event>): History {
    if es == [] then History([], [])
    else
      var before := es[..|es| - 1];
      match Run(before)
      case Next(s) => Observe(HistoryOf(before), s, es[|es| - 1])
      case _ => HistoryOf(before)
  }

  function BatchLines(bs: seq<Batch>): seq<Line> {
    if bs == [] then [] else BatchLines(bs[..|bs| - 1]) + Flatten(bs[|bs| - 1].buffers)
  }

  /** What one batch sends to the log file: an overloaded one a notice and its first two buffers. */
  function Kept(b: Batch): seq<Buffer> {
    if |b.buffers| > OVERLOAD then b.buffers[..KEPT] else b.buffers
  }

  function Datas(bs: seq<Buffer>): seq<Chunk> {
    seq(|bs|, i requires 0 <= i < |bs| => Data(bs[i]))
  }

  function Opening(b: Batch): seq<Chunk> {
    if |b.buffers| > OVERLOAD then [Notice(b.when, |b.buffers| - KEPT)] else []
  }

  function Emitted(bs: seq<Batch>): seq<Chunk> {
    if bs == [] then []
    else Emitted(bs[..|bs| - 1]) + Opening(bs[|bs| - 1]) + Datas(Kept(bs[|bs| - 1]))
  }

  /** The output so far, given where the log thread stands. */
  function ExpectedOutput(bs: seq<Batch>, phase: Phase): seq<Chunk> {
    if bs == [] || !(phase.Collected? || phase.Writing?) then Emitted(bs)
    else
      var done, last := Emitted(bs[..|bs| - 1]), bs[|bs| - 1];
      match phase
      case Writing(i) => done + Opening(last) + Datas(if i <= |Kept(last)| then Kept(last)[..i] else Kept(last))
      case _ => done
  }

  // ---------- the invariant ----------

  /** Whenever the mutex is free, the spare buffer is gone exactly when some buffer waits. */
  predicate Pool(s: State) {
    (s.next.None? <==> s.buffers != []) && (s.next.Some? ==> s.next.value == [])
  }

  predicate Idle(s: State) {
    s.phase.AtHead? || s.phase.ToCollect? || s.phase.Done?
  }

  predicate Private(s: State, bs: seq<Batch>) {
    if s.phase.NotStarted? || s.phase.Starting? then s.new1.None? && s.new2.None? && s.toWrite == []
    else if Idle(s) then s.new1 == Some([]) && s.new2 == Some([]) && s.toWrite == []
    else
      bs != []
      && var last := bs[|bs| - 1];
         last.buffers != []
         && s.new1.None? && (s.new2.Some? ==> s.new2.value == []) && (s.new2.None? ==> |last.buffers| >= 2)
         && s.toWrite == (if s.phase.Collected? then last.buffers else Kept(last))
         && (s.phase.Writing? ==> s.phase.next <= |s.toWrite|)
  }

  predicate Inv(s: State, h: History) {
    Pool(s) && Private(s, h.batches)
    && h.lines == BatchLines(h.batches) + Flatten(s.buffers) + s.current
    && s.output == ExpectedOutput(h.batches, s.phase)
  }

  lemma AppendKeepsInv(s: State, h: History, line: Line)
    requires Inv(s, h)
    ensures Inv(AppendStep(s, line), Observe(h, s, Append(line)))
  {
    hide ExpectedOutput, BatchLines, Kept, Flatten;
    var s' := AppendStep(s, line);
    FlattenEmpty<char>();
    if CAPACITY - Size(s.current) <= |line| {
      FlattenSnoc(s.buffers, s.current);
      assert s'.current == if Accepted(line) then [line] else [];
    } else {
      assert s'.current == s.current + [line];
    }
  }

  lemma FlattenEmpty<T>()
    ensures Flatten<T>([]) == []
  {
  }

  lemma BatchLinesSnoc(bs: seq<Batch>, b: Batch)
    ensures BatchLines(bs + [b]) == BatchLines(bs) + Flatten(b.buffers)
  {
    assert (bs + [b])[..|bs|] == bs;
  }

  /** The collected batch is the last of the history, and what was emitted before does not change. */
  lemma CollectedBatch(h: History, bs: seq<Buffer>)
    ensures var h' := h.(batches := h.batches + [Batch(bs, "")]);
            BatchLines(h'.batches) == BatchLines(h.batches) + Flatten(bs)
            && ExpectedOutput(h'.batches, Collected) == Emitted(h.batches)
  {
    hide Emitted, Flatten, BatchLines;
    BatchLinesSnoc(h.batches, Batch(bs, ""));
    assert (h.batches + [Batch(bs, "")])[..|h.batches|] == h.batches;
  }

  lemma CollectKeepsInv(s: State, h: History)
    requires Inv(s, h) && s.phase.ToCollect?
    ensures CollectStep(s).Next? && Inv(CollectStep(s).s, Observe(h, s, Collect))
  {
    hide Emitted, Datas, Opening, Kept, Size, Put, BatchLines, Flatten, ExpectedOutput;
    FlattenSnoc(s.buffers, s.current);
    FlattenEmpty<Line>();
    CollectedBatch(h, s.buffers + [s.current]);
    AtHeadOutput(h.batches, s.phase);
  }

  lemma AtHeadOutput(bs: seq<Batch>, phase: Phase)
    requires !phase.Collected? && !phase.Writing?
    ensures ExpectedOutput(bs, phase) == Emitted(bs)
  {
  }

  lemma OverloadKeepsInv(s: State, h: History, when: string)
    requires Inv(s, h) && s.phase.Collected?
    ensures OverloadStep(s, when).Next? && Inv(OverloadStep(s, when).s, Observe(h, s, CheckOverload(when)))
  {
    hide Emitted, Size, Put, Flatten;
    var n := |h.batches| - 1;
    var last := h.batches[n].(when := when);
    var h' := Observe(h, s, CheckOverload(when));
    assert h'.batches[..n] == h.batches[..n] && h'.batches[n] == last;
    assert Datas(Kept(last)[..0]) == [];
  }

  lemma WriteKeepsInv(s: State, h: History)
    requires Inv(s, h) && s.phase.Writing?
    ensures WriteStep(s).Next? && Inv(WriteStep(s).s, h)
  {
    hide Kept, Opening, Size, Put, Flatten, BatchLines;
    var kept, i := Kept(h.batches[|h.batches| - 1]), s.phase.next;
    if i < |kept| {
      assert Datas(kept[..i + 1]) == Datas(kept[..i]) + [Data(kept[i])];
    } else {
      assert kept[..i] == kept;
    }
  }

  lemma RecycleKeepsInv(s: State, h: History)
    requires Inv(s, h) && s.phase.ToRecycle?
    ensures RecycleStep(s).Next? && Inv(RecycleStep(s).s, h)
  {
    hide Emitted, Opening, Size, Put, Datas, Flatten, BatchLines;
  }

  /** The steps that only move the log thread or the flag. */
  lemma FlagKeepsInv(s: State, h: History, e: Event)
    requires Inv(s, h) && (e.Start? || e.Begin? || e.Stop? || e.TestRunning?)
    ensures Step(s, e).Fault? <==> e.Begin? && s.phase.Starting? && !s.running
    ensures Step(s, e).Next? ==> Inv(Step(s, e).s, h)
  {
    hide Emitted, BatchLines, Flatten, Kept, Opening, Datas;
  }

  lemma StepKeepsInv(s: State, h: History, e: Event)
    requires Inv(s, h)
    ensures Step(s, e).Fault? <==> e.Begin? && s.phase.Starting? && !s.running
    ensures Step(s, e).Next? ==> Inv(Step(s, e).s, Observe(h, s, e))
  {
    hide Inv, AppendStep, CollectStep, OverloadStep, WriteStep, RecycleStep, BeginStep;
    match e
    case Append(line) => AppendKeepsInv(s, h, line);
    case Collect => if s.phase.ToCollect? { CollectKeepsInv(s, h); }
    case CheckOverload(when) => if s.phase.Collected? { OverloadKeepsInv(s, h, when); }
    case Write => if s.phase.Writing? { WriteKeepsInv(s, h); }
    case Recycle => if s.phase.ToRecycle? { RecycleKeepsInv(s, h); }
    case _ => FlagKeepsInv(s, h, e);
  }

  // ---------- every run ----------

  predicate Started(es: seq<Event>) {
    es != [] && (es[|es| - 1].Start? || Started(es[..|es| - 1]))
  }

  predicate StoppedAfterStart(es: seq<Event>) {
    es != [] && ((es[|es| - 1].Stop? && Started(es[..|es| - 1])) || StoppedAfterStart(es[..|es| - 1]))
  }

  /** After start() and before the log thread has looked at the flag, some thread calls stop(). */
  predicate StoppedTooEarly(es: seq<Event>) {
    es != [] && ((es[|es| - 1].Begin? && StoppedAfterStart(es[..|es| - 1])) || StoppedTooEarly(es[..|es| - 1]))
  }

  /** Every reachable state keeps the invariant. */
  lemma {:induction false} RunKeepsInv(es: seq<Event>)
    ensures Run(es).Next? ==> Inv(Run(es).s, HistoryOf(es))
  {
    hide Step, Inv, Observe;
    if es == [] {
      InitInv();
    } else {
      var before := es[..|es| - 1];
      RunKeepsInv(before);
      if Run(before).Next? { StepKeepsInv(Run(before).s, HistoryOf(before), es[|es| - 1]); }
    }
  }

  /** What the phase tells of the run. */
  predicate StartKnown(s: State, es: seq<Event>) {
    (s.phase.NotStarted? <==> !Started(es)) && (s.phase.Starting? ==> (s.running <==> !StoppedAfterStart(es)))
    && (s.phase.NotStarted? ==> !StoppedAfterStart(es))
  }

  lemma StepKeepsStart(s: State, es: seq<Event>, e: Event)
    requires es != [] && StartKnown(s, es[..|es| - 1]) && e == es[|es| - 1] && Step(s, e).Next?
    ensures StartKnown(Step(s, e).s, es)
  {
    hide CollectStep, OverloadStep, RecycleStep, AppendStep;
    PhaseSteps(s, e);
  }

  lemma PhaseSteps(s: State, e: Event)
    requires Step(s, e).Next?
    ensures var t := Step(s, e).s;
            if e.Start? then s.phase.NotStarted? && t.phase.Starting? && t.running
            else if e.Begin? then s.phase.Starting? && t.phase.AtHead?
            else (t.phase.NotStarted? <==> s.phase.NotStarted?) && (t.phase.Starting? <==> s.phase.Starting?)
                 && (t.running <==> s.running && !e.Stop?)
  {
  }

  /** No interleaving makes the code touch a missing buffer or break one of its assertions but one: the first
      assertion of the log thread breaks exactly when stop() comes between start() and it. */
  lemma {:induction false} FaultsExactly(es: seq<Event>)
    requires !Run(es).Disabled?
    ensures Run(es).Fault? <==> StoppedTooEarly(es)
    ensures Run(es).Next? ==> StartKnown(Run(es).s, es)
  {
    hide Step, Inv, StartKnown;
    if es == [] {
      NothingStarted();
    } else {
      var before, e := es[..|es| - 1], es[|es| - 1];
      FaultsExactly(before);
      if Run(before).Next? {
        var s := Run(before).s;
        RunKeepsInv(before);
        StepKeepsInv(s, HistoryOf(before), e);
        if Step(s, e).Next? { StepKeepsStart(s, es, e); }
        BeginTells(s, before, e);
      }
    }
  }

  lemma NothingStarted()
    ensures StartKnown(Init(), [])
  {
  }

  lemma BeginTells(s: State, es: seq<Event>, e: Event)
    requires StartKnown(s, es) && !Step(s, e).Disabled?
    ensures e.Begin? ==> s.phase.Starting? && (s.running <==> !StoppedAfterStart(es))
  {
  }

  /** It takes three steps. */
  lemma StoppedWhileStarting()
    ensures Run([Start, Stop, Begin]).Fault?
  {
    var a, b, c := [Start], [Start, Stop], [Start, Stop, Begin];
    assert a[..0] == [] && b[..1] == a && c[..2] == b;
    assert Run(a) == Step(Init(), Start) && Run(b) == Step(Run(a).s, Stop);
  }

  lemma InitInv()
    ensures Inv(Init(), History([], []))
  {
  }

  /** The appends of a run that a buffer can hold, in lock order. */
  function AcceptedLines(es: seq<Event>): seq<Line> {
    if es == [] then []
    else
      var e := es[|es| - 1];
      AcceptedLines(es[..|es| - 1]) + (if e.Append? && Accepted(e.line) then [e.line] else [])
  }

  lemma {:induction false} HistoryLines(es: seq<Event>)
    requires Run(es).Next?
    ensures HistoryOf(es).lines == AcceptedLines(es)
  {
    if es != [] { HistoryLines(es[..|es| - 1]); }
  }

  /** Exact accounting, in every reachable state: the accepted lines in lock order are the lines of the batches
      collected so far, then of the waiting buffers, then of the current one. */
  lemma Accounting(es: seq<Event>)
    requires Run(es).Next?
    ensures var s := Run(es).s;
            AcceptedLines(es) == BatchLines(HistoryOf(es).batches) + Flatten(s.buffers) + s.current
            && Pool(s)
            && s.output == ExpectedOutput(HistoryOf(es).batches, s.phase)
  {
    hide Run, HistoryOf, AcceptedLines;
    RunKeepsInv(es);
    HistoryLines(es);
  }

  // ---------- what reaches the log file ----------

  /** The lines of the output, notices left aside. */
  function OutputLines(cs: seq<Chunk>): seq<Line> {
    if cs == [] then []
    else
      OutputLines(cs[..|cs| - 1]) + (match cs[|cs| - 1] case Data(b) => b case Notice(_, _) => [])
  }

  lemma {:induction false} OutputLinesConcat(a: seq<Chunk>, b: seq<Chunk>)
    ensures OutputLines(a + b) == OutputLines(a) + OutputLines(b)
  {
    if b == [] {
      assert a + b == a;
    } else {
      assert (a + b)[..|a + b| - 1] == a + b[..|b| - 1];
      OutputLinesConcat(a, b[..|b| - 1]);
    }
  }

  lemma {:induction false} DataLines(bs: seq<Buffer>)
    ensures OutputLines(Datas(bs)) == Flatten(bs)
  {
    if bs != [] {
      var n := |bs| - 1;
      assert Datas(bs)[..n] == Datas(bs[..n]);
      DataLines(bs[..n]);
      assert bs == bs[..n] + [bs[n]];
      FlattenSnoc(bs[..n], bs[n]);
    }
  }

  lemma OpeningHasNoLines(b: Batch)
    ensures OutputLines(Opening(b)) == []
  {
    var cs := Opening(b);
    if cs != [] { assert cs[..0] == []; }
  }

  function KeptLines(bs: seq<Batch>): seq<Line> {
    if bs == [] then [] else KeptLines(bs[..|bs| - 1]) + Flatten(Kept(bs[|bs| - 1]))
  }

  lemma {:induction false} EmittedLines(bs: seq<Batch>)
    ensures OutputLines(Emitted(bs)) == KeptLines(bs)
  {
    if bs != [] {
      var init, last := bs[..|bs| - 1], bs[|bs| - 1];
      EmittedLines(init);
      OutputLinesConcat(Emitted(init) + Opening(last), Datas(Kept(last)));
      OutputLinesConcat(Emitted(init), Opening(last));
      OpeningHasNoLines(last);
      DataLines(Kept(last));
    }
  }

  predicate Lossless(b: Batch) {
    |b.buffers| <= OVERLOAD || Flatten(b.buffers[KEPT..]) == []
  }

  lemma BatchLoss(b: Batch)
    ensures |Flatten(Kept(b))| <= |Flatten(b.buffers)|
    ensures Lossless(b) <==> Flatten(Kept(b)) == Flatten(b.buffers)
    ensures Lossless(b) <==> |Flatten(Kept(b))| == |Flatten(b.buffers)|
  {
    if |b.buffers| > OVERLOAD {
      assert b.buffers == b.buffers[..KEPT] + b.buffers[KEPT..];
      FlattenConcat(b.buffers[..KEPT], b.buffers[KEPT..]);
    }
  }

  lemma {:induction false} LossExactly(bs: seq<Batch>)
    ensures |KeptLines(bs)| <= |BatchLines(bs)|
    ensures (forall b <- bs :: Lossless(b)) <==> KeptLines(bs) == BatchLines(bs)
    ensures (forall b <- bs :: Lossless(b)) <==> |KeptLines(bs)| == |BatchLines(bs)|
  {
    hide Lossless, Kept, Flatten;
    if bs != [] {
      var init, last := bs[..|bs| - 1], bs[|bs| - 1];
      LossExactly(init);
      BatchLoss(last);
      assert bs == init + [last];
    }
  }

  /** Between two passes of the log thread the log file holds exactly the lines of the batches collected so far
      if and only if no overloaded batch had a line beyond its first two buffers. */
  lemma NothingLostExactly(es: seq<Event>)
    requires Run(es).Next? && Idle(Run(es).s)
    ensures var bs := HistoryOf(es).batches;
            OutputLines(Run(es).s.output) == BatchLines(bs) <==> forall b <- bs :: Lossless(b)
  {
    hide Run, HistoryOf, Lossless;
    RunKeepsInv(es);
    EmittedLines(HistoryOf(es).batches);
    LossExactly(HistoryOf(es).batches);
  }

  lemma PrefixOfFlatten(bs: seq<Buffer>, n: nat)
    requires n <= |bs|
    ensures Flatten(bs[..n]) <= Flatten(bs)
  {
    assert bs == bs[..n] + bs[n..];
    FlattenConcat(bs[..n], bs[n..]);
  }

  predicate NoOverload(bs: seq<Batch>) {
    forall i :: 0 <= i < |bs| ==> |bs[i].buffers| <= OVERLOAD
  }

  lemma NoOverloadLines(bs: seq<Batch>)
    requires NoOverload(bs)
    ensures OutputLines(Emitted(bs)) == BatchLines(bs)
  {
    EmittedLines(bs);
    LossExactly(bs);
  }

  lemma ExpectedIsPrefix(bs: seq<Batch>, phase: Phase)
    requires NoOverload(bs) && (phase.Writing? ==> bs != [] && phase.next <= |bs[|bs| - 1].buffers|)
    ensures OutputLines(ExpectedOutput(bs, phase)) <= BatchLines(bs)
  {
    hide Flatten, OutputLines, Emitted;
    NoOverloadLines(bs);
    if bs != [] {
      var init, last := bs[..|bs| - 1], bs[|bs| - 1];
      NoOverloadLines(init);
      if phase.Writing? {
        var i := phase.next;
        assert Emitted(init) + Opening(last) == Emitted(init);
        OutputLinesConcat(Emitted(init), Datas(last.buffers[..i]));
        DataLines(last.buffers[..i]);
        PrefixOfFlatten(last.buffers, i);
      }
    }
  }

  /** As long as no batch is overloaded, what has been written is a prefix of what was accepted, in every
      reachable state: nothing is lost, repeated or put out of order. */
  lemma OutputIsPrefix(es: seq<Event>)
    requires Run(es).Next? && NoOverload(HistoryOf(es).batches)
    ensures OutputLines(Run(es).s.output) <= AcceptedLines(es)
  {
    hide Run, HistoryOf, AcceptedLines, Flatten, ExpectedOutput, OutputLines, BatchLines;
    RunKeepsInv(es);
    HistoryLines(es);
    ExpectedIsPrefix(HistoryOf(es).batches, Run(es).s.phase);
  }

  // ---------- progress ----------

  /** The steps of the log thread. */
  predicate OnlyLogThread(es: seq<Event>) {
    forall i :: 0 <= i < |es| ==> !es[i].Append? && !es[i].Start? && !es[i].Stop?
  }

  /** What other threads see of a state. */
  predicate SameShared(s: State, t: State) {
    t.current == s.current && t.next == s.next && t.buffers == s.buffers && t.running == s.running
  }

  /** One step of the log thread more. */
  lemma LogStep(es: seq<Event>, e: Event)
    requires Run(es).Next? && OnlyLogThread([e]) && !Step(Run(es).s, e).Disabled?
    requires e.Begin? ==> Run(es).s.running
    ensures Step(Run(es).s, e).Next? && Run(es + [e]) == Step(Run(es).s, e)
    ensures AcceptedLines(es + [e]) == AcceptedLines(es)
  {
    hide Step, Inv, Observe, HistoryOf, Run;
    RunKeepsInv(es);
    StepKeepsInv(Run(es).s, HistoryOf(es), e);
    assert (es + [e])[..|es|] == es;
    assert !([e][0]).Append?;
    assert Run(es + [e]) == Step(Run(es).s, e) by { RunOn(es, e); }
    assert AcceptedLines(es + [e]) == AcceptedLines(es) + [];
  }

  lemma RunOn(es: seq<Event>, e: Event)
    requires Run(es).Next?
    ensures Run(es + [e]) == Step(Run(es).s, e)
  {
    assert (es + [e])[..|es|] == es;
  }

  /** From the write loop to its end. */
  lemma {:induction false} WriteAll(es: seq<Event>) returns (more: seq<Event>)
    requires Run(es).Next? && Run(es).s.phase.Writing?
    ensures OnlyLogThread(more) && Run(es + more).Next? && Run(es + more).s.phase.ToRecycle?
    ensures SameShared(Run(es).s, Run(es + more).s) && AcceptedLines(es + more) == AcceptedLines(es)
    decreases if Run(es).s.phase.next <= |Run(es).s.toWrite| then |Run(es).s.toWrite| + 1 - Run(es).s.phase.next else 0
  {
    hide Run, AcceptedLines, CollectStep, OverloadStep, RecycleStep, AppendStep;
    LogStep(es, Write);
    if Run(es).s.phase.next < |Run(es).s.toWrite| {
      var rest := WriteAll(es + [Write]);
      more := [Write] + rest;
      assert es + more == es + [Write] + rest;
    } else {
      more := [Write];
    }
  }

  /** From inside a pass of the log thread to the head of its loop. */
  lemma FinishPass(es: seq<Event>) returns (more: seq<Event>)
    requires Run(es).Next?
    requires var p := Run(es).s.phase; p.AtHead? || p.Collected? || p.Writing? || p.ToRecycle?
    ensures OnlyLogThread(more) && Run(es + more).Next? && Run(es + more).s.phase.AtHead?
    ensures SameShared(Run(es).s, Run(es + more).s) && AcceptedLines(es + more) == AcceptedLines(es)
  {
    hide Run, AcceptedLines, CollectStep, AppendStep;
    more := [];
    assert es + [] == es;
    if Run(es).s.phase.Collected? {
      LogStep(es, CheckOverload(""));
      more := [CheckOverload("")];
    }
    if Run(es + more).s.phase.Writing? {
      var rest := WriteAll(es + more);
      assert es + (more + rest) == es + more + rest;
      more := more + rest;
    }
    if Run(es + more).s.phase.ToRecycle? {
      LogStep(es + more, Recycle);
      assert es + (more + [Recycle]) == es + more + [Recycle];
      more := more + [Recycle];
    }
  }

  /** A pass from the point where the mutex is taken: what other threads have appended is collected and written. */
  lemma PassFromCollect(es: seq<Event>) returns (more: seq<Event>)
    requires Run(es).Next? && Run(es).s.phase.ToCollect?
    ensures OnlyLogThread(more) && Run(es + more).Next? && Run(es + more).s.phase.AtHead?
    ensures Run(es + more).s.buffers == [] && Run(es + more).s.current == []
    ensures Run(es + more).s.running == Run(es).s.running && AcceptedLines(es + more) == AcceptedLines(es)
  {
    hide Run, AcceptedLines, OverloadStep, WriteStep, RecycleStep, AppendStep;
    LogStep(es, Collect);
    var rest := FinishPass(es + [Collect]);
    more := [Collect] + rest;
    assert es + more == es + [Collect] + rest;
  }

  /** From wherever the log thread stands to the head of its loop, unless it is about to take the mutex. */
  lemma ReachHead(es: seq<Event>) returns (more: seq<Event>)
    requires Run(es).Next? && Run(es).s.running
    requires var p := Run(es).s.phase; !p.NotStarted? && !p.Done? && !p.ToCollect?
    ensures OnlyLogThread(more) && Run(es + more).Next? && Run(es + more).s.phase.AtHead?
    ensures Run(es + more).s.running && AcceptedLines(es + more) == AcceptedLines(es)
  {
    hide Run, AcceptedLines, CollectStep, OverloadStep, WriteStep, RecycleStep, AppendStep;
    if Run(es).s.phase.Starting? {
      LogStep(es, Begin);
      more := [Begin];
    } else {
      more := FinishPass(es);
    }
  }

  lemma ReachLock(es: seq<Event>) returns (more: seq<Event>)
    requires Run(es).Next? && Run(es).s.running && !Run(es).s.phase.NotStarted? && !Run(es).s.phase.Done?
    ensures OnlyLogThread(more) && Run(es + more).Next? && Run(es + more).s.phase.ToCollect?
    ensures AcceptedLines(es + more) == AcceptedLines(es)
  {
    hide Run, AcceptedLines, CollectStep, OverloadStep, WriteStep, RecycleStep, AppendStep;
    if Run(es).s.phase.ToCollect? {
      more := [];
      assert es + [] == es;
    } else {
      more := ReachHead(es);
      LogStep(es + more, TestRunning);
      assert es + (more + [TestRunning]) == es + more + [TestRunning];
      more := more + [TestRunning];
    }
  }

  /** From every reachable state with the log thread running, its own steps alone collect every accepted line
      and write every collected buffer that is not dropped. */
  lemma WaitingIsWritten(es: seq<Event>) returns (more: seq<Event>)
    requires Run(es).Next? && Run(es).s.running && !Run(es).s.phase.NotStarted? && !Run(es).s.phase.Done?
    ensures OnlyLogThread(more) && Run(es + more).Next? && Run(es + more).s.phase.AtHead?
    ensures var bs := HistoryOf(es + more).batches;
            BatchLines(bs) == AcceptedLines(es) && OutputLines(Run(es + more).s.output) == KeptLines(bs)
  {
    hide Run, Step, AcceptedLines, HistoryOf, BatchLines, KeptLines, OutputLines;
    more := ReachLock(es);
    var pass := PassFromCollect(es + more);
    assert es + (more + pass) == es + more + pass;
    more := more + pass;
    WrittenAtHead(es + more);
  }

  lemma WrittenAtHead(es: seq<Event>)
    requires Run(es).Next? && Run(es).s.phase.AtHead? && Run(es).s.buffers == [] && Run(es).s.current == []
    ensures var bs := HistoryOf(es).batches;
            BatchLines(bs) == AcceptedLines(es) && OutputLines(Run(es).s.output) == KeptLines(bs)
  {
    hide Run, AcceptedLines, HistoryOf, BatchLines, KeptLines, OutputLines;
    Accounting(es);
    FlattenEmpty<Line>();
    EmittedLines(HistoryOf(es).batches);
  }

  // ---------- the end ----------

  /** From every reachable state with the flag cleared and the log thread in its loop, its own steps end the loop: the
      batch at hand, if any, is written, and none is collected after it. */
  lemma StopEnds(es: seq<Event>) returns (more: seq<Event>)
    requires Run(es).Next? && !Run(es).s.running && !Run(es).s.phase.NotStarted? && !Run(es).s.phase.Starting?
    ensures OnlyLogThread(more) && Run(es + more).Next? && Run(es + more).s.phase.Done?
    ensures AcceptedLines(es + more) == AcceptedLines(es)
    ensures !Run(es).s.phase.ToCollect? ==> SameShared(Run(es).s, Run(es + more).s)
  {
    hide Run, AcceptedLines, CollectStep, OverloadStep, WriteStep, RecycleStep, AppendStep;
    if Run(es).s.phase.Done? {
      more := [];
      assert es + [] == es;
    } else {
      if Run(es).s.phase.ToCollect? {
        more := PassFromCollect(es);
      } else {
        more := FinishPass(es);
      }
      LogStep(es + more, TestRunning);
      assert es + (more + [TestRunning]) == es + more + [TestRunning];
      more := more + [TestRunning];
    }
  }

  // ---------- the numbers ----------

  /** A line is accepted when it has fewer than four million characters, and nothing of a longer one is kept. */
  lemma AcceptedExactly(line: Line)
    ensures Accepted(line) <==> |line| < 4000000
    ensures Put([], line) == if |line| < 4000000 then [line] else []
  {
    FlattenEmpty<char>();
  }

  /** A batch of more than 25 buffers becomes a notice that counts all but two, and its first two buffers; every other
      batch is written as it is. */
  lemma OverloadExactly(s: State, h: History, when: string)
    requires Inv(s, h) && s.phase.Collected?
    ensures OverloadStep(s, when).Next?
    ensures var t := OverloadStep(s, when).s;
            |s.toWrite| >= 1 && t.phase == Writing(0)
            && (if |s.toWrite| > 25 then
                  t.toWrite == s.toWrite[..2] && t.output == s.output + [Notice(when, |s.toWrite| - 2)]
                else t.toWrite == s.toWrite && t.output == s.output)
            && SameShared(s, t)
  {
    OverloadKeepsInv(s, h, when);
  }
}
