/**
The class of glacier/base/asynclogging.cc: each critical section and each private step of the log
thread, over the bytes of the buffers, shown to do what the transition system in AsyncLog says.  A
unique_ptr is the one place that holds its buffer, so it is null or the bytes themselves.  The
locals of threadFunc are fields here, because other threads run between its steps.
*/
module AsyncLogging {
  import opened Sequences
  import opened AsyncLog
  import opened LogStreams
  import LogFiles

  /** The overload notice, cut off as snprintf into 256 bytes cuts it. */
  function NoticeText(when: string, larger: int): string {
    var text := "Dropped log messages at " + when + ", " + Format(Dec, larger) + " larger buffers\n";
    if |text| > 255 then text[..255] else text
  }

  function ChunkText(c: Chunk): string {
    match c
    case Notice(when, larger) => NoticeText(when, larger)
    case Data(buffer) => Flatten(buffer)
  }

  function Text(cs: seq<Chunk>): string {
    if cs == [] then "" else Text(cs[..|cs| - 1]) + ChunkText(cs[|cs| - 1])
  }

  lemma TextSnoc(cs: seq<Chunk>, c: Chunk)
    ensures Text(cs + [c]) == Text(cs) + ChunkText(c)
  {
    assert (cs + [c])[..|cs|] == cs;
  }

  /** No notices among the chunks. */
  predicate OnlyData(cs: seq<Chunk>) {
    forall i :: 0 <= i < |cs| ==> cs[i].Data?
  }

  /** Without notices the text is exactly the lines of the output, one after the other. */
  lemma {:induction false} TextOfData(cs: seq<Chunk>)
    requires OnlyData(cs)
    ensures Text(cs) == Flatten(OutputLines(cs))
  {
    if cs == [] {
      FlattenEmpty<char>();
    } else {
      var init, b := cs[..|cs| - 1], cs[|cs| - 1].buffer;
      TextOfData(init);
      FlattenConcat(OutputLines(init), b);
    }
  }

  /** A notice says in words when it was, and in a numeral that reads back as the count how many buffers were over. */
  lemma NoticeSays(when: string, larger: int) returns (numeral: string)
    ensures Parse(Dec, numeral) == larger && Canonical(Dec, numeral)
    ensures var whole := "Dropped log messages at " + when + ", " + numeral + " larger buffers\n";
            if |whole| <= 255 then ChunkText(Notice(when, larger)) == whole
            else |ChunkText(Notice(when, larger))| == 255 && ChunkText(Notice(when, larger)) <= whole
  {
    hide Format, Parse, Canonical;
    numeral := Format(Dec, larger);
    ParseOfFormat(Dec, larger);
  }

  lemma {:induction false} EmittedIsData(bs: seq<Batch>)
    requires NoOverload(bs)
    ensures OnlyData(Emitted(bs))
  {
    if bs != [] {
      assert NoOverload(bs[..|bs| - 1]);
      EmittedIsData(bs[..|bs| - 1]);
    }
  }

  lemma ExpectedIsData(bs: seq<Batch>, phase: Phase)
    requires NoOverload(bs)
    ensures OnlyData(ExpectedOutput(bs, phase))
  {
    hide Emitted;
    EmittedIsData(bs);
    if bs != [] {
      assert NoOverload(bs[..|bs| - 1]);
      EmittedIsData(bs[..|bs| - 1]);
    }
  }

  lemma FlattenOfPrefix(a: seq<string>, b: seq<string>)
    requires a <= b
    ensures Flatten(a) <= Flatten(b)
  {
    assert b == a + b[|a|..];
    FlattenConcat(a, b[|a|..]);
  }

  /** What is in the log files, in a state that keeps the invariant and has seen no overload: the accepted lines from
      the first on, byte for byte; between passes, all lines that were collected. */
  lemma TextIsPrefix(s: State, h: History)
    requires Inv(s, h) && NoOverload(h.batches)
    ensures Text(s.output) <= Flatten(h.lines)
    ensures Idle(s) ==> Text(s.output) == Flatten(BatchLines(h.batches))
  {
    hide Flatten, Text, OutputLines, Emitted, BatchLines, ExpectedOutput;
    ExpectedIsData(h.batches, s.phase);
    TextOfData(s.output);
    if s.phase.Writing? { WritingHasBatch(s, h); }
    ExpectedIsPrefix(h.batches, s.phase);
    assert h.lines == BatchLines(h.batches) + (Flatten(s.buffers) + s.current);
    FlattenOfPrefix(OutputLines(s.output), h.lines);
    if Idle(s) {
      AtHeadOutput(h.batches, s.phase);
      NoOverloadLines(h.batches);
    }
  }

  lemma WritingHasBatch(s: State, h: History)
    requires Inv(s, h) && NoOverload(h.batches) && s.phase.Writing?
    ensures h.batches != [] && s.phase.next <= |h.batches[|h.batches| - 1].buffers|
  {
    hide ExpectedOutput, BatchLines, Flatten;
  }

  /** A unique_ptr to a buffer: null, or the bytes of the buffer it alone owns. */
  type BufferPtr = Option<string>

  ghost predicate Means(b: BufferPtr, abs: Option<Buffer>) {
    if b.None? then abs.None? else abs.Some? && b.value == Flatten(abs.value)
  }

  ghost predicate Stand(bs: seq<string>, abs: seq<Buffer>) {
    |bs| == |abs| && forall i :: 0 <= i < |bs| ==> bs[i] == Flatten(abs[i])
  }

  /** What FixedBuffer.Append makes of the bytes of a buffer is what Put makes of its lines. */
  lemma PutMeans(b: Buffer, line: string)
    ensures Appended(Flatten(b), line, CAPACITY) == Flatten(Put(b, line))
  {
    FlattenSnoc(b, line);
  }

  class AsyncLogging {
    var currentBuffer: string
    var nextBuffer: BufferPtr
    var buffers: seq<string>
    var newBuffer1: BufferPtr
    var newBuffer2: BufferPtr
    var buffersToWrite: seq<string>
    var running: bool
    const output: LogFiles.LogFile

    ghost var spec: State
    ghost var history: History

    /** The fields hold the bytes of the abstract buffers. */
    ghost predicate Mirrors()
      reads this
    {
      currentBuffer == Flatten(spec.current) && Means(nextBuffer, spec.next) && Stand(buffers, spec.buffers)
      && Means(newBuffer1, spec.new1) && Means(newBuffer2, spec.new2) && Stand(buffersToWrite, spec.toWrite)
      && running == spec.running
    }

    ghost predicate Logged()
      reads this, output, output.file
    {
      output.Valid() && LogFiles.Stream(output.state.files) == Text(spec.output)
    }

    ghost predicate Valid()
      reads this, output, output.file
    {
      Mirrors() && Logged() && Inv(spec, history)
    }

    constructor (output: LogFiles.LogFile)
      requires output.Valid() && LogFiles.Stream(output.state.files) == ""
      ensures Valid() && this.output == output
      ensures spec == Init() && history == History([], [])
    {
      currentBuffer, nextBuffer, buffers := "", Some(""), [];
      newBuffer1, newBuffer2, buffersToWrite, running := None, None, [], false;
      this.output := output;
      spec, history := Init(), History([], []);
      new;
      hide Inv;
      InitInv();
    }

    /** start: the flag, before the log thread is created. */
    method Start()
      requires Valid() && spec.phase.NotStarted?
      modifies this
      ensures Valid() && Step(old(spec), Event.Start) == Next(spec) && history == old(history)
    {
      hide Inv, Flatten, LogFiles.Stream, Text, AppendStep, CollectStep, OverloadStep, WriteStep, RecycleStep;
      StepKeepsInv(spec, history, Event.Start);
      running := true;
      spec := Step(spec, Event.Start).s;
    }

    /** The head of threadFunc, which asserts the flag: two empty buffers for the log thread. */
    method Begin()
      requires Valid() && spec.phase.Starting? && running
      modifies this
      ensures Valid() && Step(old(spec), Event.Begin) == Next(spec) && history == old(history)
    {
      hide Inv, Flatten, LogFiles.Stream, Text, AppendStep, CollectStep, OverloadStep, WriteStep, RecycleStep;
      StepKeepsInv(spec, history, Event.Begin);
      FlattenEmpty<char>();
      newBuffer1, newBuffer2 := Some(""), Some("");
      spec := Step(spec, Event.Begin).s;
    }

    /** The critical section of append. */
    method Append(line: string)
      requires Valid()
      modifies this
      ensures Valid() && spec == AppendStep(old(spec), line)
      ensures history == Observe(old(history), old(spec), Event.Append(line))
    {
      hide Inv, Flatten, LogFiles.Stream, Text, CollectStep, OverloadStep, WriteStep, RecycleStep;
      AppendKeepsInv(spec, history, line);
      PutMeans(spec.current, line);
      if spec.next.Some? { PutMeans(spec.next.value, line); }
      PutMeans([], line);
      FlattenEmpty<char>();
      history := Observe(history, spec, Event.Append(line));
      if CAPACITY - |currentBuffer| > |line| {
        currentBuffer := Appended(currentBuffer, line, CAPACITY);
      } else {
        buffers := buffers + [currentBuffer];
        if nextBuffer.Some? {
          currentBuffer, nextBuffer := nextBuffer.value, None;
        } else {
          currentBuffer := "";
        }
        currentBuffer := Appended(currentBuffer, line, CAPACITY);
      }
      spec := AppendStep(spec, line);
    }

    /** One pass of threadFunc up to the end of its critical section.  The loop's assertions hold. */
    method Collect()
      requires Valid() && spec.phase.ToCollect?
      modifies this
      ensures Valid() && CollectStep(old(spec)) == Next(spec)
      ensures history == Observe(old(history), old(spec), Event.Collect)
    {
      hide Inv, Flatten, LogFiles.Stream, Text, AppendStep, OverloadStep, WriteStep, RecycleStep;
      CollectKeepsInv(spec, history);
      FlattenEmpty<char>();
      assert newBuffer1 == Some("") && newBuffer2 == Some("") && buffersToWrite == [];
      history := Observe(history, spec, Event.Collect);
      spec := CollectStep(spec).s;
      buffers := buffers + [currentBuffer];
      currentBuffer, newBuffer1 := newBuffer1.value, None;
      buffersToWrite, buffers := buffers, buffersToWrite;
      if nextBuffer.None? {
        nextBuffer, newBuffer2 := newBuffer2, None;
      }
    }

    /** The overload check: a notice to the log file, and all but two buffers dropped. */
    method CheckOverload(when: string, now: int, rollNow: int, script: seq<nat>)
      requires Valid() && spec.phase.Collected?
      modifies this, output, output.file
      ensures Valid() && OverloadStep(old(spec), when) == Next(spec)
      ensures output.file == old(output.file) || fresh(output.file)
      ensures history == Observe(old(history), old(spec), Event.CheckOverload(when))
    {
      hide Inv, Flatten, NoticeText, LogFiles.Stream, Text, AppendStep, CollectStep, WriteStep, RecycleStep;
      OverloadKeepsInv(spec, history, when);
      assert buffersToWrite != [];
      history := Observe(history, spec, Event.CheckOverload(when));
      if |buffersToWrite| > OVERLOAD {
        var notice := NoticeText(when, |buffersToWrite| - KEPT);
        WriteOut(notice, Notice(when, |buffersToWrite| - KEPT), now, rollNow, script);
        buffersToWrite := buffersToWrite[..KEPT];
      }
      spec := OverloadStep(old(spec), when).s;
    }

    /** One turn of the write loop. */
    method WriteOne(i: nat, now: int, rollNow: int, script: seq<nat>)
      requires Valid() && spec.phase == Writing(i) && i < |buffersToWrite|
      modifies this`spec, output, output.file
      ensures Valid() && (output.file == old(output.file) || fresh(output.file))
      ensures spec == old(spec).(output := old(spec).output + [Data(old(spec).toWrite[i])], phase := Writing(i + 1))
    {
      hide Inv, Flatten, LogFiles.Stream, Text, AppendStep, CollectStep, OverloadStep, RecycleStep;
      WriteKeepsInv(spec, history);
      ghost var next := WriteStep(spec).s;
      WriteOut(buffersToWrite[i], Data(spec.toWrite[i]), now, rollNow, script);
      spec := next;
    }

    /** The write loop: as many Write steps as the batch has buffers, and the one that leaves the loop. */
    method WriteBatch(times: seq<(int, int)>, script: seq<nat>)
      requires Valid() && spec.phase == Writing(0) && |times| == |buffersToWrite|
      modifies this`spec, output, output.file
      ensures Valid() && (output.file == old(output.file) || fresh(output.file))
      ensures spec == old(spec).(output := old(spec).output + Datas(old(spec).toWrite), phase := ToRecycle)
    {
      hide Inv, Flatten, LogFiles.Stream, Text, AppendStep, CollectStep, OverloadStep, RecycleStep;
      var i := 0;
      assert Datas(spec.toWrite[..0]) == [];
      while i < |buffersToWrite|
        invariant 0 <= i <= |buffersToWrite| == |times|
        invariant Valid() && (output.file == old(output.file) || fresh(output.file))
        invariant spec == old(spec).(output := old(spec).output + Datas(old(spec).toWrite[..i]), phase := Writing(i))
      {
        assert Datas(spec.toWrite[..i + 1]) == Datas(spec.toWrite[..i]) + [Data(spec.toWrite[i])];
        WriteOne(i, times[i].0, times[i].1, script);
        i := i + 1;
      }
      assert spec.toWrite[..i] == spec.toWrite;
      WriteKeepsInv(spec, history);
      spec := WriteStep(spec).s;
    }

    /** Two of the written buffers become the log thread's spares again; both are there to take. */
    method Recycle()
      requires Valid() && spec.phase.ToRecycle?
      modifies this
      ensures Valid() && RecycleStep(old(spec)) == Next(spec) && history == old(history)
    {
      hide Inv, Flatten, LogFiles.Stream, Text, AppendStep, CollectStep, OverloadStep, WriteStep;
      RecycleKeepsInv(spec, history);
      FlattenEmpty<char>();
      if |buffersToWrite| > KEPT {
        buffersToWrite := buffersToWrite[..KEPT];
      }
      if newBuffer1.None? {
        assert buffersToWrite != [];
        buffersToWrite := buffersToWrite[..|buffersToWrite| - 1];
        newBuffer1 := Some("");
      }
      if newBuffer2.None? {
        assert buffersToWrite != [];
        buffersToWrite := buffersToWrite[..|buffersToWrite| - 1];
        newBuffer2 := Some("");
      }
      buffersToWrite := [];
      spec := RecycleStep(spec).s;
    }

    /** The loop condition. */
    method TestRunning() returns (go: bool)
      requires Valid() && spec.phase.AtHead?
      modifies this
      ensures Valid() && Step(old(spec), Event.TestRunning) == Next(spec) && history == old(history)
      ensures go == old(running)
    {
      hide Inv, Flatten, LogFiles.Stream, Text, AppendStep, CollectStep, OverloadStep, WriteStep, RecycleStep;
      StepKeepsInv(spec, history, Event.TestRunning);
      go := running;
      spec := Step(spec, Event.TestRunning).s;
    }

    method Stop()
      requires Valid()
      modifies this
      ensures Valid() && Step(old(spec), Event.Stop) == Next(spec) && history == old(history)
    {
      hide Inv, Flatten, LogFiles.Stream, Text, AppendStep, CollectStep, OverloadStep, WriteStep, RecycleStep;
      StepKeepsInv(spec, history, Event.Stop);
      running := false;
      spec := spec.(running := false);
    }

    /** output.append. */
    method WriteOut(text: string, ghost c: Chunk, now: int, rollNow: int, script: seq<nat>)
      requires Logged() && text == ChunkText(c)
      modifies output, output.file, this`spec
      ensures output.file == old(output.file) || fresh(output.file)
      ensures Logged() && spec == old(spec).(output := old(spec).output + [c])
    {
      hide LogFiles.Append, LogFiles.Stream, Text, ChunkText;
      TextSnoc(spec.output, c);
      LogFiles.AppendExtendsStream(output.limits, output.state, LogFiles.Entry(text, now, rollNow));
      output.AppendLine(text, now, rollNow, script);
      spec := spec.(output := spec.output + [c]);
    }

    /** In every valid state that has seen no overload the log files hold the accepted lines from the first on, byte for
        byte, whole and in order; between passes of the log thread, all lines that were collected. */
    lemma FilesHoldLines()
      requires Valid() && NoOverload(history.batches)
      ensures LogFiles.Stream(output.state.files) <= Flatten(history.lines)
      ensures Idle(spec) ==> LogFiles.Stream(output.state.files) == Flatten(BatchLines(history.batches))
    {
      hide Inv, Flatten, LogFiles.Stream, Text;
      TextIsPrefix(spec, history);
    }
  }
}
