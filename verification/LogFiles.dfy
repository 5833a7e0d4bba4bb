/**
glacier/base/logfile.cc: a log that moves on to a new file when the current one is full or a
day has passed.  The clock, the outcome of each fwrite and the file system are parameters; file
names, which are derived from the creation second, and flushing to disk are left out.
*/
module LogFiles {
  import opened CInt

  const ROLL_PER_SECONDS := 60 * 60 * 24

  /** One append: the bytes, the second it happened, and the second rollFile reads if it is called. */
  datatype Entry = Entry(line: string, now: int, rollNow: int)

  datatype FileRecord = FileRecord(created: int, entries: seq<Entry>)

  /** The members of LogFile that change, with every file so far, the last one open. */
  datatype State = State(count: int, startOfPeriod: int, lastRoll: int, lastFlush: int, files: seq<FileRecord>)

  datatype Limits = Limits(rollSize: int, flushInterval: int, checkEveryN: int)

  function Bytes(entries: seq<Entry>): string {
    if entries == [] then "" else Bytes(entries[..|entries| - 1]) + entries[|entries| - 1].line
  }

  function DayStart(now: int): int {
    Quot(now, ROLL_PER_SECONDS) * ROLL_PER_SECONDS
  }

  // ---------- the code ----------

  function RollFile(s: State, now: int): State {
    if now > s.lastRoll then
      s.(lastRoll := now, lastFlush := now, startOfPeriod := DayStart(now), files := s.files + [FileRecord(now, [])])
    else s
  }

  function Initial(now: int): (s: State)
    ensures now > 0 ==> s.files != []
  {
    RollFile(State(0, 0, 0, 0, []), now)
  }

  function Written(s: State, e: Entry): State
    requires s.files != []
  {
    var open := s.files[|s.files| - 1];
    s.(files := s.files[|s.files| - 1 := open.(entries := open.entries + [e])])
  }

  function Append(l: Limits, s: State, e: Entry): State
    requires s.files != []
  {
    var s1 := Written(s, e);
    if |Bytes(s1.files[|s1.files| - 1].entries)| > l.rollSize then RollFile(s1, e.rollNow)
    else if s.count + 1 >= l.checkEveryN then
      var s2 := s1.(count := 0);
      if DayStart(e.now) != s.startOfPeriod then RollFile(s2, e.rollNow)
      else if e.now - s.lastFlush > l.flushInterval then s2.(lastFlush := e.now)
      else s2
    else s1.(count := s.count + 1)
  }

  function AppendAll(l: Limits, s: State, es: seq<Entry>): (r: State)
    requires s.files != []
    ensures r.files != []
  {
    if es == [] then s else Append(l, AppendAll(l, s, es[..|es| - 1]), es[|es| - 1])
  }

  // ---------- properties of every run ----------

  /** The clock never runs backward, within an append and from one to the next. */
  predicate Monotone(start: int, es: seq<Entry>) {
    (forall i :: 0 <= i < |es| ==> start <= es[i].now <= es[i].rollNow)
    && (forall i, j :: 0 <= i < j < |es| ==> es[i].rollNow <= es[j].now)
  }

  function AllEntries(files: seq<FileRecord>): seq<Entry> {
    if files == [] then [] else AllEntries(files[..|files| - 1]) + files[|files| - 1].entries
  }

  /** The appends to a file that happened on a later day than the one it was created on. */
  function Late(f: FileRecord, n: nat): nat
    requires n <= |f.entries|
  {
    if n == 0 then 0
    else Late(f, n - 1) + (if f.entries[n - 1].now / 86400 != f.created / 86400 then 1 else 0)
  }

  predicate CreationIncreases(files: seq<FileRecord>) {
    forall i, j :: 0 <= i < j < |files| ==> files[i].created < files[j].created
  }

  function LateLimit(l: Limits): int {
    if l.checkEveryN > 1 then l.checkEveryN else 1
  }

  predicate LateBounded(l: Limits, f: FileRecord) {
    Late(f, |f.entries|) <= LateLimit(l)
  }

  ghost predicate Inv(l: Limits, s: State, clock: int) {
    s.files != []
    && CreationIncreases(s.files)
    && (forall i :: 0 <= i < |s.files| ==> LateBounded(l, s.files[i]))
    && 0 <= s.count && (s.count == 0 || s.count < l.checkEveryN)
    && 0 < s.lastRoll <= clock
    && var open := s.files[|s.files| - 1];
       open.created == s.lastRoll && s.startOfPeriod == DayStart(s.lastRoll)
       && Late(open, |open.entries|) <= s.count
       && (Late(open, |open.entries|) > 0 ==> DayStart(s.lastRoll) < DayStart(clock))
  }

  /** Two seconds are in the same period exactly when they are on the same day. */
  lemma SameDayExactly(a: int, b: int)
    requires a >= 0 && b >= 0
    ensures DayStart(a) == DayStart(b) <==> a / 86400 == b / 86400
    ensures DayStart(a) == a - a % 86400
  {
    assert DayStart(a) == a / 86400 * 86400 && DayStart(b) == b / 86400 * 86400;
  }

  lemma {:induction false} LatePrefix(f: FileRecord, g: FileRecord, n: nat)
    requires n <= |f.entries| && n <= |g.entries| && f.created == g.created && f.entries[..n] == g.entries[..n]
    ensures Late(f, n) == Late(g, n)
  {
    if n > 0 {
      assert f.entries[n - 1] == f.entries[..n][n - 1] == g.entries[n - 1];
      assert f.entries[..n - 1] == f.entries[..n][..n - 1] == g.entries[..n - 1];
      LatePrefix(f, g, n - 1);
    }
  }

  lemma DayStartMonotone(now: int, later: int)
    requires now <= later
    ensures DayStart(now) <= DayStart(later)
  {
  }

  /** A line adds at most one late append to the open file, and only on a later day. */
  lemma WrittenLate(f: FileRecord, e: Entry)
    ensures var g := f.(entries := f.entries + [e]);
            Late(g, |g.entries|)
            == Late(f, |f.entries|) + (if e.now / 86400 != f.created / 86400 then 1 else 0)
  {
    hide DayStart;
    var g := f.(entries := f.entries + [e]);
    assert g.entries[..|f.entries|] == f.entries[..|f.entries|];
    LatePrefix(g, f, |f.entries|);
  }

  /** Moving on to a new file, with only the bounds on the files so far. */
  lemma RollKeeps(l: Limits, s: State, now: int)
    requires s.files != [] && CreationIncreases(s.files)
    requires forall i :: 0 <= i < |s.files| ==> LateBounded(l, s.files[i])
    requires s.files[|s.files| - 1].created == s.lastRoll < now && 0 < s.lastRoll
    requires 0 <= s.count && (s.count == 0 || s.count < l.checkEveryN)
    ensures Inv(l, RollFile(s, now), now)
  {
    hide DayStart;
  }

  lemma AppendKeepsInv(l: Limits, s: State, e: Entry, clock: int)
    requires Inv(l, s, clock) && clock <= e.now <= e.rollNow
    ensures Inv(l, Append(l, s, e), e.rollNow)
  {
    hide DayStart, Bytes, Late;
    WrittenLate(s.files[|s.files| - 1], e);
    DayStartMonotone(s.lastRoll, clock);
    DayStartMonotone(clock, e.now);
    DayStartMonotone(e.now, e.rollNow);
    SameDayExactly(e.now, s.lastRoll);
    var s1 := Written(s, e);
    if Append(l, s, e).files != s1.files {
      RollKeeps(l, s1, e.rollNow);
      RollKeeps(l, s1.(count := 0), e.rollNow);
    }
  }

  lemma WrittenKeepsLines(s: State, e: Entry)
    requires s.files != []
    ensures AllEntries(Written(s, e).files) == AllEntries(s.files) + [e]
  {
    var k := |s.files| - 1;
    assert Written(s, e).files[..k] == s.files[..k];
  }

  lemma RollKeepsLines(s: State, now: int)
    ensures AllEntries(RollFile(s, now).files) == AllEntries(s.files)
  {
    hide DayStart;
    var k := |s.files|;
    if now > s.lastRoll { assert RollFile(s, now).files[..k] == s.files; }
  }

  /** Every line goes, whole and in order, to the file that was open when it came. */
  lemma AppendKeepsLines(l: Limits, s: State, e: Entry)
    requires s.files != []
    ensures AllEntries(Append(l, s, e).files) == AllEntries(s.files) + [e]
  {
    hide AllEntries, Bytes, DayStart, RollFile, Written;
    var s1 := Written(s, e);
    WrittenKeepsLines(s, e);
    RollKeepsLines(s1, e.rollNow);
    RollKeepsLines(s1.(count := 0), e.rollNow);
  }

  function LastClock(start: int, es: seq<Entry>): int {
    if es == [] then start else es[|es| - 1].rollNow
  }

  lemma InitialInv(l: Limits, start: int)
    requires start > 0
    ensures Inv(l, Initial(start), start) && AllEntries(Initial(start).files) == []
  {
    var s := Initial(start);
    assert s.files == [FileRecord(start, [])];
    assert AllEntries(s.files[..0]) == [];
  }

  lemma {:induction false} RunKeepsInv(l: Limits, start: int, es: seq<Entry>)
    requires start > 0 && Monotone(start, es)
    ensures var s := AppendAll(l, Initial(start), es);
            Inv(l, s, LastClock(start, es)) && AllEntries(s.files) == es
  {
    hide Append, Inv, Initial, AllEntries;
    if es == [] {
      InitialInv(l, start);
    } else {
      var rest, last := es[..|es| - 1], es[|es| - 1];
      RunKeepsInv(l, start, rest);
      var s := AppendAll(l, Initial(start), rest);
      AppendKeepsInv(l, s, last, LastClock(start, rest));
      AppendKeepsLines(l, s, last);
      assert rest + [last] == es;
    }
  }

  /** Over every run with a clock that never runs backward: the files in creation order hold exactly the
      appended lines; their creation seconds, hence their names, strictly increase; and to no file more than
      checkEveryN appends are made after its day is over. */
  lemma EveryRun(l: Limits, start: int, es: seq<Entry>)
    requires start > 0 && Monotone(start, es)
    ensures var s := AppendAll(l, Initial(start), es);
            AllEntries(s.files) == es
            && CreationIncreases(s.files)
            && (forall i :: 0 <= i < |s.files| ==> LateBounded(l, s.files[i]))
  {
    hide Append, AppendAll, Initial, AllEntries;
    RunKeepsInv(l, start, es);
  }

  // ---------- when a new file is opened ----------

  /** What one append does.  The line goes to the open file.  A new file is opened exactly when the clock has passed the
      creation of the open one and either it holds more than rollSize bytes now, or checkEveryN appends have been made
      without a look at the clock and the day is another one; the new file is empty.  The counter starts again with each
      look; the file is flushed when that finds the same day and more than flushInterval seconds since the last time. */
  predicate OneAppend(l: Limits, s: State, e: Entry, u: State)
    requires s.files != []
  {
    var n := |s.files| - 1;
    var open := s.files[n];
    var full := |Bytes(open.entries + [e])| > l.rollSize;
    var look := !full && s.count + 1 >= l.checkEveryN;
    var another := e.now / 86400 != open.created / 86400;
    var opens := e.rollNow > open.created && (full || (look && another));
    |u.files| == |s.files| + (if opens then 1 else 0)
    && u.files[..n] == s.files[..n] && u.files[n] == FileRecord(open.created, open.entries + [e])
    && (opens ==> u.files[n + 1] == FileRecord(e.rollNow, []))
    && u.count == (if full then s.count else if look then 0 else s.count + 1)
    && u.lastFlush == (if opens then e.rollNow
                       else if look && !another && e.now - s.lastFlush > l.flushInterval then e.now
                       else s.lastFlush)
  }

  lemma AppendExactly(l: Limits, s: State, e: Entry, clock: int)
    requires Inv(l, s, clock) && clock <= e.now <= e.rollNow
    ensures OneAppend(l, s, e, Append(l, s, e))
  {
    hide DayStart, Bytes, Late, LateBounded, CreationIncreases;
    SameDayExactly(e.now, s.lastRoll);
  }

  /** Entry `k` of a file that grew too large with it came in the second the file was created, or earlier. */
  predicate SizeAt(l: Limits, f: FileRecord, k: nat)
    requires k < |f.entries|
  {
    |Bytes(f.entries[..k + 1])| > l.rollSize ==> f.entries[k].rollNow <= f.created
  }

  /** No file is written to any more once it is too large and a later second has come. */
  predicate SizeRespected(l: Limits, f: FileRecord) {
    forall k :: 0 <= k < |f.entries| - 1 ==> SizeAt(l, f, k)
  }

  ghost predicate SizesKept(l: Limits, files: seq<FileRecord>) {
    files != [] && (forall i :: 0 <= i < |files| ==> SizeRespected(l, files[i]))
    && var open := files[|files| - 1];
       open.entries != [] ==> SizeAt(l, open, |open.entries| - 1)
  }

  lemma OneMore(l: Limits, f: FileRecord, e: Entry)
    requires SizeRespected(l, f) && (f.entries != [] ==> SizeAt(l, f, |f.entries| - 1))
    ensures SizeRespected(l, FileRecord(f.created, f.entries + [e]))
  {
    hide Bytes;
    var g := FileRecord(f.created, f.entries + [e]);
    forall k | 0 <= k < |g.entries| - 1 ensures SizeAt(l, g, k) {
      assert g.entries[..k + 1] == f.entries[..k + 1];
      assert SizeAt(l, f, k);
    }
  }

  lemma AppendKeepsSizes(l: Limits, s: State, e: Entry, clock: int)
    requires Inv(l, s, clock) && clock <= e.now <= e.rollNow && SizesKept(l, s.files)
    ensures SizesKept(l, Append(l, s, e).files)
  {
    hide Append, Inv, Bytes;
    InvHasFile(l, s, clock);
    var u, n := Append(l, s, e), |s.files| - 1;
    AppendExactly(l, s, e, clock);
    OneMore(l, s.files[n], e);
    assert u.files[n].entries[..|u.files[n].entries|] == s.files[n].entries + [e];
    forall i | 0 <= i < |u.files| ensures SizeRespected(l, u.files[i]) {
      if i < n { assert u.files[i] == u.files[..n][i] == s.files[i]; }
    }
  }

  lemma InvHasFile(l: Limits, s: State, clock: int)
    requires Inv(l, s, clock)
    ensures s.files != []
  {
  }

  lemma {:induction false} RunKeepsSizes(l: Limits, start: int, es: seq<Entry>)
    requires start > 0 && Monotone(start, es)
    ensures SizesKept(l, AppendAll(l, Initial(start), es).files)
  {
    hide Append, Inv, AllEntries, Bytes;
    if es == [] {
      assert Initial(start).files == [FileRecord(start, [])];
    } else {
      var rest := es[..|es| - 1];
      RunKeepsInv(l, start, rest);
      RunKeepsSizes(l, start, rest);
      AppendKeepsSizes(l, AppendAll(l, Initial(start), rest), es[|es| - 1], LastClock(start, rest));
    }
  }

  /** Over every run: no file is written to any more once it holds more than rollSize bytes and a later second than its
      creation has come. */
  lemma EveryFileSize(l: Limits, start: int, es: seq<Entry>, i: nat, k: nat)
    requires start > 0 && Monotone(start, es)
    requires i < |AppendAll(l, Initial(start), es).files|
    requires k + 1 < |AppendAll(l, Initial(start), es).files[i].entries|
    ensures var f := AppendAll(l, Initial(start), es).files[i];
            |Bytes(f.entries[..k + 1])| > l.rollSize ==> f.entries[k].rollNow <= f.created
  {
    hide AppendAll, Initial, Bytes;
    RunKeepsSizes(l, start, es);
    assert SizeAt(l, AppendAll(l, Initial(start), es).files[i], k);
  }

  /** The bytes of all files in creation order. */
  function Stream(files: seq<FileRecord>): string {
    Bytes(AllEntries(files))
  }

  lemma AppendExtendsStream(l: Limits, s: State, e: Entry)
    requires s.files != []
    ensures Stream(Append(l, s, e).files) == Stream(s.files) + e.line
  {
    hide Append;
    AppendKeepsLines(l, s, e);
    assert (AllEntries(s.files) + [e])[..|AllEntries(s.files)|] == AllEntries(s.files);
  }

  // ---------- the classes ----------

  /** AppendFile: one open file.  `script` holds the byte counts the next calls of fwrite accept. */
  class AppendFile {
    var text: string
    var writtenBytes: int

    constructor ()
      ensures text == "" && writtenBytes == 0
    {
      text, writtenBytes := "", 0;
    }

    /** fwrite: takes as many bytes as the script allows, all of them once the script is used up. */
    method Write(line: string, script: seq<nat>) returns (n: nat, rest: seq<nat>)
      modifies this`text
      ensures n <= |line| && text == old(text) + line[..n]
      ensures if script == [] then n == |line| && rest == [] else rest == script[1..]
    {
      n, rest := |line|, [];
      if script != [] {
        n, rest := if script[0] < |line| then script[0] else |line|, script[1..];
      }
      text := text + line[..n];
    }

    /** Whatever fwrite accepts at a time, the whole line is written, once. */
    method Append(line: string, script: seq<nat>)
      modifies this
      ensures text == old(text) + line && writtenBytes == old(writtenBytes) + |line|
    {
      var n, rest := Write(line, script);
      var remain := |line| - n;
      while remain > 0
        invariant 0 <= n <= |line| && remain == |line| - n
        invariant text == old(text) + line[..n] && writtenBytes == old(writtenBytes)
        decreases |rest|, remain
      {
        var x;
        x, rest := Write(line[n..], rest);
        assert line[..n] + line[n..][..x] == line[..n + x];
        n := n + x;
        remain := remain - x;
      }
      writtenBytes := writtenBytes + |line|;
    }
  }

  /** LogFile, kept in step with the specification: `state` is what the run of appends so far leaves. */
  class LogFile {
    const limits: Limits
    var count: int
    var startOfPeriod: int
    var lastRoll: int
    var lastFlush: int
    var file: AppendFile
    ghost var state: State

    ghost predicate Valid()
      reads this, file
    {
      state.files != []
      && state.count == count && state.startOfPeriod == startOfPeriod
      && state.lastRoll == lastRoll && state.lastFlush == lastFlush
      && file.text == Bytes(state.files[|state.files| - 1].entries) && file.writtenBytes == |file.text|
    }

    constructor (rollSize: int, flushInterval: int, checkEveryN: int, now: int)
      requires now > 0
      ensures Valid() && fresh(file)
      ensures limits == Limits(rollSize, flushInterval, checkEveryN) && state == Initial(now)
    {
      limits := Limits(rollSize, flushInterval, checkEveryN);
      count, startOfPeriod, lastRoll, lastFlush := 0, DayStart(now), now, now;
      file := new AppendFile();
      state := Initial(now);
    }

    method Roll(now: int) returns (rolled: bool)
      requires Valid()
      modifies this
      ensures Valid() && (file == old(file) || fresh(file))
      ensures state == RollFile(old(state), now) && rolled == (now > old(lastRoll))
    {
      rolled := now > lastRoll;
      if rolled {
        lastRoll, lastFlush, startOfPeriod := now, now, DayStart(now);
        file := new AppendFile();
        state := RollFile(state, now);
      }
    }

    method AppendLine(line: string, now: int, rollNow: int, script: seq<nat>)
      requires Valid()
      modifies this, file
      ensures Valid() && (file == old(file) || fresh(file))
      ensures state == Append(limits, old(state), Entry(line, now, rollNow))
    {
      ghost var e := Entry(line, now, rollNow);
      file.Append(line, script);
      state := Written(state, e);
      assert Valid() by {
        var entries := old(state).files[|state.files| - 1].entries;
        assert (entries + [e])[..|entries|] == entries;
      }
      if file.writtenBytes > limits.rollSize {
        var _ := Roll(rollNow);
      } else {
        count := count + 1;
        state := state.(count := count);
        if count >= limits.checkEveryN {
          count := 0;
          state := state.(count := 0);
          if DayStart(now) != startOfPeriod {
            var _ := Roll(rollNow);
          } else if now - lastFlush > limits.flushInterval {
            lastFlush := now;
            state := state.(lastFlush := now);
          }
        }
      }
    }
  }
}
