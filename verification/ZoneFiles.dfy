/**
readTimeZoneFile of glacier/base/timezone.cc: the cursor over the bytes of a zone file, the tables it
builds, what is left behind when the file is short or bad, and the files that read back as written.
*/
module ZoneFiles {
  import opened CInt
  import opened TimeZones
  import opened Sequences

  type Byte = x: int | 0 <= x < 256

  // ---------- the layout ----------

  const HEAD: seq<Byte> := [0x54, 0x5A, 0x69, 0x66]
  const TABLES: nat := 44

  function ByteAt(b: seq<Byte>, p: nat): Byte {
    if p < |b| then b[p] else 0
  }

  /** Four bytes, most significant first, as a signed number. */
  function Int32At(b: seq<Byte>, p: nat): (n: int)
    ensures Int32(n)
  {
    var u := ((ByteAt(b, p) * 256 + ByteAt(b, p + 1)) * 256 + ByteAt(b, p + 2)) * 256 + ByteAt(b, p + 3);
    if u < 0x8000_0000 then u else u - 0x1_0000_0000
  }

  function TimeCnt(b: seq<Byte>): int { Int32At(b, 32) }

  function TypeCnt(b: seq<Byte>): int { Int32At(b, 36) }

  function CharCnt(b: seq<Byte>): int { Int32At(b, 40) }

  function Times(b: seq<Byte>): nat { if TimeCnt(b) < 0 then 0 else TimeCnt(b) }

  function Types(b: seq<Byte>): nat { if TypeCnt(b) < 0 then 0 else TypeCnt(b) }

  function IndexAt(b: seq<Byte>, i: nat): Byte { ByteAt(b, TABLES + 4 * Times(b) + i) }

  function RuleAt(b: seq<Byte>, j: nat): Localtime {
    var p := TABLES + 5 * Times(b) + 6 * j;
    Localtime(Int32At(b, p), ByteAt(b, p + 4) != 0, ByteAt(b, p + 5))
  }

  function TransitionAt(b: seq<Byte>, i: nat): Transition {
    var t := Int32At(b, TABLES + 4 * i);
    Transition(t, t + RuleAt(b, IndexAt(b, i)).gmtOffset, IndexAt(b, i))
  }

  function Rules(b: seq<Byte>): (r: seq<Localtime>)
    ensures |r| == Types(b)
  {
    seq(Types(b), j requires j >= 0 => RuleAt(b, j))
  }

  function Transitions(b: seq<Byte>): (r: seq<Transition>)
    ensures |r| == Times(b)
  {
    seq(Times(b), i requires i >= 0 => TransitionAt(b, i))
  }

  function TablesEnd(b: seq<Byte>): nat { TABLES + 5 * Times(b) + 6 * Types(b) }

  /** The transitions name rules that the file has. */
  predicate IndexesOk(b: seq<Byte>) {
    forall i :: 0 <= i < Times(b) ==> IndexAt(b, i) < Types(b)
  }

  /** How many rules can be read: none when the header is bad or the table of times is not all there, and
      otherwise as many as the file holds whole. */
  function RulesHeld(b: seq<Byte>): (r: nat)
    ensures r <= Types(b)
  {
    var p := TABLES + 5 * Times(b);
    if |b| < p || b[..4] != HEAD || TimeCnt(b) < 0 then 0
    else if (|b| - p) / 6 < Types(b) then (|b| - p) / 6
    else Types(b)
  }

  /** A file that holds the whole of its tables. */
  predicate HoldsTables(b: seq<Byte>) {
    TABLES <= |b| && b[..4] == HEAD && TimeCnt(b) >= 0 && TablesEnd(b) <= |b|
  }

  // ---------- the reader ----------

  /** How reading ends: at the end, at an exception that is caught, or outside what C++ defines. */
  datatype Ending = Whole | Caught | Undefined

  class File {
    const bytes: seq<Byte>
    var pos: nat

    constructor (bytes: seq<Byte>)
      ensures this.bytes == bytes && pos == 0
    {
      this.bytes, pos := bytes, 0;
    }

    method ReadBytes(n: nat) returns (r: Option<seq<Byte>>)
      requires pos <= |bytes|
      modifies this
      ensures r.Some? <==> old(pos) + n <= |bytes|
      ensures r.Some? ==> r.value == bytes[old(pos)..old(pos) + n] && pos == old(pos) + n
      ensures r == None ==> pos == |bytes|
    {
      if |bytes| - pos < n {
        pos := |bytes|;
        return None;
      }
      r := Some(bytes[pos..pos + n]);
      pos := pos + n;
    }

    method ReadInt32() returns (r: Option<int>)
      requires pos <= |bytes|
      modifies this
      ensures r.Some? <==> old(pos) + 4 <= |bytes|
      ensures r.Some? ==> r.value == Int32At(bytes, old(pos)) && pos == old(pos) + 4
      ensures r == None ==> pos == |bytes|
    {
      var x := ReadBytes(4);
      if x == None { return None; }
      r := Some(Int32At(x.value, 0));
    }

    method ReadUInt8() returns (r: Option<Byte>)
      requires pos <= |bytes|
      modifies this
      ensures r.Some? <==> old(pos) + 1 <= |bytes|
      ensures r.Some? ==> r.value == ByteAt(bytes, old(pos)) && pos == old(pos) + 1
      ensures r == None ==> pos == |bytes|
    {
      var x := ReadBytes(1);
      if x == None { return None; }
      r := Some(x.value[0]);
    }
  }

  /** The fixed part: None when an exception ends it, else the three counts that are used. */
  method ReadHeader(f: File) returns (r: Option<(int, int, int)>)
    requires f.pos == 0
    modifies f
    ensures f.pos <= |f.bytes|
    ensures r.Some? <==> TABLES <= |f.bytes| && f.bytes[..4] == HEAD
    ensures r.Some? ==> f.pos == TABLES && r.value == (TimeCnt(f.bytes), TypeCnt(f.bytes), CharCnt(f.bytes))
  {
    var head := f.ReadBytes(4);
    if head == None || head.value != HEAD { return None; }
    assert f.bytes[0..4] == f.bytes[..4];
    var version := f.ReadBytes(1);
    if version == None { return None; }
    var rest := f.ReadBytes(15);
    if rest == None { return None; }
    var counts := [];
    while |counts| < 6
      invariant |counts| <= 6 && f.pos == 20 + 4 * |counts| && f.pos <= |f.bytes|
      invariant f.bytes[..4] == HEAD
      invariant forall k :: 0 <= k < |counts| ==> counts[k] == Int32At(f.bytes, 20 + 4 * k)
    {
      var n := f.ReadInt32();
      if n == None { return None; }
      counts := counts + [n.value];
    }
    return Some((counts[3], counts[4], counts[5]));
  }

  method ReadTimes(f: File, n: int) returns (r: Option<seq<int>>)
    requires f.pos <= |f.bytes|
    modifies f
    ensures f.pos <= |f.bytes|
    ensures r.Some? <==> n <= 0 || old(f.pos) + 4 * n <= |f.bytes|
    ensures r.Some? ==> |r.value| == (if n < 0 then 0 else n) && f.pos == old(f.pos) + 4 * |r.value|
                        && forall i :: 0 <= i < |r.value| ==> r.value[i] == Int32At(f.bytes, old(f.pos) + 4 * i)
  {
    var trans := [];
    while |trans| < n
      invariant f.pos == old(f.pos) + 4 * |trans| && f.pos <= |f.bytes| && (|trans| <= n || |trans| == 0)
      invariant forall i :: 0 <= i < |trans| ==> trans[i] == Int32At(f.bytes, old(f.pos) + 4 * i)
    {
      var x := f.ReadInt32();
      if x == None { return None; }
      trans := trans + [x.value];
    }
    return Some(trans);
  }

  method ReadIndexes(f: File, n: int) returns (r: Option<seq<Byte>>)
    requires f.pos <= |f.bytes|
    modifies f
    ensures f.pos <= |f.bytes|
    ensures r.Some? <==> n <= 0 || old(f.pos) + n <= |f.bytes|
    ensures r.Some? ==> |r.value| == (if n < 0 then 0 else n) && f.pos == old(f.pos) + |r.value|
                        && forall i :: 0 <= i < |r.value| ==> r.value[i] == ByteAt(f.bytes, old(f.pos) + i)
  {
    var localtimes := [];
    while |localtimes| < n
      invariant f.pos == old(f.pos) + |localtimes| && f.pos <= |f.bytes| && (|localtimes| <= n || |localtimes| == 0)
      invariant forall i :: 0 <= i < |localtimes| ==> localtimes[i] == ByteAt(f.bytes, old(f.pos) + i)
    {
      var x := f.ReadUInt8();
      if x == None { return None; }
      localtimes := localtimes + [x.value];
    }
    return Some(localtimes);
  }

  /** The rules that could be read stay, also when the file ends before the last one. */
  method ReadRules(f: File, n: int) returns (whole: bool, rules: seq<Localtime>)
    requires f.pos <= |f.bytes| && f.pos == TABLES + 5 * Times(f.bytes) && n == TypeCnt(f.bytes)
    requires f.bytes[..4] == HEAD && TimeCnt(f.bytes) >= 0
    modifies f
    ensures f.pos <= |f.bytes|
    ensures whole <==> TablesEnd(f.bytes) <= |f.bytes|
    ensures rules == Rules(f.bytes)[..RulesHeld(f.bytes)]
    ensures whole ==> rules == Rules(f.bytes) && f.pos == TablesEnd(f.bytes)
  {
    hide Int32At;
    rules := [];
    while |rules| < n
      invariant f.pos == old(f.pos) + 6 * |rules| && f.pos <= |f.bytes| && |rules| <= Types(f.bytes)
      invariant rules == Rules(f.bytes)[..|rules|]
    {
      var gmtoff := f.ReadInt32();
      if gmtoff == None { return false, rules; }
      var isdst := f.ReadUInt8();
      if isdst == None { return false, rules; }
      var abbrind := f.ReadUInt8();
      if abbrind == None { return false, rules; }
      rules := rules + [Localtime(gmtoff.value, isdst.value != 0, abbrind.value)];
    }
    return true, rules;
  }

  /** The transitions, up to the first that names a rule the file does not have. */
  method BuildTransitions(ghost b: seq<Byte>, trans: seq<int>, localtimes: seq<Byte>, rules: seq<Localtime>)
    returns (ok: bool, transitions: seq<Transition>)
    requires |trans| == |localtimes| == Times(b) && rules == Rules(b)
    requires forall i :: 0 <= i < |trans| ==> trans[i] == Int32At(b, TABLES + 4 * i) && localtimes[i] == IndexAt(b, i)
    ensures ok <==> IndexesOk(b)
    ensures ok ==> transitions == Transitions(b)
  {
    transitions := [];
    while |transitions| < |trans|
      invariant |transitions| <= |trans| && transitions == Transitions(b)[..|transitions|]
      invariant forall i :: 0 <= i < |transitions| ==> IndexAt(b, i) < Types(b)
    {
      var i := |transitions|;
      var localIdx := localtimes[i];
      if localIdx >= |rules| { return false, transitions; }
      transitions := transitions + [Transition(trans[i], trans[i] + rules[localIdx].gmtOffset, localIdx)];
    }
    return true, transitions;
  }

  /** Everything the reader wants is there, and the names fit on the stack, where readBytes puts them. */
  predicate WholeFile(b: seq<Byte>, stack: nat) {
    HoldsTables(b) && IndexesOk(b) && 0 <= CharCnt(b) <= stack && TablesEnd(b) + CharCnt(b) <= |b|
  }

  /** Outside what C++ defines: a transition names a missing rule, or the length of the names is negative or too
      much for the stack. */
  predicate UndefinedFile(b: seq<Byte>, stack: nat) {
    HoldsTables(b) && (!IndexesOk(b) || CharCnt(b) < 0 || CharCnt(b) > stack)
  }

  /** What a file leaves behind that is not outside what C++ defines. */
  function Left(b: seq<Byte>): Zone
  {
    Zone(if HoldsTables(b) then Transitions(b) else [], Rules(b)[..RulesHeld(b)])
  }

  /** How many characters of names are read: none unless the file is read to its end. */
  function NamesRead(b: seq<Byte>, stack: nat): nat {
    if WholeFile(b, stack) then CharCnt(b) else 0
  }

  /**
  readTimeZoneFile, which returns true for every file that can be opened, however reading it ends: whole, outside
  what C++ defines, or at an exception that is caught.  Then the transitions are all there or none is, and the
  rules are those the file holds.  `stack` bounds the buffer of readBytes.
  */
  method ReadTimeZoneFile(valid: bool, bytes: seq<Byte>, stack: nat)
    returns (ok: bool, ending: Ending, z: Zone, abbreviation: seq<Byte>)
    requires stack >= 15
    ensures ok == valid
    ensures valid ==> (ending == Whole <==> WholeFile(bytes, stack))
    ensures valid ==> (ending == Undefined <==> UndefinedFile(bytes, stack))
    ensures valid && ending != Undefined ==> z.localtimes == Rules(bytes)[..RulesHeld(bytes)]
    ensures valid && ending != Undefined ==> z.transitions == if HoldsTables(bytes) then Transitions(bytes) else []
    ensures valid && ending != Undefined ==> z == Left(bytes)
    ensures valid && ending == Whole ==>
              z.localtimes == Rules(bytes)
              && abbreviation == bytes[TablesEnd(bytes)..TablesEnd(bytes) + CharCnt(bytes)]
    ensures valid && ending != Undefined ==> |abbreviation| == NamesRead(bytes, stack)
    ensures !valid ==> ending == Caught && z == Zone([], [])
  {
    hide Int32At, Rules, Transitions;
    ok, ending, z, abbreviation := valid, Caught, Zone([], []), [];
    if !valid { return; }
    var f := new File(bytes);
    var counts := ReadHeader(f);
    if counts == None { return; }
    var (timecnt, typecnt, charcnt) := counts.value;
    if timecnt < 0 { return; }
    var trans := ReadTimes(f, timecnt);
    if trans == None { return; }
    var localtimes := ReadIndexes(f, timecnt);
    if localtimes == None { return; }
    var whole, rules := ReadRules(f, typecnt);
    z := Zone([], rules);
    if !whole { return; }
    var built, transitions := BuildTransitions(bytes, trans.value, localtimes.value, rules);
    if !built {
      ending := Undefined;
      return;
    }
    z := Zone(transitions, rules);
    if charcnt < 0 || charcnt > stack {
      ending := Undefined;
      return;
    }
    var names := f.ReadBytes(charcnt);
    if names == None { return; }
    ending, abbreviation := Whole, names.value;
  }

  // ---------- the layout in numbers ----------

  /** The header: 44 bytes that begin with TZif, and a number of transitions that is not negative. */
  predicate GoodHeader(b: seq<Byte>) {
    |b| >= 44 && b[0] == 0x54 && b[1] == 0x5A && b[2] == 0x69 && b[3] == 0x66 && TimeCnt(b) >= 0
  }

  lemma GoodHeaderIs(b: seq<Byte>)
    ensures GoodHeader(b) <==> TABLES <= |b| && b[..4] == HEAD && TimeCnt(b) >= 0
  {
    hide Int32At;
    if |b| >= 4 { assert b[..4] == [b[0], b[1], b[2], b[3]]; }
  }

  /** A file is read whole exactly when it has a good header, five bytes for each transition and six for each rule,
      names of a length from 0 to the stack's limit, and no transition that names a rule it does not have; and it is
      outside what C++ defines exactly when the tables are there but an index, or the length of the names, is not
      so. */
  lemma FileExactly(b: seq<Byte>, stack: nat)
    ensures var y := if TypeCnt(b) < 0 then 0 else TypeCnt(b);
            var tables := GoodHeader(b) && |b| >= 44 + 5 * TimeCnt(b) + 6 * y;
            var indexes := forall k: nat :: 44 + 4 * TimeCnt(b) <= k < 44 + 5 * TimeCnt(b) ==> ByteAt(b, k) < y;
            (WholeFile(b, stack) <==> tables && indexes && 0 <= CharCnt(b) <= stack
                                      && |b| >= 44 + 5 * TimeCnt(b) + 6 * y + CharCnt(b))
            && (UndefinedFile(b, stack) <==> tables && (!indexes || CharCnt(b) < 0 || CharCnt(b) > stack))
  {
    hide Int32At;
    GoodHeaderIs(b);
    if GoodHeader(b) {
      var n := Times(b);
      assert forall i :: 0 <= i < n ==> IndexAt(b, i) == ByteAt(b, 44 + 4 * n + i);
      if IndexesOk(b) {
        forall k: nat | 44 + 4 * n <= k < 44 + 5 * n ensures ByteAt(b, k) < Types(b) {
          assert IndexAt(b, k - 44 - 4 * n) < Types(b);
        }
      }
    }
  }

  /** The rules that can be read: none behind a bad header or a table of times that is cut off, otherwise as many as the
      file holds whole, and not more than it says. */
  lemma RulesHeldExactly(b: seq<Byte>)
    ensures var y, r := if TypeCnt(b) < 0 then 0 else TypeCnt(b), RulesHeld(b);
            if !GoodHeader(b) || |b| < 44 + 5 * TimeCnt(b) then r == 0
            else r <= y && 44 + 5 * TimeCnt(b) + 6 * r <= |b|
                 && (r == y || 44 + 5 * TimeCnt(b) + 6 * (r + 1) > |b|)
  {
    hide Int32At;
    GoodHeaderIs(b);
  }

  /** A file of one transition and two rules, with two characters of names. */
  const EXAMPLE: seq<Byte> :=
    [0x54, 0x5A, 0x69, 0x66] + seq(28, _ => 0)
    + [0, 0, 0, 1] + [0, 0, 0, 2] + [0, 0, 0, 2] + [0x01, 0x02, 0x03, 0x04] + [1]
    + [0, 0, 0x0E, 0x10, 0, 0] + [0xFF, 0xFF, 0xB9, 0xB0, 1, 1] + [0x41, 0x42]

  /** Big-endian times and offsets, the negative one included; the rule number behind the times; the rules with offset,
      flag and index; the local time derived from the rule after the transition. */
  lemma ExampleIsRead(stack: nat)
    requires stack >= 2
    ensures WholeFile(EXAMPLE, stack)
    ensures Left(EXAMPLE) == Zone([Transition(0x01020304, 0x01020304 - 18000, 1)],
                                  [Localtime(3600, false, 0), Localtime(-18000, true, 1)])
    ensures EXAMPLE[TablesEnd(EXAMPLE)..TablesEnd(EXAMPLE) + CharCnt(EXAMPLE)] == [0x41, 0x42]
  {
    var b := EXAMPLE;
    assert |b| == 63 && b[..4] == HEAD;
    assert TimeCnt(b) == 1 && TypeCnt(b) == 2 && CharCnt(b) == 2;
    assert IndexAt(b, 0) == 1 && Int32At(b, 44) == 0x01020304;
    assert RuleAt(b, 0) == Localtime(3600, false, 0) && RuleAt(b, 1) == Localtime(-18000, true, 1);
    assert TransitionAt(b, 0) == Transition(0x01020304, 0x01020304 - 18000, 1);
    assert Transitions(b) == [TransitionAt(b, 0)] && Rules(b) == [RuleAt(b, 0), RuleAt(b, 1)];
  }

  /** findLocaltime has a rule to give exactly when the first rule was read, whole file or not. */
  lemma LeftIsIndexedExactly(b: seq<Byte>, stack: nat)
    requires !UndefinedFile(b, stack)
    ensures Indexed(Left(b)) <==> RulesHeld(b) > 0
  {
    hide Int32At;
    if HoldsTables(b) {
      assert RulesHeld(b) == Types(b);
      forall tr | tr in Transitions(b) ensures 0 <= tr.localtimeIdx < Types(b) {
        var i :| 0 <= i < Times(b) && Transitions(b)[i] == tr;
        assert IndexAt(b, i) < Types(b);
      }
    }
  }

  /** A file of the right head that says it has no rules: true is returned, and findLocaltime has no rule to
      give. */
  lemma NoRules(stack: nat)
    ensures var b := HEAD + seq(40, _ => 0);
            WholeFile(b, stack) && RulesHeld(b) == 0 && !Indexed(Left(b))
  {
    var b: seq<Byte> := HEAD + seq(40, _ => 0);
    assert TimeCnt(b) == 0 && TypeCnt(b) == 0 && CharCnt(b) == 0;
  }

  /** The zone a file leaves can be converted with: at every instant there is a rule, and it points into the
      names. */
  ghost predicate Converts(b: seq<Byte>, stack: nat)
  {
    Indexed(Left(b)) && forall t: int :: Named(Left(b), t, NamesRead(b, stack))
  }

  /** Whatever was read, every instant can be converted exactly when the first rule was read and no rule ever in
      force points behind the names that were read. */
  lemma ConvertsExactly(b: seq<Byte>, stack: nat)
    requires !UndefinedFile(b, stack) && Increasing(Left(b).transitions, true)
    ensures Converts(b, stack)
            <==> RulesHeld(b) > 0 && Indexed(Left(b)) && RulesNamed(Left(b), NamesRead(b, stack))
  {
    hide Int32At, Named, RulesNamed, Left;
    LeftIsIndexedExactly(b, stack);
    if Indexed(Left(b)) { NamedExactly(Left(b), NamesRead(b, stack)); }
  }

  /** A file cut off before its names can be converted with exactly when all rules ever in force have index zero. */
  lemma CutOffExactly(b: seq<Byte>, stack: nat)
    requires !UndefinedFile(b, stack) && !WholeFile(b, stack) && RulesHeld(b) > 0
    requires Increasing(Left(b).transitions, true)
    ensures Indexed(Left(b)) && (Converts(b, stack) <==> RulesNamed(Left(b), 0))
  {
    hide Int32At, Named, RulesNamed, Left;
    LeftIsIndexedExactly(b, stack);
    ConvertsExactly(b, stack);
  }

  /** Fifty bytes: no transitions, no names, and one rule that points at the sixth character of them. */
  const BEHIND_THE_NAMES: seq<Byte> := HEAD + seq(32, _ => 0) + [0, 0, 0, 1] + [0, 0, 0, 0] + [0, 0, 0, 0, 0, 5]

  /** Such a file is read whole, and no instant can be converted. */
  lemma BehindTheNames(stack: nat, t: int)
    ensures WholeFile(BEHIND_THE_NAMES, stack) && RulesHeld(BEHIND_THE_NAMES) == 1
    ensures NamesRead(BEHIND_THE_NAMES, stack) == 0 && Indexed(Left(BEHIND_THE_NAMES))
    ensures !Named(Left(BEHIND_THE_NAMES), t, 0)
  {
    var b := BEHIND_THE_NAMES;
    assert |b| == 50 && b[..4] == HEAD;
    assert TimeCnt(b) == 0 && TypeCnt(b) == 1 && CharCnt(b) == 0;
    assert RuleAt(b, 0) == Localtime(0, false, 5);
    LeftIsIndexedExactly(b, stack);
  }

  /** Whole tables with a rule are as the lemmas about local time want them. */
  lemma WholeTablesAreWellFormed(b: seq<Byte>)
    requires HoldsTables(b) && IndexesOk(b) && TypeCnt(b) > 0
    ensures WellFormed(Zone(Transitions(b), Rules(b)))
  {
    hide Int32At;
    var z := Zone(Transitions(b), Rules(b));
    forall tr | tr in z.transitions ensures 0 <= tr.localtimeIdx < |z.localtimes| && Int32(tr.gmttime)
      && tr.localtime == tr.gmttime + z.localtimes[tr.localtimeIdx].gmtOffset
    {
      var i :| 0 <= i < |z.transitions| && z.transitions[i] == tr;
      assert IndexAt(b, i) < Types(b);
    }
  }

  // ---------- writing ----------

  function Put32(n: int): (r: seq<Byte>)
    requires Int32(n)
    ensures |r| == 4
  {
    var u := if n < 0 then n + 0x1_0000_0000 else n;
    [u / 0x100_0000, u / 0x1_0000 % 256, u / 256 % 256, u % 256]
  }

  function PutTimes(ts: seq<Transition>): (r: seq<Byte>)
    requires forall i :: 0 <= i < |ts| ==> Int32(ts[i].gmttime)
    ensures |r| == 4 * |ts|
  {
    if ts == [] then [] else Put32(ts[0].gmttime) + PutTimes(ts[1..])
  }

  function PutIndexes(ts: seq<Transition>): (r: seq<Byte>)
    requires forall i :: 0 <= i < |ts| ==> 0 <= ts[i].localtimeIdx < 256
    ensures |r| == |ts| && forall i :: 0 <= i < |ts| ==> r[i] == ts[i].localtimeIdx
  {
    if ts == [] then [] else [ts[0].localtimeIdx] + PutIndexes(ts[1..])
  }

  predicate RuleFits(r: Localtime) {
    Int32(r.gmtOffset) && 0 <= r.arrbIdx < 256
  }

  function PutRule(r: Localtime): (b: seq<Byte>)
    requires RuleFits(r)
    ensures |b| == 6
  {
    Put32(r.gmtOffset) + [if r.isDst then 1 else 0, r.arrbIdx]
  }

  function PutRules(rs: seq<Localtime>): (r: seq<Byte>)
    requires forall j :: 0 <= j < |rs| ==> RuleFits(rs[j])
    ensures |r| == 6 * |rs|
  {
    if rs == [] then [] else assert RuleFits(rs[0]); PutRule(rs[0]) + PutRules(rs[1..])
  }

  /** The zones a file has room for. */
  predicate Fits(z: Zone, names: seq<Byte>) {
    WellFormed(z) && Int32(|z.transitions|) && Int32(|z.localtimes|) && Int32(|names|)
    && (forall i :: 0 <= i < |z.transitions| ==> z.transitions[i].localtimeIdx < 256)
    && (forall j :: 0 <= j < |z.localtimes| ==> RuleFits(z.localtimes[j]))
  }

  function Header(unread: seq<Byte>, z: Zone, names: seq<Byte>): seq<Byte>
    requires |unread| == 28 && Fits(z, names)
  {
    HEAD + unread + Put32(|z.transitions|) + Put32(|z.localtimes|) + Put32(|names|)
  }

  /** A zone file; `unread` are the version and the counts that are not looked at. */
  function Write(unread: seq<Byte>, z: Zone, names: seq<Byte>): seq<Byte>
    requires |unread| == 28 && Fits(z, names)
  {
    Header(unread, z, names) + PutTimes(z.transitions) + PutIndexes(z.transitions) + PutRules(z.localtimes) + names
  }

  lemma Digits(u: int)
    ensures ((u / 0x100_0000 * 256 + u / 0x1_0000 % 256) * 256 + u / 256 % 256) * 256 + u % 256 == u
  {
    var x, y := u / 256, u / 0x1_0000;
    assert x / 256 == y && y / 256 == u / 0x100_0000;
    assert u == x * 256 + u % 256 && x == y * 256 + x % 256 && y == y / 256 * 256 + y % 256;
  }

  lemma Put32ReadsBack(n: int, b: seq<Byte>, p: nat)
    requires Int32(n) && p + 4 <= |b| && b[p..p + 4] == Put32(n)
    ensures Int32At(b, p) == n
  {
    var r, q := Put32(n), b[p..p + 4];
    Digits(if n < 0 then n + 0x1_0000_0000 else n);
    assert b[p] == q[0] && b[p + 1] == q[1] && b[p + 2] == q[2] && b[p + 3] == q[3];
  }

  lemma {:induction false} TimesReadBack(pre: seq<Byte>, ts: seq<Transition>, post: seq<Byte>, i: nat)
    requires i < |ts| && forall k :: 0 <= k < |ts| ==> Int32(ts[k].gmttime)
    ensures Int32At(pre + PutTimes(ts) + post, |pre| + 4 * i) == ts[i].gmttime
    decreases i
  {
    hide Int32At, Put32;
    var b := pre + PutTimes(ts) + post;
    var first := Put32(ts[0].gmttime);
    if i == 0 {
      assert b[|pre|..|pre| + 4] == first;
      Put32ReadsBack(ts[0].gmttime, b, |pre|);
    } else {
      assert b == (pre + first) + PutTimes(ts[1..]) + post;
      TimesReadBack(pre + first, ts[1..], post, i - 1);
    }
  }

  lemma {:induction false} RulesReadBack(pre: seq<Byte>, rs: seq<Localtime>, post: seq<Byte>, j: nat)
    requires j < |rs| && forall k :: 0 <= k < |rs| ==> RuleFits(rs[k])
    ensures var b, p := pre + PutRules(rs) + post, |pre| + 6 * j;
            Int32At(b, p) == rs[j].gmtOffset && (ByteAt(b, p + 4) != 0 <==> rs[j].isDst)
            && ByteAt(b, p + 5) == rs[j].arrbIdx
    decreases j
  {
    hide Int32At, Put32;
    var b := pre + PutRules(rs) + post;
    assert RuleFits(rs[0]);
    var first := PutRule(rs[0]);
    if j == 0 {
      assert b[|pre|..|pre| + 4] == Put32(rs[0].gmtOffset);
      Put32ReadsBack(rs[0].gmtOffset, b, |pre|);
    } else {
      assert b == (pre + first) + PutRules(rs[1..]) + post;
      RulesReadBack(pre + first, rs[1..], post, j - 1);
    }
  }

  lemma HeaderReadsBack(unread: seq<Byte>, z: Zone, names: seq<Byte>, rest: seq<Byte>)
    requires |unread| == 28 && Fits(z, names)
    ensures var b := Header(unread, z, names) + rest;
            |Header(unread, z, names)| == TABLES && b[..4] == HEAD
            && TimeCnt(b) == |z.transitions| && TypeCnt(b) == |z.localtimes| && CharCnt(b) == |names|
  {
    hide Int32At, Put32;
    var b := Header(unread, z, names) + rest;
    assert b[32..36] == Put32(|z.transitions|);
    assert b[36..40] == Put32(|z.localtimes|);
    assert b[40..44] == Put32(|names|);
    Put32ReadsBack(|z.transitions|, b, 32);
    Put32ReadsBack(|z.localtimes|, b, 36);
    Put32ReadsBack(|names|, b, 40);
  }

  lemma RulesAllBack(b: seq<Byte>, pre: seq<Byte>, rs: seq<Localtime>, post: seq<Byte>)
    requires forall k :: 0 <= k < |rs| ==> RuleFits(rs[k])
    requires b == pre + PutRules(rs) + post && |pre| == TABLES + 5 * Times(b) && |rs| == Types(b)
    ensures Rules(b) == rs
  {
    hide Int32At, PutRules, Times, Types;
    forall j | 0 <= j < |rs| ensures Rules(b)[j] == rs[j] { RulesReadBack(pre, rs, post, j); }
  }

  lemma TransitionBack(b: seq<Byte>, pre: seq<Byte>, z: Zone, names: seq<Byte>, post: seq<Byte>, i: nat)
    requires Fits(z, names) && b == pre + PutTimes(z.transitions) + (PutIndexes(z.transitions) + post)
    requires |pre| == TABLES && |z.transitions| == Times(b) && Rules(b) == z.localtimes && i < |z.transitions|
    ensures TransitionAt(b, i) == z.transitions[i] && IndexAt(b, i) < Types(b)
  {
    hide Int32At, PutTimes, Times, RuleAt;
    var ts, xs := z.transitions, PutIndexes(z.transitions);
    assert ts[i] in ts;
    assert b[TABLES + 4 * |ts| + i] == xs[i];
    TimesReadBack(pre, ts, xs + post, i);
    assert Rules(b)[ts[i].localtimeIdx] == RuleAt(b, ts[i].localtimeIdx);
  }

  lemma TransitionsAllBack(b: seq<Byte>, pre: seq<Byte>, z: Zone, names: seq<Byte>, post: seq<Byte>)
    requires Fits(z, names) && b == pre + PutTimes(z.transitions) + (PutIndexes(z.transitions) + post)
    requires |pre| == TABLES && |z.transitions| == Times(b) && Rules(b) == z.localtimes
    ensures Transitions(b) == z.transitions && IndexesOk(b)
  {
    hide Int32At, PutTimes, PutIndexes, Fits, Rules, Times, Types, TransitionAt, IndexAt;
    forall i | 0 <= i < |z.transitions|
      ensures Transitions(b)[i] == z.transitions[i] && IndexAt(b, i) < Types(b)
    {
      TransitionBack(b, pre, z, names, post, i);
    }
  }

  lemma Parts<T>(h: seq<T>, ts: seq<T>, xs: seq<T>, rs: seq<T>, names: seq<T>, rest: seq<T>)
    ensures var b, n := h + ts + xs + rs + names + rest, |h| + |ts| + |xs| + |rs|;
            b == h + (ts + xs + rs + names + rest) && b == (h + ts + xs) + rs + (names + rest)
            && b == h + ts + (xs + (rs + names + rest)) && b[n..n + |names|] == names
  {
  }

  /** Round trip: what was written is read back whole, whatever the unread bytes and whatever follows. */
  lemma WrittenReadsBack(unread: seq<Byte>, z: Zone, names: seq<Byte>, rest: seq<Byte>, stack: nat)
    requires |unread| == 28 && Fits(z, names) && |names| <= stack
    ensures var b := Write(unread, z, names) + rest;
            WholeFile(b, stack) && Transitions(b) == z.transitions && Rules(b) == z.localtimes
            && b[TablesEnd(b)..TablesEnd(b) + CharCnt(b)] == names
  {
    hide Int32At, Put32, Header, PutTimes, PutIndexes, PutRules, Rules, Transitions, IndexesOk;
    var h, ts := Header(unread, z, names), PutTimes(z.transitions);
    var xs, rs := PutIndexes(z.transitions), PutRules(z.localtimes);
    var b := Write(unread, z, names) + rest;
    Parts(h, ts, xs, rs, names, rest);
    HeaderReadsBack(unread, z, names, ts + xs + rs + names + rest);
    RulesAllBack(b, h + ts + xs, z.localtimes, names + rest);
    TransitionsAllBack(b, h, z, names, rs + names + rest);
  }
}
