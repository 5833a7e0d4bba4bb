/**
The time-zone rules of glacier/base/timezone.cc: the lookup of the rule in force, and
TimeZone::toLocalTime against fromLocalTime.  gmtime_r and timegm are the repository's own
toUtcTime and fromUtcTime.
*/
module TimeZones {
  import Calendar
  import opened CInt
  import opened UtcTime

  datatype Transition = Transition(gmttime: int, localtime: int, localtimeIdx: int)

  datatype Localtime = Localtime(gmtOffset: int, isDst: bool, arrbIdx: int)

  datatype Zone = Zone(transitions: seq<Transition>, localtimes: seq<Localtime>)

  /** What findLocaltime needs of a zone: a first rule, and rule numbers inside the table. */
  predicate Indexed(z: Zone) {
    z.localtimes != []
    && forall tr <- z.transitions :: 0 <= tr.localtimeIdx < |z.localtimes|
  }

  /** A zone as readTimeZoneFile builds it: 32-bit transitions and offsets, and local times that are derived. */
  predicate WellFormed(z: Zone) {
    Indexed(z)
    && (forall lt <- z.localtimes :: Int32(lt.gmtOffset))
    && (forall tr <- z.transitions ::
          Int32(tr.gmttime) && tr.localtime == tr.gmttime + z.localtimes[tr.localtimeIdx].gmtOffset)
  }

  // ---------- the lookup ----------

  /** The member Comp compares: the UTC or the local side. */
  function Key(tr: Transition, compareGmt: bool): int {
    if compareGmt then tr.gmttime else tr.localtime
  }

  /** std::lower_bound over the `len` transitions from `first`.  On any table, sorted or not, the place it
      returns lies between a transition before the key and one not before it. */
  function LowerBound(ts: seq<Transition>, key: int, compareGmt: bool, first: nat, len: nat): (r: nat)
    requires first + len <= |ts|
    ensures first <= r <= first + len
    ensures first < r ==> Key(ts[r - 1], compareGmt) < key
    ensures r < first + len ==> key <= Key(ts[r], compareGmt)
    decreases len
  {
    if len == 0 then first
    else
      var half := len / 2;
      assert half < len;
      if Key(ts[first + half], compareGmt) < key
      then LowerBound(ts, key, compareGmt, first + half + 1, len - half - 1)
      else LowerBound(ts, key, compareGmt, first, half)
  }

  /** The step back to the previous transition is always possible, so the code's assertion never fires. */
  function FindLocaltime(z: Zone, key: int, compareGmt: bool): Localtime
    requires Indexed(z)
  {
    var ts := z.transitions;
    if ts == [] || key < Key(ts[0], compareGmt) then z.localtimes[0]
    else
      var i := LowerBound(ts, key, compareGmt, 0, |ts|);
      if i < |ts| then
        var j := if key != Key(ts[i], compareGmt) then i - 1 else i;
        z.localtimes[ts[j].localtimeIdx]
      else z.localtimes[ts[|ts| - 1].localtimeIdx]
  }

  /** A linear scan back from the first `n` transitions for one not after the key; -1 when there is none. */
  function LastNotAfter(ts: seq<Transition>, key: int, compareGmt: bool, n: nat): (r: int)
    requires n <= |ts|
    ensures -1 <= r < n
    ensures r >= 0 ==> Key(ts[r], compareGmt) <= key
    ensures forall k :: r < k < n ==> key < Key(ts[k], compareGmt)
  {
    if n == 0 then -1
    else if Key(ts[n - 1], compareGmt) <= key then n - 1
    else LastNotAfter(ts, key, compareGmt, n - 1)
  }

  /** The rule after transition `i`; before the first transition it is the first of the table. */
  function Rule(z: Zone, i: int): Localtime
    requires Indexed(z) && -1 <= i < |z.transitions|
  {
    if i < 0 then z.localtimes[0] else z.localtimes[z.transitions[i].localtimeIdx]
  }

  predicate Increasing(ts: seq<Transition>, compareGmt: bool) {
    forall i, j :: 0 <= i < j < |ts| ==> Key(ts[i], compareGmt) < Key(ts[j], compareGmt)
  }

  lemma LastNotAfterIs(ts: seq<Transition>, key: int, compareGmt: bool, r: int)
    requires Increasing(ts, compareGmt) && -1 <= r < |ts|
    requires r >= 0 ==> Key(ts[r], compareGmt) <= key
    requires r + 1 < |ts| ==> key < Key(ts[r + 1], compareGmt)
    ensures LastNotAfter(ts, key, compareGmt, |ts|) == r
  {
    hide LastNotAfter;
    var found := LastNotAfter(ts, key, compareGmt, |ts|);
  }

  /** On a strictly increasing table the binary search finds the rule the linear scan finds. */
  lemma FindIsLinearScan(z: Zone, key: int, compareGmt: bool)
    requires Indexed(z) && Increasing(z.transitions, compareGmt)
    ensures FindLocaltime(z, key, compareGmt)
         == Rule(z, LastNotAfter(z.transitions, key, compareGmt, |z.transitions|))
  {
    hide LowerBound, LastNotAfter, Increasing;
    var ts := z.transitions;
    if ts == [] || key < Key(ts[0], compareGmt) {
      LastNotAfterIs(ts, key, compareGmt, -1);
    } else {
      var i := LowerBound(ts, key, compareGmt, 0, |ts|);
      var found := if i == |ts| then i - 1 else if key != Key(ts[i], compareGmt) then i - 1 else i;
      NextKey(ts, compareGmt, found);
      LastNotAfterIs(ts, key, compareGmt, found);
    }
  }

  lemma NextKey(ts: seq<Transition>, compareGmt: bool, i: int)
    requires Increasing(ts, compareGmt) && 0 <= i < |ts|
    ensures i + 1 < |ts| ==> Key(ts[i], compareGmt) < Key(ts[i + 1], compareGmt)
  {
  }

  // ---------- the conversions ----------

  function ToLocalTime(z: Zone, seconds: int): Tm
    requires Indexed(z)
  {
    var local := FindLocaltime(z, seconds, true);
    ToUtcTime(seconds + local.gmtOffset, true).(isdst := local.isDst, gmtoff := local.gmtOffset)
  }

  function FromLocalTime(z: Zone, localTm: Tm): int
    requires Indexed(z)
  {
    var seconds := FromUtcTime(localTm);
    var local := FindLocaltime(z, seconds, false);
    var tryTm := ToLocalTime(z, seconds - local.gmtOffset);
    if localTm.isdst && !tryTm.isdst && tryTm.hour == localTm.hour && tryTm.min == localTm.min
    then seconds - 3600 - local.gmtOffset
    else seconds - local.gmtOffset
  }

  // ---------- the names ----------

  /** toLocalTime points into the zone's names at the arrbIdx of the rule in force, where at most the end of the
      `n` characters may be. */
  predicate Named(z: Zone, t: int, n: nat)
    requires Indexed(z)
  {
    FindLocaltime(z, t, true).arrbIdx <= n
  }

  /** Every rule that is ever in force points into the names: the first, and the rule of each transition. */
  predicate RulesNamed(z: Zone, n: nat)
    requires Indexed(z)
  {
    z.localtimes[0].arrbIdx <= n && forall i :: 0 <= i < |z.transitions| ==> Rule(z, i).arrbIdx <= n
  }

  /** An instant at which a rule is in force. */
  lemma InForce(z: Zone, i: int) returns (t: int)
    requires Indexed(z) && Increasing(z.transitions, true) && -1 <= i < |z.transitions|
    ensures FindLocaltime(z, t, true) == Rule(z, i)
  {
    hide FindLocaltime, LastNotAfter;
    var ts := z.transitions;
    t := if i >= 0 then ts[i].gmttime else if ts != [] then ts[0].gmttime - 1 else 0;
    LastNotAfterIs(ts, t, true, i);
    FindIsLinearScan(z, t, true);
  }

  /** Rules that all point into the names are enough on any table, sorted or not. */
  lemma RulesNamedIsEnough(z: Zone, t: int, n: nat)
    requires Indexed(z) && RulesNamed(z, n)
    ensures Named(z, t, n)
  {
    hide LowerBound;
    var ts := z.transitions;
    if ts != [] && t >= Key(ts[0], true) {
      var i := LowerBound(ts, t, true, 0, |ts|);
      var found := if i == |ts| then i - 1 else if t != Key(ts[i], true) then i - 1 else i;
      assert Rule(z, found).arrbIdx <= n;
    }
  }

  /** toLocalTime stays inside `n` characters of names at every instant exactly when every rule in force does. */
  lemma NamedExactly(z: Zone, n: nat)
    requires Indexed(z) && Increasing(z.transitions, true)
    ensures (forall t: int :: Named(z, t, n)) <==> RulesNamed(z, n)
  {
    hide FindLocaltime, Increasing;
    if forall t: int :: Named(z, t, n) {
      var first := InForce(z, -1);
      assert Named(z, first, n);
      forall i | 0 <= i < |z.transitions| ensures Rule(z, i).arrbIdx <= n {
        var t := InForce(z, i);
        assert Named(z, t, n);
      }
    }
    if RulesNamed(z, n) {
      forall t: int ensures Named(z, t, n) { RulesNamedIsEnough(z, t, n); }
    }
  }

  // ---------- when local time determines the instant ----------

  /** The same hour and minute of the day. */
  predicate SameMinute(x: int, y: int) {
    x % 86400 / 60 == y % 86400 / 60
  }

  lemma SameMinuteOfUtc(x: int, y: int)
    ensures var a, b := ToUtcTime(x, true), ToUtcTime(y, true);
            a.hour == b.hour && a.min == b.min <==> SameMinute(x, y)
  {
    hide ToUtcTime;
    MinuteOfUtc(x);
    MinuteOfUtc(y);
  }

  lemma FromUtcIgnoresZone(tm: Tm, isdst: bool, gmtoff: int)
    ensures FromUtcTime(tm.(isdst := isdst, gmtoff := gmtoff)) == FromUtcTime(tm)
  {
  }

  /** The rule `a` is in force at `t`, `b` is what its local time finds, `c` is in force at the instant the
      retry tries. */
  function Found(z: Zone, t: int): (Localtime, Localtime, Localtime)
    requires Indexed(z)
  {
    var a := FindLocaltime(z, t, true);
    var b := FindLocaltime(z, t + a.gmtOffset, false);
    (a, b, FindLocaltime(z, t + a.gmtOffset - b.gmtOffset, true))
  }

  /** fromLocalTime takes its 3600 s off the local time `local`. */
  predicate Retries(local: int, a: Localtime, b: Localtime, c: Localtime) {
    a.isDst && !c.isDst && SameMinute(local, local - b.gmtOffset + c.gmtOffset)
  }

  /** On any zone, sorted or not: the trip through local time gives the instant back exactly when the rule its
      local time finds has its offset, or one hour less and the retry applies. */
  lemma RoundTripOnAnyZone(z: Zone, t: int)
    requires Indexed(z) && InRange(t + FindLocaltime(z, t, true).gmtOffset)
    ensures var (a, b, c) := Found(z, t);
            FromLocalTime(z, ToLocalTime(z, t)) == t
            <==> a.gmtOffset == b.gmtOffset + (if Retries(t + a.gmtOffset, a, b, c) then 3600 else 0)
  {
    hide ToUtcTime, FromUtcTime, FindLocaltime, SameMinute;
    var (a, b, c) := Found(z, t);
    var local := t + a.gmtOffset;
    FromUtcOfToUtc(local, true);
    FromUtcIgnoresZone(ToUtcTime(local, true), a.isDst, a.gmtOffset);
    SameMinuteOfUtc(local, local - b.gmtOffset + c.gmtOffset);
  }

  /** What a local time says of itself, on any zone: its date and time of day are those of its instant, moved by the
      offset it names; its weekday and its day of the year belong to the date it shows. */
  lemma LocalTimeSays(z: Zone, t: int)
    requires Indexed(z) && InRange(t + FindLocaltime(z, t, true).gmtOffset)
    ensures var tm := ToLocalTime(z, t);
            FromUtcTime(tm) - tm.gmtoff == t && ValidTm(tm)
            && tm.gmtoff == FindLocaltime(z, t, true).gmtOffset && tm.isdst == FindLocaltime(z, t, true).isDst
            && tm.wday == Calendar.WeekDay(Calendar.JulianDay(DateOf(tm)))
            && (tm.year + 1900 > -4800 ==>
                  tm.yday == DaysBeforeMonth(tm.year + 1900, tm.mon + 1) + tm.mday - 1)
  {
    hide ToUtcTime, FromUtcTime, FindLocaltime, DaysBeforeMonth;
    var a := FindLocaltime(z, t, true);
    var local := t + a.gmtOffset;
    FromUtcOfToUtc(local, true);
    FromUtcIgnoresZone(ToUtcTime(local, true), a.isDst, a.gmtOffset);
    ToUtcTimeIsValid(local, true);
    OtherFields(local, true);
    YearDay(local);
    FirstYearIs(local);
  }

  /** On an increasing table the offset and the daylight-saving flag are those of the last transition not after the
      instant, or of the first rule of all. */
  lemma LocalTimeNames(z: Zone, t: int)
    requires Indexed(z) && Increasing(z.transitions, true)
    ensures var tm, r := ToLocalTime(z, t), Rule(z, LastNotAfter(z.transitions, t, true, |z.transitions|));
            tm.gmtoff == r.gmtOffset && tm.isdst == r.isDst
  {
    hide ToUtcTime, FindLocaltime, LastNotAfter;
    FindIsLinearScan(z, t, true);
  }

  /** fromLocalTime looks at the date, the time of day and the daylight-saving flag, and at nothing else. */
  lemma FromLocalReads(z: Zone, a: Tm, b: Tm)
    requires Indexed(z) && a.(wday := b.wday, yday := b.yday, gmtoff := b.gmtoff) == b
    ensures FromLocalTime(z, a) == FromLocalTime(z, b)
  {
    hide FindLocaltime, ToUtcTime;
  }

  /** What std::lower_bound asks of the table: increasing in UTC and in local time. */
  predicate Searchable(z: Zone) {
    WellFormed(z) && Increasing(z.transitions, true) && Increasing(z.transitions, false)
  }

  function Offset(z: Zone, i: int): int
    requires Indexed(z) && -1 <= i < |z.transitions|
  {
    Rule(z, i).gmtOffset
  }

  /** The transition sets the wall clock back. */
  predicate FallsBack(z: Zone, i: int)
    requires Indexed(z) && 0 <= i < |z.transitions|
  {
    Offset(z, i) < Offset(z, i - 1)
  }

  /** The change of rule the 3600 s retry of fromLocalTime can undo: the end of one hour of daylight saving. */
  predicate EndsDst(z: Zone, i: int)
    requires Indexed(z) && 0 <= i < |z.transitions|
  {
    Rule(z, i - 1).isDst && !Rule(z, i).isDst && Offset(z, i - 1) == Offset(z, i) + 3600
  }

  /** The transition in force at an instant. */
  function Period(z: Zone, t: int): (i: int)
    ensures -1 <= i < |z.transitions|
  {
    LastNotAfter(z.transitions, t, true, |z.transitions|)
  }

  /** The last transition not after a local time. */
  function LocalPeriod(z: Zone, local: int): (i: int)
    ensures -1 <= i < |z.transitions|
  {
    LastNotAfter(z.transitions, local, false, |z.transitions|)
  }

  /** The wall clock at `t` shows a time it will show again after the next transition. */
  predicate ShownAgain(z: Zone, t: int)
    requires Indexed(z)
  {
    var i := Period(z, t);
    i + 1 < |z.transitions| && t + Offset(z, i) >= z.transitions[i + 1].localtime
  }

  /** The retry brings `t` back: its rule is daylight saving one hour ahead of the rule `k` its local time
      finds, and the instant an hour later is not in daylight saving and shows the same minute. */
  predicate RetryFits(z: Zone, t: int)
    requires Indexed(z)
  {
    var i := Period(z, t);
    var local := t + Offset(z, i);
    var k := LocalPeriod(z, local);
    Offset(z, i) == Offset(z, k) + 3600 && Retries(local, Rule(z, i), Rule(z, k), Rule(z, Period(z, t + 3600)))
  }

  /** Looking an instant up finds the rule in force, and looking its local seconds up finds a rule no earlier:
      its own, unless the wall clock will show the same time again. */
  lemma LocalLookup(z: Zone, t: int)
    requires Searchable(z)
    ensures FindLocaltime(z, t, true) == Rule(z, Period(z, t))
    ensures var i := Period(z, t);
            var k := LocalPeriod(z, t + Offset(z, i));
            FindLocaltime(z, t + Offset(z, i), false) == Rule(z, k)
            && k >= i && (k > i <==> ShownAgain(z, t)) && (k > i ==> Offset(z, k) < Offset(z, i))
  {
    hide LowerBound, LastNotAfter, FindLocaltime;
    var ts, i := z.transitions, Period(z, t);
    var local := t + Offset(z, i);
    var k := LocalPeriod(z, local);
    FindIsLinearScan(z, t, true);
    FindIsLinearScan(z, local, false);
    if i >= 0 { assert ts[i] in ts; }
    if k >= 0 { assert ts[k] in ts; }
    assert i >= 0 ==> Key(ts[i], false) <= local;
    if k > i { assert t < Key(ts[k], true); }
  }

  /** Local time is inverted exactly: an instant survives the trip through local time if and only if the wall
      clock does not show its local time again, or the retry fits.  Both passes through a repeated hour are told
      apart. */
  lemma RoundTripExactly(z: Zone, t: int)
    requires Searchable(z) && InRange(t + Offset(z, Period(z, t)))
    ensures FromLocalTime(z, ToLocalTime(z, t)) == t <==> (ShownAgain(z, t) ==> RetryFits(z, t))
  {
    hide FindLocaltime, LastNotAfter, ToLocalTime, FromLocalTime, SameMinute, WellFormed, Increasing, ShownAgain;
    SearchableIsIndexed(z);
    LocalLookup(z, t);
    var i := Period(z, t);
    var k := LocalPeriod(z, t + Offset(z, i));
    RoundTripOnAnyZone(z, t);
    FindIsLinearScan(z, t + Offset(z, i) - Offset(z, k), true);
  }

  lemma SearchableIsIndexed(z: Zone)
    requires Searchable(z)
    ensures Indexed(z) && Increasing(z.transitions, true)
  {
  }

  /** A time of day anyone fills in, when the clock shows it at `t` and not again: it is `t`, or, marked as daylight
      saving where there is none, an hour before. */
  lemma FromLocalOfShown(z: Zone, tm: Tm, t: int)
    requires Searchable(z) && ValidTm(tm) && FromUtcTime(tm) == t + Offset(z, Period(z, t)) && !ShownAgain(z, t)
    ensures FromLocalTime(z, tm) == if tm.isdst && !Rule(z, Period(z, t)).isDst then t - 3600 else t
  {
    hide ToUtcTime, FromUtcTime, FindLocaltime, Period, ShownAgain, WellFormed, Increasing, ValidTm;
    SearchableIsIndexed(z);
    LocalLookup(z, t);
    ShowsMinute(tm, t + Offset(z, Period(z, t)));
  }

  lemma ShowsMinute(tm: Tm, x: int)
    requires ValidTm(tm) && FromUtcTime(tm) == x
    ensures ToUtcTime(x, true).hour == tm.hour && ToUtcTime(x, true).min == tm.min
  {
    hide ToUtcTime, FromUtcTime;
    MinuteOfValid(tm);
    MinuteOfUtc(x);
  }

  /** The instant the retry looks at lies in the period its local time found, or, where that period is shorter
      than the change of the clock, in a later one. */
  lemma RetryPeriod(z: Zone, t: int)
    requires Searchable(z)
    ensures var ts, i := z.transitions, Period(z, t);
            var k := LocalPeriod(z, t + Offset(z, i));
            var tried := t + Offset(z, i) - Offset(z, k);
            Period(z, tried) >= k && (Period(z, tried) == k <==> k + 1 == |ts| || tried < ts[k + 1].gmttime)
  {
    hide LastNotAfter;
    var ts, i := z.transitions, Period(z, t);
    var k := LocalPeriod(z, t + Offset(z, i));
    var tried := t + Offset(z, i) - Offset(z, k);
    if k >= 0 {
      assert ts[k] in ts;
      assert Key(ts[k], true) <= tried;
    }
    if k + 1 == |ts| || tried < ts[k + 1].gmttime { LastNotAfterIs(ts, tried, true, k); }
  }

  /** The transition after `t` is alone: the one after it is not reached by the repeated local time. */
  predicate NextIsAlone(z: Zone, t: int)
    requires Indexed(z)
  {
    var ts, i := z.transitions, Period(z, t);
    i + 2 < |ts| ==>
      t + Offset(z, i) < ts[i + 2].localtime && t + Offset(z, i) - Offset(z, i + 1) < ts[i + 2].gmttime
  }

  lemma NextPeriods(z: Zone, t: int)
    requires Searchable(z) && ShownAgain(z, t) && NextIsAlone(z, t)
    ensures var i := Period(z, t);
            i + 1 < |z.transitions| && LocalPeriod(z, t + Offset(z, i)) == i + 1
            && Period(z, t + Offset(z, i) - Offset(z, i + 1)) == i + 1
  {
    hide LastNotAfter;
    LastNotAfterIs(z.transitions, t + Offset(z, Period(z, t)), false, Period(z, t) + 1);
    RetryPeriod(z, t);
  }

  /** Then the retry fits a repeated instant exactly when the transition ends one hour of daylight saving. */
  lemma RetryFitsExactly(z: Zone, t: int)
    requires Searchable(z) && ShownAgain(z, t) && NextIsAlone(z, t)
    ensures RetryFits(z, t) <==> EndsDst(z, Period(z, t) + 1)
  {
    hide Period, LocalPeriod, WellFormed, Increasing, ShownAgain, NextIsAlone;
    SearchableIsIndexed(z);
    NextPeriods(z, t);
  }

  // ---------- whole zones ----------

  predicate RoundTrips(z: Zone, t: int)
    requires Indexed(z)
  {
    InRange(t + Offset(z, Period(z, t))) ==> FromLocalTime(z, ToLocalTime(z, t)) == t
  }

  /** The instants before transition `i` whose local time it makes the clock show again. */
  predicate Repeated(z: Zone, i: int, t: int)
    requires Indexed(z) && 0 <= i < |z.transitions|
  {
    z.transitions[i].localtime - Offset(z, i - 1) <= t < z.transitions[i].gmttime
  }

  /** A transition that sets the clock back has at least an hour to itself. */
  predicate HourLong(z: Zone)
    requires Indexed(z)
  {
    forall i :: 0 <= i < |z.transitions| - 1 && FallsBack(z, i)
                ==> z.transitions[i + 1].gmttime >= z.transitions[i].gmttime + 3600
  }

  predicate BackwardEndsDst(z: Zone)
    requires Indexed(z)
  {
    forall i :: 0 <= i < |z.transitions| && FallsBack(z, i) ==> EndsDst(z, i)
  }

  /** Before a transition comes at least as much time as it sets the clock back. */
  lemma RepeatedPeriod(z: Zone, i: int, t: int)
    requires Searchable(z) && 0 <= i < |z.transitions| && Repeated(z, i, t)
    ensures Period(z, t) == i - 1 && ShownAgain(z, t) && InRange(t + Offset(z, i - 1)) && FallsBack(z, i)
  {
    hide LastNotAfter;
    var ts := z.transitions;
    assert ts[i] in ts;
    if i > 0 { assert ts[i - 1] in ts && Key(ts[i - 1], false) < Key(ts[i], false); }
    LastNotAfterIs(ts, t, true, i - 1);
  }

  lemma ShownAgainIsRepeated(z: Zone, t: int)
    requires Searchable(z) && ShownAgain(z, t)
    ensures var i := Period(z, t) + 1;
            i < |z.transitions| && FallsBack(z, i) && Repeated(z, i, t)
  {
    hide LastNotAfter;
    var i := Period(z, t) + 1;
    assert z.transitions[i] in z.transitions;
  }

  /** Two instants, one before and one at a backward change, with the same local time. */
  lemma SameLocal(z: Zone, i: int)
    requires Searchable(z) && 0 <= i < |z.transitions| && FallsBack(z, i)
    ensures var t1, t2 := z.transitions[i].localtime - Offset(z, i - 1), z.transitions[i].gmttime;
            FindLocaltime(z, t1, true) == Rule(z, i - 1) && FindLocaltime(z, t2, true) == Rule(z, i)
            && Period(z, t1) == i - 1 && Period(z, t2) == i
            && t1 + Offset(z, i - 1) == t2 + Offset(z, i) && t1 < t2 && InRange(t2 + Offset(z, i))
  {
    hide FindLocaltime, LastNotAfter;
    var ts := z.transitions;
    assert ts[i] in ts;
    RepeatedPeriod(z, i, ts[i].localtime - Offset(z, i - 1));
    LastNotAfterIs(ts, ts[i].gmttime, true, i);
    FindIsLinearScan(z, ts[i].localtime - Offset(z, i - 1), true);
    FindIsLinearScan(z, ts[i].gmttime, true);
  }

  /** One side holds on every searchable zone: only daylight saving by an hour can tell the two apart. */
  lemma RoundTripNeedsDst(z: Zone, i: int)
    requires Searchable(z) && 0 <= i < |z.transitions| && FallsBack(z, i)
    requires RoundTrips(z, z.transitions[i].gmttime) && RoundTrips(z, z.transitions[i].localtime - Offset(z, i - 1))
    ensures EndsDst(z, i)
  {
    hide FindLocaltime, Period, SameMinute, ToLocalTime, FromLocalTime, WellFormed, Increasing;
    SearchableIsIndexed(z);
    SameLocal(z, i);
    RoundTripOnAnyZone(z, z.transitions[i].localtime - Offset(z, i - 1));
    RoundTripOnAnyZone(z, z.transitions[i].gmttime);
  }

  /** After the end of daylight saving there is none to end. */
  lemma NotTwice(z: Zone, i: int)
    requires Indexed(z) && BackwardEndsDst(z) && 0 <= i < |z.transitions| - 1 && EndsDst(z, i)
    ensures Offset(z, i + 1) >= Offset(z, i)
  {
    hide Offset;
    assert FallsBack(z, i + 1) <==> Offset(z, i + 1) < Offset(z, i);
  }

  /** Where the local time of a repeated instant and the instant an hour later fall. */
  lemma HourLater(z: Zone, t: int)
    requires Searchable(z) && HourLong(z) && BackwardEndsDst(z) && ShownAgain(z, t)
    ensures var i := Period(z, t);
            i + 1 < |z.transitions| && EndsDst(z, i + 1)
            && LocalPeriod(z, t + Offset(z, i)) == i + 1 && Period(z, t + 3600) == i + 1
  {
    hide LastNotAfter;
    var ts, i := z.transitions, Period(z, t) + 1;
    ShownAgainIsRepeated(z, t);
    assert EndsDst(z, i);
    assert ts[i] in ts;
    if i + 1 < |ts| {
      assert ts[i + 1] in ts;
      NotTwice(z, i);
    }
    LastNotAfterIs(ts, t + Offset(z, i - 1), false, i);
    LastNotAfterIs(ts, t + 3600, true, i);
  }

  /** With an hour to itself, the end of an hour of daylight saving is undone by the retry. */
  lemma RetryFitsAfterDst(z: Zone, t: int)
    requires Searchable(z) && HourLong(z) && BackwardEndsDst(z) && ShownAgain(z, t)
    ensures RetryFits(z, t)
  {
    hide LastNotAfter, WellFormed, Increasing, HourLong, BackwardEndsDst, ShownAgain;
    SearchableIsIndexed(z);
    HourLater(z, t);
  }

  /** A zone gives every instant of its local time back exactly when the retry fits each repeated instant; when each
      backward change has an hour to itself, exactly when each ends one hour of daylight saving. */
  lemma ZoneRoundTrips(z: Zone)
    requires Searchable(z)
    ensures (forall t: int :: RoundTrips(z, t))
            <==> (forall i, t: int :: 0 <= i < |z.transitions| && Repeated(z, i, t) ==> RetryFits(z, t))
    ensures (forall t: int :: RoundTrips(z, t)) ==> BackwardEndsDst(z)
    ensures HourLong(z) ==> ((forall t: int :: RoundTrips(z, t)) <==> BackwardEndsDst(z))
  {
    hide Offset, Period, ShownAgain, FallsBack, EndsDst, ToLocalTime, FromLocalTime, RetryFits, HourLong,
      WellFormed, Increasing, Repeated, RoundTrips;
    SearchableIsIndexed(z);
    if forall t: int :: RoundTrips(z, t) {
      forall i, t: int | 0 <= i < |z.transitions| && Repeated(z, i, t) ensures RetryFits(z, t) {
        assert RoundTrips(z, t);
        RepeatedRoundTrip(z, i, t);
      }
      forall i | 0 <= i < |z.transitions| && FallsBack(z, i) ensures EndsDst(z, i) { RoundTripNeedsDst(z, i); }
    }
    if forall i, t: int :: 0 <= i < |z.transitions| && Repeated(z, i, t) ==> RetryFits(z, t) {
      forall t: int ensures RoundTrips(z, t) {
        if ShownAgain(z, t) { ShownAgainIsRepeated(z, t); assert RetryFits(z, t); }
        FittingRoundTrip(z, t);
      }
    }
    if HourLong(z) && BackwardEndsDst(z) {
      forall t: int ensures RoundTrips(z, t) {
        if ShownAgain(z, t) { RetryFitsAfterDst(z, t); }
        FittingRoundTrip(z, t);
      }
    }
  }

  lemma RepeatedRoundTrip(z: Zone, i: int, t: int)
    requires Searchable(z) && 0 <= i < |z.transitions| && Repeated(z, i, t) && RoundTrips(z, t)
    ensures RetryFits(z, t)
  {
    hide LastNotAfter, ToLocalTime, FromLocalTime, RetryFits;
    RepeatedPeriod(z, i, t);
    RoundTripExactly(z, t);
  }

  lemma FittingRoundTrip(z: Zone, t: int)
    requires Searchable(z) && (ShownAgain(z, t) ==> RetryFits(z, t))
    ensures RoundTrips(z, t)
  {
    hide LastNotAfter, ToLocalTime, FromLocalTime, RetryFits, ShownAgain;
    if InRange(t + Offset(z, Period(z, t))) { RoundTripExactly(z, t); }
  }

  /** Transitions more than an hour apart whose backward changes all end an hour of daylight saving: such a zone
      may be searched by local time and gives every instant back. */
  lemma DaylightZonesRoundTrip(z: Zone)
    requires WellFormed(z) && BackwardEndsDst(z)
    requires forall i :: 0 < i < |z.transitions| ==> z.transitions[i].gmttime > z.transitions[i - 1].gmttime + 3600
    ensures Searchable(z) && forall t: int :: RoundTrips(z, t)
  {
    hide RoundTrips;
    forall i, j | 0 <= i < j < |z.transitions|
      ensures z.transitions[i].gmttime < z.transitions[j].gmttime
      ensures z.transitions[i].localtime < z.transitions[j].localtime
    {
      HoursApart(z, i, j);
    }
    assert HourLong(z);
    ZoneRoundTrips(z);
  }

  lemma {:induction false} HoursApart(z: Zone, i: int, j: int)
    requires WellFormed(z) && BackwardEndsDst(z) && 0 <= i < j < |z.transitions|
    requires forall k :: 0 < k < |z.transitions| ==> z.transitions[k].gmttime > z.transitions[k - 1].gmttime + 3600
    ensures z.transitions[i].gmttime < z.transitions[j].gmttime
    ensures z.transitions[i].localtime < z.transitions[j].localtime
    decreases j
  {
    assert z.transitions[j] in z.transitions && z.transitions[j - 1] in z.transitions;
    if FallsBack(z, j) { assert EndsDst(z, j); }
    if i < j - 1 { HoursApart(z, i, j - 1); }
  }

  const TWO_HOURS_BACK := Zone([Transition(0, 0, 1)], [Localtime(7200, false, 0), Localtime(0, false, 0)])

  lemma TwoHoursLookup()
    ensures Searchable(TWO_HOURS_BACK) && FindLocaltime(TWO_HOURS_BACK, -1, true) == Localtime(7200, false, 0)
    ensures FindLocaltime(TWO_HOURS_BACK, 7199, false) == Localtime(0, false, 0)
  {
    FindIsLinearScan(TWO_HOURS_BACK, 7199, false);
  }

  /** A zone that fails: the clock goes two hours back without daylight saving, and its last second is not given
      back. */
  lemma TwoHoursBackFails()
    ensures Searchable(TWO_HOURS_BACK) && FallsBack(TWO_HOURS_BACK, 0)
    ensures FromLocalTime(TWO_HOURS_BACK, ToLocalTime(TWO_HOURS_BACK, -1)) != -1
  {
    hide FindLocaltime, ToLocalTime, FromLocalTime, SameMinute;
    TwoHoursLookup();
    RoundTripOnAnyZone(TWO_HOURS_BACK, -1);
  }

  /** A zone with one fixed offset, as TimeZone(eastOfUtc, name) builds it, always gives the instant back. */
  lemma FixedZoneRoundTrips(eastOfUtc: int, t: int)
    requires InRange(t + eastOfUtc)
    ensures var z := Zone([], [Localtime(eastOfUtc, false, 0)]);
            FromLocalTime(z, ToLocalTime(z, t)) == t
  {
    hide ToUtcTime, FromUtcTime;
    FromUtcOfToUtc(t + eastOfUtc, true);
    FromUtcIgnoresZone(ToUtcTime(t + eastOfUtc, true), false, eastOfUtc);
  }
}
