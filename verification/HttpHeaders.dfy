/**
HttpData::parseHeaders of glacier/httpdata.cc: a character machine over the input buffer, against
a grammar of header blocks.  A parse that starts anew accepts exactly the grammar; a parse that is
taken up again after PARSE_HEADER_AGAIN is right only in two of the machine's states.
*/
module HttpHeaders {
  import opened Sequences

  datatype ParseState = START | KEY | COLON | SPACES_AFTER_COLON | VALUE | CR | LF | END_CR | END_LF

  type Headers = map<string, string>

  /** The locals of parseHeaders, with the two members it updates as it goes. */
  datatype Scan = Scan(state: ParseState, keyStart: int, keyEnd: int, valueStart: int, valueEnd: int,
                       lineBegin: int, headers: Headers)

  /** What a call returns and leaves: the flag, inBuffer_, parse_state_ and headers_. */
  datatype Outcome =
    | Success(rest: string, headers: Headers)
    | Again(rest: string, state: ParseState, headers: Headers)
    | Error(headers: Headers)

  function Slice(str: string, from: int, to: int): string {
    if 0 <= from <= to <= |str| then str[from..to] else ""
  }

  // ---------- the code ----------

  /** One turn of the loop on the character at `i`; none when the code returns PARSE_HEADER_ERROR. */
  function StepAt(str: string, i: nat, s: Scan): Option<Scan>
    requires i < |str|
  {
    var c := str[i];
    match s.state
    case START =>
      if c == '\n' || c == '\r' then Some(s) else Some(s.(state := KEY, keyStart := i, lineBegin := i))
    case KEY =>
      if c == ':' then
        (if i - s.keyStart <= 0 then None else Some(s.(state := COLON, keyEnd := i)))
      else if c == '\n' || c == '\r' then None
      else Some(s)
    case COLON => if c == ' ' then Some(s.(state := SPACES_AFTER_COLON)) else None
    case SPACES_AFTER_COLON => Some(s.(state := VALUE, valueStart := i))
    case VALUE =>
      if c == '\r' then
        (if i - s.valueStart <= 0 then None else Some(s.(state := CR, valueEnd := i)))
      else if i - s.valueStart > 255 then None
      else Some(s)
    case CR =>
      if c == '\n' then
        Some(s.(state := LF, lineBegin := i,
                headers := s.headers[Slice(str, s.keyStart, s.keyEnd) := Slice(str, s.valueStart, s.valueEnd)]))
      else None
    case LF => if c == '\r' then Some(s.(state := END_CR)) else Some(s.(state := KEY, keyStart := i))
    case END_CR => if c == '\n' then Some(s.(state := END_LF)) else None
    case END_LF => Some(s)
  }

  /** The loop from index `i`, and what follows it.  In END_LF one more character is taken before the loop ends. */
  function ScanFrom(str: string, i: nat, s: Scan): Outcome
    requires i <= |str|
    decreases |str| - i
  {
    if s.state.END_LF? then Success(if i < |str| then str[i + 1..] else "", s.headers)
    else if i == |str| then Again(Slice(str, s.lineBegin, |str|), s.state, s.headers)
    else
      match StepAt(str, i, s)
      case None => Error(s.headers)
      case Some(t) => ScanFrom(str, i + 1, t)
  }

  function ParseHeaders(str: string, state: ParseState, headers: Headers): Outcome {
    ScanFrom(str, 0, Scan(state, 0, 0, 0, 0, 0, headers))
  }

  // ---------- the grammar ----------

  datatype Header = Header(key: string, value: string)

  predicate LineEnd(c: char) {
    c == '\r' || c == '\n'
  }

  /** A key holds no colon and no line end, but the machine looks at its first character only for the line ends that
      would end the block: before the first header CR and LF, later only CR. */
  predicate KeyOk(key: string, first: bool) {
    key != "" && (if first then !LineEnd(key[0]) else key[0] != '\r')
    && forall j :: 1 <= j < |key| ==> key[j] != ':' && !LineEnd(key[j])
  }

  /** A value of 1 to 256 characters without CR, except that its first character may be anything. */
  predicate ValueOk(value: string) {
    1 <= |value| <= 256 && forall j :: 1 <= j < |value| ==> value[j] != '\r'
  }

  predicate HeadersOk(hs: seq<Header>) {
    forall j :: 0 <= j < |hs| ==> KeyOk(hs[j].key, j == 0) && ValueOk(hs[j].value)
  }

  function PrintLine(h: Header): string {
    h.key + ": " + h.value + "\r\n"
  }

  function Print(hs: seq<Header>): string {
    if hs == [] then "" else Print(hs[..|hs| - 1]) + PrintLine(hs[|hs| - 1])
  }

  /** A later header replaces an earlier one with the same key. */
  function MapOf(hs: seq<Header>, before: Headers): Headers {
    if hs == [] then before
    else MapOf(hs[..|hs| - 1], before)[hs[|hs| - 1].key := hs[|hs| - 1].value]
  }

  predicate SkipOk(skip: string) {
    forall j :: 0 <= j < |skip| ==> LineEnd(skip[j])
  }

  /** A header block: line ends to skip, one header or more, and an empty line. */
  predicate Block(text: string, skip: string, hs: seq<Header>) {
    SkipOk(skip) && HeadersOk(hs) && hs != [] && text == skip + Print(hs) + "\r\n"
  }

  // ---------- what the machine has read ----------

  /** The headers read so far and the unfinished one. */
  datatype Reading = Reading(state: ParseState, skip: string, done: seq<Header>, key: string, value: string)

  predicate ReadingOk(p: Reading) {
    SkipOk(p.skip) && HeadersOk(p.done)
    && match p.state
       case START => p.done == [] && p.key == "" && p.value == ""
       case KEY => KeyOk(p.key, p.done == []) && p.value == ""
       case COLON => KeyOk(p.key, p.done == []) && p.value == ""
       case SPACES_AFTER_COLON => KeyOk(p.key, p.done == []) && p.value == ""
       case VALUE => KeyOk(p.key, p.done == []) && ValueOk(p.value)
       case CR => KeyOk(p.key, p.done == []) && ValueOk(p.value)
       case _ => p.done != [] && p.key == "" && p.value == ""
  }

  /** The unfinished line. */
  function Partial(p: Reading): string {
    match p.state
    case START => ""
    case KEY => p.key
    case COLON => p.key + ":"
    case SPACES_AFTER_COLON => p.key + ": "
    case VALUE => p.key + ": " + p.value
    case CR => p.key + ": " + p.value + "\r"
    case LF => ""
    case END_CR => "\r"
    case END_LF => "\r\n"
  }

  function TextOf(p: Reading): string {
    p.skip + Print(p.done) + Partial(p)
  }

  const NOTHING_READ := Reading(START, "", [], "", "")

  /** The reading after one more character, none when the machine fails on it. */
  function Read(p: Reading, c: char): Option<Reading> {
    match p.state
    case START =>
      if LineEnd(c) then Some(p.(skip := p.skip + [c])) else Some(p.(state := KEY, key := [c]))
    case KEY =>
      if c == ':' then Some(p.(state := COLON)) else if LineEnd(c) then None else Some(p.(key := p.key + [c]))
    case COLON => if c == ' ' then Some(p.(state := SPACES_AFTER_COLON)) else None
    case SPACES_AFTER_COLON => Some(p.(state := VALUE, value := [c]))
    case VALUE =>
      if c == '\r' then Some(p.(state := CR))
      else if |p.value| > 255 then None
      else Some(p.(value := p.value + [c]))
    case CR =>
      if c == '\n' then Some(Reading(LF, p.skip, p.done + [Header(p.key, p.value)], "", "")) else None
    case LF => if c == '\r' then Some(p.(state := END_CR)) else Some(p.(state := KEY, key := [c]))
    case END_CR => if c == '\n' then Some(p.(state := END_LF)) else None
    case END_LF => None
  }

  function ReadAll(text: string): Option<Reading> {
    if text == "" then Some(NOTHING_READ)
    else
      match ReadAll(text[..|text| - 1])
      case None => None
      case Some(p) => Read(p, text[|text| - 1])
  }

  lemma PrintSnoc(hs: seq<Header>, h: Header)
    ensures Print(hs + [h]) == Print(hs) + PrintLine(h)
  {
    assert (hs + [h])[..|hs|] == hs;
  }

  /** Inside a line, reading a character adds it to the unfinished line. */
  lemma PartialGrows(p: Reading, c: char)
    requires Read(p, c).Some? && !p.state.CR? && !(p.state.START? && LineEnd(c))
    requires (p.state.LF? ==> p.key == "") && (p.state.SPACES_AFTER_COLON? ==> p.value == "")
    ensures var q := Read(p, c).value;
            q.skip == p.skip && q.done == p.done && Partial(q) == Partial(p) + [c]
  {
    hide Print;
  }

  /** Reading a character adds it to the text. */
  lemma ReadText(p: Reading, c: char)
    requires (p.state.START? ==> p.done == [] && p.key == "") && (p.state.LF? ==> p.key == "")
    requires (p.state.SPACES_AFTER_COLON? ==> p.value == "")
    requires Read(p, c).Some?
    ensures TextOf(Read(p, c).value) == TextOf(p) + [c]
  {
    hide Print, Read, Partial, LineEnd;
    if p.state.CR? {
      LineIsRead(p, c);
      PrintSnoc(p.done, Header(p.key, p.value));
    } else if p.state.START? && LineEnd(c) {
      SkipIsRead(p, c);
    } else {
      PartialGrows(p, c);
    }
  }

  lemma LineIsRead(p: Reading, c: char)
    requires p.state.CR? && Read(p, c).Some?
    ensures var q := Read(p, c).value;
            q.skip == p.skip && q.done == p.done + [Header(p.key, p.value)] && Partial(q) == ""
            && PrintLine(Header(p.key, p.value)) == Partial(p) + [c]
  {
  }

  lemma SkipIsRead(p: Reading, c: char)
    requires p.state.START? && p.done == [] && LineEnd(c)
    ensures var q := p.(skip := p.skip + [c]);
            Read(p, c) == Some(q) && Partial(q) == Partial(p) == Print(p.done) == ""
  {
  }

  /** Reading a character keeps the reading well formed. */
  lemma ReadIsSound(p: Reading, c: char)
    requires ReadingOk(p) && Read(p, c).Some?
    ensures ReadingOk(Read(p, c).value) && TextOf(Read(p, c).value) == TextOf(p) + [c]
  {
    hide TextOf;
    ReadText(p, c);
  }

  lemma {:induction false} ReadAllIsSound(text: string)
    requires ReadAll(text).Some?
    ensures ReadingOk(ReadAll(text).value) && TextOf(ReadAll(text).value) == text
  {
    hide Read, ReadingOk, TextOf;
    if text == "" {
      NothingIsRead();
    } else {
      var init := text[..|text| - 1];
      ReadAllIsSound(init);
      ReadIsSound(ReadAll(init).value, text[|text| - 1]);
      assert text == init + [text[|text| - 1]];
    }
  }

  lemma NothingIsRead()
    ensures ReadingOk(NOTHING_READ) && TextOf(NOTHING_READ) == ""
  {
  }

  /** The reading one character before a well-formed one. */
  function Unread(p: Reading): Reading {
    match p.state
    case START => if p.skip == "" then p else p.(skip := p.skip[..|p.skip| - 1])
    case KEY =>
      if |p.key| > 1 then p.(key := p.key[..|p.key| - 1])
      else if p.done == [] then p.(state := START, key := "")
      else p.(state := LF, key := "")
    case COLON => p.(state := KEY)
    case SPACES_AFTER_COLON => p.(state := COLON)
    case VALUE =>
      if |p.value| > 1 then p.(value := p.value[..|p.value| - 1]) else p.(state := SPACES_AFTER_COLON, value := "")
    case CR => p.(state := VALUE)
    case LF =>
      if p.done == [] then p
      else
        var last := p.done[|p.done| - 1];
        Reading(CR, p.skip, p.done[..|p.done| - 1], last.key, last.value)
    case END_CR => p.(state := LF)
    case END_LF => p.(state := END_CR)
  }

  function LastRead(p: Reading): char
    requires ReadingOk(p) && p != NOTHING_READ
  {
    match p.state
    case START => p.skip[|p.skip| - 1]
    case KEY => p.key[|p.key| - 1]
    case COLON => ':'
    case SPACES_AFTER_COLON => ' '
    case VALUE => p.value[|p.value| - 1]
    case CR => '\r'
    case LF => '\n'
    case END_CR => '\r'
    case END_LF => '\n'
  }

  lemma UnreadKeepsOk(p: Reading)
    requires ReadingOk(p) && p != NOTHING_READ
    ensures ReadingOk(Unread(p))
  {
  }

  /** A sequence is its front and its last element. */
  lemma FrontAndLast<T>(s: seq<T>)
    requires s != []
    ensures s == s[..|s| - 1] + [s[|s| - 1]]
  {
  }

  lemma ReadOfUnreadInLine(p: Reading)
    requires ReadingOk(p) && p != NOTHING_READ && !p.state.START? && !p.state.LF?
    ensures Read(Unread(p), LastRead(p)) == Some(p)
  {
    hide HeadersOk, SkipOk;
    if p.state.KEY? { FrontAndLast(p.key); }
    if p.state.VALUE? { FrontAndLast(p.value); }
  }

  lemma ReadOfUnread(p: Reading)
    requires ReadingOk(p) && p != NOTHING_READ
    ensures Read(Unread(p), LastRead(p)) == Some(p)
  {
    hide HeadersOk, KeyOk, ValueOk;
    if p.state.START? {
      FrontAndLast(p.skip);
    } else if p.state.LF? {
      FrontAndLast(p.done);
    } else {
      ReadOfUnreadInLine(p);
    }
  }

  lemma UnreadIsOk(p: Reading)
    requires ReadingOk(p) && p != NOTHING_READ
    ensures ReadingOk(Unread(p))
    ensures var text := TextOf(p);
            text != "" && TextOf(Unread(p)) == text[..|text| - 1] && Read(Unread(p), text[|text| - 1]) == Some(p)
  {
    hide TextOf, Read, Unread, LastRead;
    UnreadKeepsOk(p);
    ReadOfUnread(p);
    ReadIsSound(Unread(p), LastRead(p));
  }

  /** Every well-formed reading is what the machine makes of its text: the grammar is read in one way only. */
  lemma {:induction false} ReadAllIsComplete(p: Reading)
    requires ReadingOk(p)
    ensures ReadAll(TextOf(p)) == Some(p)
    decreases |TextOf(p)|
  {
    hide Read, ReadingOk, TextOf, Unread;
    if p == NOTHING_READ {
      NothingIsRead();
    } else {
      UnreadIsOk(p);
      ReadAllIsComplete(Unread(p));
    }
  }

  // ---------- the loop follows the readings ----------

  /** Where the line the machine is in begins: at the first header, or at the LF before a later one. */
  function LineBegin(p: Reading): int {
    if p.state.START? then 0
    else if p.done == [] then |p.skip|
    else |p.skip| + |Print(p.done)| - 1
  }

  predicate InHeader(p: Reading) {
    p.state.COLON? || p.state.SPACES_AFTER_COLON? || p.state.VALUE? || p.state.CR?
  }

  /** The indices of the loop point at the unfinished header. */
  predicate Points(str: string, i: nat, s: Scan, p: Reading)
    requires i <= |str|
  {
    s.state == p.state
    && (p.state.KEY? ==> 0 <= s.keyStart && s.keyStart + |p.key| == i && str[s.keyStart..i] == p.key && p.key != "")
    && (InHeader(p) ==> 0 <= s.keyStart <= s.keyEnd <= i && str[s.keyStart..s.keyEnd] == p.key)
    && (p.state.VALUE? ==>
          0 <= s.valueStart && s.valueStart + |p.value| == i && str[s.valueStart..i] == p.value && p.value != "")
    && (p.state.CR? ==> 0 <= s.valueStart <= s.valueEnd <= i && str[s.valueStart..s.valueEnd] == p.value)
  }

  predicate Tracks(str: string, i: nat, s: Scan, p: Reading, h: Headers)
    requires i <= |str|
  {
    ReadingOk(p) && str[..i] == TextOf(p) && Points(str, i, s, p)
    && s.headers == MapOf(p.done, h) && s.lineBegin == LineBegin(p)
  }

  lemma StepPoints(str: string, i: nat, s: Scan, p: Reading)
    requires i < |str| && !p.state.END_LF? && Points(str, i, s, p)
    ensures Read(p, str[i]).None? <==> StepAt(str, i, s).None?
    ensures Read(p, str[i]).Some? ==> Points(str, i + 1, StepAt(str, i, s).value, Read(p, str[i]).value)
  {
    match p.state
    case KEY => assert str[s.keyStart..i + 1] == str[s.keyStart..i] + [str[i]];
    case VALUE => assert str[s.valueStart..i + 1] == str[s.valueStart..i] + [str[i]];
    case START => assert str[i..i + 1] == [str[i]];
    case LF => assert str[i..i + 1] == [str[i]];
    case SPACES_AFTER_COLON => assert str[i..i + 1] == [str[i]];
    case _ =>
  }

  lemma StepLine(str: string, i: nat, s: Scan, p: Reading, h: Headers)
    requires i < |str| && !p.state.END_LF? && Tracks(str, i, s, p, h) && Read(p, str[i]).Some?
    ensures var t, q := StepAt(str, i, s), Read(p, str[i]).value;
            t.Some? ==> t.value.headers == MapOf(q.done, h) && t.value.lineBegin == LineBegin(q)
  {
    hide Print, MapOf, HeadersOk, KeyOk, ValueOk, SkipOk;
    var q := Read(p, str[i]).value;
    ReadText(p, str[i]);
    EmptyPrint();
    assert |TextOf(p)| == i;
    if p.state.CR? { MapSnoc(p.done, Header(p.key, p.value), h); }
  }

  lemma StepTracks(str: string, i: nat, s: Scan, p: Reading, h: Headers)
    requires i < |str| && !p.state.END_LF? && Tracks(str, i, s, p, h)
    ensures Read(p, str[i]).None? <==> StepAt(str, i, s).None?
    ensures Read(p, str[i]).Some? ==> Tracks(str, i + 1, StepAt(str, i, s).value, Read(p, str[i]).value, h)
  {
    hide TextOf, Points, ReadingOk, Read, StepAt, MapOf, LineBegin;
    StepPoints(str, i, s, p);
    if Read(p, str[i]).Some? {
      ReadIsSound(p, str[i]);
      StepLine(str, i, s, p, h);
      assert str[..i + 1] == str[..i] + [str[i]];
    }
  }

  lemma EmptyPrint()
    ensures Print([]) == ""
  {
  }

  lemma MapSnoc(hs: seq<Header>, x: Header, h: Headers)
    ensures MapOf(hs + [x], h) == MapOf(hs, h)[x.key := x.value]
  {
    assert (hs + [x])[..|hs|] == hs;
  }

  /** The outcome of reading on from index `i`, with `p` read before. */
  function ReadOn(str: string, i: nat, p: Reading, h: Headers): Outcome
    requires i <= |str|
    decreases |str| - i
  {
    if p.state.END_LF? then Success(if i < |str| then str[i + 1..] else "", MapOf(p.done, h))
    else if i == |str| then Again(Slice(str, LineBegin(p), |str|), p.state, MapOf(p.done, h))
    else
      match Read(p, str[i])
      case None => Error(MapOf(p.done, h))
      case Some(q) => ReadOn(str, i + 1, q, h)
  }

  lemma {:induction false} ScanIsReadOn(str: string, i: nat, s: Scan, p: Reading, h: Headers)
    requires i <= |str| && Tracks(str, i, s, p, h)
    ensures ScanFrom(str, i, s) == ReadOn(str, i, p, h)
    decreases |str| - i
  {
    hide StepAt, Read, ReadingOk, TextOf, MapOf, LineBegin;
    if !p.state.END_LF? && i < |str| {
      StepTracks(str, i, s, p, h);
      if Read(p, str[i]).Some? {
        ScanIsReadOn(str, i + 1, StepAt(str, i, s).value, Read(p, str[i]).value, h);
      }
    }
  }

  /** A parse that starts anew is a reading of the buffer. */
  lemma ParseIsReadOn(str: string, h: Headers)
    ensures ParseHeaders(str, START, h) == ReadOn(str, 0, NOTHING_READ, h)
  {
    hide ScanFrom, ReadOn;
    NothingIsRead();
    assert str[..0] == "";
    ScanIsReadOn(str, 0, Scan(START, 0, 0, 0, 0, 0, h), NOTHING_READ, h);
  }

  lemma {:induction false} ReadOnReaches(str: string, n: nat, h: Headers)
    requires n <= |str| && ReadAll(str[..n]).Some?
    ensures ReadOn(str, 0, NOTHING_READ, h) == ReadOn(str, n, ReadAll(str[..n]).value, h)
  {
    hide Read, MapOf;
    if n > 0 {
      var init := str[..n][..n - 1];
      assert init == str[..n - 1] && str[..n][n - 1] == str[n - 1];
      ReadOnReaches(str, n - 1, h);
      assert !ReadAll(init).value.state.END_LF? by { EndIsTheEnd(ReadAll(init).value, str[n - 1]); }
    } else {
      assert str[..0] == "";
    }
  }

  lemma EndIsTheEnd(p: Reading, c: char)
    requires Read(p, c).Some?
    ensures !p.state.END_LF?
  {
  }

  // ---------- what a fresh parse accepts ----------

  function BlockReading(skip: string, hs: seq<Header>): Reading {
    Reading(END_LF, skip, hs, "", "")
  }

  /** Every buffer that begins with a header block succeeds, with the last value of each key, whatever follows;
      of what follows, one character is lost. */
  lemma BlocksAreAccepted(text: string, skip: string, hs: seq<Header>, tail: string, h: Headers)
    requires Block(text, skip, hs)
    ensures ParseHeaders(text + tail, START, h) == Success(if tail == "" then "" else tail[1..], MapOf(hs, h))
  {
    hide ParseHeaders, ReadAll, MapOf, Print, HeadersOk, SkipOk;
    var str := text + tail;
    var p := BlockReading(skip, hs);
    assert TextOf(p) == text;
    ReadAllIsComplete(p);
    assert str[..|text|] == text && str[|text|..] == tail;
    ParseIsReadOn(str, h);
    ReadOnReaches(str, |text|, h);
    if tail != "" { assert str[|text| + 1..] == tail[1..]; }
  }

  /** Only such buffers succeed. */
  lemma AcceptedAreBlocks(str: string, h: Headers) returns (skip: string, hs: seq<Header>, n: nat)
    requires ParseHeaders(str, START, h).Success?
    ensures n <= |str| && Block(str[..n], skip, hs)
  {
    hide ParseHeaders, Print, HeadersOk, SkipOk;
    ParseIsReadOn(str, h);
    assert str[..0] == "";
    var p;
    n, p := ReadOnSucceeds(str, 0, NOTHING_READ, h);
    ReadAllIsSound(str[..n]);
    skip, hs := p.skip, p.done;
  }

  lemma {:induction false} ReadOnSucceeds(str: string, i: nat, p: Reading, h: Headers) returns (n: nat, q: Reading)
    requires i <= |str| && ReadAll(str[..i]) == Some(p) && ReadOn(str, i, p, h).Success?
    ensures n <= |str| && ReadAll(str[..n]) == Some(q) && q.state.END_LF?
    decreases |str| - i
  {
    hide Read, MapOf;
    if p.state.END_LF? {
      n, q := i, p;
    } else {
      assert str[..i + 1][..i] == str[..i] && str[..i + 1][i] == str[i];
      n, q := ReadOnSucceeds(str, i + 1, Read(p, str[i]).value, h);
    }
  }

  /** parseHeaders, started once from START, succeeds exactly on the buffers that begin with a header block;
      nothing is left over exactly when at most one character follows it. */
  lemma SuccessExactly(str: string, h: Headers)
    ensures ParseHeaders(str, START, h).Success?
            <==> exists n: nat, skip: string, hs: seq<Header> :: n <= |str| && Block(str[..n], skip, hs)
    ensures ParseHeaders(str, START, h).Success? && ParseHeaders(str, START, h).rest == ""
            <==> exists n: nat, skip: string, hs: seq<Header> :: |str| - 1 <= n <= |str| && Block(str[..n], skip, hs)
  {
    hide ParseHeaders, Block;
    forall n: nat, skip: string, hs: seq<Header> | n <= |str| && Block(str[..n], skip, hs)
      ensures ParseHeaders(str, START, h) == Success(if n == |str| then "" else str[n + 1..], MapOf(hs, h))
    {
      assert str == str[..n] + str[n..];
      BlocksAreAccepted(str[..n], skip, hs, str[n..], h);
    }
    if ParseHeaders(str, START, h).Success? {
      var skip, hs, n := AcceptedAreBlocks(str, h);
    }
  }

  // ---------- again or error ----------

  /** The text that would complete a block. */
  function Completion(p: Reading): string {
    match p.state
    case START => "a: b\r\n\r\n"
    case KEY => ": b\r\n\r\n"
    case COLON => " b\r\n\r\n"
    case SPACES_AFTER_COLON => "b\r\n\r\n"
    case VALUE => "\r\n\r\n"
    case CR => "\n\r\n"
    case LF => "\r\n"
    case END_CR => "\n"
    case END_LF => ""
  }

  /** The header it completes. */
  function Unfinished(p: Reading): Option<Header> {
    match p.state
    case START => Some(Header("a", "b"))
    case KEY => Some(Header(p.key, "b"))
    case COLON => Some(Header(p.key, "b"))
    case SPACES_AFTER_COLON => Some(Header(p.key, "b"))
    case VALUE => Some(Header(p.key, p.value))
    case CR => Some(Header(p.key, p.value))
    case _ => None
  }

  function Completed(p: Reading): seq<Header> {
    if Unfinished(p).Some? then p.done + [Unfinished(p).value] else p.done
  }

  lemma CompletedLine(p: Reading)
    ensures Partial(p) + Completion(p)
         == (if Unfinished(p).Some? then PrintLine(Unfinished(p).value) else "") + "\r\n"
  {
    match p.state
    case START => assert "" + "a: b\r\n\r\n" == ("a" + ": " + "b" + "\r\n") + "\r\n";
    case KEY => CompletedKey(p.key, "");
    case COLON => CompletedKey(p.key, ":");
    case SPACES_AFTER_COLON => CompletedKey(p.key, ": ");
    case VALUE => CompletedValue(p.key, p.value);
    case CR => CompletedValue(p.key, p.value);
    case _ =>
  }

  lemma CompletedKey(key: string, written: string)
    requires written == "" || written == ":" || written == ": "
    ensures (key + written) + (": "[|written|..] + "b\r\n\r\n") == PrintLine(Header(key, "b")) + "\r\n"
  {
  }

  lemma CompletedValue(key: string, value: string)
    ensures (key + ": " + value) + "\r\n\r\n" == PrintLine(Header(key, value)) + "\r\n"
    ensures (key + ": " + value + "\r") + "\n\r\n" == PrintLine(Header(key, value)) + "\r\n"
  {
  }

  lemma CompletedOk(p: Reading)
    requires ReadingOk(p)
    ensures HeadersOk(Completed(p)) && SkipOk(p.skip) && Completed(p) != []
  {
    if p.state.START? { assert Completed(p) == [Header("a", "b")]; }
  }

  lemma CompletedIsBlock(p: Reading)
    requires ReadingOk(p)
    ensures Block(TextOf(p) + Completion(p), p.skip, Completed(p))
  {
    hide Partial, Completion, PrintLine, Print, HeadersOk, SkipOk;
    CompletedLine(p);
    CompletedOk(p);
    var before := p.skip + Print(p.done);
    assert TextOf(p) + Completion(p) == before + (Partial(p) + Completion(p));
    if Unfinished(p).Some? {
      PrintSnoc(p.done, Unfinished(p).value);
      var line := PrintLine(Unfinished(p).value);
      assert before + (line + "\r\n") == p.skip + (Print(p.done) + line) + "\r\n";
    } else {
      assert before + ("" + "\r\n") == before + "\r\n";
    }
  }

  lemma {:induction false} ErrorsStay(str: string, ext: string, i: nat, p: Reading, h: Headers)
    requires i <= |str| && ReadOn(str, i, p, h).Error?
    ensures ReadOn(str + ext, i, p, h).Error?
    decreases |str| - i
  {
    hide Read, MapOf;
    if Read(p, str[i]).Some? { ErrorsStay(str, ext, i + 1, Read(p, str[i]).value, h); }
  }

  lemma {:induction false} AgainIsUnfinished(str: string, i: nat, p: Reading, h: Headers)
    requires i <= |str| && ReadAll(str[..i]) == Some(p) && ReadOn(str, i, p, h).Again?
    ensures ReadAll(str).Some? && !ReadAll(str).value.state.END_LF?
    ensures var q := ReadAll(str).value;
            ReadOn(str, i, p, h) == Again(Slice(str, LineBegin(q), |str|), q.state, MapOf(q.done, h))
    decreases |str| - i
  {
    hide Read, MapOf, LineBegin;
    if i < |str| {
      assert str[..i + 1][..i] == str[..i] && str[..i + 1][i] == str[i];
      AgainIsUnfinished(str, i + 1, Read(p, str[i]).value, h);
    } else {
      assert str[..i] == str;
    }
  }

  /** What a fresh parse that needs more input has read, and how it could be completed. */
  lemma UnfinishedParse(str: string, h: Headers) returns (p: Reading)
    requires ParseHeaders(str, START, h).Again?
    ensures ReadingOk(p) && TextOf(p) == str && !p.state.END_LF?
    ensures ParseHeaders(str, START, h) == Again(Slice(str, LineBegin(p), |str|), p.state, MapOf(p.done, h))
    ensures ParseHeaders(str + Completion(p), START, h) == Success("", MapOf(Completed(p), h))
  {
    hide ParseHeaders, MapOf, LineBegin, Completion, Completed, Block;
    ParseIsReadOn(str, h);
    assert str[..0] == "";
    AgainIsUnfinished(str, 0, NOTHING_READ, h);
    p := ReadAll(str).value;
    ReadAllIsSound(str);
    CompletedIsBlock(p);
    BlocksAreAccepted(str + Completion(p), p.skip, Completed(p), "", h);
    assert str + Completion(p) + "" == str + Completion(p);
  }

  /** PARSE_HEADER_ERROR is returned exactly when no continuation of the buffer could succeed, and
      PARSE_HEADER_AGAIN exactly when the buffer does not succeed but some continuation does. */
  lemma ErrorExactly(str: string, h: Headers)
    ensures ParseHeaders(str, START, h).Error? <==> forall ext :: !ParseHeaders(str + ext, START, h).Success?
    ensures ParseHeaders(str, START, h).Again?
            <==> !ParseHeaders(str, START, h).Success? && exists ext :: ParseHeaders(str + ext, START, h).Success?
  {
    hide ParseHeaders, ReadOn;
    assert str + "" == str;
    if ParseHeaders(str, START, h).Error? {
      ParseIsReadOn(str, h);
      forall ext ensures !ParseHeaders(str + ext, START, h).Success? {
        ErrorsStay(str, ext, 0, NOTHING_READ, h);
        ParseIsReadOn(str + ext, h);
      }
    } else if ParseHeaders(str, START, h).Again? {
      var p := UnfinishedParse(str, h);
      assert ParseHeaders(str + Completion(p), START, h).Success?;
    } else {
      assert ParseHeaders(str + "", START, h).Success?;
    }
  }

  /** What PARSE_HEADER_AGAIN leaves: the headers of the complete lines; and of the buffer all of it before the first
      header, the unfinished line in the first, and later the LF of the line before and the unfinished line. */
  lemma AgainExactly(str: string, h: Headers) returns (p: Reading)
    requires ParseHeaders(str, START, h).Again?
    ensures ReadingOk(p) && TextOf(p) == str && !p.state.END_LF?
    ensures var r := ParseHeaders(str, START, h);
            r.state == p.state && r.headers == MapOf(p.done, h)
            && r.rest == (if p.state.START? then str else if p.done == [] then Partial(p) else "\n" + Partial(p))
  {
    hide ParseHeaders, ReadingOk, MapOf;
    p := UnfinishedParse(str, h);
    LeftOver(p);
  }

  lemma LeftOver(p: Reading)
    requires ReadingOk(p) && !p.state.END_LF?
    ensures Slice(TextOf(p), LineBegin(p), |TextOf(p)|)
         == if p.state.START? then TextOf(p) else if p.done == [] then Partial(p) else "\n" + Partial(p)
  {
    EmptyPrint();
    if p.done != [] {
      var before := Print(p.done);
      EndsWithNewLine(p.done);
      assert before == before[..|before| - 1] + "\n";
      assert TextOf(p) == (p.skip + before[..|before| - 1]) + ("\n" + Partial(p));
    }
  }

  lemma EndsWithNewLine(hs: seq<Header>)
    requires hs != []
    ensures Print(hs) != "" && Print(hs)[|Print(hs)| - 1] == '\n'
  {
    var line := PrintLine(hs[|hs| - 1]);
    assert line[|line| - 1] == '\n';
  }

  lemma {:induction false} ReadOnFails(str: string, i: nat, p: Reading, h: Headers) returns (n: nat, q: Reading)
    requires i <= |str| && ReadAll(str[..i]) == Some(p) && ReadOn(str, i, p, h).Error?
    ensures i <= n < |str| && ReadAll(str[..n]) == Some(q) && Read(q, str[n]) == None
    ensures ReadOn(str, i, p, h) == Error(MapOf(q.done, h))
    decreases |str| - i
  {
    hide Read, MapOf;
    if Read(p, str[i]).None? {
      n, q := i, p;
    } else {
      assert str[..i + 1][..i] == str[..i] && str[..i + 1][i] == str[i];
      n, q := ReadOnFails(str, i + 1, Read(p, str[i]).value, h);
    }
  }

  /** What PARSE_HEADER_ERROR leaves: the headers of the lines that were complete before the first character that no
      block can go on with. */
  lemma ErrorKeeps(str: string, h: Headers) returns (n: nat, p: Reading)
    requires ParseHeaders(str, START, h).Error?
    ensures n < |str| && ReadingOk(p) && TextOf(p) == str[..n]
    ensures forall q :: ReadingOk(q) ==> TextOf(q) != str[..n + 1]
    ensures ParseHeaders(str, START, h).headers == MapOf(p.done, h)
  {
    hide ParseHeaders, MapOf, ReadOn, Read, ReadingOk, TextOf;
    ParseIsReadOn(str, h);
    assert str[..0] == "";
    n, p := ReadOnFails(str, 0, NOTHING_READ, h);
    ReadAllIsSound(str[..n]);
    assert str[..n + 1][..n] == str[..n] && str[..n + 1][n] == str[n];
    assert ReadAll(str[..n + 1]) == None;
    forall q | ReadingOk(q) ensures TextOf(q) != str[..n + 1] { ReadAllIsComplete(q); }
  }

  /** A request without headers never gets past PARSE_HEADER_AGAIN: its empty line is skipped as one of the line
      ends before the first header. */
  lemma HeaderlessNeverSucceeds(str: string, h: Headers)
    requires SkipOk(str)
    ensures ParseHeaders(str, START, h) == Again(str, START, h)
  {
    hide ParseHeaders;
    var p := Reading(START, str, [], "", "");
    assert TextOf(p) == str;
    ReadAllIsComplete(p);
    ParseIsReadOn(str, h);
    assert str[..|str|] == str;
    ReadOnReaches(str, |str|, h);
    assert Slice(str, 0, |str|) == str;
  }

  // ---------- taking a parse up again ----------

  lemma {:induction false} KeyIsRescanned(str: string, n: nat, i: nat, headers: Headers)
    requires i <= n <= |str| && 0 < n && str[0] != ':' && !LineEnd(str[0])
    requires forall j :: 1 <= j < n ==> str[j] != ':' && !LineEnd(str[j])
    ensures var s := Scan(KEY, 0, 0, 0, 0, 0, headers);
            ScanFrom(str, i, s) == ScanFrom(str, n, s)
    decreases n - i
  {
    if i < n { KeyIsRescanned(str, n, i + 1, headers); }
  }

  /** Dropping the line ends that were skipped changes nothing in how a reading goes on. */
  lemma {:induction false} SkipIsForgotten(skip: string, body: string, i: nat, p: Reading, h: Headers)
    requires i <= |body| && !p.state.START? && p.skip == "" && ReadingOk(p) && body[..i] == TextOf(p)
    ensures ReadOn(skip + body, |skip| + i, p.(skip := skip), h) == ReadOn(body, i, p, h)
    decreases |body| - i
  {
    hide Print, MapOf, ReadingOk, TextOf, LineEnd;
    var str := skip + body;
    var p' := p.(skip := skip);
    if p.state.END_LF? {
      if i < |body| { assert str[|skip| + i + 1..] == body[i + 1..]; }
    } else if i == |body| {
      LineBeginInText(p);
      assert body[..i] == body;
      assert str[LineBegin(p')..] == body[LineBegin(p)..];
    } else {
      assert str[|skip| + i] == body[i];
      if Read(p, body[i]).Some? {
        ReadIsSound(p, body[i]);
        assert body[..i + 1] == body[..i] + [body[i]];
        SkipIsForgotten(skip, body, i + 1, Read(p, body[i]).value, h);
      }
    }
  }

  lemma LineBeginInText(p: Reading)
    requires ReadingOk(p) && !p.state.START?
    ensures 0 <= LineBegin(p) <= |TextOf(p)|
    ensures p.done != [] ==> LineBegin(p) < |TextOf(p)| && TextOf(p)[LineBegin(p)] == '\n'
    ensures p.done == [] && p.state.KEY? ==> TextOf(p)[LineBegin(p)..] == p.key
  {
    EmptyPrint();
    if p.done != [] {
      var line := PrintLine(p.done[|p.done| - 1]);
      assert line[|line| - 1] == '\n';
    }
  }

  /** In the states between a colon and the LF, with the key indices back at zero, the next header stored has an
      empty key. */
  lemma {:induction false} EmptyKeyStored(str: string, i: nat, s: Scan)
    requires i <= |str|
    requires (InHeaderState(s.state) && s.keyStart == 0 && s.keyEnd == 0) || "" in s.headers
    ensures ScanFrom(str, i, s).Success? ==> "" in ScanFrom(str, i, s).headers
    decreases |str| - i
  {
    if !s.state.END_LF? && i < |str| && StepAt(str, i, s).Some? {
      EmptyKeyStored(str, i + 1, StepAt(str, i, s).value);
    }
  }

  predicate InHeaderState(state: ParseState) {
    state.COLON? || state.SPACES_AFTER_COLON? || state.VALUE? || state.CR?
  }

  lemma {:induction false} KeysAreNotEmpty(hs: seq<Header>)
    requires HeadersOk(hs)
    ensures "" !in MapOf(hs, map[])
  {
    if hs != [] { KeysAreNotEmpty(hs[..|hs| - 1]); }
  }

  /** Parsing in two pieces, the second call going on from what the first one left, as handleRead does. */
  function ParseInTwo(first: string, second: string): Outcome {
    var r := ParseHeaders(first, START, map[]);
    if r.Again? then ParseHeaders(r.rest + second, r.state, r.headers) else r
  }

  ghost predicate ResumesRight(first: string) {
    forall second :: ParseInTwo(first, second) == ParseHeaders(first + second, START, map[])
  }

  /** The whole input at once, from the point where the first piece ends. */
  lemma WholeFrom(first: string, second: string, p: Reading, h: Headers)
    requires ReadingOk(p) && TextOf(p) == first
    ensures ParseHeaders(first + second, START, h) == ReadOn(first + second, |first|, p, h)
  {
    hide ParseHeaders, ReadOn, ReadAll, ReadingOk, TextOf;
    assert (first + second)[..|first|] == first;
    ReadAllIsComplete(p);
    ParseIsReadOn(first + second, h);
    ReadOnReaches(first + second, |first|, h);
  }

  /** The second call, going on inside a first key. */
  lemma KeyFrom(q: Reading, second: string)
    requires ReadingOk(q) && q.state.KEY? && q.done == [] && q.skip == "" && q.key[0] != ':'
    ensures ParseHeaders(q.key + second, KEY, map[]) == ReadOn(q.key + second, |q.key|, q, map[])
  {
    hide ScanFrom, ReadOn, KeyOk;
    var n, str := |q.key|, q.key + second;
    var s := Scan(KEY, 0, 0, 0, 0, 0, map[]);
    KeyLetters(q.key);
    assert str[..n] == q.key && forall j :: 0 <= j < n ==> str[j] == q.key[j];
    KeyIsRescanned(str, n, 0, map[]);
    EmptyPrint();
    ScanIsReadOn(str, n, s, q, map[]);
  }

  lemma ResumeInKey(first: string, second: string, p: Reading)
    requires ParseHeaders(first, START, map[]) == Again(p.key, KEY, map[])
    requires ReadingOk(p) && p.state.KEY? && p.done == [] && TextOf(p) == first && p.key[0] != ':'
    ensures ParseInTwo(first, second) == ParseHeaders(first + second, START, map[])
  {
    hide ParseHeaders, ReadOn, KeyOk, SkipOk, Print;
    EmptyPrint();
    var q, body := p.(skip := ""), p.key + second;
    assert first == p.skip + p.key && first + second == p.skip + body && body[..|p.key|] == p.key;
    NoSkip();
    KeyFrom(q, second);
    WholeFrom(first, second, p, map[]);
    SkipIsForgotten(p.skip, body, |p.key|, q, map[]);
  }

  lemma NoSkip()
    ensures SkipOk("")
  {
  }

  lemma KeyLetters(key: string)
    requires KeyOk(key, true)
    ensures key != "" && !LineEnd(key[0]) && forall j :: 1 <= j < |key| ==> key[j] != ':' && !LineEnd(key[j])
  {
  }

  /** What the first call leaves in the buffer begins with the first key, or with the LF of the line before. */
  lemma RestBegins(first: string, p: Reading)
    requires ReadingOk(p) && TextOf(p) == first && !p.state.END_LF? && !p.state.START?
    ensures var rest := Slice(first, LineBegin(p), |first|);
            rest != "" && (if p.done == [] then rest[0] == p.key[0] && !LineEnd(rest[0]) else rest[0] == '\n')
            && (p.state.KEY? && p.done == [] ==> rest == p.key)
  {
    LineBeginInText(p);
    EmptyPrint();
  }

  /** A parse broken off in any other state gives a wrong answer for some continuation. */
  lemma ResumeFails(first: string, p: Reading)
    requires ParseHeaders(first, START, map[])
          == Again(Slice(first, LineBegin(p), |first|), p.state, MapOf(p.done, map[]))
    requires ParseHeaders(first + Completion(p), START, map[]) == Success("", MapOf(Completed(p), map[]))
    requires ReadingOk(p) && TextOf(p) == first && !p.state.END_LF? && !p.state.START?
    requires p.state.KEY? ==> p.done != [] || p.key[0] == ':'
    ensures ParseInTwo(first, Completion(p)) != ParseHeaders(first + Completion(p), START, map[])
  {
    hide TextOf, ReadingOk, Read, ReadAll, MapOf, LineBegin, Completed;
    RestBegins(first, p);
    var rest := Slice(first, LineBegin(p), |first|);
    var str, s := rest + Completion(p), Scan(p.state, 0, 0, 0, 0, 0, MapOf(p.done, map[]));
    CompletedOk(p);
    KeysAreNotEmpty(Completed(p));
    if InHeaderState(p.state) {
      EmptyKeyStored(str, 0, s);
    } else if p.state.END_CR? {
      EndCrRest(first, p);
      assert ScanFrom(str, 0, s) == ScanFrom(str, 1, s.(state := END_LF));
    } else if p.state.LF? {
      LfRest(first, p);
      assert ScanFrom(str, 0, s) == ScanFrom(str, 1, s.(state := KEY, keyStart := 0));
    } else {
      assert StepAt(str, 0, s).None?;
    }
  }

  lemma EndCrRest(first: string, p: Reading)
    requires ReadingOk(p) && p.state.END_CR? && TextOf(p) == first
    ensures Slice(first, LineBegin(p), |first|) == "\n\r"
  {
    LineBeginInText(p);
  }

  lemma LfRest(first: string, p: Reading)
    requires ReadingOk(p) && p.state.LF? && TextOf(p) == first
    ensures Slice(first, LineBegin(p), |first|) == "\n"
  {
    LineBeginInText(p);
  }

  /** Taking a parse up again after PARSE_HEADER_AGAIN gives what parsing the whole input at once gives, whatever
      comes next, exactly when the machine stopped before the first key, or inside the first key and that key does
      not begin with a colon. */
  lemma ResumeExactly(first: string)
    requires ParseHeaders(first, START, map[]).Again?
    ensures var r := ParseHeaders(first, START, map[]);
            ResumesRight(first)
            <==> r.state.START? || (r.state.KEY? && r.rest != "" && r.rest[0] != ':' && r.rest[0] != '\n')
  {
    hide ParseHeaders, TextOf, ReadingOk, MapOf, Completion, Completed, LineBegin;
    var p := UnfinishedParse(first, map[]);
    if p.state.START? {
      StartRest(first, p);
      assert ResumesRight(first);
    } else {
      RestBegins(first, p);
      if p.state.KEY? && p.done == [] && p.key[0] != ':' {
        assert MapOf([], map[]) == map[] by { EmptyMap(); }
        forall second ensures ParseInTwo(first, second) == ParseHeaders(first + second, START, map[]) {
          ResumeInKey(first, second, p);
        }
      } else {
        ResumeFails(first, p);
      }
    }
  }

  lemma EmptyMap()
    ensures MapOf([], map[]) == map[]
  {
  }

  lemma StartRest(first: string, p: Reading)
    requires ReadingOk(p) && p.state.START? && TextOf(p) == first
    ensures Slice(first, LineBegin(p), |first|) == first && MapOf(p.done, map[]) == map[]
  {
  }
}
