/**
The first two stages of HttpData::handleRead in glacier/httpdata.cc, called again whenever more of a
request has come in: a printed request gives the same answer in one piece and in any pieces whose
boundaries stay in front of the end of the first key.
*/
module HttpChunks {
  import opened HttpHeaders
  import opened HttpRequests
  import opened Sequences

  datatype Stage = ParsingUri | ParsingHeaders | Parsed | Failed

  /** The members the two stages use. */
  datatype Conn = Conn(buffer: string, stage: Stage, target: Target, state: ParseState, headers: Headers)

  function NewConn(t: Target): Conn {
    Conn("", ParsingUri, t, START, map[])
  }

  // ---------- the code ----------

  function UriStage(c: Conn): Conn {
    var r := ParseURI(c.buffer, c.target);
    match r.flag
    case PARSE_URI_AGAIN => c
    case PARSE_URI_ERROR => Conn("", Failed, r.target, c.state, c.headers)
    case PARSE_URI_SUCCESS => Conn(r.rest, ParsingHeaders, r.target, c.state, c.headers)
  }

  function HeaderStage(c: Conn): Conn {
    match ParseHeaders(c.buffer, c.state, c.headers)
    case Success(rest, hs) => Conn(rest, Parsed, c.target, END_LF, hs)
    case Again(rest, state, hs) => Conn(rest, ParsingHeaders, c.target, state, hs)
    case Error(hs) => c.(stage := Failed, headers := hs)
  }

  /** One call: the chunk goes to the buffer, then each stage that is due. */
  function Feed(c: Conn, chunk: string): Conn {
    var c0 := c.(buffer := c.buffer + chunk);
    var c1 := if c0.stage.ParsingUri? then UriStage(c0) else c0;
    if c1.stage.ParsingHeaders? then HeaderStage(c1) else c1
  }

  function FeedAll(c: Conn, cs: seq<string>): Conn {
    if cs == [] then c else Feed(FeedAll(c, cs[..|cs| - 1]), cs[|cs| - 1])
  }

  // ---------- errors ----------

  /** A request line without a method word ends the parse: the buffer is emptied, and nothing is taken from the line. */
  lemma BadLineFails(c: Conn, chunk: string, line: string, rest: string)
    requires c.stage.ParsingUri? && c.buffer + chunk == line + "\r" + rest && '\r' !in line
    requires Absent(line, "GET") && Absent(line, "POST") && Absent(line, "HEAD")
    ensures Feed(c, chunk) == Conn("", Failed, c.target, c.state, c.headers)
  {
    hide ParseLine, ParseHeaders, Find;
    var str := line + "\r" + rest;
    assert FirstAt(str, '\r', 0, |line|) by {
      forall j | 0 <= j < |line| ensures str[j] != '\r' { assert str[j] == line[j] && line[j] in line; }
    }
    FindFirst(str, '\r', 0, |line|);
    assert str[..|line|] == line;
    NoMethodIsError(line, c.target);
  }

  /** A header error ends the parse and leaves the buffer as it is. */
  lemma BadHeadersFail(c: Conn, chunk: string)
    requires c.stage.ParsingHeaders? && ParseHeaders(c.buffer + chunk, c.state, c.headers).Error?
    ensures Feed(c, chunk).stage == Failed && Feed(c, chunk).buffer == c.buffer + chunk
    ensures Feed(c, chunk).target == c.target
  {
    hide ParseHeaders;
  }

  /** What comes after the end of the two stages only waits in the buffer. */
  lemma EndedOnlyCollects(c: Conn, chunk: string)
    requires c.stage.Parsed? || c.stage.Failed?
    ensures Feed(c, chunk) == c.(buffer := c.buffer + chunk)
  {
  }

  // ---------- a printed request ----------

  /** What follows the CR of the request line. */
  function HeaderText(hs: seq<Header>): string {
    "\n" + Print(hs) + "\r\n"
  }

  /** How much of the header text may be in before a boundary: the LF and, unless it begins with a colon, the
      first key. */
  function SafeLength(hs: seq<Header>): nat
    requires hs != [] && hs[0].key != ""
  {
    if hs[0].key[0] == ':' then 1 else 1 + |hs[0].key|
  }

  lemma CrOccurs(s: string, i: nat)
    ensures OccursAt(s, "\r", i) ==> i < |s| && s[i] == '\r'
  {
    if OccursAt(s, "\r", i) { assert s[i..i + 1][0] == s[i]; }
  }

  /** Before its CR is in, the request line is awaited. */
  lemma LineAwaited(m: Method, path: string, v: Version, n: nat, t: Target)
    requires PathOk(path) && n <= |PrintRequestLine(m, path, v)|
    ensures ParseURI(PrintRequestLine(m, path, v)[..n], t)
         == UriOutcome(PARSE_URI_AGAIN, PrintRequestLine(m, path, v)[..n], t)
  {
    hide ParseLine, Find, PrintRequestLine;
    var str := PrintRequestLine(m, path, v)[..n];
    LineHasNoCr(m, path, v);
    var r := Find(str, "\r", 0);
    forall j | 0 <= j ensures !OccursAt(str, "\r", j) { CrOccurs(str, j); }
  }

  /** A fresh parse of the text of an unfinished reading. */
  lemma ReadingIsAwaited(p: Reading)
    requires ReadingOk(p) && !p.state.END_LF?
    ensures ParseHeaders(TextOf(p), START, map[])
         == Again(Slice(TextOf(p), LineBegin(p), |TextOf(p)|), p.state, MapOf(p.done, map[]))
  {
    hide ParseHeaders, TextOf, ReadingOk, ReadAll, LineBegin, MapOf;
    var str := TextOf(p);
    ReadAllIsComplete(p);
    ParseIsReadOn(str, map[]);
    assert str[..|str|] == str;
    ReadOnReaches(str, |str|, map[]);
  }

  /** Where the header machine stands inside the safe part of the header text. */
  function SafeReading(hs: seq<Header>, j: nat): Reading
    requires hs != [] && hs[0].key != "" && j <= SafeLength(hs)
  {
    if j <= 1 then Reading(START, "\n"[..j], [], "", "") else Reading(KEY, "\n", [], hs[0].key[..j - 1], "")
  }

  lemma PrintBegins(hs: seq<Header>)
    requires hs != []
    ensures PrintLine(hs[0]) <= Print(hs)
  {
    if |hs| == 1 {
      assert hs[..0] == [];
    } else {
      PrintBegins(hs[..|hs| - 1]);
      assert Print(hs[..|hs| - 1]) <= Print(hs);
    }
  }

  lemma SafeText(hs: seq<Header>, j: nat)
    requires HeadersOk(hs) && hs != [] && j <= SafeLength(hs)
    ensures j < |HeaderText(hs)| && HeaderText(hs)[..j] == TextOf(SafeReading(hs, j)) && ReadingOk(SafeReading(hs, j))
  {
    hide Print;
    PrintBegins(hs);
    EmptyPrint();
    var key := hs[0].key;
    assert PrintLine(hs[0])[..|key|] == key && Print(hs)[..|key|] == PrintLine(hs[0])[..|key|];
    if j > 1 { assert HeaderText(hs)[..j] == "\n" + key[..j - 1]; }
  }

  /** The connection once `j` characters of the header text are in: they are safe, or they are all. */
  function HeaderConn(hs: seq<Header>, j: nat, target: Target): Conn
    requires hs != [] && hs[0].key != "" && (j <= SafeLength(hs) || j == |HeaderText(hs)|)
  {
    if j <= SafeLength(hs) then
      var p := SafeReading(hs, j);
      Conn(if p.state.START? then "\n"[..j] else p.key, ParsingHeaders, target, p.state, map[])
    else Conn("", Parsed, target, END_LF, MapOf(hs, map[]))
  }

  /** Parsed afresh, that much of the header text gives that connection. */
  lemma HeadersArrive(hs: seq<Header>, j: nat, target: Target)
    requires HeadersOk(hs) && hs != [] && (j <= SafeLength(hs) || j == |HeaderText(hs)|)
    ensures j <= |HeaderText(hs)|
    ensures HeaderStage(Conn(HeaderText(hs)[..j], ParsingHeaders, target, START, map[])) == HeaderConn(hs, j, target)
    ensures j <= SafeLength(hs) ==>
              ParseHeaders(HeaderText(hs)[..j], START, map[])
              == Again(HeaderConn(hs, j, target).buffer, HeaderConn(hs, j, target).state, map[])
  {
    hide ParseHeaders, Print;
    if j <= SafeLength(hs) {
      SafeText(hs, j);
      ReadingIsAwaited(SafeReading(hs, j));
      EmptyPrint();
      EmptyMap();
    } else {
      WholeText(hs);
    }
  }

  lemma WholeText(hs: seq<Header>)
    requires HeadersOk(hs) && hs != []
    ensures ParseHeaders(HeaderText(hs)[..|HeaderText(hs)|], START, map[]) == Success("", MapOf(hs, map[]))
  {
    hide ParseHeaders, Print, MapOf, HeadersOk;
    var text := HeaderText(hs);
    assert text + "" == text == text[..|text|];
    BlocksAreAccepted(text, "\n", hs, "", map[]);
  }

  /** Going on from a safe place is parsing all of it at once. */
  lemma HeadersGoOn(hs: seq<Header>, j: nat, second: string, target: Target)
    requires HeadersOk(hs) && hs != [] && j <= SafeLength(hs)
    ensures j <= |HeaderText(hs)|
    ensures var c := HeaderConn(hs, j, target);
            ParseHeaders(c.buffer + second, c.state, map[]) == ParseHeaders(HeaderText(hs)[..j] + second, START, map[])
  {
    hide ParseHeaders, HeaderText, HeaderStage, HeadersOk;
    HeadersArrive(hs, j, target);
    SafeBuffer(hs, j, target);
    var first := HeaderText(hs)[..j];
    ResumeExactly(first);
    assert ParseInTwo(first, second) == ParseHeaders(first + second, START, map[]);
  }

  lemma SafeBuffer(hs: seq<Header>, j: nat, target: Target)
    requires HeadersOk(hs) && hs != [] && j <= SafeLength(hs)
    ensures var c := HeaderConn(hs, j, target);
            c.state.START? || (c.state.KEY? && c.buffer != "" && c.buffer[0] != ':' && c.buffer[0] != '\n')
  {
    assert KeyOk(hs[0].key, true);
  }

  // ---------- all chunks ----------

  /** The connection once `n` characters of a printed request are in. */
  function RequestConn(m: Method, path: string, v: Version, hs: seq<Header>, n: nat, t: Target): Conn
    requires hs != [] && hs[0].key != "" && SafeOffset(m, path, v, hs, n)
  {
    var line := PrintRequestLine(m, path, v);
    if n <= |line| then Conn(line[..n], ParsingUri, t, START, map[])
    else HeaderConn(hs, n - |line| - 1, Target(m, FileOf(path), v))
  }

  /** A place where a request may be cut: before the end of its first key, or its end. */
  predicate SafeOffset(m: Method, path: string, v: Version, hs: seq<Header>, n: nat)
    requires hs != [] && hs[0].key != ""
  {
    n <= |PrintRequestLine(m, path, v)| + 1 + SafeLength(hs)
    || n == |PrintRequestLine(m, path, v)| + 1 + |HeaderText(hs)|
  }

  /** From one such place to a later one. */
  lemma FeedOn(m: Method, path: string, v: Version, hs: seq<Header>, t: Target, n: nat, n': nat, req: string)
    requires PathOk(path) && Unmistaken(m, path) && HeadersOk(hs) && hs != []
    requires req == PrintRequestLine(m, path, v) + "\r" + HeaderText(hs)
    requires hs[0].key != "" && n <= n' <= |req| && SafeOffset(m, path, v, hs, n) && SafeOffset(m, path, v, hs, n')
    ensures Feed(RequestConn(m, path, v, hs, n, t), req[n..n']) == RequestConn(m, path, v, hs, n', t)
  {
    hide PrintRequestLine, HeaderText, HeaderConn, HeaderStage, ParseURI, ParseHeaders, PathOk, Unmistaken, HeadersOk;
    var line, text, target := PrintRequestLine(m, path, v), HeaderText(hs), Target(m, FileOf(path), v);
    if n' <= |line| {
      assert req[n..n'] == line[n..n'] && line[..n] + line[n..n'] == line[..n'];
      LineAwaited(m, path, v, n', t);
    } else {
      var j' := n' - |line| - 1;
      HeadersArrive(hs, j', target);
      if n <= |line| {
        CutInLine(line, text, n, j');
        LineArrives(m, path, v, text[..j'], t);
        HeaderConnStage(hs, j', target);
      } else {
        CutInText(line, text, n - |line| - 1, j');
        FeedHeaders(hs, n - |line| - 1, j', target);
      }
    }
  }

  lemma CutInLine(line: string, text: string, n: nat, j: nat)
    requires n <= |line| && j <= |text|
    ensures line[..n] + (line + "\r" + text)[n..|line| + 1 + j] == line + "\r" + text[..j]
  {
  }

  lemma CutInText(line: string, text: string, i: nat, j: nat)
    requires i <= j <= |text|
    ensures (line + "\r" + text)[|line| + 1 + i..|line| + 1 + j] == text[i..j]
  {
  }

  lemma HeaderConnStage(hs: seq<Header>, j: nat, target: Target)
    requires hs != [] && hs[0].key != "" && (j <= SafeLength(hs) || j == |HeaderText(hs)|)
    ensures var c := HeaderConn(hs, j, target);
            c.target == target && if j <= SafeLength(hs) then c.stage.ParsingHeaders? && c.headers == map[]
                                  else c.stage.Parsed?
  {
    hide HeaderText, SafeReading, SafeLength;
  }

  lemma FeedHeaders(hs: seq<Header>, i: nat, j: nat, target: Target)
    requires HeadersOk(hs) && hs != [] && hs[0].key != "" && i <= j
    requires (i <= SafeLength(hs) || i == |HeaderText(hs)|) && (j <= SafeLength(hs) || j == |HeaderText(hs)|)
    requires j <= |HeaderText(hs)|
    ensures Feed(HeaderConn(hs, i, target), HeaderText(hs)[i..j]) == HeaderConn(hs, j, target)
  {
    hide HeaderText, HeaderConn, ParseHeaders, HeadersOk, SafeLength, UriStage;
    var text, c := HeaderText(hs), HeaderConn(hs, i, target);
    HeaderConnStage(hs, i, target);
    if i <= SafeLength(hs) {
      HeadersGoOn(hs, i, text[i..j], target);
      assert text[..i] + text[i..j] == text[..j];
      HeadersArrive(hs, j, target);
      HeaderConnStage(hs, j, target);
    } else {
      assert text[i..j] == "" && c.buffer + "" == c.buffer;
    }
  }

  /** The chunks so far. */
  function Offset(cs: seq<string>): nat {
    |Flatten(cs)|
  }

  lemma {:induction false} FeedsAreConns(m: Method, path: string, v: Version, hs: seq<Header>, t: Target,
                                         cs: seq<string>, rest: string)
    requires PathOk(path) && Unmistaken(m, path) && HeadersOk(hs) && hs != [] && hs[0].key != ""
    requires Flatten(cs) + rest == PrintRequestLine(m, path, v) + "\r" + HeaderText(hs)
    requires forall k :: 0 <= k <= |cs| ==> SafeOffset(m, path, v, hs, Offset(cs[..k]))
    ensures cs[..|cs|] == cs && SafeOffset(m, path, v, hs, Offset(cs))
    ensures FeedAll(NewConn(t), cs) == RequestConn(m, path, v, hs, Offset(cs), t)
    decreases |cs|
  {
    hide PrintRequestLine, HeaderText, HeaderConn, Feed, SafeOffset, PathOk, Unmistaken, HeadersOk, Flatten;
    assert cs[..|cs|] == cs;
    if cs == [] {
      NothingFed(m, path, v, hs, t);
    } else {
      var init, last := cs[..|cs| - 1], cs[|cs| - 1];
      assert cs == init + [last];
      FlattenSnoc(init, last);
      assert forall k :: 0 <= k <= |init| ==> init[..k] == cs[..k];
      assert Flatten(init) + (last + rest) == Flatten(cs) + rest;
      FeedsAreConns(m, path, v, hs, t, init, last + rest);
      var req := Flatten(cs) + rest;
      assert req[Offset(init)..Offset(cs)] == last;
      FeedOn(m, path, v, hs, t, Offset(init), Offset(cs), req);
    }
  }

  lemma NothingFed(m: Method, path: string, v: Version, hs: seq<Header>, t: Target)
    requires hs != [] && hs[0].key != ""
    ensures Offset([]) == 0 && SafeOffset(m, path, v, hs, 0) && RequestConn(m, path, v, hs, 0, t) == NewConn(t)
  {
  }

  /** A printed request, cut anywhere before the end of its first key and nowhere behind it, gives what it gives
      in one piece: method, file name, version and all headers, with nothing left over. */
  lemma ChunksAsWhole(m: Method, path: string, v: Version, hs: seq<Header>, t: Target, cs: seq<string>)
    requires PathOk(path) && Unmistaken(m, path) && HeadersOk(hs) && hs != [] && hs[0].key != ""
    requires Flatten(cs) == PrintRequest(m, path, v, hs)
    requires forall k :: 0 <= k <= |cs| ==> SafeOffset(m, path, v, hs, Offset(cs[..k]))
    ensures FeedAll(NewConn(t), cs) == Conn("", Parsed, Target(m, FileOf(path), v), END_LF, MapOf(hs, map[]))
    ensures FeedAll(NewConn(t), cs) == FeedAll(NewConn(t), [PrintRequest(m, path, v, hs)])
  {
    hide PrintRequestLine, SafeOffset, PathOk, Unmistaken, HeadersOk, Flatten, Feed, FeedAll, MapOf, Print;
    var req, line, text := PrintRequest(m, path, v, hs), PrintRequestLine(m, path, v), HeaderText(hs);
    assert req == line + "\r" + text && Flatten(cs) + "" == req && Flatten([req]) + "" == req by { FlattenOne(req); }
    FeedsAreConns(m, path, v, hs, t, cs, "");
    OnePiece(m, path, v, hs, req);
    FeedsAreConns(m, path, v, hs, t, [req], "");
    FinishedConn(m, path, v, hs, t);
  }

  lemma FlattenOne(x: string)
    ensures Flatten([x]) == x && Flatten<char>([]) == []
  {
    FlattenSnoc([], x);
    assert [] + [x] == [x];
  }

  lemma OnePiece(m: Method, path: string, v: Version, hs: seq<Header>, req: string)
    requires hs != [] && hs[0].key != "" && |req| == |PrintRequestLine(m, path, v)| + 1 + |HeaderText(hs)|
    ensures forall k :: 0 <= k <= |[req]| ==> SafeOffset(m, path, v, hs, Offset([req][..k]))
    ensures Offset([req]) == |req|
  {
    hide PrintRequestLine, HeaderText;
    FlattenOne(req);
    assert [req][..0] == [] && [req][..1] == [req];
  }

  lemma FinishedConn(m: Method, path: string, v: Version, hs: seq<Header>, t: Target)
    requires HeadersOk(hs) && hs != [] && hs[0].key != ""
    ensures var n := |PrintRequestLine(m, path, v)| + 1 + |HeaderText(hs)|;
            SafeOffset(m, path, v, hs, n)
            && RequestConn(m, path, v, hs, n, t)
               == Conn("", Parsed, Target(m, FileOf(path), v), END_LF, MapOf(hs, map[]))
  {
    hide PrintRequestLine, Print, MapOf;
    SafeText(hs, SafeLength(hs));
  }

  // ---------- what follows a request ----------

  /** The header stage once all of the header text is in, and what follows it. */
  function EndConn(hs: seq<Header>, tail: string, target: Target): Conn {
    Conn(if tail == "" then "" else tail[1..], Parsed, target, END_LF, MapOf(hs, map[]))
  }

  lemma BlockParses(hs: seq<Header>, tail: string, target: Target)
    requires HeadersOk(hs) && hs != []
    ensures HeaderStage(Conn(HeaderText(hs) + tail, ParsingHeaders, target, START, map[]))
         == EndConn(hs, tail, target)
    ensures ParseHeaders(HeaderText(hs) + tail, START, map[]).Success?
  {
    hide ParseHeaders, HeadersOk, MapOf, Print;
    BlocksAreAccepted(HeaderText(hs), "\n", hs, tail, map[]);
  }

  /** The header stage depends on what the parse gives, and not on how the buffer came about. */
  lemma SameStage(c: Conn, second: string, whole: string)
    requires ParseHeaders(c.buffer + second, c.state, map[]) == ParseHeaders(whole, START, map[])
    requires c.headers == map[] && !ParseHeaders(whole, START, map[]).Error?
    ensures HeaderStage(c.(buffer := c.buffer + second, stage := ParsingHeaders))
         == HeaderStage(Conn(whole, ParsingHeaders, c.target, START, map[]))
  {
    hide ParseHeaders;
  }

  lemma EndInLine(m: Method, path: string, v: Version, hs: seq<Header>, t: Target, n: nat, tail: string)
    requires PathOk(path) && Unmistaken(m, path) && HeadersOk(hs) && hs != []
    requires n <= |PrintRequestLine(m, path, v)|
    ensures var line := PrintRequestLine(m, path, v);
            Feed(Conn(line[..n], ParsingUri, t, START, map[]), line[n..] + "\r" + HeaderText(hs) + tail)
            == EndConn(hs, tail, Target(m, FileOf(path), v))
  {
    hide PrintRequestLine, HeaderStage, ParseURI, HeaderText, PathOk, Unmistaken, HeadersOk, EndConn;
    var line, text := PrintRequestLine(m, path, v), HeaderText(hs);
    assert line[..n] + (line[n..] + "\r" + text + tail) == line + "\r" + (text + tail);
    LineArrives(m, path, v, text + tail, t);
    BlockParses(hs, tail, Target(m, FileOf(path), v));
  }

  lemma EndInText(hs: seq<Header>, j: nat, tail: string, target: Target)
    requires HeadersOk(hs) && hs != [] && hs[0].key != "" && j <= SafeLength(hs)
    ensures j <= |HeaderText(hs)|
    ensures Feed(HeaderConn(hs, j, target), HeaderText(hs)[j..] + tail) == EndConn(hs, tail, target)
  {
    hide HeaderStage, HeaderConn, ParseHeaders, HeaderText, HeadersOk, SafeLength, EndConn;
    var c, text := HeaderConn(hs, j, target), HeaderText(hs);
    HeadersArrive(hs, j, target);
    HeaderConnStage(hs, j, target);
    HeadersGoOn(hs, j, text[j..] + tail, target);
    assert text[..j] + (text[j..] + tail) == text + tail;
    BlockParses(hs, tail, target);
    SameStage(c, text[j..] + tail, text + tail);
  }

  /** The end of a request comes in, with what follows it. */
  lemma EndArrives(m: Method, path: string, v: Version, hs: seq<Header>, t: Target, n: nat, tail: string, req: string)
    requires PathOk(path) && Unmistaken(m, path) && HeadersOk(hs) && hs != [] && hs[0].key != ""
    requires req == PrintRequestLine(m, path, v) + "\r" + HeaderText(hs)
    requires n <= |PrintRequestLine(m, path, v)| + 1 + SafeLength(hs) && n <= |req|
    ensures Feed(RequestConn(m, path, v, hs, n, t), req[n..] + tail) == EndConn(hs, tail, Target(m, FileOf(path), v))
  {
    hide PrintRequestLine, HeaderConn, HeaderText, Feed, PathOk, Unmistaken, HeadersOk, EndConn, SafeLength;
    var line, text := PrintRequestLine(m, path, v), HeaderText(hs);
    if n <= |line| {
      EndInLine(m, path, v, hs, t, n, tail);
      assert req[n..] + tail == line[n..] + "\r" + text + tail;
    } else {
      var j := n - |line| - 1;
      EndInText(hs, j, tail, Target(m, FileOf(path), v));
      assert req[n..] == text[j..];
    }
  }

  lemma TextOfHeaders(hs: seq<Header>)
    ensures HeaderText(hs) == "\n" + Print(hs) + "\r\n"
  {
  }

  /** A printed request that ends in the same chunk as more text begins: the answer is that of the request alone, and
      of what follows it one character is lost. */
  lemma ChunksAndMore(m: Method, path: string, v: Version, hs: seq<Header>, t: Target, cs: seq<string>,
                      last: string, tail: string)
    requires PathOk(path) && Unmistaken(m, path) && HeadersOk(hs) && hs != [] && hs[0].key != ""
    requires Flatten(cs) + last == PrintRequest(m, path, v, hs)
    requires forall k :: 0 <= k <= |cs| ==>
                           |Flatten(cs[..k])| <= |PrintRequestLine(m, path, v)| + 1 + SafeLength(hs)
    ensures FeedAll(NewConn(t), cs + [last + tail])
         == Conn(if tail == "" then "" else tail[1..], Parsed, Target(m, FileOf(path), v), END_LF, MapOf(hs, map[]))
  {
    hide PrintRequestLine, PathOk, Unmistaken, HeadersOk, Flatten, Feed, MapOf, SafeLength, HeaderText;
    var req := PrintRequest(m, path, v, hs);
    assert req == PrintRequestLine(m, path, v) + "\r" + HeaderText(hs) by { TextOfHeaders(hs); }
    assert cs[..|cs|] == cs;
    FeedsAreConns(m, path, v, hs, t, cs, last);
    assert req[|Flatten(cs)|..] == last;
    EndArrives(m, path, v, hs, t, |Flatten(cs)|, tail, req);
    var all := cs + [last + tail];
    assert all[..|all| - 1] == cs;
  }
}
