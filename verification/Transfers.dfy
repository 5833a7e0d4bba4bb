/**
The unbuffered transfers: rio_readn and rio_writen of csapp/csapp.c, readn and writen of
glacier/utils.cc, and the output buffer of a connection that is written whenever the peer takes some.
*/
module Transfers {
  import opened LogStreams
  import opened RobustIo
  import opened Sequences

  datatype WriteEvent = Takes(most: nat) | TakesNone | Interrupt | Refuses | Breaks

  /** What write(2) returns for `n` bytes. */
  function Result(e: WriteEvent, n: nat): (r: int)
    requires n > 0
    ensures -1 <= r <= n
  {
    match e
    case Takes(k) => if k == 0 then 1 else Min(k, n)
    case TakesNone => 0
    case _ => -1
  }

  function ErrnoOf(e: WriteEvent): Errno {
    match e case Interrupt => EINTR case Refuses => EAGAIN case _ => OTHER
  }

  /** The writing side of a descriptor: the bytes the peer has got. */
  class Sink {
    var sent: string
    var script: seq<WriteEvent>
    var errno: Errno

    constructor (script: seq<WriteEvent>)
      ensures sent == "" && this.script == script && errno == NoError
    {
      sent, this.script, errno := "", script, NoError;
    }

    ghost predicate OnlyShort()
      reads this
    {
      forall k :: 0 <= k < |script| ==> script[k].Takes? || script[k].Interrupt?
    }

    /** write(2): takes a prefix of `bytes`; a return of 0 leaves errno as it was. */
    method Write(bytes: string) returns (r: int)
      requires bytes != ""
      modifies this
      ensures r == if old(script) == [] then |bytes| else Result(old(script)[0], |bytes|)
      ensures sent == if r > 0 then old(sent) + bytes[..r] else old(sent)
      ensures script == if old(script) == [] then [] else old(script)[1..]
      ensures errno == if r >= 0 then old(errno) else ErrnoOf(old(script)[0])
    {
      var most := |bytes|;
      if script != [] {
        var e := script[0];
        script := script[1..];
        match e {
          case Takes(k) => most := if k == 0 then 1 else Min(k, |bytes|);
          case TakesNone => return 0;
          case Interrupt => errno := EINTR; return -1;
          case Refuses => errno := EAGAIN; return -1;
          case Breaks => errno := OTHER; return -1;
        }
      }
      sent := sent + bytes[..most];
      return most;
    }
  }

  /** One more write continues where the last one stopped. */
  lemma SendOn(before: string, bytes: string, k: nat, n: nat)
    requires k + n <= |bytes|
    ensures (before + bytes[..k]) + bytes[k..][..n] == before + bytes[..k + n]
    ensures bytes[k..][n..] == bytes[k + n..]
  {
  }

  /** What has got through is a prefix of the bytes, `k` long. */
  predicate SentPrefix(before: string, bytes: string, k: nat, after: string) {
    k <= |bytes| && after == before + bytes[..k]
  }

  /** One read(2) that goes on filling the user's buffer behind the `k` bytes stored already. */
  method ReadInto(fd: Source, usrbuf: array<char>, k: nat, n: nat, ghost s: string, ghost was: string)
    returns (r: int)
    requires n > 0 && k + n <= usrbuf.Length
    requires TakenOff(k, s, fd.coming) && Stored(usrbuf[..], s, k, was)
    modifies fd, usrbuf
    ensures -1 <= r <= n && |fd.script| <= |old(fd.script)|
    ensures r >= 0 ==> k + r <= |s| && TakenOff(k + r, s, fd.coming) && Stored(usrbuf[..], s, k + r, was)
    ensures r < 0 ==> TakenOff(k, s, fd.coming) && Stored(usrbuf[..], s, k, was) && |fd.script| < |old(fd.script)|
    ensures r == 0 ==> k == |s|
    ensures old(Quiet(fd.script)) ==> Quiet(fd.script) && (r < 0 ==> fd.errno == EINTR)
  {
    ghost var now, rest := usrbuf[..], fd.coming;
    r := fd.Read(usrbuf, k, n);
    if r > 0 {
      assert usrbuf[..] == now[..k] + rest[..r] + now[k + r..];
      StoredOn(now, s, k, was, rest, r, usrbuf[..]);
      TakenOn(k, r, s, rest, fd.coming);
    } else {
      assert usrbuf[..] == now && fd.coming == rest;
    }
  }

  /** rio_readn: like the buffered call, straight from the descriptor. */
  method RioReadn(fd: Source, usrbuf: array<char>, n: nat) returns (r: int)
    requires n <= usrbuf.Length
    modifies fd, usrbuf
    ensures old(Quiet(fd.script)) ==> r >= 0
    ensures r >= 0 ==> r == Min(n, |old(fd.coming)|) && TakenOff(r, old(fd.coming), fd.coming)
                       && Stored(usrbuf[..], old(fd.coming), r, old(usrbuf[..]))
    ensures r < 0 ==> r == -1 && fd.errno != EINTR
                      && exists k: nat :: TakenOff(k, old(fd.coming), fd.coming) && k < n
  {
    hide TakenOff, Stored, Quiet;
    ghost var s, was, quiet := fd.coming, usrbuf[..], Quiet(fd.script);
    var nleft, k := n, 0;
    NothingYet(s, was);
    while nleft > 0
      invariant 0 <= nleft <= n && k == n - nleft && k <= |s|
      invariant quiet ==> Quiet(fd.script)
      invariant TakenOff(k, s, fd.coming) && Stored(usrbuf[..], s, k, was)
      decreases nleft + |fd.script|
    {
      var nread := ReadInto(fd, usrbuf, k, nleft, s, was);
      if nread < 0 {
        if fd.errno == EINTR {
          nread := 0;
        } else {
          return -1;
        }
      } else if nread == 0 {
        break;
      }
      nleft := nleft - nread;
      k := k + nread;
    }
    return n - nleft;
  }

  /** rio_writen: all of it, or an error after a strict prefix. */
  method RioWriten(fd: Sink, bytes: string) returns (r: int)
    modifies fd
    ensures r == |bytes| || r == -1
    ensures r >= 0 ==> fd.sent == old(fd.sent) + bytes
    ensures r < 0 ==> fd.errno != EINTR && exists k: nat :: SentPrefix(old(fd.sent), bytes, k, fd.sent) && k < |bytes|
    ensures old(fd.OnlyShort()) ==> r >= 0
  {
    var nleft, k := |bytes|, 0;
    assert bytes[..0] == "";
    while nleft > 0
      invariant 0 <= nleft && k == |bytes| - nleft
      invariant fd.sent == old(fd.sent) + bytes[..k]
      invariant old(fd.OnlyShort()) ==> fd.OnlyShort()
      decreases nleft + |fd.script|
    {
      var nwritten := fd.Write(bytes[k..]);
      if nwritten <= 0 {
        if fd.errno == EINTR {
          nwritten := 0;
        } else {
          assert SentPrefix(old(fd.sent), bytes, k, fd.sent);
          return -1;
        }
      } else {
        SendOn(old(fd.sent), bytes, k, nwritten);
      }
      nleft := nleft - nwritten;
      k := k + nwritten;
    }
    assert bytes[..k] == bytes;
    return |bytes|;
  }

  /**
  readn: drains the descriptor into the input buffer until it would block, ends or fails.  What was read
  before a failure stays in the buffer.
  */
  method Readn(fd: Source, inBuffer: string) returns (r: int, buffered: string, zero: bool)
    modifies fd
    ensures inBuffer <= buffered
            && TakenOff(|buffered| - |inBuffer|, old(fd.coming), fd.coming)
            && buffered == inBuffer + old(fd.coming)[..|buffered| - |inBuffer|]
    ensures r == |buffered| - |inBuffer| || (r == -1 && fd.errno == OTHER)
    ensures zero ==> r >= 0 && fd.coming == ""
    ensures r >= 0 && !zero ==> fd.errno == EAGAIN
    ensures old(Quiet(fd.script)) ==> zero
  {
    ghost var s := fd.coming;
    zero, buffered := false, inBuffer;
    var readSum := 0;
    assert s[0..] == s && inBuffer + s[..0] == inBuffer;
    while true
      invariant readSum == |buffered| - |inBuffer| && !zero && 0 <= readSum <= |s|
      invariant fd.coming == s[readSum..] && buffered == inBuffer + s[..readSum]
      invariant old(Quiet(fd.script)) ==> Quiet(fd.script)
      decreases |fd.coming| + |fd.script|
    {
      var buff := new char[MAX_BUFF];
      var nread := fd.Read(buff, 0, MAX_BUFF);
      if nread < 0 {
        if fd.errno == EINTR {
          continue;
        } else if fd.errno == EAGAIN {
          return readSum, buffered, false;
        } else {
          return -1, buffered, false;
        }
      } else if nread == 0 {
        zero := true;
        break;
      }
      SendOn(inBuffer, s, readSum, nread);
      readSum := readSum + nread;
      buffered := buffered + buff[..nread];
    }
    return readSum, buffered, zero;
  }

  lemma SentNone(before: string, bytes: string)
    ensures SentPrefix(before, bytes, 0, before)
  {
  }

  lemma SentOn(before: string, bytes: string, k: nat, n: nat, now: string, later: string)
    requires SentPrefix(before, bytes, k, now) && k + n <= |bytes|
    requires later == if n > 0 then now + bytes[k..][..n] else now
    ensures SentPrefix(before, bytes, k + n, later)
  {
    SendOn(before, bytes, k, n);
  }

  /** How a series of writes ends. */
  datatype Ending = AllSent | Blocked | Broken

  /** How many bytes get through, how that ends, and what the descriptor does next. */
  datatype Passage = Passage(taken: nat, ending: Ending, script: seq<WriteEvent>)

  /** What the peer takes of `n` bytes before it refuses or the connection breaks. */
  function Through(script: seq<WriteEvent>, n: nat): (r: Passage)
    ensures r.taken <= n && (r.taken == n <==> r.ending.AllSent?)
    decreases n, |script|
  {
    if n == 0 then Passage(0, AllSent, script)
    else if script == [] then Passage(n, AllSent, [])
    else
      match script[0]
      case Takes(_) =>
        var most := Result(script[0], n);
        var rest := Through(script[1..], n - most);
        rest.(taken := most + rest.taken)
      case TakesNone => Through(script[1..], n)
      case Interrupt => Through(script[1..], n)
      case Refuses => Passage(0, Blocked, script[1..])
      case Breaks => Passage(0, Broken, script[1..])
  }

  /** One write of the series. */
  lemma ThroughOne(script: seq<WriteEvent>, n: nat)
    requires n > 0
    ensures var p, r := Through(script, n), if script == [] then n else Result(script[0], n);
            var rest := if script == [] then [] else script[1..];
            if r >= 0 then
              p == Passage(r + Through(rest, n - r).taken, Through(rest, n - r).ending, Through(rest, n - r).script)
            else if script[0].Interrupt? then p == Through(rest, n)
            else p == Passage(0, if script[0].Refuses? then Blocked else Broken, rest)
  {
  }

  /** The loop both overloads of writen share: -1 on a failure, else how much got through. */
  method WriteLoop(fd: Sink, bytes: string) returns (writeSum: int)
    modifies fd
    ensures var p := Through(old(fd.script), |bytes|);
            SentPrefix(old(fd.sent), bytes, p.taken, fd.sent) && fd.script == p.script
            && writeSum == (if p.ending.Broken? then -1 else p.taken)
            && (p.ending.Blocked? ==> fd.errno == EAGAIN) && (p.ending.Broken? ==> fd.errno == OTHER)
  {
    hide Through, SentPrefix;
    var nleft := |bytes|;
    writeSum := 0;
    SentNone(fd.sent, bytes);
    ghost var all := Through(fd.script, |bytes|);
    while nleft > 0
      invariant 0 <= nleft && writeSum == |bytes| - nleft
      invariant SentPrefix(old(fd.sent), bytes, writeSum, fd.sent)
      invariant all.taken == writeSum + Through(fd.script, nleft).taken
      invariant all.ending == Through(fd.script, nleft).ending && all.script == Through(fd.script, nleft).script
      decreases nleft + |fd.script|
    {
      ThroughOne(fd.script, nleft);
      ghost var now := fd.sent;
      var nwritten := fd.Write(bytes[writeSum..]);
      if nwritten < 0 {
        if fd.errno == EINTR {
          continue;
        } else if fd.errno == EAGAIN {
          return;
        } else {
          return -1;
        }
      }
      SentOn(old(fd.sent), bytes, writeSum, nwritten, now, fd.sent);
      writeSum := writeSum + nwritten;
      nleft := nleft - nwritten;
    }
    ThroughNothing(fd.script);
  }

  lemma ThroughNothing(script: seq<WriteEvent>)
    ensures Through(script, 0) == Passage(0, AllSent, script)
  {
  }

  /**
  writen on a string: what got through leaves the string, unless the connection breaks, when the string keeps
  even the bytes that did get through.
  */
  method Writen(fd: Sink, buf: string) returns (writeSum: int, rest: string)
    modifies fd
    ensures var p := Through(old(fd.script), |buf|);
            SentPrefix(old(fd.sent), buf, p.taken, fd.sent) && fd.script == p.script
            && writeSum == (if p.ending.Broken? then -1 else p.taken)
            && rest == (if p.ending.Broken? then buf else buf[p.taken..])
            && (p.ending.Blocked? ==> fd.errno == EAGAIN) && (p.ending.Broken? ==> fd.errno == OTHER)
    ensures fd.sent + rest == old(fd.sent) + buf <==> SentOnce(old(fd.script), |buf|)
  {
    KeptExactly(fd.script, fd.sent, buf);
    writeSum := WriteLoop(fd, buf);
    if writeSum < 0 { return writeSum, buf; }
    if writeSum == |buf| {
      rest := "";
    } else {
      rest := buf[writeSum..];
    }
  }

  /** No byte is both sent and kept: the connection does not break, or it breaks before it took any. */
  predicate SentOnce(script: seq<WriteEvent>, n: nat) {
    Through(script, n).ending.Broken? ==> Through(script, n).taken == 0
  }

  /** Sent bytes and string together stay the same exactly then. */
  lemma KeptExactly(script: seq<WriteEvent>, sent: string, buf: string)
    ensures var p := Through(script, |buf|);
            (sent + buf[..p.taken]) + (if p.ending.Broken? then buf else buf[p.taken..]) == sent + buf
            <==> SentOnce(script, |buf|)
  {
    hide Through;
    var p := Through(script, |buf|);
    assert (sent + buf[..p.taken]) + buf[p.taken..] == sent + buf;
    if p.ending.Broken? && p.taken > 0 {
      assert |(sent + buf[..p.taken]) + buf| > |sent + buf|;
    }
  }

  /** It takes two events: of two characters one is taken, then the connection breaks. */
  lemma BreakAfterOne()
    ensures Through([Takes(1), Breaks], 2) == Passage(1, Broken, []) && !SentOnce([Takes(1), Breaks], 2)
  {
    hide Through;
    ThroughOne([Takes(1), Breaks], 2);
    assert [Takes(1), Breaks][1..] == [Breaks];
    ThroughOne([Breaks], 1);
    assert [Breaks][1..] == [];
  }

  /** Short writes and interrupts alone never keep a byte back. */
  lemma {:induction false} OnlyShortSendsAll(script: seq<WriteEvent>, n: nat)
    requires forall k :: 0 <= k < |script| ==> script[k].Takes? || script[k].Interrupt?
    ensures Through(script, n).taken == n && Through(script, n).ending == AllSent
    decreases n, |script|
  {
    hide Through;
    if n == 0 {
      ThroughNothing(script);
    } else {
      ThroughOne(script, n);
      if script != [] {
        var r := if script[0].Takes? then Result(script[0], n) else 0;
        OnlyShortSendsAll(script[1..], n - r);
      } else {
        ThroughNothing([]);
      }
    }
  }

  // ---------- the error page ----------

  function PageBody(errNum: int, shortMsg: string): string {
    "<html><title>error</title>" + "<body bgcolor=\"ffffff\">" + Format(Dec, errNum) + " " + shortMsg
    + "<hr><em> LiYansong's Web Server</em>\n</body></html>"
  }

  function PageHead(errNum: int, shortMsg: string): string {
    "HTTP/1.1 " + Format(Dec, errNum) + " " + shortMsg + "\r\n" + "Content-Type: text/html\r\n"
    + "Connection: Close\r\n" + "Content-Length: " + Format(Dec, |PageBody(errNum, shortMsg)|) + "\r\n"
    + "Server: LiYansong's Web Server\r\n" + "\r\n"
  }

  /** A numeral of three digits. */
  lemma ThreeDigits(n: int)
    requires 100 <= n <= 999
    ensures Format(Dec, n) == ['0' + (n / 100) as char, '0' + (n / 10 % 10) as char, '0' + (n % 10) as char]
  {
    hide Radix.Digit;
    DecimalDigit(n % 10);
    DecimalDigit(n / 10 % 10);
    DecimalDigit(n / 100);
    assert n / 10 / 10 == n / 100 && n / 10 / 10 / 10 == 0;
    assert DigitsOf(Dec, n / 100) == [Dec.Digit(n / 100)];
    assert DigitsOf(Dec, n / 10) == [Dec.Digit(n / 100), Dec.Digit(n / 10 % 10)];
  }

  lemma DecimalDigit(d: int)
    requires 0 <= d <= 9
    ensures Dec.Digit(d) == '0' + d as char
  {
  }

  /** The page for a missing file, word for word; its body has 114 characters. */
  lemma NotFoundPage()
    ensures PageBody(404, "Not Found!")
         == "<html><title>error</title>" + "<body bgcolor=\"ffffff\">" + "404" + " " + "Not Found!"
            + "<hr><em> LiYansong's Web Server</em>\n</body></html>"
    ensures PageHead(404, "Not Found!")
         == "HTTP/1.1 " + "404" + " " + "Not Found!" + "\r\n" + "Content-Type: text/html\r\n"
            + "Connection: Close\r\n" + "Content-Length: " + "114" + "\r\n"
            + "Server: LiYansong's Web Server\r\n" + "\r\n"
  {
    hide Format;
    ThreeDigits(404);
    ThreeDigits(114);
    assert Format(Dec, 404) == "404" && Format(Dec, 114) == "114";
    assert |PageBody(404, "Not Found!")| == 114;
  }

  lemma NumeralHasNoBracket(n: int)
    ensures '<' !in Format(Dec, n)
  {
    hide DigitsOf;
    DigitsRead(Dec, n);
    forall i | 0 <= i < |DigitsOf(Dec, n)| ensures DigitsOf(Dec, n)[i] != '<' {
      assert Dec.ValueOf(DigitsOf(Dec, n)[i]) >= 0;
    }
  }

  /** The body begins with a character that no head contains. */
  lemma PageTexts(errNum: int, shortMsg: string)
    requires '<' !in shortMsg
    ensures PageBody(errNum, shortMsg) != "" && PageBody(errNum, shortMsg)[0] == '<'
    ensures PageHead(errNum, shortMsg) != "" && '<' !in PageHead(errNum, shortMsg)
  {
    hide Format, PageBody;
    NumeralHasNoBracket(errNum);
    NumeralHasNoBracket(|PageBody(errNum, shortMsg)|);
    BodyBegins(errNum, shortMsg);
  }

  lemma BodyBegins(errNum: int, shortMsg: string)
    ensures PageBody(errNum, shortMsg) != "" && PageBody(errNum, shortMsg)[0] == '<'
  {
    hide Format;
  }

  /** How much of the two parts of a page gets through: the second is written whatever became of the first. */
  function PageTaken(script: seq<WriteEvent>, head: string, body: string): (r: (nat, nat))
    ensures r.0 <= |head| && r.1 <= |body|
  {
    var first := Through(script, |head|);
    (first.taken, Through(first.script, |body|).taken)
  }

  function PageThrough(script: seq<WriteEvent>, head: string, body: string): string {
    var (a, b) := PageTaken(script, head, body);
    head[..a] + body[..b]
  }

  /** The page has no hole: its head went through whole, or nothing of its body did. */
  predicate NoHole(script: seq<WriteEvent>, head: string, body: string) {
    var (a, b) := PageTaken(script, head, body);
    a == |head| || b == 0
  }

  lemma PrefixBehind(a: string, b: string, c: string)
    ensures a + b <= a + c <==> b <= c
  {
    if a + b <= a + c {
      forall k | 0 <= k < |b| ensures b[k] == c[k] {
        assert (a + b)[|a| + k] == (a + c)[|a| + k];
      }
    }
  }

  /** A page whose body begins with a character that its head does not contain arrives as a prefix of itself exactly
      when it has no hole. */
  lemma PageIsPrefixExactly(script: seq<WriteEvent>, head: string, body: string)
    requires body != "" && body[0] !in head
    ensures PageThrough(script, head, body) <= head + body <==> NoHole(script, head, body)
  {
    hide PageTaken;
    var (a, b) := PageTaken(script, head, body);
    assert head + body == head[..a] + (head[a..] + body);
    PrefixBehind(head[..a], body[..b], head[a..] + body);
    if a == |head| {
      assert head[a..] + body == body;
    } else if b > 0 {
      assert (head[a..] + body)[0] == head[a] && body[..b][0] == body[0];
    }
  }

  /** So every error page of handleError does. */
  lemma ErrorPageIsPrefixExactly(script: seq<WriteEvent>, errNum: int, shortMsg: string)
    requires '<' !in shortMsg
    ensures var head, body := PageHead(errNum, shortMsg), PageBody(errNum, shortMsg);
            PageThrough(script, head, body) <= head + body <==> NoHole(script, head, body)
  {
    hide PageHead, PageBody, PageThrough, NoHole;
    PageTexts(errNum, shortMsg);
    PageIsPrefixExactly(script, PageHead(errNum, shortMsg), PageBody(errNum, shortMsg));
  }

  /** The same seen behind a text that is still waiting and begins unlike the two parts of the page: none of the
      page got through, or nothing was waiting and the page has no hole. */
  lemma SplicedExactly(script: seq<WriteEvent>, waiting: string, head: string, body: string)
    requires head != "" && body != "" && body[0] !in head
    requires waiting != "" ==> waiting[0] != head[0] && waiting[0] != body[0]
    ensures PageThrough(script, head, body) <= waiting + (head + body)
            <==> PageThrough(script, head, body) == "" || (waiting == "" && NoHole(script, head, body))
  {
    hide PageTaken, NoHole;
    var page := PageThrough(script, head, body);
    if waiting == "" {
      assert waiting + (head + body) == head + body;
      PageIsPrefixExactly(script, head, body);
    } else if page != "" {
      assert page[0] == head[0] || page[0] == body[0];
    }
  }

  /** A page with a hole: one character of the head, then the body. */
  lemma PageWithAHole()
    ensures PageThrough([Takes(1), Refuses], "HT", "<b") == "H<b" && !("H<b" <= "HT<b")
  {
    hide Through;
    ThroughOne([Takes(1), Refuses], 2);
    assert [Takes(1), Refuses][1..] == [Refuses];
    ThroughOne([Refuses], 1);
    assert [Refuses][1..] == [];
    ThroughOne([], 2);
    ThroughNothing([]);
    assert "HT"[..1] == "H" && "<b"[..2] == "<b";
    assert "H<b"[1] != "HT<b"[1];
  }

  // ---------- the output of a connection ----------

  /** `n` consecutive positions from `at` on. */
  function Positions(at: nat, n: nat): (r: seq<nat>)
    ensures |r| == n && forall i :: 0 <= i < n ==> r[i] == at + i
  {
    seq(n, i requires 0 <= i < n => at + i)
  }

  /** Everything in its place: the first position first, and none left out. */
  predicate Straight(ps: seq<nat>) {
    forall i :: 0 <= i < |ps| ==> ps[i] == i
  }

  /** What arrived came from these positions of what was produced. */
  predicate CameFrom(sent: string, ps: seq<nat>, produced: string) {
    |ps| == |sent| && forall i :: 0 <= i < |ps| ==> ps[i] < |produced| && sent[i] == produced[ps[i]]
  }

  lemma StraightIsPrefix(sent: string, ps: seq<nat>, produced: string)
    requires CameFrom(sent, ps, produced) && Straight(ps)
    ensures sent <= produced && (|ps| == |produced| <==> sent == produced)
  {
    assert forall i :: 0 <= i < |sent| ==> ps[i] == i;
    if sent != "" { assert ps[|sent| - 1] < |produced|; }
  }

  /** More of what waits, in order. */
  lemma MoreArrives(sent: string, ps: seq<nat>, waiting: string, n: nat)
    requires CameFrom(sent, ps, sent + waiting) && Straight(ps) && n <= |waiting|
    ensures CameFrom(sent + waiting[..n], ps + Positions(|ps|, n), sent + waiting) && Straight(ps + Positions(|ps|, n))
  {
  }

  /** The positions from which the parts of a page come that is produced behind `at` characters. */
  function PagePositions(at: nat, head: string, a: nat, b: nat): seq<nat> {
    Positions(at, a) + Positions(at + |head|, b)
  }

  lemma PageArrives(sent: string, ps: seq<nat>, produced: string, head: string, a: nat, body: string, b: nat)
    requires CameFrom(sent, ps, produced) && a <= |head| && b <= |body|
    ensures CameFrom(sent + (head[..a] + body[..b]), ps + PagePositions(|produced|, head, a, b), produced + head + body)
  {
    var all, later := ps + PagePositions(|produced|, head, a, b), sent + (head[..a] + body[..b]);
    forall i | 0 <= i < |all|
      ensures all[i] < |produced + head + body| && later[i] == (produced + head + body)[all[i]]
    {
      if i < |ps| { assert all[i] == ps[i]; }
    }
  }

  /** The page is in its place exactly when none of it got through, or all that was produced before had been
      sent and the page has no hole. */
  lemma PageIsStraightExactly(ps: seq<nat>, at: nat, head: string, a: nat, b: nat)
    requires |ps| <= at && a <= |head|
    ensures Straight(ps + PagePositions(at, head, a, b))
            <==> Straight(ps) && ((a == 0 && b == 0) || (|ps| == at && (a == |head| || b == 0)))
  {
    var all := ps + PagePositions(at, head, a, b);
    assert forall i :: 0 <= i < |ps| ==> all[i] == ps[i];
    if a > 0 { assert all[|ps|] == at; }
    if b > 0 { assert all[|ps| + a] == at + |head|; }
  }

  lemma SamePlaces(sent: string, ps: seq<nat>, produced: string)
    requires CameFrom(sent, ps, produced)
    ensures |ps| == |sent|
  {
  }

  /**
  What a connection has produced, in order, and what of it has reached the peer.  Without an error that is the
  beginning of it, and the rest waits in the output buffer; `places` are the positions of what has arrived.
  */
  class Output {
    const fd: Sink
    var outBuffer: string
    var error: bool
    ghost var produced: string
    ghost var places: seq<nat>

    ghost predicate Valid()
      reads this, fd
    {
      CameFrom(fd.sent, places, produced) && |places| <= |produced|
      && (!error ==> Straight(places) && fd.sent + outBuffer == produced)
    }

    constructor (fd: Sink)
      requires fd.sent == ""
      ensures Valid() && this.fd == fd && produced == "" && outBuffer == "" && !error
    {
      this.fd := fd;
      outBuffer, error, produced, places := "", false, "", [];
    }

    /** The end of analysisRequest: the header and the file go behind what is waiting.  When the file is not
        found, or cannot be opened, which also drops all that is waiting, an error page is written at once. */
    method Respond(header: string, found: bool, file: Option<string>) returns (ok: bool)
      requires Valid()
      modifies this, fd
      ensures Valid() && ok == (found && file.Some?)
      ensures ok ==> outBuffer == old(outBuffer) + header + file.value
                     && produced == old(produced) + header + file.value && places == old(places)
                     && error == old(error) && fd.sent == old(fd.sent) && fd.script == old(fd.script)
      ensures !ok ==> outBuffer == (if found then "" else old(outBuffer))
      ensures !ok ==> Failed(404, "Not Found!", old(fd.sent), old(fd.script), old(produced), old(places))
    {
      if !found {
        Fail(404, "Not Found!");
        return false;
      }
      outBuffer := outBuffer + header;
      if file.None? {
        outBuffer := "";
        error := true;
        Fail(404, "Not Found!");
        return false;
      }
      outBuffer := outBuffer + file.value;
      produced := produced + header + file.value;
      assert !error ==> fd.sent + outBuffer == produced;
      return true;
    }

    /** A request that cannot be read or parsed. */
    method RejectRequest()
      requires Valid()
      modifies this, fd
      ensures Valid() && outBuffer == old(outBuffer)
      ensures Failed(400, "Bad Request", old(fd.sent), old(fd.script), old(produced), old(places))
    {
      Fail(400, "Bad Request");
    }

    /** The page has been produced behind everything else and written; what the peer has is in order exactly
        when it was before and none of the page got through, or all before it had been sent and it has no hole. */
    ghost predicate Failed(errNum: int, shortMsg: string, sent: string, script: seq<WriteEvent>, before: string,
                           ps: seq<nat>)
      reads this, fd
    {
      var head, body := PageHead(errNum, shortMsg), PageBody(errNum, shortMsg);
      var page := PageThrough(script, head, body);
      error && fd.sent == sent + page && produced == before + head + body
      && (Straight(places) <==> Straight(ps) && (page == "" || (sent == before && NoHole(script, head, body))))
    }

    method Fail(errNum: int, shortMsg: string)
      requires Valid()
      modifies this, fd
      ensures Valid() && outBuffer == old(outBuffer)
      ensures Failed(errNum, shortMsg, old(fd.sent), old(fd.script), old(produced), old(places))
    {
      hide Through, Straight, CameFrom, PageHead, PageBody;
      ghost var head, body := PageHead(errNum, shortMsg), PageBody(errNum, shortMsg);
      ghost var taken := PageTaken(fd.script, head, body);
      PageArrives(fd.sent, places, produced, head, taken.0, body, taken.1);
      PageIsStraightExactly(places, |produced|, head, taken.0, taken.1);
      if Straight(places) { StraightIsPrefix(fd.sent, places, produced); }
      SamePlaces(fd.sent, places, produced);
      HandleError(errNum, shortMsg);
      error := true;
      places := places + PagePositions(|produced|, head, taken.0, taken.1);
      produced := produced + head + body;
    }

    /** handleError: two writes to the descriptor, past the output buffer, whose results are not looked at. */
    method HandleError(errNum: int, shortMsg: string)
      modifies fd
      ensures fd.sent == old(fd.sent)
                         + PageThrough(old(fd.script), PageHead(errNum, shortMsg), PageBody(errNum, shortMsg))
    {
      hide Through, PageHead, PageBody;
      var _ := WriteLoop(fd, PageHead(errNum, shortMsg));
      var _ := WriteLoop(fd, PageBody(errNum, shortMsg));
    }

    /** handleWrite: returns whether it asks to be called again when the peer takes more. */
    method HandleWrite(connected: bool) returns (again: bool)
      requires Valid()
      modifies this`outBuffer, this`error, this`places, fd
      ensures Valid() && old(fd.sent) <= fd.sent
      ensures old(error) || !connected ==> !again && error == old(error) && fd.sent == old(fd.sent)
                                           && outBuffer == old(outBuffer) && fd.script == old(fd.script)
      ensures !old(error) && connected ==>
                var p := Through(old(fd.script), |old(outBuffer)|);
                SentPrefix(old(fd.sent), old(outBuffer), p.taken, fd.sent) && fd.script == p.script
                && Straight(places) && fd.sent <= produced && error == p.ending.Broken?
                && outBuffer == (if error then old(outBuffer) else old(outBuffer)[p.taken..])
                && (again <==> !p.ending.AllSent?) && (again <==> outBuffer != "")
                && (p.ending.AllSent? ==> fd.sent == produced)
    {
      again := false;
      if !error && connected {
        hide Through, Straight, CameFrom;
        KeptExactly(fd.script, fd.sent, outBuffer);
        ghost var n := Through(fd.script, |outBuffer|).taken;
        MoreArrives(fd.sent, places, outBuffer, n);
        SamePlaces(fd.sent, places, produced);
        var r;
        r, outBuffer := Writen(fd, outBuffer);
        if r < 0 {
          error := true;
        }
        places := places + Positions(|places|, n);
        StraightIsPrefix(fd.sent, places, produced);
        if outBuffer != "" { again := true; }
      }
    }
  }

  lemma HeadBegins(errNum: int, shortMsg: string)
    ensures PageHead(errNum, shortMsg) != "" && PageHead(errNum, shortMsg)[0] == 'H'
  {
    hide Format, PageBody;
  }

  /** What the descriptor does to the first response below, and then to the page. */
  lemma CutAfterOne(head: string, body: string)
    ensures Through([Takes(1), Refuses], 2) == Passage(1, Blocked, [])
    ensures PageThrough([], head, body) == head + body
  {
    hide Through;
    ThroughOne([Takes(1), Refuses], 2);
    assert [Takes(1), Refuses][1..] == [Refuses];
    ThroughOne([Refuses], 1);
    assert [Refuses][1..] == [];
    OnlyShortSendsAll([], |head|);
    OnlyShortSendsAll([], |body|);
    assert Through([], |head|).script == [] by { NoScriptLeft(|head|); }
  }

  lemma NoScriptLeft(n: nat)
    ensures Through([], n).script == []
  {
  }

  /** Of a response of two characters one is sent; the next request is for a missing file.  The page goes into
      the middle of the response, and what the peer has is not the beginning of what was produced. */
  method PageInsideResponse() returns (fd: Sink, o: Output)
    ensures var page := PageHead(404, "Not Found!") + PageBody(404, "Not Found!");
            o.fd == fd && fd.sent == "A" + page && o.produced == "AB" + page && !(fd.sent <= o.produced)
  {
    hide Through, PageHead, PageBody, PageThrough, PageTaken, NoHole, Straight, CameFrom;
    ghost var head, body := PageHead(404, "Not Found!"), PageBody(404, "Not Found!");
    CutAfterOne(head, body);
    HeadBegins(404, "Not Found!");
    fd := new Sink([Takes(1), Refuses]);
    o := new Output(fd);
    var ok := o.Respond("A", true, Some("B"));
    OneOfTwo();
    var again := o.HandleWrite(true);
    ok := o.Respond("", false, None);
    PageBehindOne(head, body);
  }

  lemma OneOfTwo()
    ensures "" + "A" + "B" == "AB" && "AB"[..1] == "A" && "" + "A" == "A"
  {
  }

  lemma PageBehindOne(head: string, body: string)
    requires head != "" && head[0] == 'H'
    ensures "AB" + head + body == "AB" + (head + body) && !("A" + (head + body) <= "AB" + (head + body))
  {
    assert ("A" + (head + body))[1] == head[0] && ("AB" + (head + body))[1] == 'B';
  }
}
