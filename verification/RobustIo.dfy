/**
The buffered reader of the Rio package in csapp/csapp.c over a descriptor that may deliver less than it
is asked for, be interrupted, fail or run dry at any time.  The script of
a descriptor says what its next system calls do; when it is used up they do all they are asked.
*/
module RobustIo {
  import opened Sequences

  const RIO_BUFSIZE := 8192
  const MAX_BUFF := 4096

  datatype ReadEvent = Gives(most: nat) | Interrupted | WouldBlock | Fails

  datatype Errno = NoError | EINTR | EAGAIN | OTHER

  /** The reading side of a descriptor: the bytes still to come. */
  class Source {
    var coming: string
    var script: seq<ReadEvent>
    var errno: Errno

    constructor (bytes: string, script: seq<ReadEvent>)
      ensures coming == bytes && this.script == script
    {
      coming, this.script, errno := bytes, script, NoError;
    }

    /** read(2): up to `n` bytes to `buf` from `at` on, at least one unless the stream has ended. */
    method Read(buf: array<char>, at: nat, n: nat) returns (r: int)
      requires at + n <= buf.Length && n > 0
      modifies this, buf
      ensures -1 <= r <= n && r <= |old(coming)|
      ensures r == 0 <==> old(coming) == "" && (old(script) == [] || old(script)[0].Gives?)
      ensures r < 0 <==> old(script) != [] && !old(script)[0].Gives?
      ensures r < 0 ==>
                errno == (match old(script)[0] case Interrupted => EINTR case WouldBlock => EAGAIN case _ => OTHER)
      ensures script == if old(script) == [] then [] else old(script)[1..]
      ensures r >= 0 ==> coming == old(coming)[r..] && buf[at..at + r] == old(coming)[..r]
      ensures r < 0 ==> coming == old(coming)
      ensures forall k :: 0 <= k < buf.Length && !(at <= k < at + r) ==> buf[k] == old(buf[k])
    {
      var most := n;
      if script != [] {
        var e := script[0];
        script := script[1..];
        match e {
          case Gives(k) => most := if k == 0 then 1 else if k < n then k else n;
          case Interrupted => errno := EINTR; return -1;
          case WouldBlock => errno := EAGAIN; return -1;
          case Fails => errno := OTHER; return -1;
        }
      }
      r := if most < |coming| then most else |coming|;
      forall k | 0 <= k < r {
        buf[at + k] := coming[k];
      }
      assert buf[at..at + r] == coming[..r];
      coming := coming[r..];
    }
  }

  /** Short reads and interrupts only. */
  ghost predicate Quiet(script: seq<ReadEvent>) {
    forall k :: 0 <= k < |script| ==> script[k].Gives? || script[k].Interrupted?
  }

  // ---------- what a read should deliver ----------

  function Min(a: int, b: int): int {
    if a < b then a else b
  }

  /** The bytes of a line read with room for `most`: up to and with the first newline. */
  function LineLength(s: string, most: nat): (n: nat)
    ensures n <= most && n <= |s|
  {
    if s == "" || most == 0 then 0
    else if s[0] == '\n' then 1
    else 1 + LineLength(s[1..], most - 1)
  }

  /** A line read stops at the first newline, at `most` bytes or at the end of the stream, and nowhere else. */
  lemma {:induction false} LineStops(s: string, most: nat)
    ensures var n := LineLength(s, most);
            (forall k :: 0 <= k < n - 1 ==> s[k] != '\n')
            && (n == most || n == |s| || (n > 0 && s[n - 1] == '\n'))
  {
    if s != "" && most > 0 && s[0] != '\n' {
      LineStops(s[1..], most - 1);
      var n := LineLength(s, most);
      forall k | 0 <= k < n - 1 ensures s[k] != '\n' { if k > 0 { assert s[k] == s[1..][k - 1]; } }
      if n > 1 { assert s[n - 1] == s[1..][n - 2]; }
    }
  }

  predicate OneLine(s: string, n: nat) {
    n <= |s| && forall k :: 0 <= k < n ==> s[k] != '\n'
  }

  lemma OneLineOn(s: string, n: nat)
    requires OneLine(s, n) && n < |s| && s[n] != '\n'
    ensures OneLine(s, n + 1)
  {
  }

  lemma OneLineTail(s: string, n: nat)
    requires OneLine(s, n) && n > 0
    ensures OneLine(s[1..], n - 1)
  {
    forall k | 0 <= k < n - 1 ensures s[1..][k] != '\n' { assert s[1..][k] == s[k + 1]; }
  }

  /** Without a newline only the room and the end of the stream stop a line. */
  lemma {:induction false} LineAll(s: string, most: nat, i: nat)
    requires OneLine(s, i) && i <= most && (i == |s| || i == most)
    ensures LineLength(s, most) == i
    decreases i
  {
    if i > 0 {
      OneLineTail(s, i);
      LineAll(s[1..], most - 1, i - 1);
    }
  }

  /** A line that ends with the newline at `i`. */
  lemma {:induction false} LineOf(s: string, i: nat, most: nat)
    requires OneLine(s, i) && i < |s| && i < most && s[i] == '\n'
    ensures LineLength(s, most) == i + 1
    decreases i
  {
    if i > 0 {
      OneLineTail(s, i);
      LineOf(s[1..], i - 1, most - 1);
    }
  }

  datatype Call = Readnb(n: nat) | Readlineb(maxlen: nat)

  /** How many bytes a call delivers from the stream. */
  function Delivers(c: Call, s: string): (n: nat)
    ensures n <= |s|
  {
    match c
    case Readnb(n) => Min(n, |s|)
    case Readlineb(maxlen) => if maxlen == 0 then 0 else LineLength(s, maxlen - 1)
  }

  /** A block read delivers `n` bytes or all there are.  A line read delivers no newline but its last byte, and stops at
      one, at one byte less than its room, or at the end; nothing fits into no room. */
  lemma DeliversExactly(n: nat, maxlen: nat, s: string)
    ensures Delivers(Readnb(n), s) == if n <= |s| then n else |s|
    ensures var k := Delivers(Readlineb(maxlen), s);
            (maxlen == 0 ==> k == 0) && (maxlen > 0 ==> k <= maxlen - 1)
            && (forall j :: 0 <= j < k - 1 ==> s[j] != '\n')
            && (maxlen == 0 || k == maxlen - 1 || k == |s| || (k > 0 && s[k - 1] == '\n'))
  {
    if maxlen > 0 { LineStops(s, maxlen - 1); }
  }

  /** What a series of calls delivers, call by call, from a plain byte stream. */
  function Served(cs: seq<Call>, s: string): seq<string> {
    if cs == [] then []
    else
      var n := Delivers(cs[0], s);
      [s[..n]] + Served(cs[1..], s[n..])
  }

  function Left(cs: seq<Call>, s: string): string {
    if cs == [] then s else Left(cs[1..], s[Delivers(cs[0], s)..])
  }

  /** The calls deliver consecutive bytes: none lost, none repeated, none out of order. */
  lemma {:induction false} ServedInOrder(cs: seq<Call>, s: string)
    ensures Flatten(Served(cs, s)) + Left(cs, s) == s && |Served(cs, s)| == |cs|
  {
    hide Delivers;
    if cs != [] {
      var n := Delivers(cs[0], s);
      ServedInOrder(cs[1..], s[n..]);
      FlattenCons(s[..n], Served(cs[1..], s[n..]));
      assert s == s[..n] + s[n..];
    }
  }

  // ---------- the buffered reader ----------

  /** Taking `k` bytes off a stream and then `n` more is taking `k + n` off. */
  lemma TakeOn(s: string, k: nat, n: nat)
    requires k + n <= |s|
    ensures s[k..][n..] == s[k + n..] && s[..k] + s[k..][..n] == s[..k + n]
  {
  }

  /** `after` is the stream `before` without its first `k` bytes. */
  predicate TakenOff(k: nat, before: string, after: string) {
    k <= |before| && after == before[k..]
  }

  /** What taking `n` bytes from what is left means for the stream as a whole. */
  lemma TakenOn(k: nat, n: nat, s: string, now: string, after: string)
    requires TakenOff(k, s, now) && TakenOff(n, now, after)
    ensures TakenOff(k + n, s, after)
  {
  }

  /** The first `n` bytes of the stream stored over what the array held. */
  predicate Stored(now: string, s: string, n: nat, was: string) {
    n <= |s| && n <= |was| && now == s[..n] + was[n..]
  }

  /** The same from an offset on. */
  predicate StoredAt(now: string, at: nat, s: string, n: nat, was: string) {
    n <= |s| && at + n <= |was| && now == was[..at] + s[..n] + was[at + n..]
  }

  lemma StoredOn(now: string, s: string, k: nat, was: string, rest: string, n: nat, later: string)
    requires Stored(now, s, k, was) && TakenOff(k, s, rest) && StoredAt(later, k, rest, n, now)
    ensures Stored(later, s, k + n, was)
  {
    TakeOn(s, k, n);
    StoreOn(now, s[..k], was, rest[..n], later);
  }

  /** Storing `more` behind what was stored already leaves one stored prefix. */
  lemma StoreOn(now: string, got: string, was: string, more: string, later: string)
    requires |got| + |more| <= |was| && now == got + was[|got|..]
    requires later == now[..|got|] + more + now[|got| + |more|..]
    ensures later == (got + more) + was[|got| + |more|..]
  {
    assert now[..|got|] == got;
    assert now[|got| + |more|..] == was[|got| + |more|..];
  }

  /** One character taken and stored. */
  lemma StoreChar(now: string, s: string, n: nat, was: string, rest: string, c: char)
    requires Stored(now, s, n, was) && TakenOff(n, s, rest) && rest != "" && c == rest[0] && n < |was|
    ensures n < |s| && c == s[n] && |now| == |was| && Stored(now[n := c], s, n + 1, was)
  {
  }

  /** The user's buffer after a line read: terminated, or untouched when there was nothing to read. */
  function LineBuffer(s: string, was: string, maxlen: nat, n: nat): string
    requires n <= |s| && n < |was|
  {
    if n == 0 && s == "" && maxlen > 1 then was else s[..n] + ['\0'] + was[n + 1..]
  }

  /** Behind the `n` bytes of the line stands a zero byte and then what was there before; at the end of the stream, with
      room for a byte, nothing has changed. */
  lemma LineBufferExactly(s: string, was: string, maxlen: nat, i: nat)
    requires Delivers(Readlineb(maxlen), s) < |was| && i < |was|
    ensures var n := Delivers(Readlineb(maxlen), s);
            var now := LineBuffer(s, was, maxlen, n);
            |now| == |was|
            && now[i] == if maxlen > 1 && s == "" then was[i] else if i < n then s[i]
                         else if i == n then '\0' else was[i]
  {
  }

  lemma StoreEnd(now: string, s: string, n: nat, was: string, maxlen: nat)
    requires Stored(now, s, n, was) && n < |was| && (n == 0 ==> maxlen <= 1)
    ensures |now| == |was| && now[n := '\0'] == LineBuffer(s, was, maxlen, n)
  {
  }

  lemma NothingYet(s: string, was: string)
    ensures Stored(was, s, 0, was) && OneLine(s, 0) && TakenOff(0, s, s)
  {
  }

  lemma AtEnd(k: nat, s: string)
    requires TakenOff(k, s, "")
    ensures k == |s|
  {
  }

  lemma StoreNothing(now: string, s: string, was: string, maxlen: nat)
    requires Stored(now, s, 0, was) && s == "" && maxlen > 1 && |was| > 0
    ensures now == LineBuffer(s, was, maxlen, 0)
  {
  }

  lemma Within(now: string, s: string, n: nat, was: string)
    requires Stored(now, s, n, was)
    ensures n <= |s| && n <= |was| && |now| == |was|
  {
  }

  lemma DeliversBlock(s: string, n: nat, k: nat)
    requires k <= n && k <= |s| && (k == n || k == |s|)
    ensures Delivers(Readnb(n), s) == k
  {
  }

  lemma DeliversToNewline(s: string, i: nat, maxlen: nat)
    requires OneLine(s, i) && i < |s| && i + 1 < maxlen && s[i] == '\n'
    ensures Delivers(Readlineb(maxlen), s) == i + 1
  {
    LineOf(s, i, maxlen - 1);
  }

  lemma DeliversAll(s: string, i: nat, maxlen: nat)
    requires OneLine(s, i) && if maxlen == 0 then i == 0 else i < maxlen && (i == |s| || i == maxlen - 1)
    ensures Delivers(Readlineb(maxlen), s) == i
  {
    if maxlen > 0 { LineAll(s, maxlen - 1, i); }
  }

  /** memcpy(dst + at, src + from, n). */
  method Copy(src: array<char>, from: nat, dst: array<char>, at: nat, n: nat)
    requires src != dst && from + n <= src.Length && at + n <= dst.Length
    modifies dst
    ensures dst[..] == old(dst[..at]) + src[from..from + n] + old(dst[at + n..])
  {
    forall k | 0 <= k < n {
      dst[at + k] := src[from + k];
    }
  }

  method Put(dst: array<char>, at: nat, c: char)
    requires at < dst.Length
    modifies dst
    ensures dst[..] == old(dst[..])[at := c]
  {
    dst[at] := c;
  }

  class Rio {
    const fd: Source
    const buf: array<char>
    var cnt: int
    var bufptr: nat

    ghost predicate Valid()
      reads this
    {
      buf.Length == RIO_BUFSIZE && (cnt > 0 ==> bufptr + cnt <= buf.Length)
    }

    /** The stream as the caller sees it: what is buffered, then what is still to come. */
    ghost function Stream(): string
      requires Valid()
      reads this, buf, fd
    {
      (if cnt > 0 then buf[bufptr..bufptr + cnt] else "") + fd.coming
    }

    ghost predicate NoFailure()
      reads fd
    {
      Quiet(fd.script)
    }

    constructor (fd: Source)
      ensures Valid() && this.fd == fd && Stream() == fd.coming && fresh(buf)
    {
      this.fd := fd;
      buf := new char[RIO_BUFSIZE];
      cnt, bufptr := 0, 0;
    }

    /** The refill loop of rio_read: 1 when the buffer holds data, 0 at the end of the stream, else -1. */
    method Refill() returns (r: int)
      requires Valid()
      modifies this`cnt, this`bufptr, fd, buf
      ensures Valid() && -1 <= r <= 1 && Stream() == old(Stream())
      ensures old(NoFailure()) ==> r >= 0 && NoFailure()
      ensures r > 0 <==> cnt > 0
      ensures r == 0 ==> Stream() == ""
      ensures r < 0 ==> fd.errno != EINTR
    {
      while cnt <= 0
        invariant Valid() && Stream() == old(Stream())
        invariant old(NoFailure()) ==> NoFailure()
        decreases cnt <= 0, |fd.script|
      {
        ghost var script := fd.script;
        ghost var coming := fd.coming;
        cnt := fd.Read(buf, 0, RIO_BUFSIZE);
        assert forall k :: 0 <= k < |fd.script| ==> fd.script[k] == script[k + 1];
        if cnt < 0 {
          if fd.errno != EINTR { return -1; }
        } else if cnt == 0 {
          return 0;
        } else {
          bufptr := 0;
          assert coming == coming[..cnt] + coming[cnt..];
        }
      }
      return 1;
    }

    /** rio_read: interrupted reads are repeated; short reads and the buffer never show. */
    method RioRead(usrbuf: array<char>, at: nat, n: nat) returns (r: int)
      requires Valid() && usrbuf != buf && at + n <= usrbuf.Length && n > 0
      modifies this`cnt, this`bufptr, fd, buf, usrbuf
      ensures Valid() && -1 <= r <= n
      ensures old(NoFailure()) ==> r >= 0 && NoFailure()
      ensures r <= 0 ==> Stream() == old(Stream()) && usrbuf[..] == old(usrbuf[..])
      ensures r == 0 ==> old(Stream()) == ""
      ensures r > 0 ==> TakenOff(r, old(Stream()), Stream())
      ensures r > 0 ==> StoredAt(usrbuf[..], at, old(Stream()), r, old(usrbuf[..]))
    {
      hide Stream, NoFailure;
      r := Refill();
      if r <= 0 { return; }
      r := n;
      if cnt < n { r := cnt; }
      Copy(buf, bufptr, usrbuf, at, r);
      Advance(r);
    }

    /** The bytes handed out are the first of the stream. */
    method Advance(r: nat)
      requires Valid() && 0 < r <= cnt
      modifies this`cnt, this`bufptr
      ensures Valid() && Stream() == old(Stream())[r..] && r <= |old(Stream())|
      ensures old(buf[bufptr..bufptr + r]) == old(Stream())[..r]
    {
      ghost var s := Stream();
      assert s[..r] == buf[bufptr..bufptr + r];
      assert s[r..] == buf[bufptr + r..bufptr + cnt] + fd.coming;
      bufptr := bufptr + r;
      cnt := cnt - r;
    }

    /** One round of the loop of rio_readnb: up to `n` more bytes go behind the `k` stored already. */
    method NextBytes(usrbuf: array<char>, k: nat, n: nat, ghost s: string, ghost was: string) returns (nread: int)
      requires Valid() && usrbuf != buf && k + n <= usrbuf.Length && n > 0
      requires TakenOff(k, s, Stream()) && Stored(usrbuf[..], s, k, was)
      modifies this`cnt, this`bufptr, fd, buf, usrbuf
      ensures Valid() && -1 <= nread <= n && (old(NoFailure()) ==> nread >= 0 && NoFailure())
      ensures nread < 0 ==> TakenOff(k, s, Stream())
      ensures nread >= 0 ==>
                k + nread <= |s| && TakenOff(k + nread, s, Stream()) && Stored(usrbuf[..], s, k + nread, was)
      ensures nread == 0 ==> k == |s|
    {
      hide Valid, Stream, NoFailure, TakenOff, Stored, StoredAt;
      ghost var now, rest := usrbuf[..], Stream();
      nread := RioRead(usrbuf, k, n);
      if nread > 0 {
        TakenOn(k, nread, s, rest, Stream());
        StoredOn(now, s, k, was, rest, nread, usrbuf[..]);
        Within(usrbuf[..], s, k + nread, was);
      } else if nread == 0 {
        AtEnd(k, s);
      }
    }

    /** rio_readnb: exactly the next `n` bytes, or all that is left when the stream ends before. */
    method RioReadnb(usrbuf: array<char>, n: nat) returns (r: int)
      requires Valid() && usrbuf != buf && n <= usrbuf.Length
      modifies this`cnt, this`bufptr, fd, buf, usrbuf
      ensures Valid() && (old(NoFailure()) ==> r >= 0 && NoFailure())
      ensures r >= 0 ==> r == Delivers(Readnb(n), old(Stream())) && TakenOff(r, old(Stream()), Stream())
                         && Stored(usrbuf[..], old(Stream()), r, old(usrbuf[..]))
      ensures r < 0 ==> r == -1 && exists k: nat :: TakenOff(k, old(Stream()), Stream()) && k < n
    {
      hide Valid, Stream, NoFailure, TakenOff, Stored, Delivers;
      ghost var s, was := Stream(), usrbuf[..];
      var nleft, k := n, 0;
      NothingYet(s, was);
      while nleft > 0
        invariant 0 <= nleft <= n && k == n - nleft && k <= |s|
        invariant Valid() && (old(NoFailure()) ==> NoFailure())
        invariant TakenOff(k, s, Stream()) && Stored(usrbuf[..], s, k, was)
      {
        var nread := NextBytes(usrbuf, k, nleft, s, was);
        if nread < 0 {
          return -1;
        } else if nread == 0 {
          break;
        }
        nleft := nleft - nread;
        k := k + nread;
      }
      DeliversBlock(s, n, k);
      return n - nleft;
    }

    /** One character of the stream, as rio_readlineb asks for it. */
    method ReadChar() returns (rc: int, c: char)
      requires Valid()
      modifies this`cnt, this`bufptr, fd, buf
      ensures Valid() && -1 <= rc <= 1 && (old(NoFailure()) ==> rc >= 0 && NoFailure())
      ensures rc <= 0 ==> Stream() == old(Stream())
      ensures rc == 0 ==> old(Stream()) == ""
      ensures rc == 1 ==> old(Stream()) != "" && c == old(Stream())[0] && TakenOff(1, old(Stream()), Stream())
    {
      hide Valid, Stream, NoFailure;
      var a := new char[1];
      rc := RioRead(a, 0, 1);
      c := a[0];
      assert rc == 1 ==> c == a[..][0];
    }

    /** One round of the loop of rio_readlineb: the next character of the stream goes to `usrbuf[k]`. */
    method NextInLine(usrbuf: array<char>, k: nat, ghost s: string, ghost was: string) returns (rc: int, c: char)
      requires Valid() && usrbuf != buf && k < usrbuf.Length
      requires TakenOff(k, s, Stream()) && Stored(usrbuf[..], s, k, was)
      modifies this`cnt, this`bufptr, fd, buf, usrbuf
      ensures Valid() && -1 <= rc <= 1 && (old(NoFailure()) ==> rc >= 0 && NoFailure())
      ensures rc == 1 ==> k < |s| && c == s[k] && TakenOff(k + 1, s, Stream()) && Stored(usrbuf[..], s, k + 1, was)
      ensures rc <= 0 ==> TakenOff(k, s, Stream()) && Stored(usrbuf[..], s, k, was)
      ensures rc == 0 ==> k == |s|
    {
      hide Valid, Stream, NoFailure, TakenOff, Stored;
      ghost var rest := Stream();
      rc, c := ReadChar();
      if rc == 1 {
        Within(usrbuf[..], s, k, was);
        TakenOn(k, 1, s, rest, Stream());
        StoreChar(usrbuf[..], s, k, was, rest, c);
        Put(usrbuf, k, c);
      } else if rc == 0 {
        AtEnd(k, s);
      }
    }

    /** The loop of rio_readlineb: `stop` is 0 when there was nothing at all to read and -1 on an error. */
    method LineLoop(usrbuf: array<char>, maxlen: nat, ghost was: string) returns (n: int, stop: int)
      requires Valid() && usrbuf != buf && 1 <= usrbuf.Length && maxlen <= usrbuf.Length && was == usrbuf[..]
      modifies this`cnt, this`bufptr, fd, buf, usrbuf
      ensures Valid() && (old(NoFailure()) ==> stop >= 0 && NoFailure())
      ensures 1 <= n <= |was| && TakenOff(n - 1, old(Stream()), Stream())
      ensures Stored(usrbuf[..], old(Stream()), n - 1, was)
      ensures stop >= 0 ==> Delivers(Readlineb(maxlen), old(Stream())) == n - 1
      ensures stop == 0 ==> n == 1 && old(Stream()) == "" && maxlen > 1
      ensures stop == 1 && n == 1 ==> maxlen <= 1
      ensures -1 <= stop <= 1 && (stop < 0 ==> n < maxlen)
    {
      hide Valid, Stream, NoFailure, LineLength, OneLine, TakenOff, Stored, Delivers;
      ghost var s := Stream();
      n := 1;
      NothingYet(s, was);
      while n < maxlen
        invariant Valid() && (old(NoFailure()) ==> NoFailure())
        invariant 1 <= n && (n <= maxlen || n == 1)
        invariant TakenOff(n - 1, s, Stream()) && OneLine(s, n - 1) && Stored(usrbuf[..], s, n - 1, was)
      {
        var rc, c := NextInLine(usrbuf, n - 1, s, was);
        if rc == 1 {
          n := n + 1;
          if c == '\n' {
            DeliversToNewline(s, n - 2, maxlen);
            return n, 1;
          }
          OneLineOn(s, n - 2);
        } else if rc == 0 {
          DeliversAll(s, n - 1, maxlen);
          return n, if n == 1 then 0 else 1;
        } else {
          return n, -1;
        }
      }
      DeliversAll(s, n - 1, maxlen);
      return n, 1;
    }

    /** rio_readlineb: the next line, cut at `maxlen - 1` bytes, and a terminator - except at the end of the
        stream. */
    method RioReadlineb(usrbuf: array<char>, maxlen: nat) returns (r: int)
      requires Valid() && usrbuf != buf && 1 <= usrbuf.Length && maxlen <= usrbuf.Length
      modifies this`cnt, this`bufptr, fd, buf, usrbuf
      ensures Valid() && (old(NoFailure()) ==> r >= 0 && NoFailure())
      ensures r >= 0 ==> r == Delivers(Readlineb(maxlen), old(Stream())) && TakenOff(r, old(Stream()), Stream())
      ensures r >= 0 ==> r < usrbuf.Length
                         && usrbuf[..] == LineBuffer(old(Stream()), old(usrbuf[..]), maxlen, r)
      ensures r < 0 ==> r == -1 && exists k: nat :: TakenOff(k, old(Stream()), Stream()) && k + 1 < maxlen
    {
      hide Valid, Stream, NoFailure, TakenOff, Stored, Delivers, LineBuffer;
      ghost var s, was := Stream(), usrbuf[..];
      var n, stop := LineLoop(usrbuf, maxlen, was);
      if stop == 0 {
        StoreNothing(usrbuf[..], s, was, maxlen);
        return 0;
      } else if stop < 0 {
        return -1;
      }
      StoreEnd(usrbuf[..], s, n - 1, was, maxlen);
      Put(usrbuf, n - 1, '\0');
      return n - 1;
    }
  }

  lemma LineBufferText(s: string, was: string, maxlen: nat, n: nat)
    requires n <= |s| && n < |was|
    ensures n <= |LineBuffer(s, was, maxlen, n)| && LineBuffer(s, was, maxlen, n)[..n] == s[..n]
  {
  }

  /** Any mix of block and line reads: what they deliver depends on the bytes alone, not on how they arrive. */
  method Serve(rio: Rio, cs: seq<Call>) returns (got: seq<string>)
    requires rio.Valid() && rio.NoFailure()
    modifies rio`cnt, rio`bufptr, rio.fd, rio.buf
    ensures rio.Valid() && got == Served(cs, old(rio.Stream())) && rio.Stream() == Left(cs, old(rio.Stream()))
  {
    got := [];
    ghost var s := rio.Stream();
    var i := 0;
    while i < |cs|
      invariant 0 <= i <= |cs| && rio.Valid() && rio.NoFailure()
      invariant got + Served(cs[i..], rio.Stream()) == Served(cs, s)
      invariant Left(cs[i..], rio.Stream()) == Left(cs, s)
    {
      var text := ServeOne(rio, cs[i]);
      assert cs[i..][1..] == cs[i + 1..];
      got := got + [text];
      i := i + 1;
    }
  }

  method ServeOne(rio: Rio, c: Call) returns (text: string)
    requires rio.Valid() && rio.NoFailure()
    modifies rio`cnt, rio`bufptr, rio.fd, rio.buf
    ensures rio.Valid() && rio.NoFailure()
    ensures var n := Delivers(c, old(rio.Stream()));
            text == old(rio.Stream())[..n] && rio.Stream() == old(rio.Stream())[n..]
  {
    hide Delivers, LineBuffer;
    ghost var s := rio.Stream();
    var r;
    match c {
      case Readnb(n) =>
        var usrbuf := new char[n];
        r := rio.RioReadnb(usrbuf, n);
        text := usrbuf[..r];
        assert usrbuf[..][..r] == usrbuf[..r];
      case Readlineb(maxlen) =>
        var usrbuf := new char[maxlen + 1];
        ghost var was := usrbuf[..];
        r := rio.RioReadlineb(usrbuf, maxlen);
        text := usrbuf[..r];
        LineBufferText(s, was, maxlen, r);
        assert usrbuf[..][..r] == usrbuf[..r];
    }
  }
}
