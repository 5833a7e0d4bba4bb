/**
HttpData::parseURI of glacier/httpdata.cc, the printer it is the inverse of, and the class whose
members both parsing methods update.
*/
module HttpRequests {
  import opened Sequences
  import opened HttpHeaders

  datatype Method = POST | GET | HEAD

  datatype Version = HTTP_10 | HTTP_11

  /** The members parseURI sets: method_, filename_ and version_. */
  datatype Target = Target(verb: Method, filename: string, version: Version)

  datatype UriState = PARSE_URI_AGAIN | PARSE_URI_ERROR | PARSE_URI_SUCCESS

  datatype UriOutcome = UriOutcome(flag: UriState, rest: string, target: Target)

  // ---------- std::string::find ----------

  predicate OccursAt(s: string, word: string, i: int) {
    0 <= i && i + |word| <= |s| && s[i..i + |word|] == word
  }

  /** The first occurrence at or after `from`. */
  function Find(s: string, word: string, from: nat): (r: Option<nat>)
    ensures r.Some? ==> r.value >= from && OccursAt(s, word, r.value)
    ensures forall i :: from <= i && (r.Some? ==> i < r.value) ==> !OccursAt(s, word, i)
    decreases |s| - from
  {
    if from + |word| > |s| then None
    else if OccursAt(s, word, from) then Some(from)
    else Find(s, word, from + 1)
  }

  // ---------- the code ----------

  /** The part of parseURI that looks at the complete request line. */
  function ParseLine(line: string, t: Target): (UriState, Target) {
    var posGet := Find(line, "GET", 0);
    var posPost := Find(line, "POST", 0);
    var posHead := Find(line, "HEAD", 0);
    if posGet.Some? then ParsePath(line, posGet.value, t.(verb := GET))
    else if posPost.Some? then ParsePath(line, posPost.value, t.(verb := POST))
    else if posHead.Some? then ParsePath(line, posHead.value, t.(verb := HEAD))
    else (PARSE_URI_ERROR, t)
  }

  function ParsePath(line: string, from: nat, t: Target): (UriState, Target) {
    match Find(line, "/", from)
    case None => (PARSE_URI_SUCCESS, t.(filename := "index.html", version := HTTP_11))
    case Some(pos) =>
      match Find(line, " ", pos)
      case None => (PARSE_URI_ERROR, t)
      case Some(end) =>
        var name := if end - pos > 1 then UpToQuery(line[pos + 1..end]) else "index.html";
        ParseVersion(line, end, t.(filename := name))
  }

  function UpToQuery(s: string): string {
    match Find(s, "?", 0)
    case Some(q) => s[..q]
    case None => s
  }

  function ParseVersion(line: string, from: nat, t: Target): (UriState, Target) {
    match Find(line, "/", from)
    case None => (PARSE_URI_ERROR, t)
    case Some(pos) =>
      if |line| - pos <= 3 then (PARSE_URI_ERROR, t)
      else if line[pos + 1..pos + 4] == "1.0" then (PARSE_URI_SUCCESS, t.(version := HTTP_10))
      else if line[pos + 1..pos + 4] == "1.1" then (PARSE_URI_SUCCESS, t.(version := HTTP_11))
      else (PARSE_URI_ERROR, t)
  }

  function ParseURI(str: string, t: Target): UriOutcome {
    match Find(str, "\r", 0)
    case None => UriOutcome(PARSE_URI_AGAIN, str, t)
    case Some(pos) =>
      var rest := if |str| > pos + 1 then str[pos + 1..] else "";
      var (flag, target) := ParseLine(str[..pos], t);
      UriOutcome(flag, rest, target)
  }

  // ---------- what a line answers ----------

  lemma FindIs(s: string, word: string, from: nat, i: nat)
    requires from <= i && OccursAt(s, word, i) && forall j :: from <= j < i ==> !OccursAt(s, word, j)
    ensures Find(s, word, from) == Some(i)
  {
    hide Find;
    var r := Find(s, word, from);
  }

  function MethodName(m: Method): string {
    match m case GET => "GET" case POST => "POST" case HEAD => "HEAD"
  }

  /** `i` is the first place of `c` from `from` on. */
  predicate FirstAt(s: string, c: char, from: nat, i: nat) {
    from <= i < |s| && s[i] == c && forall j :: from <= j < i ==> s[j] != c
  }

  predicate NoneFrom(s: string, c: char, from: nat) {
    forall j :: from <= j < |s| ==> s[j] != c
  }

  predicate Absent(s: string, word: string) {
    forall i :: 0 <= i < |s| ==> !OccursAt(s, word, i)
  }

  /** The method of a line, and where its word begins: GET before POST before HEAD, wherever in the line they are. */
  predicate Chosen(line: string, m: Method, i: nat) {
    OccursAt(line, MethodName(m), i) && (forall j :: 0 <= j < i ==> !OccursAt(line, MethodName(m), j))
    && (m.GET? || Absent(line, "GET")) && (m.HEAD? ==> Absent(line, "POST"))
  }

  /** The file a path names: all of it, or what stands before its first question mark; none is index.html. */
  predicate NamesFile(path: string, file: string) {
    if path == "" then file == "index.html"
    else '?' !in file && (file == path || (|file| < |path| && file == path[..|file|] && path[|file|] == '?'))
  }

  lemma CharOccurs(s: string, c: char, i: nat)
    ensures OccursAt(s, [c], i) <==> i < |s| && s[i] == c
  {
    if i < |s| { assert s[i..i + 1] == [s[i]]; }
  }

  lemma FindFirst(s: string, c: char, from: nat, i: nat)
    requires FirstAt(s, c, from, i)
    ensures Find(s, [c], from) == Some(i)
  {
    hide Find, OccursAt;
    CharOccurs(s, c, i);
    forall j | from <= j < i ensures !OccursAt(s, [c], j) { CharOccurs(s, c, j); }
    FindIs(s, [c], from, i);
  }

  lemma FindNone(s: string, c: char, from: nat)
    requires NoneFrom(s, c, from)
    ensures Find(s, [c], from) == None
  {
    hide Find, OccursAt;
    forall j | from <= j ensures !OccursAt(s, [c], j) { CharOccurs(s, c, j); }
    var r := Find(s, [c], from);
  }

  lemma FindAbsent(s: string, word: string)
    requires Absent(s, word) && word != ""
    ensures Find(s, word, 0) == None
  {
    hide Find;
    var r := Find(s, word, 0);
  }

  lemma UpToQueryIs(path: string)
    ensures path != "" ==> NamesFile(path, UpToQuery(path))
  {
    hide Find, OccursAt;
    var r := Find(path, "?", 0);
    forall j | 0 <= j < |path| ensures path[j] == '?' <==> OccursAt(path, "?", j) { CharOccurs(path, '?', j); }
    if r.Some? { CharOccurs(path, '?', r.value); }
  }

  lemma NamesOneFile(path: string, a: string, b: string)
    requires NamesFile(path, a) && NamesFile(path, b)
    ensures a == b
  {
    if path != "" {
      assert forall k :: 0 <= k < |a| ==> path[k] == a[k] && a[k] != '?';
      assert forall k :: 0 <= k < |b| ==> path[k] == b[k] && b[k] != '?';
    }
  }

  /** A line without a method word is an error. */
  lemma NoMethodIsError(line: string, t: Target)
    requires Absent(line, "GET") && Absent(line, "POST") && Absent(line, "HEAD")
    ensures ParseLine(line, t) == (PARSE_URI_ERROR, t)
  {
    hide Find;
    FindAbsent(line, "GET");
    FindAbsent(line, "POST");
    FindAbsent(line, "HEAD");
  }

  lemma ChosenIsParsed(line: string, m: Method, i: nat, t: Target)
    requires Chosen(line, m, i)
    ensures ParseLine(line, t) == ParsePath(line, i, t.(verb := m))
  {
    hide Find, ParsePath;
    FindIs(line, MethodName(m), 0, i);
    if !m.GET? { FindAbsent(line, "GET"); }
    if m.HEAD? { FindAbsent(line, "POST"); }
  }

  /** Without a slash behind the method word the line asks for index.html, in version 1.1. */
  lemma NoSlashIsIndex(line: string, m: Method, i: nat, t: Target)
    requires Chosen(line, m, i) && NoneFrom(line, '/', i)
    ensures ParseLine(line, t) == (PARSE_URI_SUCCESS, Target(m, "index.html", HTTP_11))
  {
    hide Find, ParseLine;
    ChosenIsParsed(line, m, i, t);
    FindNone(line, '/', i);
  }

  /** A path that no blank ends is an error. */
  lemma NoBlankIsError(line: string, m: Method, i: nat, p: nat, t: Target)
    requires Chosen(line, m, i) && FirstAt(line, '/', i, p) && NoneFrom(line, ' ', p)
    ensures ParseLine(line, t).0 == PARSE_URI_ERROR
  {
    hide Find, ParseLine;
    ChosenIsParsed(line, m, i, t);
    FindFirst(line, '/', i, p);
    FindNone(line, ' ', p);
  }

  /** So is a line without a slash behind its path. */
  lemma NoVersionIsError(line: string, m: Method, i: nat, p: nat, e: nat, t: Target)
    requires Chosen(line, m, i) && FirstAt(line, '/', i, p) && FirstAt(line, ' ', p, e) && NoneFrom(line, '/', e)
    ensures ParseLine(line, t).0 == PARSE_URI_ERROR
  {
    hide Find, ParseLine;
    ChosenIsParsed(line, m, i, t);
    FindFirst(line, '/', i, p);
    FindFirst(line, ' ', p, e);
    FindNone(line, '/', e);
  }

  /** The three characters behind a slash are a version that is known. */
  predicate GoodVersion(line: string, q: nat) {
    q + 4 <= |line| && line[q + 1] == '1' && line[q + 2] == '.' && (line[q + 3] == '0' || line[q + 3] == '1')
  }

  lemma VersionIs(line: string, e: nat, q: nat, t: Target)
    requires FirstAt(line, '/', e, q)
    ensures var r := ParseVersion(line, e, t);
            (r.0 == PARSE_URI_SUCCESS <==> GoodVersion(line, q)) && (r.0 == PARSE_URI_ERROR <==> !GoodVersion(line, q))
            && r.1.verb == t.verb && r.1.filename == t.filename
            && (GoodVersion(line, q) ==> r.1.version == if line[q + 3] == '0' then HTTP_10 else HTTP_11)
  {
    hide Find;
    FindFirst(line, '/', e, q);
    if q + 4 <= |line| {
      var v := line[q + 1..q + 4];
      assert v[0] == line[q + 1] && v[1] == line[q + 2] && v[2] == line[q + 3];
      assert v == [v[0], v[1], v[2]];
    }
  }

  /** Every other line is right exactly when the three characters behind that slash are 1.0 or 1.1, and gives its
      method, the file its path names and that version. */
  lemma VersionDecides(line: string, m: Method, i: nat, p: nat, e: nat, q: nat, t: Target)
    requires Chosen(line, m, i) && FirstAt(line, '/', i, p) && FirstAt(line, ' ', p, e) && FirstAt(line, '/', e, q)
    ensures var r := ParseLine(line, t);
            (r.0 == PARSE_URI_SUCCESS <==> GoodVersion(line, q)) && (r.0 == PARSE_URI_ERROR <==> !GoodVersion(line, q))
            && r.1.verb == m && NamesFile(line[p + 1..e], r.1.filename)
            && (GoodVersion(line, q) ==> r.1.version == if line[q + 3] == '0' then HTTP_10 else HTTP_11)
  {
    hide Find, ParseLine, UpToQuery, ParseVersion, GoodVersion, Chosen;
    ChosenIsParsed(line, m, i, t);
    FindFirst(line, '/', i, p);
    FindFirst(line, ' ', p, e);
    UpToQueryIs(line[p + 1..e]);
    var name := if e - p > 1 then UpToQuery(line[p + 1..e]) else "index.html";
    VersionIs(line, e, q, t.(verb := m, filename := name));
  }

  // ---------- chunks ----------

  /** However the bytes came in, once the line is complete the answer is final: more input only adds to what is
      left over.  Before that the call changes nothing. */
  lemma UriOfChunks(first: string, second: string, t: Target)
    ensures var r := ParseURI(first, t);
            if r.flag.PARSE_URI_AGAIN? then r == UriOutcome(PARSE_URI_AGAIN, first, t)
            else ParseURI(first + second, t) == r.(rest := r.rest + second)
  {
    hide Find, ParseLine;
    var r := Find(first, "\r", 0);
    if r.Some? {
      var pos := r.value;
      var str := first + second;
      assert OccursAt(str, "\r", pos) by { assert first[pos..pos + 1][0] == str[pos]; }
      forall j | 0 <= j < pos ensures !OccursAt(str, "\r", j) {
        assert !OccursAt(first, "\r", j);
        assert first[j..j + 1] == str[j..j + 1];
      }
      FindIs(str, "\r", 0, pos);
      assert str[..pos] == first[..pos];
      assert str[pos + 1..] == first[pos + 1..] + second;
      LineNeverAgain(first[..pos], t);
    }
  }

  lemma LineNeverAgain(line: string, t: Target)
    ensures !ParseLine(line, t).0.PARSE_URI_AGAIN?
  {
    hide Find;
  }

  // ---------- printing a request ----------

  function VersionName(v: Version): string {
    if v == HTTP_10 then "1.0" else "1.1"
  }

  function PrintRequestLine(m: Method, path: string, v: Version): string {
    MethodName(m) + " /" + path + " HTTP/" + VersionName(v)
  }

  predicate Contains(s: string, word: string) {
    exists i :: 0 <= i < |s| && OccursAt(s, word, i)
  }

  predicate PathOk(path: string) {
    forall i :: 0 <= i < |path| ==> path[i] != ' ' && path[i] != '\r'
  }

  /** The file a path names: up to the query, `index.html` for the empty path. */
  function FileOf(path: string): string {
    if path == "" then "index.html" else UpToQuery(path)
  }

  /** No method word that parseURI looks for before `m` occurs in the path. */
  predicate Unmistaken(m: Method, path: string) {
    match m
    case GET => true
    case POST => !Contains(path, "GET")
    case HEAD => !Contains(path, "GET") && !Contains(path, "POST")
  }

  lemma OccurrenceLetters(s: string, word: string, i: int)
    ensures OccursAt(s, word, i) ==> forall j :: 0 <= j < |word| ==> s[i + j] == word[j]
  {
    if OccursAt(s, word, i) {
      forall j | 0 <= j < |word| ensures s[i + j] == word[j] {
        assert s[i..i + |word|][j] == s[i + j];
      }
    }
  }

  lemma FindBetween(s: string, word: string, from: nat, i: nat)
    requires word != "" && from <= i && OccursAt(s, word, i)
    requires forall j :: from <= j < i ==> s[j] != word[0]
    ensures Find(s, word, from) == Some(i)
  {
    hide Find;
    forall j | from <= j < i ensures !OccursAt(s, word, j) {
      OccurrenceLetters(s, word, j);
      assert s[j + 0] != word[0];
    }
    FindIs(s, word, from, i);
  }

  lemma LineHead(m: Method, path: string, v: Version)
    ensures var line, n := PrintRequestLine(m, path, v), |MethodName(m)|;
            3 <= n <= 4 && |line| == n + |path| + 11
            && (forall j :: 0 <= j < n ==> line[j] == MethodName(m)[j]) && line[n] == ' ' && line[n + 1] == '/'
  {
  }

  lemma LinePath(m: Method, path: string, v: Version)
    ensures var line, at := PrintRequestLine(m, path, v), |MethodName(m)| + 2;
            |line| == at + |path| + 9 && line[at..at + |path|] == path
            && forall j :: at <= j < at + |path| ==> line[j] == path[j - at]
  {
    var head, tail := MethodName(m) + " /", " HTTP/" + VersionName(v);
    assert PrintRequestLine(m, path, v) == head + path + tail;
  }

  lemma LineTail(m: Method, path: string, v: Version)
    ensures var line, end := PrintRequestLine(m, path, v), |MethodName(m)| + 2 + |path|;
            |line| == end + 9 && line[end..] == " HTTP/" + VersionName(v)
  {
    var head, tail := MethodName(m) + " /" + path, " HTTP/" + VersionName(v);
    assert PrintRequestLine(m, path, v) == head + tail;
  }

  lemma TailLetters(v: Version)
    ensures var tail := " HTTP/" + VersionName(v);
            |tail| == 9 && tail[0] == ' ' && tail[1] == 'H' && tail[2] == tail[3] == 'T' && tail[4] == 'P'
            && tail[5] == '/' && tail[6] == '1' && tail[7] == '.' && (tail[8] == '0' || tail[8] == '1')
            && tail[6..9] == VersionName(v)
  {
  }

  /** Where the parts of a printed request line are. */
  lemma LineParts(m: Method, path: string, v: Version)
    ensures var line, n := PrintRequestLine(m, path, v), |MethodName(m)|;
            var end := n + 2 + |path|;
            3 <= n <= 4 && |line| == end + 9
            && (forall j :: 0 <= j < n ==> line[j] == MethodName(m)[j]) && line[n] == ' ' && line[n + 1] == '/'
            && line[n + 2..end] == path && (forall j :: n + 2 <= j < end ==> line[j] == path[j - n - 2])
            && line[end] == ' ' && line[end + 1] == 'H' && line[end + 2] == line[end + 3] == 'T'
            && line[end + 4] == 'P' && line[end + 5] == '/' && line[end + 6..end + 9] == VersionName(v)
            && line[end + 6] == '1' && line[end + 7] == '.' && (line[end + 8] == '0' || line[end + 8] == '1')
  {
    hide PrintRequestLine, MethodName, VersionName;
    LineHead(m, path, v);
    LinePath(m, path, v);
    LineTail(m, path, v);
    TailLetters(v);
    var line, end := PrintRequestLine(m, path, v), |MethodName(m)| + 2 + |path|;
    var tail := line[end..];
    assert line[end + 6..end + 9] == tail[6..9];
    assert line[end] == tail[0] && line[end + 1] == tail[1] && line[end + 2] == tail[2] && line[end + 3] == tail[3];
    assert line[end + 4] == tail[4] && line[end + 5] == tail[5] && line[end + 6] == tail[6];
    assert line[end + 7] == tail[7] && line[end + 8] == tail[8];
  }

  lemma VersionIsParsed(m: Method, path: string, v: Version, t: Target)
    ensures ParseVersion(PrintRequestLine(m, path, v), |MethodName(m)| + 2 + |path|, t)
         == (PARSE_URI_SUCCESS, t.(version := v))
  {
    hide Find, PrintRequestLine;
    LineParts(m, path, v);
    var end := |MethodName(m)| + 2 + |path|;
    FindBetween(PrintRequestLine(m, path, v), "/", end, end + 5);
  }

  /** From the method word on, the file name and the version are recovered. */
  lemma PathIsParsed(m: Method, path: string, v: Version, t: Target)
    requires PathOk(path)
    ensures ParsePath(PrintRequestLine(m, path, v), 0, t)
         == (PARSE_URI_SUCCESS, t.(filename := FileOf(path), version := v))
  {
    hide Find, PrintRequestLine, UpToQuery, ParseVersion;
    var line, n := PrintRequestLine(m, path, v), |MethodName(m)|;
    LineParts(m, path, v);
    FindBetween(line, "/", 0, n + 1);
    FindBetween(line, " ", n + 1, n + 2 + |path|);
    VersionIsParsed(m, path, v, t.(filename := FileOf(path)));
  }

  /** An earlier-ranked method word cannot touch the method, the blanks or the version of a printed line. */
  lemma WordIsInside(m: Method, path: string, v: Version, word: string, i: nat)
    requires (word == "GET" && !m.GET?) || (word == "POST" && m.HEAD?)
    requires OccursAt(PrintRequestLine(m, path, v), word, i)
    ensures |MethodName(m)| + 2 <= i && i + |word| <= |MethodName(m)| + 2 + |path|
  {
    hide PrintRequestLine, OccursAt;
    var line := PrintRequestLine(m, path, v);
    LineParts(m, path, v);
    WithinLine(line, word, i);
    OccurrenceLetters(line, word, i);
    assert line[i + 0] == word[0] && line[i + 1] == word[1] && line[i + 2] == word[2];
    assert |word| == 4 ==> line[i + 3] == word[3];
  }

  lemma WithinLine(s: string, word: string, i: nat)
    requires OccursAt(s, word, i)
    ensures i + |word| <= |s|
  {
  }

  /** So its occurrence in the line is one in the path. */
  lemma WordIsInPath(m: Method, path: string, v: Version, word: string, i: nat)
    requires (word == "GET" && !m.GET?) || (word == "POST" && m.HEAD?)
    requires OccursAt(PrintRequestLine(m, path, v), word, i)
    ensures Contains(path, word)
  {
    hide PrintRequestLine;
    WordIsInside(m, path, v, word, i);
    LineParts(m, path, v);
    var line, at := PrintRequestLine(m, path, v), |MethodName(m)| + 2;
    assert path[i - at..i - at + |word|] == line[i..i + |word|];
    assert OccursAt(path, word, i - at);
  }

  lemma PathIsInLine(m: Method, path: string, v: Version, word: string, i: nat)
    requires OccursAt(path, word, i)
    ensures OccursAt(PrintRequestLine(m, path, v), word, |MethodName(m)| + 2 + i)
  {
    LineParts(m, path, v);
    var line, n := PrintRequestLine(m, path, v), |MethodName(m)|;
    assert line[n + 2 + i..n + 2 + i + |word|] == path[i..i + |word|];
  }

  lemma OwnWord(m: Method, path: string, v: Version)
    ensures Find(PrintRequestLine(m, path, v), MethodName(m), 0) == Some(0)
  {
    LineParts(m, path, v);
    FindIs(PrintRequestLine(m, path, v), MethodName(m), 0, 0);
  }

  /** An earlier-ranked word is found in the line exactly when it occurs in the path. */
  lemma EarlierWord(m: Method, path: string, v: Version, word: string)
    requires (word == "GET" && !m.GET?) || (word == "POST" && m.HEAD?)
    ensures Find(PrintRequestLine(m, path, v), word, 0).Some? <==> Contains(path, word)
  {
    hide Find, PrintRequestLine;
    var r := Find(PrintRequestLine(m, path, v), word, 0);
    if r.Some? { WordIsInPath(m, path, v, word, r.value); }
    if Contains(path, word) {
      var i :| 0 <= i < |path| && OccursAt(path, word, i);
      PathIsInLine(m, path, v, word, i);
    }
  }

  /** parseURI recovers the method, the file name and the version of a printed request line exactly when the
      path holds none of the method words it looks for first. */
  lemma LineRoundTrip(m: Method, path: string, v: Version, t: Target)
    requires PathOk(path)
    ensures ParseLine(PrintRequestLine(m, path, v), t) == (PARSE_URI_SUCCESS, Target(m, FileOf(path), v))
            <==> Unmistaken(m, path)
  {
    hide Find, PrintRequestLine, ParsePath, Contains;
    var line := PrintRequestLine(m, path, v);
    OwnWord(m, path, v);
    PathIsParsed(m, path, v, t.(verb := m));
    if !m.GET? { EarlierWord(m, path, v, "GET"); }
    if m.HEAD? { EarlierWord(m, path, v, "POST"); }
    PathKeepsVerb(line, t);
  }

  lemma PathKeepsVerb(line: string, t: Target)
    ensures forall from: nat, u: Target :: ParsePath(line, from, u).1.verb == u.verb
  {
    hide Find;
  }

  lemma LineHasNoCr(m: Method, path: string, v: Version)
    requires PathOk(path)
    ensures forall j :: 0 <= j < |PrintRequestLine(m, path, v)| ==> PrintRequestLine(m, path, v)[j] != '\r'
  {
  }

  /** Parsing the request line is done once its CR is in. */
  lemma LineArrives(m: Method, path: string, v: Version, x: string, t: Target)
    requires PathOk(path) && Unmistaken(m, path)
    ensures ParseURI(PrintRequestLine(m, path, v) + "\r" + x, t)
         == UriOutcome(PARSE_URI_SUCCESS, x, Target(m, FileOf(path), v))
  {
    hide ParseLine, Find, PrintRequestLine, Unmistaken;
    var line := PrintRequestLine(m, path, v);
    var str := line + "\r" + x;
    LineHasNoCr(m, path, v);
    assert str[|line|..|line| + 1] == "\r";
    assert forall j :: 0 <= j < |line| ==> str[j] == line[j];
    FindBetween(str, "\r", 0, |line|);
    assert str[..|line|] == line && str[|line| + 1..] == x;
    LineRoundTrip(m, path, v, t);
  }

  /** Of a printed line the query is cut off the file name, a path without one is the file name, and the empty path is
      index.html. */
  lemma PrintedFile(m: Method, file: string, query: string, v: Version, t: Target)
    requires '?' !in file
    ensures PathOk(file + "?" + query) && Unmistaken(m, file + "?" + query) ==>
              ParseLine(PrintRequestLine(m, file + "?" + query, v), t) == (PARSE_URI_SUCCESS, Target(m, file, v))
    ensures PathOk(file) && Unmistaken(m, file) && file != "" ==>
              ParseLine(PrintRequestLine(m, file, v), t) == (PARSE_URI_SUCCESS, Target(m, file, v))
    ensures ParseLine(PrintRequestLine(m, "", v), t) == (PARSE_URI_SUCCESS, Target(m, "index.html", v))
  {
    hide ParseLine, PrintRequestLine, UpToQuery, PathOk, Unmistaken;
    var path := file + "?" + query;
    UpToQueryIs(path);
    NamesOneFile(path, file, UpToQuery(path));
    if file != "" {
      UpToQueryIs(file);
      NamesOneFile(file, file, UpToQuery(file));
    }
    if PathOk(path) { LineRoundTrip(m, path, v, t); }
    if PathOk(file) { LineRoundTrip(m, file, v, t); }
    EmptyPathIsFine(m);
    LineRoundTrip(m, "", v, t);
  }

  lemma EmptyPathIsFine(m: Method)
    ensures PathOk("") && Unmistaken(m, "")
  {
  }

  /** A printed request: the line, one header or more, the empty line. */
  function PrintRequest(m: Method, path: string, v: Version, hs: seq<Header>): string {
    PrintRequestLine(m, path, v) + "\r" + ("\n" + Print(hs) + "\r\n")
  }

  /** The whole request comes back: parseURI gives the request line and leaves the rest to parseHeaders, which
      gives the header map; what follows the request loses its first character. */
  lemma RequestRoundTrip(m: Method, path: string, v: Version, hs: seq<Header>, tail: string, t: Target)
    requires PathOk(path) && Unmistaken(m, path) && HeadersOk(hs) && hs != []
    ensures var r := ParseURI(PrintRequest(m, path, v, hs) + tail, t);
            r.flag.PARSE_URI_SUCCESS? && r.target == Target(m, FileOf(path), v)
            && ParseHeaders(r.rest, START, map[])
               == Success(if tail == "" then "" else tail[1..], MapOf(hs, map[]))
  {
    hide ParseURI, HeadersOk, Print, MapOf, ParseHeaders, PrintRequestLine, Unmistaken, PathOk;
    var line, block := PrintRequestLine(m, path, v), "\n" + Print(hs) + "\r\n";
    assert PrintRequest(m, path, v, hs) + tail == line + "\r" + (block + tail);
    LineArrives(m, path, v, block + tail, t);
    NewLineIsSkipped();
    BlocksAreAccepted(block, "\n", hs, tail, map[]);
  }

  lemma NewLineIsSkipped()
    ensures SkipOk("\n")
  {
  }

  // ---------- the class ----------

  datatype HeaderState = PARSE_HEADER_SUCCESS | PARSE_HEADER_AGAIN | PARSE_HEADER_ERROR

  /** The members of HttpData that hold the input and what is parsed from it. */
  class HttpData {
    var inBuffer: string
    var target: Target
    var parseState: ParseState
    var headers: Headers

    constructor ()
      ensures inBuffer == "" && target == Target(GET, "", HTTP_11) && parseState == START && headers == map[]
    {
      inBuffer, target, parseState, headers := "", Target(GET, "", HTTP_11), START, map[];
    }

    method ParseUri() returns (flag: UriState)
      modifies this`inBuffer, this`target
      ensures UriOutcome(flag, inBuffer, target) == ParseURI(old(inBuffer), old(target))
    {
      var pos := Find(inBuffer, "\r", 0);
      if pos.None? {
        return PARSE_URI_AGAIN;
      }
      var requestLine := inBuffer[..pos.value];
      inBuffer := if |inBuffer| > pos.value + 1 then inBuffer[pos.value + 1..] else "";
      var r := ParseLine(requestLine, target);
      flag, target := r.0, r.1;
    }

    /** The index loop of parseHeaders, from whatever state the last call left. */
    method ParseHeaderBlock() returns (flag: HeaderState)
      modifies this`inBuffer, this`parseState, this`headers
      ensures match ParseHeaders(old(inBuffer), old(parseState), old(headers))
              case Success(rest, hs) =>
                flag.PARSE_HEADER_SUCCESS? && inBuffer == rest && headers == hs && parseState == END_LF
              case Again(rest, state, hs) =>
                flag.PARSE_HEADER_AGAIN? && inBuffer == rest && headers == hs && parseState == state
              case Error(hs) =>
                flag.PARSE_HEADER_ERROR? && inBuffer == old(inBuffer) && headers == hs
    {
      var str := inBuffer;
      var keyStart, keyEnd, valueStart, valueEnd, lineBegin := 0, 0, 0, 0, 0;
      var finish := false;
      var i := 0;
      ghost var whole := ParseHeaders(str, parseState, headers);
      while i < |str| && !finish
        invariant 0 <= i <= |str| && inBuffer == str
        invariant if finish then parseState.END_LF? && whole == Success(str[i..], headers)
                  else ScanFrom(str, i, Scan(parseState, keyStart, keyEnd, valueStart, valueEnd, lineBegin, headers))
                       == whole
      {
        var c := str[i];
        match parseState {
          case START =>
            if c != '\n' && c != '\r' {
              parseState, keyStart, lineBegin := KEY, i, i;
            }
          case KEY =>
            if c == ':' {
              keyEnd := i;
              if keyEnd - keyStart <= 0 { return PARSE_HEADER_ERROR; }
              parseState := COLON;
            } else if c == '\n' || c == '\r' {
              return PARSE_HEADER_ERROR;
            }
          case COLON =>
            if c != ' ' { return PARSE_HEADER_ERROR; }
            parseState := SPACES_AFTER_COLON;
          case SPACES_AFTER_COLON =>
            parseState, valueStart := VALUE, i;
          case VALUE =>
            if c == '\r' {
              parseState, valueEnd := CR, i;
              if valueEnd - valueStart <= 0 { return PARSE_HEADER_ERROR; }
            } else if i - valueStart > 255 {
              return PARSE_HEADER_ERROR;
            }
          case CR =>
            if c != '\n' { return PARSE_HEADER_ERROR; }
            parseState := LF;
            headers := headers[Slice(str, keyStart, keyEnd) := Slice(str, valueStart, valueEnd)];
            lineBegin := i;
          case LF =>
            if c == '\r' {
              parseState := END_CR;
            } else {
              keyStart, parseState := i, KEY;
            }
          case END_CR =>
            if c != '\n' { return PARSE_HEADER_ERROR; }
            parseState := END_LF;
          case END_LF =>
            finish, keyStart, lineBegin := true, i, i;
        }
        i := i + 1;
      }
      if parseState.END_LF? {
        inBuffer := str[i..];
        return PARSE_HEADER_SUCCESS;
      }
      inBuffer := Slice(str, lineBegin, |str|);
      return PARSE_HEADER_AGAIN;
    }
  }
}
