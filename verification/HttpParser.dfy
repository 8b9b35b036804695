/**
 Receiving a request with uo_http_msg: the start line, header and body parsers, and the server's
 after_recv driver that calls them each time bytes arrive. The receive buffer is the sequence of
 bytes before its write position; a read beyond an allocation is the outcome Fault.
 */
module HttpParser {
  import opened OrderedMap
  import opened CText

  datatype Method = INVALID | GET | HEAD | PUT | DELETE | OPTIONS | TRACE | POST | CONNECT
  datatype Version = NO_VERSION | HTTP_1_0 | HTTP_1_1 | HTTP_2

  type Headers = seq<Item<string, Option<string>>>

  datatype Msg = Msg(
    startLine: bool, headersDone: bool, bodyDone: bool, invalid: bool,
    verb: Method, version: Version, methodSpUri: string, uri: string,
    headers: Headers, offset: nat, body: string)

  const NEW_MSG := Msg(false, false, false, false, INVALID, NO_VERSION, "", "", [], 0, "")

  /** A parser either returns or runs off the end of its copy of the headers. */
  datatype Outcome<T> = Returns(msg: Msg, result: T) | Fault

  // ----- start line

  function MethodOf(token: string, current: Method): Method {
    if token == "GET" then GET
    else if token == "PUT" then PUT
    else if token == "POST" then POST
    else if token == "HEAD" then HEAD
    else if token == "TRACE" then TRACE
    else if token == "DELETE" then DELETE
    else if token == "OPTIONS" then OPTIONS
    else if token == "CONNECT" then CONNECT
    else current
  }

  function VersionOf(last: char): Version {
    if last == '2' then HTTP_2
    else if last == '1' then HTTP_1_1
    else if last == '0' then HTTP_1_0
    else NO_VERSION
  }

  /** uo_http_msg_parse_start_line for requests. */
  function ParseStartLine(m: Msg, buf: string): (r: (Msg, bool))
    requires buf != ""
    ensures r.1 ==> r.0.startLine && 2 <= r.0.offset <= |buf|
    ensures r.0.headersDone == m.headersDone && (!r.1 ==> r.0.startLine == m.startLine)
  {
    var cr := Chr(buf[..|buf| - 1], '\r');
    if cr == |buf| - 1 || buf[cr + 1] != '\n' then (m, false)
    else ReadRequestLine(m, buf[..cr + 2])
  }

  /** The fields of a complete request line, which ends in CR LF. */
  function ReadRequestLine(m: Msg, line: string): (r: (Msg, bool))
    ensures r.1 ==> r.0.startLine && r.0.offset == |line|
    ensures r.0.headersDone == m.headersDone && (!r.1 ==> r.0.startLine == m.startLine)
  {
    var sp1 := Chr(line, ' ');
    if sp1 == |line| then (m.(invalid := true), false)
    else ReadTarget(m.(verb := MethodOf(line[..sp1], m.verb)), line, sp1, line[sp1 + 1..])
  }

  /** The part of a request line after its first space, at sp1. */
  function ReadTarget(m: Msg, line: string, sp1: nat, rest: string): (r: (Msg, bool))
    requires sp1 + 1 + |rest| == |line|
    ensures r.1 ==> r.0.startLine && r.0.offset == |line|
    ensures r.0.headersDone == m.headersDone && (!r.1 ==> r.0.startLine == m.startLine)
  {
    var tail := CStr(rest);
    var sp2 := RChr(tail, ' ');
    if sp2 < 0 then (m.(invalid := true), false)
    else
      var version := CStr(rest[sp2 + 1..]);
      var end := Chr(version, '\r');
      var v := if end == |version| || end == 0 then NO_VERSION else VersionOf(version[end - 1]);
      if v == NO_VERSION then (m.(invalid := true), false)
      else (m.(version := v, methodSpUri := CStr(line[..sp1 + 1 + sp2]), uri := tail[..sp2],
               offset := |line|, startLine := true), true)
  }

  // ----- headers

  const CRLF := "\r\n"

  predicate BlankAt(s: string, i: nat)
    requires i + 4 <= |s|
  {
    s[i] == '\r' && s[i + 1] == '\n' && s[i + 2] == '\r' && s[i + 3] == '\n'
  }

  /** strstr for the blank line from position i on; the search stops at a terminator. */
  function FindBlank(s: string, i: nat): (r: Option<nat>)
    requires i <= |s|
    ensures r.Some? ==> i <= r.value && r.value + 4 <= |s| && BlankAt(s, r.value)
    decreases |s| - i
  {
    if i + 4 > |s| then None
    else if BlankAt(s, i) then Some(i)
    else if s[i] == '\0' then None
    else FindBlank(s, i + 1)
  }

  predicate IsDelimiter(c: char, first: bool) {
    c == ':' || (!first && c == '\n')
  }

  function SkipDelimiters(s: string, first: bool): (r: string)
    ensures |r| <= |s| && (r != "" ==> !IsDelimiter(r[0], first))
  {
    if s != "" && IsDelimiter(s[0], first) then SkipDelimiters(s[1..], first) else s
  }

  function TokenLength(s: string, first: bool): (n: nat)
    ensures n <= |s| && (n < |s| ==> IsDelimiter(s[n], first))
    ensures forall i :: 0 <= i < n ==> !IsDelimiter(s[i], first)
  {
    if s == "" || IsDelimiter(s[0], first) then 0 else 1 + TokenLength(s[1..], first)
  }

  datatype Turn = Turn(name: string, value: Option<string>, rest: string)

  /**
   One turn of the strtok_r loop, from the start of a name: the name up to a delimiter, in lower case,
   and the value up to CR. None when the name runs to the end of the text, because the value is then
   sought beyond the terminator.
   */
  function ParseField(t: string, first: bool): (r: Option<Turn>)
    ensures r.Some? ==> |r.value.rest| < |t|
  {
    var n := TokenLength(t, first);
    if n == |t| then None
    else
      var p := DropSpace(t[n + 1..]);
      var v := Chr(p, '\r');
      Some(Turn(Lower(t[..n]), if p == "" then None else Some(p[..v]), if v < |p| then p[v + 1..] else ""))
  }

  /** The strtok_r loop over the header text, storing each field in the table. */
  function ParseFields(s: string, first: bool, acc: Headers): Option<Headers>
    decreases |s|
  {
    var t := SkipDelimiters(s, first);
    if t == "" then Some(acc)
    else match ParseField(t, first)
      case None => None
      case Some(turn) => ParseFields(turn.rest, false, Put(STR, acc, turn.name, turn.value))
  }

  /** uo_http_msg_parse_headers. */
  function ParseHeaders(m: Msg, buf: string): (o: Outcome<bool>)
    requires 2 <= m.offset <= |buf|
    ensures o.Returns? ==> m.offset <= o.msg.offset <= |buf| && o.msg.startLine == m.startLine && o.msg.body == m.body
    ensures o.Returns? && !o.result ==> o.msg == m
  {
    match FindBlank(buf, m.offset - 2)
    case None => Returns(m, false)
    case Some(end) =>
      var m1 := m.(offset := end + 4, headersDone := true);
      if m.offset > end then Returns(m1, true)
      else match ParseFields(buf[m.offset..end], true, m.headers)
        case None => Fault
        case Some(hs) => Returns(m1.(headers := hs), true)
  }

  // ----- body

  predicate Bodyless(verb: Method) {
    verb == GET || verb == HEAD || verb == DELETE || verb == CONNECT || verb == TRACE
  }

  /** uo_http_msg_parse_body for requests. */
  function ParseBody(m: Msg, buf: string): (r: (Msg, bool))
    requires m.offset <= |buf|
    ensures !r.1 ==> r.0 == m || r.0 == m.(invalid := true)
    ensures r.1 ==> r.0.body == m.body || |r.0.body| <= |buf| - m.offset
  {
    match Lookup(STR, m.headers, "content-length", None)
    case Some(text) =>
      (match Strtoull(text)
       case None => (m.(invalid := true), false)
       case Some(n) =>
         if n > |buf| - m.offset then (m, false)
         else (m.(body := buf[m.offset..m.offset + n], offset := 0, bodyDone := true), true))
    case None =>
      if Bodyless(m.verb) then (m.(offset := 0, bodyDone := true), true)
      else (m.(invalid := true), false)
  }

  // ----- the driver

  /** What the driver asks of the connection: another receive, or nothing, which lets the flow send. */
  datatype Request = NextRecv | Complete

  /** The driver works on the positions its own parsers left behind. */
  predicate Resumable(m: Msg, buf: string) {
    buf != "" && (m.startLine ==> 2 <= m.offset <= |buf|) && (m.headersDone ==> m.startLine)
  }

  /** tcp_server_evt_handler_after_recv. */
  function AfterRecv(m: Msg, buf: string): (o: Outcome<Request>)
    requires Resumable(m, buf)
    ensures o.Returns? && o.result == NextRecv ==> Resumable(o.msg, buf)
  {
    var (m1, line) := if m.startLine then (m, true) else ParseStartLine(m, buf);
    if line then AfterStartLine(m1, buf) else Returns(m1, NextRecv)
  }

  /** The branch of the driver for a message whose start line is known. */
  function AfterStartLine(m: Msg, buf: string): (o: Outcome<Request>)
    requires m.startLine && 2 <= m.offset <= |buf|
    ensures o.Returns? && o.result == NextRecv ==> o.msg.startLine && m.offset <= o.msg.offset <= |buf| && o.msg.body == m.body
    ensures o.Returns? && o.result == Complete ==> o.msg.body == m.body || |o.msg.body| <= |buf| - m.offset
  {
    var (m2, body) := if m.headersDone then ParseBody(m, buf) else (m, false);
    if body then Returns(m2, Complete)
    else match ParseHeaders(m2, buf)
      case Fault => Fault
      case Returns(m3, false) => Returns(m3, NextRecv)
      case Returns(m3, true) =>
        var (m4, done) := ParseBody(m3, buf);
        Returns(m4, if done then Complete else NextRecv)
  }

  /** How a connection's receives end: still waiting, complete with chunks left over, or a fault. */
  datatype Reception = Waiting(msg: Msg) | Received(msg: Msg, unread: seq<string>) | Crashed

  ghost predicate NonEmptyChunks(chunks: seq<string>) {
    forall i :: 0 <= i < |chunks| ==> chunks[i] != ""
  }

  /** Append each chunk to the buffer and run the driver, until it completes. */
  ghost function Receive(m: Msg, buf: string, chunks: seq<string>): Reception
    requires NonEmptyChunks(chunks)
    requires m.startLine ==> 2 <= m.offset <= |buf|
    requires m.headersDone ==> m.startLine
    decreases |chunks|
  {
    if chunks == [] then Waiting(m)
    else
      var all := buf + chunks[0];
      match AfterRecv(m, all)
      case Fault => Crashed
      case Returns(m', Complete) => Received(m', chunks[1..])
      case Returns(m', NextRecv) => Receive(m', all, chunks[1..])
  }
}
