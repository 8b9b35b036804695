/**
 The receiving message of uo_http_msg as the object its parsers update: flags, parsing offset, header
 table and body, with the receive buffer they read. Each method is tied to the parser function of the
 same name, and so everything proved of the functions holds of the object.
 */
module HttpReceiver {
  import opened OrderedMap
  import opened CText
  import P = HttpParser
  import W = HttpWire

  class RecvRequest {
    var startLine: bool
    var headersDone: bool
    var bodyDone: bool
    var invalid: bool
    var verb: P.Method
    var version: P.Version
    var methodSpUri: string
    var uri: string
    var headers: P.Headers
    var offset: nat
    var body: string
    var buf: string

    ghost function View(): P.Msg
      reads this
    {
      P.Msg(startLine, headersDone, bodyDone, invalid, verb, version, methodSpUri, uri, headers, offset, body)
    }

    constructor ()
      ensures View() == P.NEW_MSG && buf == ""
    {
      startLine, headersDone, bodyDone, invalid := false, false, false, false;
      verb, version, methodSpUri, uri := P.INVALID, P.NO_VERSION, "", "";
      headers, offset, body, buf := [], 0, "", "";
    }

    method ParseStartLine() returns (ok: bool)
      requires buf != ""
      modifies this
      ensures buf == old(buf) && (View(), ok) == P.ParseStartLine(old(View()), buf)
    {
      hide P.ReadRequestLine;
      var cr := Chr(buf[..|buf| - 1], '\r');
      if cr == |buf| - 1 || buf[cr + 1] != '\n' {
        return false;
      }
      ok := ReadRequestLine(buf[..cr + 2]);
    }

    /** The fields of a complete request line. */
    method ReadRequestLine(line: string) returns (ok: bool)
      modifies this`startLine, this`invalid, this`verb, this`version, this`methodSpUri, this`uri, this`offset
      ensures (View(), ok) == P.ReadRequestLine(old(View()), line)
    {
      hide P.ReadTarget, P.MethodOf, CStr;
      var sp1 := Chr(line, ' ');
      if sp1 == |line| {
        invalid := true;
        return false;
      }
      verb := P.MethodOf(line[..sp1], verb);
      ok := ReadTarget(line, sp1, line[sp1 + 1..]);
    }

    method ReadTarget(line: string, sp1: nat, rest: string) returns (ok: bool)
      requires sp1 + 1 + |rest| == |line|
      modifies this`startLine, this`invalid, this`version, this`methodSpUri, this`uri, this`offset
      ensures (View(), ok) == P.ReadTarget(old(View()), line, sp1, rest)
    {
      hide P.VersionOf;
      var tail := CStr(rest);
      var sp2 := RChr(tail, ' ');
      if sp2 < 0 {
        invalid := true;
        return false;
      }
      var text := CStr(rest[sp2 + 1..]);
      var end := Chr(text, '\r');
      var v := if end == |text| || end == 0 then P.NO_VERSION else P.VersionOf(text[end - 1]);
      if v == P.NO_VERSION {
        invalid := true;
        return false;
      }
      version := v;
      methodSpUri := CStr(line[..sp1 + 1 + sp2]);
      uri := tail[..sp2];
      offset := |line|;
      startLine := true;
      return true;
    }

    /** The parser faults when a name runs to the end of the header text. */
    method ParseHeaders() returns (fault: bool, ok: bool)
      requires 2 <= offset <= |buf|
      modifies this`offset, this`headersDone, this`headers
      ensures var o := P.ParseHeaders(old(View()), buf);
              if fault then o.Fault? else o == P.Returns(View(), ok)
    {
      hide P.FindBlank, P.ParseFields;
      var blank := P.FindBlank(buf, offset - 2);
      if blank.None? {
        return false, false;
      }
      var end := blank.value;
      var start := offset;
      offset := end + 4;
      headersDone := true;
      if start > end {
        return false, true;
      }
      fault := StoreFields(buf[start..end]);
      ok := true;
    }

    /** The strtok_r loop over the header text. */
    method StoreFields(fields: string) returns (fault: bool)
      modifies this`headers
      ensures var parsed := P.ParseFields(fields, true, old(headers));
              if fault then parsed.None? else parsed == Some(headers)
    {
      hide P.SkipDelimiters, P.ParseField, Put;
      var text, first := fields, true;
      var name := P.SkipDelimiters(text, first);
      while name != ""
        invariant P.ParseFields(text, first, headers) == P.ParseFields(fields, true, old(headers))
        invariant name == P.SkipDelimiters(text, first)
        decreases |text|
      {
        var field := P.ParseField(name, first);
        if field.None? {
          return true;
        }
        headers := Put(STR, headers, field.value.name, field.value.value);
        text, first := field.value.rest, false;
        name := P.SkipDelimiters(text, first);
      }
      return false;
    }

    method ParseBody() returns (ok: bool)
      requires offset <= |buf|
      modifies this`body, this`offset, this`bodyDone, this`invalid
      ensures (View(), ok) == P.ParseBody(old(View()), buf)
    {
      var text := Lookup(STR, headers, "content-length", None);
      if text.Some? {
        var n := Strtoull(text.value);
        if n.None? {
          invalid := true;
          return false;
        }
        if n.value > |buf| - offset {
          return false;
        }
        body := buf[offset..offset + n.value];
      } else if !P.Bodyless(verb) {
        invalid := true;
        return false;
      }
      offset := 0;
      bodyDone := true;
      return true;
    }

    /** tcp_server_evt_handler_after_recv, after a chunk has been put into the buffer. */
    method AfterRecv(chunk: string) returns (fault: bool, request: P.Request)
      requires chunk != "" && P.Resumable(View(), buf + chunk)
      modifies this
      ensures buf == old(buf) + chunk
      ensures var o := P.AfterRecv(old(View()), buf);
              if fault then o.Fault? else o == P.Returns(View(), request)
    {
      buf := buf + chunk;
      if !startLine {
        var line := ParseStartLine();
        if !line {
          return false, P.NextRecv;
        }
      }
      if headersDone {
        var done := ParseBody();
        if done {
          return false, P.Complete;
        }
      }
      var crash, ok := ParseHeaders();
      if crash {
        return true, P.NextRecv;
      }
      if ok {
        var done := ParseBody();
        if done {
          return false, P.Complete;
        }
      }
      return false, P.NextRecv;
    }
  }

  /** How a reception stands, from what the object and the flags of the loop say. */
  ghost function Outcome(crashed: bool, complete: bool, m: P.Msg, unread: seq<string>): P.Reception {
    if crashed then P.Crashed else if complete then P.Received(m, unread) else P.Waiting(m)
  }

  /** Receive chunk after chunk until the request is complete. */
  method Receive(chunks: seq<string>) returns (m: RecvRequest, crashed: bool, complete: bool, unread: seq<string>)
    requires P.NonEmptyChunks(chunks)
    ensures P.Receive(P.NEW_MSG, "", chunks) == Outcome(crashed, complete, m.View(), unread)
    ensures complete ==> !crashed && |unread| < |chunks|
  {
    hide P.AfterRecv;
    m := new RecvRequest();
    crashed, complete, unread := false, false, chunks;
    ghost var whole := P.Receive(P.NEW_MSG, "", chunks);
    while unread != [] && !complete
      invariant P.NonEmptyChunks(unread) && !crashed && fresh(m)
      invariant |unread| <= |chunks| - (if complete then 1 else 0)
      invariant complete ==> whole == P.Received(m.View(), unread)
      invariant !complete ==> m.startLine ==> 2 <= m.offset <= |m.buf|
      invariant !complete ==> m.headersDone ==> m.startLine
      invariant !complete ==> whole == P.Receive(m.View(), m.buf, unread)
      decreases |unread|, !complete
    {
      assert unread[0] != "" && P.Resumable(m.View(), m.buf + unread[0]);
      var fault, request := m.AfterRecv(unread[0]);
      unread := unread[1..];
      if fault {
        crashed := true;
        return;
      }
      complete := request == P.Complete;
    }
  }

  /**
   For every well-formed request and every division of its bytes into non-empty receives: if the header table
   is kept and the body is announced and not misread, the object ends complete with the denoted message; if
   it arrives at once, it does so exactly when the table is kept and the body announced; and a request
   whose headers, as they are read, give no length although its method may have a body leaves the object
   invalid and waiting.
   */
  method ReceiveRequest(ghost r: W.WireRequest, chunks: seq<string>) returns (m: RecvRequest, complete: bool)
    requires W.WellFormed(r) && P.NonEmptyChunks(chunks) && W.Concat(chunks) == W.Bytes(r)
    ensures W.Kept(r) && W.Announced(r) && !W.Misread(r.body) ==> complete && m.View() == W.Denoted(r)
    ensures |chunks| == 1 ==> (complete && m.View() == W.Denoted(r) <==> W.Kept(r) && W.Announced(r))
    ensures W.ContentLength(W.ReadTable(r.fields, [])) == None && !P.Bodyless(r.verb) && P.FindBlank(P.CRLF + r.body, 0) == None
            ==> !complete && m.View() == W.AfterHead(r).(invalid := true)
  {
    hide W.WellFormed, W.Misread, W.Kept, W.Announced, W.ReadTable, P.Receive, P.FindBlank, W.Bytes, W.Denoted, W.AfterHead;
    W.SplitInvariance(r);
    W.OneReceive(r);
    if W.ContentLength(W.ReadTable(r.fields, [])) == None && !P.Bodyless(r.verb) && P.FindBlank(P.CRLF + r.body, 0) == None {
      assert W.Bytes(r)[..0] == "" && "" + W.Concat(chunks) == W.Bytes(r);
      W.LineInHead(r);
      W.UnannouncedWaits(r, 0, chunks);
    }
    var crashed, unread;
    m, crashed, complete, unread := Receive(chunks);
    if |chunks| == 1 {
      assert chunks[1..] == [] && W.Concat([]) == "" && chunks[0] == W.Bytes(r);
      assert chunks == [W.Bytes(r)];
    }
  }
}
