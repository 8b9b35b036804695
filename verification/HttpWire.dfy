/**
 Requests as they appear on the wire, and what the receiving side makes of them: the same message
 for every division into receives, exactly when the length of the body is announced and no proper part
 of the body looks like a header end.
 */
module HttpWire {
  import opened OrderedMap
  import opened CText
  import opened HttpParser

  /** A header line: a name, the white space after the colon, and a value. */
  datatype Field = Field(name: string, pad: string, value: string)

  datatype WireRequest = WireRequest(verb: Method, uri: string, version: Version, fields: seq<Field>, body: string)

  function MethodText(verb: Method): string {
    match verb
    case INVALID => ""
    case GET => "GET"
    case HEAD => "HEAD"
    case PUT => "PUT"
    case DELETE => "DELETE"
    case OPTIONS => "OPTIONS"
    case TRACE => "TRACE"
    case POST => "POST"
    case CONNECT => "CONNECT"
  }

  function VersionText(version: Version): string {
    match version
    case NO_VERSION => ""
    case HTTP_1_0 => "HTTP/1.0"
    case HTTP_1_1 => "HTTP/1.1"
    case HTTP_2 => "HTTP/2"
  }

  function RequestLine(verb: Method, uri: string, version: Version): string {
    MethodText(verb) + " " + (uri + " " + (VersionText(version) + CRLF))
  }

  function FieldText(f: Field): string {
    f.name + ":" + (f.pad + f.value)
  }

  function FieldLines(fs: seq<Field>): string {
    if fs == [] then "" else FieldText(fs[0]) + CRLF + FieldLines(fs[1..])
  }

  function Head(r: WireRequest): string {
    RequestLine(r.verb, r.uri, r.version) + FieldLines(r.fields) + CRLF
  }

  function Bytes(r: WireRequest): string {
    Head(r) + r.body
  }

  ghost predicate FieldOk(f: Field) {
    && f.name != "" && Lacks(f.name, ':') && Lacks(f.name, '\n') && Lacks(f.name, '\r') && Lacks(f.name, '\0')
    && (forall i :: 0 <= i < |f.pad| ==> f.pad[i] == ' ' || f.pad[i] == '\t')
    && (f.value == "" || !IsSpace(f.value[0])) && Lacks(f.value, '\r') && Lacks(f.value, '\0')
  }

  /** The header table the fields amount to: names in lower case, a repeated name keeping its first place. */
  function HeadersOf(fs: seq<Field>, acc: Headers): Headers {
    if fs == [] then acc
    else HeadersOf(fs[1..], Put(STR, acc, Lower(fs[0].name), Some(fs[0].value)))
  }

  /**
   The header table that the parser makes of the fields. After an empty value it skips the line end, and takes
   the whole next line for the value; behind the last line it finds no value at all.
   */
  function ReadTable(fs: seq<Field>, acc: Headers): Headers {
    if fs == [] then acc
    else
      var name := Lower(fs[0].name);
      if fs[0].value != "" then ReadTable(fs[1..], Put(STR, acc, name, Some(fs[0].value)))
      else if |fs| == 1 then Put(STR, acc, name, None)
      else ReadTable(fs[2..], Put(STR, acc, name, Some(DropSpace(FieldText(fs[1])))))
  }

  ghost predicate LineOk(r: WireRequest) {
    r.verb != INVALID && r.version != NO_VERSION && Lacks(r.uri, '\r') && Lacks(r.uri, '\0')
  }

  /** A request with a proper request line and proper header lines. Nothing is asked of its body. */
  ghost predicate WellFormed(r: WireRequest) {
    LineOk(r) && forall i :: 0 <= i < |r.fields| ==> FieldOk(r.fields[i])
  }

  /** The header table is read as it was sent. */
  ghost predicate Kept(r: WireRequest) {
    ReadTable(r.fields, []) == HeadersOf(r.fields, [])
  }

  function ContentLength(hs: Headers): Option<string> {
    Lookup(STR, hs, "content-length", None)
  }

  /** These headers tell how long the body is: by its exact length, or by a method that has none. */
  ghost predicate AnnouncedBy(hs: Headers, r: WireRequest) {
    match ContentLength(hs)
    case Some(text) => Strtoull(text) == Some(|r.body|)
    case None => r.body == "" && Bodyless(r.verb)
  }

  ghost predicate Announced(r: WireRequest) {
    AnnouncedBy(HeadersOf(r.fields, []), r)
  }

  ghost predicate ReadAnnounced(r: WireRequest) {
    AnnouncedBy(ReadTable(r.fields, []), r)
  }

  /** What the headers read say of the body's length, if anything, is right, and a body has its length given. */
  ghost predicate LengthOk(r: WireRequest) {
    match ContentLength(ReadTable(r.fields, []))
    case Some(text) => Strtoull(text) == Some(|r.body|)
    case None => r.body == ""
  }

  // ----- what the receiver should hold after n bytes

  ghost function AfterLine(r: WireRequest): Msg {
    NEW_MSG.(startLine := true, verb := r.verb, version := r.version, uri := r.uri,
             methodSpUri := MethodText(r.verb) + " " + r.uri, offset := |RequestLine(r.verb, r.uri, r.version)|)
  }

  ghost function AfterHead(r: WireRequest): Msg {
    AfterLine(r).(headersDone := true, headers := ReadTable(r.fields, []), offset := |Head(r)|)
  }

  /** The message that the receiver makes of the request, if it can tell the length of the body. */
  ghost function ReadAs(r: WireRequest): Msg {
    AfterHead(r).(bodyDone := true, body := r.body, offset := 0)
  }

  /** The message the request denotes. */
  ghost function Denoted(r: WireRequest): Msg {
    ReadAs(r).(headers := HeadersOf(r.fields, []))
  }

  ghost function Expected(r: WireRequest, n: nat): Msg {
    if n < |RequestLine(r.verb, r.uri, r.version)| then NEW_MSG
    else if n < |Head(r)| then AfterLine(r)
    else if n < |Bytes(r)| then AfterHead(r)
    else ReadAs(r)
  }

  // ----- start line

  /** No method or version text contains a separator, and each is recognised by the parser. */
  lemma Texts(verb: Method, version: Version)
    requires verb != INVALID && version != NO_VERSION
    ensures MethodOf(MethodText(verb), INVALID) == verb
    ensures Lacks(MethodText(verb), ' ') && Lacks(MethodText(verb), '\0') && Lacks(MethodText(verb), '\r')
    ensures Lacks(VersionText(version), ' ') && Lacks(VersionText(version), '\0') && Lacks(VersionText(version), '\r')
    ensures VersionText(version) != "" && VersionOf(VersionText(version)[|VersionText(version)| - 1]) == version
  {
  }

  lemma LineShape(r: WireRequest)
    requires LineOk(r)
    ensures var line := RequestLine(r.verb, r.uri, r.version);
            |line| >= 2 && line[|line| - 2..] == CRLF && Lacks(line[..|line| - 2], '\r')
  {
    hide MethodText, VersionText, HeadersOf;
    Texts(r.verb, r.version);
    var line := RequestLine(r.verb, r.uri, r.version);
    assert line[..|line| - 2] == MethodText(r.verb) + " " + r.uri + " " + VersionText(r.version);
  }

  lemma Splits(a: string, b: string)
    ensures (a + b)[..|a|] == a && (a + b)[|a|..] == b
  {
  }

  lemma ReadsRequestLine(r: WireRequest)
    requires LineOk(r)
    ensures ReadRequestLine(NEW_MSG, RequestLine(r.verb, r.uri, r.version)) == (AfterLine(r), true)
  {
    hide MethodText, VersionText, MethodOf, VersionOf, HeadersOf, Chr, RChr, ReadTarget;
    Texts(r.verb, r.version);
    var mt := MethodText(r.verb);
    var line := RequestLine(r.verb, r.uri, r.version);
    var rest := r.uri + " " + (VersionText(r.version) + CRLF);
    ChrIs(line, ' ', |mt|);
    Splits(mt, " " + rest);
    Splits(mt + " ", rest);
    assert line == mt + (" " + rest);
    ReadsTarget(r, NEW_MSG.(verb := r.verb), line);
  }

  lemma ReadsTarget(r: WireRequest, m: Msg, line: string)
    requires LineOk(r) && m == NEW_MSG.(verb := r.verb)
    requires line == RequestLine(r.verb, r.uri, r.version)
    ensures ReadTarget(m, line, |MethodText(r.verb)|, r.uri + " " + (VersionText(r.version) + CRLF)) == (AfterLine(r), true)
  {
    hide MethodText, VersionText, VersionOf, Lacks, ReadTarget;
    Texts(r.verb, r.version);
    var mt, vt := MethodText(r.verb), VersionText(r.version);
    var mu := mt + " " + r.uri;
    assert line == mu + (" " + (vt + CRLF));
    Splits(mu, " " + (vt + CRLF));
    QuietLine(mt, r.uri);
    NoTerminator(mu);
    TargetIs(m, line, |mt|, r.uri, vt, r.version);
  }

  lemma QuietLine(a: string, b: string)
    requires Lacks(a, '\0') && Lacks(b, '\0')
    ensures Lacks(a + " " + b, '\0')
  {
  }

  /** The URI ends at the last space, and the version's last character decides. */
  lemma TargetIs(m: Msg, line: string, sp1: nat, uri: string, vt: string, version: Version)
    requires Lacks(uri, '\0') && Lacks(vt, '\0') && Lacks(vt, ' ') && Lacks(vt, '\r')
    requires vt != "" && VersionOf(vt[|vt| - 1]) == version != NO_VERSION
    requires sp1 + 1 + |uri + " " + (vt + CRLF)| == |line|
    ensures ReadTarget(m, line, sp1, uri + " " + (vt + CRLF))
         == (m.(version := version, methodSpUri := CStr(line[..sp1 + 1 + |uri|]), uri := uri,
                offset := |line|, startLine := true), true)
  {
    hide VersionOf, Chr, RChr, CStr;
    var vline := vt + CRLF;
    var rest := uri + " " + vline;
    NoTerminator(rest);
    NoTerminator(vline);
    assert rest == uri + (" " + vline);
    Splits(uri, " " + vline);
    Splits(uri + " ", vline);
    RChrIs(rest, ' ', |uri|);
    ChrIs(vline, '\r', |vt|);
  }

  lemma NoTerminator(s: string)
    requires Lacks(s, '\0')
    ensures CStr(s) == s
  {
    ChrIs(s, '\0', |s|);
  }

  /** The start line is recognised as soon as, and not before, its last byte has arrived. */
  lemma StartLineAt(r: WireRequest, rest: string, buf: string)
    requires LineOk(r) && buf != "" && buf <= RequestLine(r.verb, r.uri, r.version) + rest
    ensures ParseStartLine(NEW_MSG, buf)
         == if |buf| < |RequestLine(r.verb, r.uri, r.version)| then (NEW_MSG, false) else (AfterLine(r), true)
  {
    hide RequestLine, ReadRequestLine, LineOk, Chr;
    var line := RequestLine(r.verb, r.uri, r.version);
    LineShape(r);
    var k := |line| - 2;
    if |buf| < |line| {
      assert buf[..|buf| - 1] == line[..|buf| - 1];
      assert Lacks(buf[..|buf| - 1], '\r') by {
        assert forall i :: 0 <= i < |buf| - 1 ==> buf[i] == line[..k][i];
      }
    } else {
      assert buf[..|line|] == line;
      assert forall i :: 0 <= i < k ==> buf[i] == line[..k][i];
      assert line[k..][0] == '\r' && line[k..][1] == '\n';
      ChrIs(buf[..|buf| - 1], '\r', k);
      ReadsRequestLine(r);
    }
  }

  // ----- headers

  /** The header text without the line end of its last line. */
  ghost function Joined(fs: seq<Field>): string
    requires fs != []
  {
    if |fs| == 1 then FieldText(fs[0]) else FieldText(fs[0]) + CRLF + Joined(fs[1..])
  }

  lemma {:induction false} JoinedLines(fs: seq<Field>)
    requires fs != []
    ensures FieldLines(fs) == Joined(fs) + CRLF
  {
    if |fs| == 1 {
      assert FieldLines(fs[1..]) == "";
    } else {
      JoinedLines(fs[1..]);
    }
  }

  /** One turn of the header loop, on a text that starts with a field whose value is not empty. */
  lemma FieldParsed(f: Field, more: string, first: bool)
    requires FieldOk(f) && f.value != "" && (more == "" || more[0] == '\r')
    ensures SkipDelimiters((if first then "" else "\n") + (FieldText(f) + more), first) == FieldText(f) + more
    ensures ParseField(FieldText(f) + more, first)
         == Some(Turn(Lower(f.name), Some(f.value), if more == "" then "" else more[1..]))
  {
    hide Lower, SkipDelimiters, ParseField;
    FieldSkips(f, more, first);
    assert FieldText(f) + more == f.name + (":" + (f.pad + (f.value + more)));
    TurnIs(f.name, f.pad, f.value, more, FieldText(f) + more, first);
  }

  lemma FieldSkips(f: Field, more: string, first: bool)
    requires FieldOk(f)
    ensures SkipDelimiters((if first then "" else "\n") + (FieldText(f) + more), first) == FieldText(f) + more
  {
    hide SkipDelimiters;
    var t := FieldText(f) + more;
    assert t[0] == f.name[0];
    SkipLead(t, first);
  }

  /** One turn on a field with an empty value: the line after it becomes the value. */
  lemma FieldSwallows(f: Field, g: Field, more: string, first: bool)
    requires FieldOk(f) && f.value == "" && FieldOk(g) && (more == "" || more[0] == '\r')
    ensures ParseField(FieldText(f) + (CRLF + (FieldText(g) + more)), first)
         == Some(Turn(Lower(f.name), Some(DropSpace(FieldText(g))), if more == "" then "" else more[1..]))
  {
    hide Lower, ParseField, DropSpace, IsSpace;
    var line := FieldText(g);
    FieldTextQuiet(g);
    ColonRemains(g);
    var value := DropSpace(line);
    var ws := DropSpaceSplit(line);
    var pad := f.pad + CRLF + ws;
    SpacesJoin(f.pad, ws);
    assert Lacks(value, '\r') by { assert forall i :: 0 <= i < |value| ==> value[i] == line[|ws| + i]; }
    assert FieldText(f) + (CRLF + (line + more)) == f.name + (":" + (pad + (value + more)));
    TurnIs(f.name, pad, value, more, FieldText(f) + (CRLF + (line + more)), first);
  }

  lemma SpacesJoin(a: string, b: string)
    requires (forall i :: 0 <= i < |a| ==> a[i] == ' ' || a[i] == '\t') && forall i :: 0 <= i < |b| ==> IsSpace(b[i])
    ensures forall i :: 0 <= i < |a + CRLF + b| ==> IsSpace((a + CRLF + b)[i])
  {
  }

  /** A line is not all white space, since it has a colon. */
  lemma ColonRemains(f: Field)
    ensures DropSpace(FieldText(f)) != ""
  {
    var ws := DropSpaceSplit(FieldText(f));
    assert FieldText(f)[|f.name|] == ':';
  }

  /** One turn on a last field with an empty value: there is no value. */
  lemma FieldLast(f: Field, first: bool)
    requires FieldOk(f) && f.value == ""
    ensures ParseField(FieldText(f), first) == Some(Turn(Lower(f.name), None, ""))
  {
    hide Lower, DropSpace, TokenLength;
    var t := FieldText(f);
    assert t == f.name + (":" + f.pad) && t == f.name + ":" + f.pad;
    NameEnds(f.name, f.pad, first);
    Splits(f.name, ":" + f.pad);
    Splits(f.name + ":", f.pad);
    AllSpace(f.pad);
  }

  lemma TurnIs(name: string, pad: string, value: string, more: string, t: string, first: bool)
    requires t == name + (":" + (pad + (value + more))) && (more == "" || more[0] == '\r')
    requires Lacks(name, ':') && Lacks(name, '\n') && forall i :: 0 <= i < |pad| ==> IsSpace(pad[i])
    requires value != "" && !IsSpace(value[0]) && Lacks(value, '\r')
    ensures ParseField(t, first) == Some(Turn(Lower(name), Some(value), if more == "" then "" else more[1..]))
  {
    hide Lower, Chr, DropSpace, TokenLength;
    var p := value + more;
    NameEnds(name, pad + p, first);
    Splits(name, ":" + (pad + p));
    assert t == name + ":" + (pad + p);
    Splits(name + ":", pad + p);
    DropSpaceSkips(pad, p);
    ChrIs(p, '\r', |value|);
    Splits(value, more);
    assert more != "" ==> p[|value| + 1..] == more[1..];
  }

  lemma NameEnds(name: string, rest: string, first: bool)
    requires Lacks(name, ':') && Lacks(name, '\n')
    ensures TokenLength(name + (":" + rest), first) == |name|
  {
    TokenIs(name + (":" + rest), first, |name|);
  }

  lemma SkipLead(t: string, first: bool)
    requires t != "" && !IsDelimiter(t[0], first)
    ensures SkipDelimiters((if first then "" else "\n") + t, first) == t
  {
    if first {
      assert "" + t == t;
    } else {
      assert ("\n" + t)[1..] == t;
    }
  }

  lemma TokenIs(s: string, first: bool, n: nat)
    requires n < |s| && IsDelimiter(s[n], first) && forall i :: 0 <= i < n ==> !IsDelimiter(s[i], first)
    ensures TokenLength(s, first) == n
  {
  }

  /** What Joined has behind its first n lines. */
  ghost function Behind(fs: seq<Field>, n: nat): string
    requires n <= |fs|
  {
    if n == |fs| then "" else CRLF + Joined(fs[n..])
  }

  lemma JoinedFirst(fs: seq<Field>)
    requires fs != []
    ensures Joined(fs) == FieldText(fs[0]) + Behind(fs, 1)
    ensures |fs| > 1 ==> Joined(fs) == FieldText(fs[0]) + (CRLF + (FieldText(fs[1]) + Behind(fs, 2)))
  {
    hide FieldText;
    if |fs| > 1 {
      assert fs[1..][1..] == fs[2..];
    }
  }

  /** The header loop reads every header section, in its own way. */
  lemma {:induction false} FieldsParsed(fs: seq<Field>, first: bool, acc: Headers)
    requires forall i :: 0 <= i < |fs| ==> FieldOk(fs[i])
    ensures fs != [] ==> ParseFields((if first then "" else "\n") + Joined(fs), first, acc) == Some(ReadTable(fs, acc))
    decreases |fs|
  {
    hide ParseField, SkipDelimiters, FieldText, Put, Lower, Joined, FieldOk, DropSpace;
    if fs != [] {
      JoinedFirst(fs);
      FieldNotEmpty(fs[0], Behind(fs, 1));
      FieldSkips(fs[0], Behind(fs, 1), first);
      var name := Lower(fs[0].name);
      if fs[0].value != "" {
        FieldParsed(fs[0], Behind(fs, 1), first);
        GoesOn(fs, 1, Put(STR, acc, name, Some(fs[0].value)));
        FieldsParsed(fs[1..], false, Put(STR, acc, name, Some(fs[0].value)));
      } else if |fs| == 1 {
        FieldLast(fs[0], first);
        assert FieldText(fs[0]) + "" == FieldText(fs[0]);
        NoText(Put(STR, acc, name, None));
      } else {
        var value := Some(DropSpace(FieldText(fs[1])));
        FieldSwallows(fs[0], fs[1], Behind(fs, 2), first);
        GoesOn(fs, 2, Put(STR, acc, name, value));
        FieldsParsed(fs[2..], false, Put(STR, acc, name, value));
      }
    }
  }

  /** What is left after a turn is nothing, or the line feed and the next lines. */
  lemma GoesOn(fs: seq<Field>, n: nat, acc: Headers)
    requires n <= |fs|
    ensures Behind(fs, n) == "" || Behind(fs, n)[0] == '\r'
    ensures n == |fs| ==> ParseFields("", false, acc) == Some(ReadTable(fs[n..], acc))
    ensures n < |fs| ==> Behind(fs, n) != "" && Behind(fs, n)[1..] == "\n" + Joined(fs[n..])
  {
    hide Joined;
    NoText(acc);
  }

  lemma FieldNotEmpty(f: Field, more: string)
    requires FieldOk(f)
    ensures FieldText(f) + more != ""
  {
  }

  lemma NoText(acc: Headers)
    ensures ParseFields("", false, acc) == Some(acc)
  {
  }

  // ----- the blank line

  /** On a prefix, the search finds the same blank line if that has arrived, and otherwise nothing. */
  lemma {:induction false} BlankInPrefix(s: string, n: nat, i: nat)
    requires i <= n <= |s|
    ensures FindBlank(s[..n], i)
         == match FindBlank(s, i) case Some(k) => (if k + 4 <= n then Some(k) else None) case None => None
    decreases |s| - i
  {
    if i + 4 <= n {
      BlankInPrefix(s, n, i + 1);
    }
  }

  lemma {:induction false} BlankSkips(s: string, i: nat, j: nat)
    requires i <= j && j + 4 <= |s|
    requires forall k :: i <= k < j ==> !BlankAt(s, k) && s[k] != '\0'
    ensures FindBlank(s, i) == FindBlank(s, j)
    decreases j - i
  {
    if i < j {
      BlankSkips(s, i + 1, j);
    }
  }

  /** A line without CR or terminator is skipped up to its own end. */
  lemma NoBlankIn(pre: string, line: string, rest: string)
    requires line != "" && Lacks(line, '\r') && Lacks(line, '\0') && |rest| >= 2
    ensures var s := pre + CRLF + line + CRLF + rest;
            FindBlank(s, |pre|) == FindBlank(s, |pre| + 2 + |line|)
  {
    hide FindBlank;
    var s := pre + CRLF + line + CRLF + rest;
    assert s[|pre| + 1] == '\n' && s[|pre|] == '\r' && s[|pre| + 2] == line[0];
    forall k | |pre| <= k < |pre| + 2 + |line|
      ensures !BlankAt(s, k) && s[k] != '\0'
    {
      assert k >= |pre| + 2 ==> s[k] == line[k - (|pre| + 2)];
    }
    BlankSkips(s, |pre|, |pre| + 2 + |line|);
  }

  /** Between the line ends of well-formed fields there is no blank line. */
  lemma {:induction false} BlankAfterFields(pre: string, fs: seq<Field>, rest: string)
    requires forall i :: 0 <= i < |fs| ==> FieldOk(fs[i])
    ensures FindBlank(pre + CRLF + FieldLines(fs) + CRLF + rest, |pre|) == Some(|pre| + |FieldLines(fs)|)
    decreases |fs|
  {
    hide FieldText, FieldOk, FindBlank, Lacks;
    var s := pre + CRLF + FieldLines(fs) + CRLF + rest;
    if fs == [] {
      assert s == pre + (CRLF + CRLF + rest);
      BlankHere(pre, rest);
    } else {
      var ft := FieldText(fs[0]);
      var pre' := pre + CRLF + ft;
      FieldTextQuiet(fs[0]);
      BlankAfterFields(pre', fs[1..], rest);
      assert FieldLines(fs) == ft + CRLF + FieldLines(fs[1..]);
      assert s == pre' + CRLF + FieldLines(fs[1..]) + CRLF + rest;
      NoBlankIn(pre, ft, FieldLines(fs[1..]) + CRLF + rest);
      assert s == pre + CRLF + ft + CRLF + (FieldLines(fs[1..]) + CRLF + rest);
    }
  }

  lemma BlankHere(pre: string, rest: string)
    ensures FindBlank(pre + (CRLF + CRLF + rest), |pre|) == Some(|pre|)
  {
  }

  lemma FieldTextQuiet(f: Field)
    requires FieldOk(f)
    ensures FieldText(f) != "" && Lacks(FieldText(f), '\r') && Lacks(FieldText(f), '\0')
  {
  }

  lemma HeadEnds(r: WireRequest)
    requires WellFormed(r)
    ensures |Head(r)| >= 4 && |RequestLine(r.verb, r.uri, r.version)| >= 2
    ensures FindBlank(Bytes(r), |RequestLine(r.verb, r.uri, r.version)| - 2) == Some(|Head(r)| - 4)
  {
    hide FieldLines, RequestLine;
    LineShape(r);
    var line := RequestLine(r.verb, r.uri, r.version);
    var pre := line[..|line| - 2];
    BlankAfterFields(pre, r.fields, r.body);
    assert line == pre + CRLF;
    assert Bytes(r) == pre + CRLF + FieldLines(r.fields) + CRLF + r.body;
  }

  /** The headers are recognised as soon as, and not before, the blank line is complete. */
  lemma HeadersAt(r: WireRequest, buf: string)
    requires WellFormed(r) && buf <= Bytes(r) && |RequestLine(r.verb, r.uri, r.version)| <= |buf|
    ensures 2 <= AfterLine(r).offset
    ensures ParseHeaders(AfterLine(r), buf)
         == if |buf| < |Head(r)| then Returns(AfterLine(r), false) else Returns(AfterHead(r), true)
  {
    hide Head, Bytes, ParseFields, RequestLine, ReadTable, FindBlank, WellFormed;
    HeadEnds(r);
    var line := RequestLine(r.verb, r.uri, r.version);
    assert buf == Bytes(r)[..|buf|];
    BlankInPrefix(Bytes(r), |buf|, |line| - 2);
    if |Head(r)| <= |buf| {
      if r.fields == [] {
        NoFields(r);
      } else {
        HeaderText(r);
        assert buf[|line|..|Head(r)| - 4] == Bytes(r)[|line|..|Head(r)| - 4];
      }
    }
  }

  lemma HeaderText(r: WireRequest)
    requires WellFormed(r) && r.fields != []
    ensures var n := |RequestLine(r.verb, r.uri, r.version)|;
            n <= |Head(r)| - 4 && ParseFields(Bytes(r)[n..|Head(r)| - 4], true, []) == Some(ReadTable(r.fields, []))
  {
    hide FieldLines, ParseFields, RequestLine, ReadTable, FieldOk, Joined;
    var line := RequestLine(r.verb, r.uri, r.version);
    JoinedLines(r.fields);
    assert Bytes(r) == line + Joined(r.fields) + (CRLF + CRLF + r.body);
    assert Bytes(r)[|line|..|Head(r)| - 4] == Joined(r.fields);
    FieldsParsed(r.fields, true, []);
    assert "" + Joined(r.fields) == Joined(r.fields);
  }

  lemma NoFields(r: WireRequest)
    requires r.fields == []
    ensures |Head(r)| == |RequestLine(r.verb, r.uri, r.version)| + 2 && ReadTable(r.fields, []) == []
  {
  }

  /** A body whose length can be told is complete with its last byte, and not before. */
  lemma BodyAt(r: WireRequest, buf: string)
    requires ReadAnnounced(r) && buf <= Bytes(r) && |Head(r)| <= |buf|
    ensures ParseBody(AfterHead(r), buf) == if |buf| < |Bytes(r)| then (AfterHead(r), false) else (ReadAs(r), true)
  {
    hide Head, ReadTable, Strtoull;
    if |buf| == |Bytes(r)| {
      assert buf == Bytes(r);
      assert buf[|Head(r)|..|Head(r)| + |r.body|] == r.body;
    }
  }

  /** Without a length and with a method that may have a body, the request is marked invalid. */
  lemma BodyInvalid(r: WireRequest, m: Msg, buf: string)
    requires ContentLength(ReadTable(r.fields, [])) == None && !Bodyless(r.verb) && |Head(r)| <= |buf|
    requires m == AfterHead(r) || m == AfterHead(r).(invalid := true)
    ensures ParseBody(m, buf) == (AfterHead(r).(invalid := true), false)
  {
    hide Head, ReadTable, Strtoull;
  }

  /** With all bytes there, a body whose length cannot be told is not read as it was sent. */
  lemma BodyUnread(r: WireRequest)
    requires !ReadAnnounced(r)
    ensures |Head(r)| <= |Bytes(r)| && ParseBody(AfterHead(r), Bytes(r)) != (ReadAs(r), true)
  {
    hide Head, ReadTable, Strtoull;
    var length := ContentLength(ReadTable(r.fields, []));
    if length.Some? && Strtoull(length.value).Some? {
      var n := Strtoull(length.value).value;
      if n <= |r.body| {
        assert |Bytes(r)[|Head(r)|..|Head(r)| + n]| != |r.body|;
      }
    }
  }

  lemma BodyKeepsHeaders(m: Msg, buf: string)
    requires m.offset <= |buf|
    ensures ParseBody(m, buf).0.headers == m.headers
  {
  }

  // ----- every division into receives

  /** Some part of the body that arrives before its last byte reads as the end of a header section. */
  ghost predicate Misread(body: string) {
    match FindBlank(CRLF + body, 0)
    case None => false
    case Some(k) => k + 4 < |CRLF + body|
  }

  lemma {:induction false} BlankShift(pre: string, s: string, i: nat)
    requires i <= |s|
    ensures FindBlank(pre + s, |pre| + i)
         == match FindBlank(s, i) case Some(k) => Some(|pre| + k) case None => None
    decreases |s| - i
  {
    if i + 4 <= |s| {
      assert BlankAt(pre + s, |pre| + i) <==> BlankAt(s, i);
      BlankShift(pre, s, i + 1);
    }
  }

  /** A further header search while the body arrives starts at the line end before the body. */
  lemma BodySearch(r: WireRequest, buf: string)
    requires WellFormed(r) && buf <= Bytes(r) && |Head(r)| <= |buf|
    ensures |Head(r)| >= 4
    ensures FindBlank(buf, |Head(r)| - 2)
         == match FindBlank(CRLF + r.body, 0)
            case Some(k) => (if |Head(r)| + k + 2 <= |buf| then Some(|Head(r)| - 2 + k) else None)
            case None => None
  {
    hide FindBlank, WellFormed, RequestLine, FieldLines;
    HeadEnds(r);
    var pre := Head(r)[..|Head(r)| - 2];
    assert Head(r) == pre + CRLF;
    assert Bytes(r) == pre + (CRLF + r.body);
    BlankShift(pre, CRLF + r.body, 0);
    assert buf == Bytes(r)[..|buf|];
    BlankInPrefix(Bytes(r), |buf|, |pre|);
  }

  /** A receive that starts before the end of the headers, and ends before it or goes on to the body. */
  lemma HeadRead(r: WireRequest, n: nat, buf: string)
    requires WellFormed(r) && n < |buf| && n < |Head(r)| && buf <= Bytes(r)
    ensures Resumable(Expected(r, n), buf)
    ensures |buf| < |Head(r)| ==> AfterRecv(Expected(r, n), buf) == Returns(Expected(r, |buf|), NextRecv)
    ensures |Head(r)| <= |buf| ==>
      var body := ParseBody(AfterHead(r), buf);
      AfterRecv(Expected(r, n), buf) == Returns(body.0, if body.1 then Complete else NextRecv)
  {
    hide WellFormed, LineOk, Head, RequestLine, ParseStartLine, ParseHeaders, ParseBody, ReadTable;
    HeadEnds(r);
    LineInHead(r);
    assert LineOk(r) by { LineOfRequest(r); }
    if n < |RequestLine(r.verb, r.uri, r.version)| {
      LineFirst(r);
      StartLineAt(r, FieldLines(r.fields) + CRLF + r.body, buf);
    }
    if |RequestLine(r.verb, r.uri, r.version)| <= |buf| {
      HeadersAt(r, buf);
    }
  }

  lemma LineFirst(r: WireRequest)
    ensures Bytes(r) == RequestLine(r.verb, r.uri, r.version) + (FieldLines(r.fields) + CRLF + r.body)
  {
  }

  lemma LineOfRequest(r: WireRequest)
    requires WellFormed(r)
    ensures LineOk(r)
  {
  }

  /** The same, with an announced body. */
  lemma HeadStep(r: WireRequest, n: nat, buf: string)
    requires WellFormed(r) && ReadAnnounced(r) && n < |buf| && n < |Head(r)| && buf <= Bytes(r)
    ensures Resumable(Expected(r, n), buf)
    ensures AfterRecv(Expected(r, n), buf)
         == Returns(Expected(r, |buf|), if |buf| == |Bytes(r)| then Complete else NextRecv)
  {
    hide WellFormed, ReadAnnounced, Head, RequestLine, AfterRecv, ParseBody, AfterHead, ReadAs, AfterLine;
    HeadRead(r, n, buf);
    LineInHead(r);
    if |Head(r)| <= |buf| {
      BodyAt(r, buf);
    }
  }

  lemma LineInHead(r: WireRequest)
    ensures |RequestLine(r.verb, r.uri, r.version)| < |Head(r)| <= |Bytes(r)|
  {
  }

  /** A receive that starts inside the body. */
  lemma BodyStep(r: WireRequest, n: nat, buf: string)
    requires WellFormed(r) && ReadAnnounced(r) && !Misread(r.body)
    requires |Head(r)| <= n < |buf| && buf <= Bytes(r)
    ensures Resumable(Expected(r, n), buf)
    ensures AfterRecv(Expected(r, n), buf)
         == Returns(Expected(r, |buf|), if |buf| == |Bytes(r)| then Complete else NextRecv)
  {
    hide WellFormed, ReadAnnounced, Head, RequestLine, ParseBody, ReadTable, FindBlank;
    LineInHead(r);
    BodyAt(r, buf);
    BodySearch(r, buf);
  }

  ghost function Concat(chunks: seq<string>): string {
    if chunks == [] then "" else chunks[0] + Concat(chunks[1..])
  }

  lemma {:induction false} ReceivesAll(r: WireRequest, n: nat, chunks: seq<string>)
    requires WellFormed(r) && ReadAnnounced(r) && !Misread(r.body) && n < |Bytes(r)|
    requires NonEmptyChunks(chunks) && Bytes(r)[..n] + Concat(chunks) == Bytes(r)
    ensures Expected(r, n).startLine ==> 2 <= Expected(r, n).offset <= n
    ensures Receive(Expected(r, n), Bytes(r)[..n], chunks) == Received(ReadAs(r), [])
    decreases |chunks|
  {
    hide WellFormed, ReadAnnounced, Misread, Head, RequestLine, AfterRecv, Bytes;
    HeadEnds(r);
    assert chunks != [];
    var buf := Bytes(r)[..n] + chunks[0];
    assert Bytes(r) == buf + Concat(chunks[1..]);
    if n < |Head(r)| {
      HeadStep(r, n, buf);
    } else {
      BodyStep(r, n, buf);
    }
    LineInHead(r);
    if |buf| == |Bytes(r)| {
      assert chunks[1..] == [];
    } else {
      assert buf == Bytes(r)[..|buf|];
      ReceivesAll(r, |buf|, chunks[1..]);
    }
  }

  ghost predicate SplitInvariant(r: WireRequest) {
    forall chunks | NonEmptyChunks(chunks) && Concat(chunks) == Bytes(r) ::
      Receive(NEW_MSG, "", chunks) == Received(Denoted(r), [])
  }

  /** When the table is read as it was sent, what is read is what the request denotes. */
  lemma KeptMeans(r: WireRequest)
    requires Kept(r)
    ensures ReadAs(r) == Denoted(r) && (ReadAnnounced(r) <==> Announced(r))
  {
    hide ReadTable, HeadersOf, Strtoull;
  }

  /** A request that arrives in one piece is understood exactly when its table is kept and its body announced. */
  lemma OneReceive(r: WireRequest)
    requires WellFormed(r)
    ensures Bytes(r) != ""
    ensures Receive(NEW_MSG, "", [Bytes(r)]) == Received(Denoted(r), []) <==> Kept(r) && Announced(r)
  {
    hide WellFormed, Announced, ReadAnnounced, Head, RequestLine, AfterRecv, Bytes, ParseBody, HeadersOf, ReadTable;
    LineInHead(r);
    HeadRead(r, 0, Bytes(r));
    assert "" + Bytes(r) == Bytes(r);
    BodyKeepsHeaders(AfterHead(r), Bytes(r));
    if Kept(r) {
      KeptMeans(r);
      if ReadAnnounced(r) {
        HeadStep(r, 0, Bytes(r));
      } else {
        BodyUnread(r);
      }
    }
  }

  /** What the receiver holds after n bytes of a request that it cannot complete. */
  ghost function Stuck(r: WireRequest, n: nat): Msg {
    if n < |Head(r)| then Expected(r, n) else AfterHead(r).(invalid := true)
  }

  /** One receive of such a request. */
  lemma StuckStep(r: WireRequest, n: nat, buf: string)
    requires WellFormed(r) && ContentLength(ReadTable(r.fields, [])) == None && !Bodyless(r.verb)
    requires FindBlank(CRLF + r.body, 0) == None && n < |buf| && buf <= Bytes(r)
    ensures Resumable(Stuck(r, n), buf) && AfterRecv(Stuck(r, n), buf) == Returns(Stuck(r, |buf|), NextRecv)
  {
    hide WellFormed, Head, RequestLine, ParseBody, ReadTable, FindBlank;
    HeadEnds(r);
    LineInHead(r);
    if |buf| >= |Head(r)| {
      BodyInvalid(r, AfterHead(r), buf);
      BodyInvalid(r, AfterHead(r).(invalid := true), buf);
      BodySearch(r, buf);
    }
    if n < |Head(r)| {
      hide AfterRecv;
      HeadRead(r, n, buf);
    }
  }

  /**
   A request whose headers, as they are read, give no content-length and whose method could have a body is
   never complete, however it arrives, unless its body holds a blank line: it is marked invalid and the
   driver waits for more.
   */
  lemma {:induction false} UnannouncedWaits(r: WireRequest, n: nat, chunks: seq<string>)
    requires WellFormed(r) && ContentLength(ReadTable(r.fields, [])) == None && !Bodyless(r.verb)
    requires FindBlank(CRLF + r.body, 0) == None
    requires n < |Bytes(r)| && NonEmptyChunks(chunks) && Bytes(r)[..n] + Concat(chunks) == Bytes(r)
    ensures Stuck(r, n).startLine ==> 2 <= Stuck(r, n).offset <= n
    ensures Receive(Stuck(r, n), Bytes(r)[..n], chunks) == Waiting(AfterHead(r).(invalid := true))
    decreases |chunks|
  {
    hide WellFormed, Head, RequestLine, AfterRecv, Receive, ReadTable, FindBlank, Bytes;
    HeadEnds(r);
    LineInHead(r);
    assert chunks != [];
    var buf := Bytes(r)[..n] + chunks[0];
    assert Bytes(r) == buf + Concat(chunks[1..]);
    StuckStep(r, n, buf);
    assert chunks == [chunks[0]] + chunks[1..];
    ReceiveOne(Stuck(r, n), Bytes(r)[..n], chunks[0], chunks[1..]);
    if |buf| == |Bytes(r)| {
      assert chunks[1..] == [] by { NoneLeft(chunks[1..]); }
      ReceiveNone(AfterHead(r).(invalid := true), buf);
    } else {
      assert buf == Bytes(r)[..|buf|];
      UnannouncedWaits(r, |buf|, chunks[1..]);
    }
  }

  /** The division that shows a misread body: the head, the body up to the false blank line, the rest. */
  lemma MisreadBreaks(r: WireRequest) returns (chunks: seq<string>)
    requires WellFormed(r) && ReadAnnounced(r) && Misread(r.body)
    ensures NonEmptyChunks(chunks) && Concat(chunks) == Bytes(r)
    ensures Receive(NEW_MSG, "", chunks) != Received(ReadAs(r), [])
  {
    hide WellFormed, ReadAnnounced, Head, RequestLine, AfterRecv, FindBlank, Receive, Concat, ReadAs, AfterHead;
    HeadEnds(r);
    LineInHead(r);
    var all, head := Bytes(r), Head(r);
    var k := FindBlank(CRLF + r.body, 0).value;
    var m := |head| + k + 2;
    var c2, c3 := all[|head|..m], all[m..];
    chunks := [head] + [c2, c3];
    ThreeChunks(head, c2, c3);
    assert all == head + c2 + c3;
    HeadStep(r, 0, head);
    ReceiveOne(NEW_MSG, "", head, [c2, c3]);
    assert "" + head == head;
    MisreadEnd(r, k, c2, c3);
  }

  lemma ThreeChunks(a: string, b: string, c: string)
    ensures Concat([a] + [b, c]) == a + b + c
  {
    assert ([a] + [b, c])[1..] == [b, c] && [b, c][1..] == [c] && Concat([c]) == c;
  }

  lemma NoneLeft(chunks: seq<string>)
    requires NonEmptyChunks(chunks) && Concat(chunks) == ""
    ensures chunks == []
  {
  }

  lemma ReceiveNone(m: Msg, buf: string)
    requires m.startLine ==> 2 <= m.offset <= |buf|
    requires m.headersDone ==> m.startLine
    ensures Receive(m, buf, []) == Waiting(m)
  {
  }

  lemma ReceiveOne(m: Msg, buf: string, chunk: string, rest: seq<string>)
    requires chunk != "" && NonEmptyChunks(rest)
    requires m.startLine ==> 2 <= m.offset <= |buf|
    requires m.headersDone ==> m.startLine
    ensures var o := AfterRecv(m, buf + chunk);
            Receive(m, buf, [chunk] + rest)
            == if o.Fault? then Crashed
               else if o.result == Complete then Received(o.msg, rest)
               else Receive(o.msg, buf + chunk, rest)
  {
    assert ([chunk] + rest)[1..] == rest;
  }

  lemma MisreadEnd(r: WireRequest, k: nat, c2: string, c3: string)
    requires WellFormed(r) && ReadAnnounced(r) && FindBlank(CRLF + r.body, 0) == Some(k)
    requires c2 != "" && c3 != "" && Head(r) + c2 + c3 == Bytes(r) && |c2| == k + 2
    ensures 2 <= |Head(r)|
    ensures Receive(AfterHead(r), Head(r), [c2, c3]) != Received(ReadAs(r), [])
  {
    hide WellFormed, ReadAnnounced, Head, RequestLine, AfterRecv, FindBlank, Receive, ReadAs;
    HeadEnds(r);
    var buf := Head(r) + c2;
    FalseHeaders(r, buf, k);
    assert [c2, c3] == [c2] + [c3];
    ReceiveOne(AfterHead(r), Head(r), c2, [c3]);
    var o := AfterRecv(AfterHead(r), buf);
    if o.Returns? && o.result == NextRecv {
      LateBody(r, o.msg, |buf|);
      ReceiveOne(o.msg, buf, c3, []);
      assert [c3] + [] == [c3];
      NothingLeft(o.msg, buf + c3);
    }
  }

  lemma NothingLeft(m: Msg, buf: string)
    requires m.startLine && 2 <= m.offset <= |buf|
    ensures var o := AfterRecv(m, buf); o.Returns? && o.result == NextRecv ==> Receive(o.msg, buf, []) == Waiting(o.msg)
  {
  }

  /** Reading the part of the body before a false blank line as headers moves the body start past it. */
  lemma FalseHeaders(r: WireRequest, buf: string, k: nat)
    requires WellFormed(r) && ReadAnnounced(r) && FindBlank(CRLF + r.body, 0) == Some(k)
    requires buf <= Bytes(r) && |buf| == |Head(r)| + k + 2 < |Bytes(r)|
    ensures Resumable(AfterHead(r), buf)
    ensures var o := AfterRecv(AfterHead(r), buf);
            o.Returns? && o.result == NextRecv ==> o.msg.startLine && o.msg.offset == |buf| && o.msg.body == ""
  {
    hide WellFormed, ReadAnnounced, Head, RequestLine, ParseBody, ReadTable, FindBlank, ParseFields;
    LineInHead(r);
    BodyAt(r, buf);
    BodySearch(r, buf);
  }

  /** From a body start that is too late, the body cannot be complete any more. */
  lemma LateBody(r: WireRequest, m: Msg, n: nat)
    requires m.startLine && m.offset == n && m.body == "" && |Head(r)| < n < |Bytes(r)| && 2 <= n
    ensures var o := AfterRecv(m, Bytes(r)); o.Returns? && o.result == Complete ==> o.msg != ReadAs(r)
  {
    hide Head, AfterStartLine;
  }

  /**
   Incremental parsing gives the denoted message for every division of the bytes into non-empty receives, and
   never completes before the last byte, exactly when the header table is read as it was sent, the body is
   announced, and the body is not misread.
   */
  lemma SplitInvariance(r: WireRequest)
    requires WellFormed(r)
    ensures SplitInvariant(r) <==> Kept(r) && Announced(r) && !Misread(r.body)
  {
    hide WellFormed, Announced, ReadAnnounced, Misread, Receive, Bytes, Kept;
    if !(Kept(r) && Announced(r)) {
      OneReceive(r);
      var chunks := [Bytes(r)];
      assert chunks[1..] == [] && Concat([]) == "" && Concat(chunks) == Bytes(r);
    } else {
      KeptMeans(r);
      if Misread(r.body) {
        var chunks := MisreadBreaks(r);
      } else {
        forall chunks | NonEmptyChunks(chunks) && Concat(chunks) == Bytes(r)
          ensures Receive(NEW_MSG, "", chunks) == Received(Denoted(r), [])
        {
          LineInHead(r);
          assert Bytes(r)[..0] == "" && "" + Concat(chunks) == Bytes(r);
          ReceivesAll(r, 0, chunks);
        }
      }
    }
  }

  // ----- when the table is kept

  /** No two fields have the same name. */
  ghost predicate DistinctNames(fs: seq<Field>) {
    forall i, j :: 0 <= i < j < |fs| ==> Lower(fs[i].name) != Lower(fs[j].name)
  }

  ghost predicate Valued(fs: seq<Field>) {
    forall i :: 0 <= i < |fs| ==> fs[i].value != ""
  }

  /** The parser never stores an empty value. */
  ghost predicate NoEmpty(hs: Headers) {
    forall i :: 0 <= i < |hs| ==> hs[i].value != Some("")
  }

  lemma NoEmptyPut(hs: Headers, name: string, value: Option<string>)
    requires NoEmpty(hs) && value != Some("")
    ensures NoEmpty(Put(STR, hs, name, value))
  {
  }

  lemma {:induction false} ReadNoEmpty(fs: seq<Field>, acc: Headers)
    requires NoEmpty(acc)
    ensures NoEmpty(ReadTable(fs, acc))
    decreases |fs|
  {
    hide Put, Lower, DropSpace, NoEmpty, FieldText;
    if fs != [] {
      var name := Lower(fs[0].name);
      if fs[0].value != "" {
        NoEmptyPut(acc, name, Some(fs[0].value));
        ReadNoEmpty(fs[1..], Put(STR, acc, name, Some(fs[0].value)));
      } else if |fs| == 1 {
        NoEmptyPut(acc, name, None);
      } else {
        ColonRemains(fs[1]);
        var value := Some(DropSpace(FieldText(fs[1])));
        NoEmptyPut(acc, name, value);
        ReadNoEmpty(fs[2..], Put(STR, acc, name, value));
      }
    }
  }

  lemma {:induction false} ReadValued(fs: seq<Field>, acc: Headers)
    requires Valued(fs)
    ensures ReadTable(fs, acc) == HeadersOf(fs, acc)
    decreases |fs|
  {
    hide Put, Lower;
    if fs != [] {
      ReadValued(fs[1..], Put(STR, acc, Lower(fs[0].name), Some(fs[0].value)));
    }
  }

  /** No field has a name that the table has. */
  ghost predicate NewNames(fs: seq<Field>, acc: Headers) {
    forall i, j :: 0 <= i < |fs| && 0 <= j < |acc| ==> Lower(fs[i].name) != acc[j].key
  }

  /** With different names, the denoted table has an entry for each field, in order. */
  lemma {:induction false} HeadersAppend(fs: seq<Field>, acc: Headers)
    requires DistinctNames(fs) && NewNames(fs, acc)
    ensures |HeadersOf(fs, acc)| == |acc| + |fs| && acc <= HeadersOf(fs, acc)
    ensures forall i :: 0 <= i < |fs| ==> HeadersOf(fs, acc)[|acc| + i] == Item(Lower(fs[i].name), Some(fs[i].value))
    decreases |fs|
  {
    hide Lower;
    if fs != [] {
      var name := Lower(fs[0].name);
      var acc' := acc + [Item(name, Some(fs[0].value))];
      assert IndexOf(STR, acc, name) == |acc| by { NotThere(acc, name); }
      assert Put(STR, acc, name, Some(fs[0].value)) == acc';
      HeadersAppend(fs[1..], acc');
      var hs := HeadersOf(fs, acc);
      assert hs == HeadersOf(fs[1..], acc');
      forall i | 0 <= i < |fs|
        ensures hs[|acc| + i] == Item(Lower(fs[i].name), Some(fs[i].value))
      {
        if i == 0 {
          assert hs[|acc|] == acc'[|acc|];
        } else {
          assert fs[i] == fs[1..][i - 1] && hs[|acc'| + (i - 1)] == hs[|acc| + i];
        }
      }
    }
  }

  lemma NotThere(acc: Headers, name: string)
    requires forall j :: 0 <= j < |acc| ==> name != acc[j].key
    ensures IndexOf(STR, acc, name) == |acc|
  {
  }

  /** With different names, the table is kept exactly when no value is empty. */
  lemma KeptIff(r: WireRequest)
    requires DistinctNames(r.fields)
    ensures Kept(r) <==> Valued(r.fields)
  {
    hide Lower;
    if Valued(r.fields) {
      ReadValued(r.fields, []);
    } else {
      var i :| 0 <= i < |r.fields| && r.fields[i].value == "";
      ReadNoEmpty(r.fields, []);
      var none: Headers := [];
      HeadersAppend(r.fields, none);
      assert HeadersOf(r.fields, none)[|none| + i].value == Some("");
    }
  }

  /** For requests with different header names, the condition is one on the values. */
  lemma SplitInvarianceByValues(r: WireRequest)
    requires WellFormed(r) && DistinctNames(r.fields)
    ensures SplitInvariant(r) <==> Valued(r.fields) && Announced(r) && !Misread(r.body)
  {
    hide WellFormed, Announced, Misread, SplitInvariant, Kept, Valued, DistinctNames;
    SplitInvariance(r);
    KeptIff(r);
  }

  // ----- requests on which it fails

  /** A request with one header line, that of its length. */
  function WithLength(body: string): WireRequest {
    WireRequest(POST, "/", HTTP_1_1, [Field("content-length", " ", Decimal(|body|))], body)
  }

  lemma LengthAnnounced(body: string)
    requires |body| < 0x1_0000_0000_0000_0000
    ensures WellFormed(WithLength(body)) && Announced(WithLength(body))
  {
    hide Strtoull, Decimal, Lookup, HeadersOf, FieldOk, LowerName, ValueOk, Lower;
    var f := Field("content-length", " ", Decimal(|body|));
    DecimalOk(|body|);
    assert LowerName("content-length") by { LengthName(); }
    FieldFrom("content-length", Decimal(|body|));
    OneHeader(f);
    StrtoullDecimal(|body|);
  }

  lemma LengthName()
    ensures LowerName("content-length")
  {
  }

  // ----- simple header lines

  ghost predicate LowerName(name: string) {
    name != "" && forall i :: 0 <= i < |name| ==> 'a' <= name[i] <= 'z' || name[i] == '-'
  }

  ghost predicate ValueOk(value: string) {
    (value == "" || !IsSpace(value[0])) && Lacks(value, '\r') && Lacks(value, '\0')
  }

  lemma DecimalOk(n: nat)
    ensures ValueOk(Decimal(n))
  {
    assert forall i :: 0 <= i < |Decimal(n)| ==> IsDigit(Decimal(n)[i]);
  }

  lemma FieldFrom(name: string, value: string)
    requires LowerName(name) && ValueOk(value)
    ensures FieldOk(Field(name, " ", value)) && Lower(name) == name
  {
  }

  lemma OneHeader(f: Field)
    requires Lower(f.name) == f.name
    ensures Lookup(STR, HeadersOf([f], []), f.name, None) == Some(f.value)
  {
    hide Lower, Lookup, Put;
    assert [f][1..] == [];
    assert HeadersOf([f], []) == HeadersOf([], Put(STR, [], f.name, Some(f.value))) == Put(STR, [], f.name, Some(f.value));
    StrLawful();
    LookupPut(STR, [], f.name, Some(f.value), f.name, None);
  }

  /** A body that starts with CR LF and goes on is misread. */
  lemma SomeMisread()
    ensures var r := WithLength("\r\nabc");
            WellFormed(r) && Kept(r) && Announced(r) && Misread(r.body) && !SplitInvariant(r)
  {
    hide WellFormed, Announced, Kept, SplitInvariant, WithLength;
    LengthKept("\r\nabc");
    LengthAnnounced("\r\nabc");
    assert BlankAt(CRLF + "\r\nabc", 0);
    assert WithLength("\r\nabc").body == "\r\nabc" by { LengthBody("\r\nabc"); }
    SplitInvariance(WithLength("\r\nabc"));
  }

  lemma LengthKept(body: string)
    ensures Kept(WithLength(body))
  {
    hide ReadTable, HeadersOf, Decimal;
    KeptIff(WithLength(body));
  }

  lemma LengthBody(body: string)
    ensures WithLength(body).body == body
  {
  }

  /** A request that is never complete: no body, and a method and headers that do not say so. */
  lemma SomeUnannounced()
    ensures var r := WireRequest(OPTIONS, "/", HTTP_1_1, [], "");
            WellFormed(r) && !Announced(r) && !SplitInvariant(r)
  {
    hide WellFormed, Announced, SplitInvariant;
    var r := WireRequest(OPTIONS, "/", HTTP_1_1, [], "");
    PlainRequest(r);
    SplitInvariance(r);
  }

  lemma PlainRequest(r: WireRequest)
    requires r.verb == OPTIONS && r.version == HTTP_1_1 && r.uri == "/" && r.fields == [] && r.body == ""
    ensures WellFormed(r) && !Announced(r)
  {
    hide Strtoull;
    assert HeadersOf(r.fields, []) == [];
  }

  /** A request with an empty value: the header line after it is lost. */
  lemma SomeSwallowed()
    ensures var r := WireRequest(GET, "/", HTTP_1_1, [Field("accept", "", ""), Field("host", " ", "x")], "");
            && WellFormed(r) && DistinctNames(r.fields) && !Misread(r.body) && !Kept(r) && !SplitInvariant(r)
            && ReadTable(r.fields, []) == [Item("accept", Some("host: x"))]
  {
    hide SplitInvariant, WellFormed, ReadTable, Kept, Misread, Lower;
    var r := WireRequest(GET, "/", HTTP_1_1, [Field("accept", "", ""), Field("host", " ", "x")], "");
    assert LowerName("accept") && LowerName("host");
    SwallowedTable("accept", "host", "x");
    assert "host" + ": " + "x" == "host: x";
    SwallowedOk(r, "accept", "host", "x");
    KeptIff(r);
    SplitInvariance(r);
  }

  lemma SwallowedOk(r: WireRequest, a: string, b: string, v: string)
    requires r == WireRequest(GET, "/", HTTP_1_1, [Field(a, "", ""), Field(b, " ", v)], "")
    requires LowerName(a) && LowerName(b) && a != b && v != "" && ValueOk(v)
    ensures WellFormed(r) && DistinctNames(r.fields) && !Misread(r.body) && !Valued(r.fields)
  {
    FieldFrom(a, "");
    FieldFrom(b, v);
    assert r.fields[0].value == "";
  }

  lemma SwallowedTable(a: string, b: string, v: string)
    requires LowerName(a) && LowerName(b) && a != b && v != "" && ValueOk(v)
    ensures ReadTable([Field(a, "", ""), Field(b, " ", v)], []) == [Item(a, Some(b + ": " + v))]
  {
    hide Lower;
    var f, g := Field(a, "", ""), Field(b, " ", v);
    FieldFrom(a, "");
    FieldFrom(b, v);
    assert [f, g][2..] == [];
    assert FieldText(g) == b + ": " + v && !IsSpace(FieldText(g)[0]);
    var hs: Headers := [Item(a, Some(b + ": " + v))];
    assert Put(STR, [], a, Some(b + ": " + v)) == hs;
    assert ReadTable([], hs) == hs;
  }

  // ----- methods and versions, by their names in RFC 7231 and RFC 7230

  const METHODS: seq<(Method, string)> :=
    [(GET, "GET"), (HEAD, "HEAD"), (POST, "POST"), (PUT, "PUT"), (DELETE, "DELETE"), (CONNECT, "CONNECT"), (OPTIONS, "OPTIONS"), (TRACE, "TRACE")]

  const VERSIONS: seq<(Version, string)> := [(HTTP_1_0, "HTTP/1.0"), (HTTP_1_1, "HTTP/1.1"), (HTTP_2, "HTTP/2")]

  /** A request line is the method's name, the URI and the version's name, with single spaces, and a line end. */
  lemma LineIs(m: nat, v: nat, uri: string)
    requires m < |METHODS| && v < |VERSIONS|
    ensures RequestLine(METHODS[m].0, uri, VERSIONS[v].0) == METHODS[m].1 + " " + uri + " " + VERSIONS[v].1 + "\r\n"
  {
    assert MethodText(METHODS[m].0) == METHODS[m].1;
    assert VersionText(VERSIONS[v].0) == VERSIONS[v].1;
    hide MethodText, VersionText;
    assert METHODS[m].1 + " " + (uri + " " + (VERSIONS[v].1 + "\r\n")) == METHODS[m].1 + " " + uri + " " + VERSIONS[v].1 + "\r\n";
  }

  lemma AllListed(verb: Method, version: Version)
    ensures verb == INVALID || exists m :: 0 <= m < |METHODS| && METHODS[m].0 == verb
    ensures version == NO_VERSION || exists v :: 0 <= v < |VERSIONS| && VERSIONS[v].0 == version
  {
    assert METHODS[0].0 == GET && METHODS[1].0 == HEAD && METHODS[2].0 == POST && METHODS[3].0 == PUT;
    assert METHODS[4].0 == DELETE && METHODS[5].0 == CONNECT && METHODS[6].0 == OPTIONS && METHODS[7].0 == TRACE;
    assert VERSIONS[0].0 == HTTP_1_0 && VERSIONS[1].0 == HTTP_1_1 && VERSIONS[2].0 == HTTP_2;
  }

  /** A token is taken for a method exactly when it is its name, in capitals; any other leaves the method as it was. */
  lemma TokenIsMethod(token: string, current: Method)
    ensures forall m :: 0 <= m < |METHODS| && token == METHODS[m].1 ==> MethodOf(token, current) == METHODS[m].0
    ensures (forall m :: 0 <= m < |METHODS| ==> token != METHODS[m].1) ==> MethodOf(token, current) == current
  {
    assert METHODS[0].1 == "GET" && METHODS[1].1 == "HEAD" && METHODS[2].1 == "POST" && METHODS[3].1 == "PUT";
    assert METHODS[4].1 == "DELETE" && METHODS[5].1 == "CONNECT" && METHODS[6].1 == "OPTIONS" && METHODS[7].1 == "TRACE";
  }

  /** Only the last character of the version counts. */
  lemma VersionByLast(c: char)
    ensures VersionOf(c) == if c == '0' then HTTP_1_0 else if c == '1' then HTTP_1_1 else if c == '2' then HTTP_2 else NO_VERSION
  {
  }

  /**
   A request without content-length and without body is complete exactly for these five methods; for the other
   three it stays invalid and waiting.
   */
  lemma CompleteWithoutLength(r: WireRequest)
    requires WellFormed(r) && Kept(r) && r.body == ""
    requires Lookup(STR, HeadersOf(r.fields, []), "content-length", None) == None
    ensures Bytes(r) != ""
    ensures Receive(NEW_MSG, "", [Bytes(r)]) == Received(Denoted(r), []) <==> r.verb in {GET, HEAD, DELETE, CONNECT, TRACE}
    ensures SplitInvariant(r) <==> r.verb in {GET, HEAD, DELETE, CONNECT, TRACE}
    ensures r.verb in {PUT, POST, OPTIONS} ==> Receive(NEW_MSG, "", [Bytes(r)]) == Waiting(AfterHead(r).(invalid := true))
  {
    hide WellFormed, Receive, Bytes, SplitInvariant, HeadersOf, ReadTable, Head, RequestLine, Lookup;
    OneReceive(r);
    SplitInvariance(r);
    assert r.verb != INVALID by { LineOfRequest(r); }
    assert !Misread("") by { NothingMisread(); }
    if r.verb in {PUT, POST, OPTIONS} {
      var chunks := [Bytes(r)];
      assert chunks[1..] == [] && Concat([]) == "" && Bytes(r)[..0] == "" && "" + Concat(chunks) == Bytes(r);
      HeadEnds(r);
      LineInHead(r);
      NothingMisread();
      assert Stuck(r, 0) == NEW_MSG;
      UnannouncedWaits(r, 0, chunks);
    }
  }

  lemma NothingMisread()
    ensures FindBlank(CRLF + "", 0) == None && !Misread("")
  {
  }

  /** Fields whose names differ in letter case only give the same table. */
  lemma {:induction false} CaseIgnored(fs: seq<Field>, gs: seq<Field>, acc: Headers)
    requires |fs| == |gs| && forall i :: 0 <= i < |fs| ==> fs[i].value == gs[i].value && |fs[i].name| == |gs[i].name|
    requires forall i, k :: 0 <= i < |fs| && 0 <= k < |fs[i].name| ==> SameLetter(fs[i].name[k], gs[i].name[k])
    ensures HeadersOf(fs, acc) == HeadersOf(gs, acc)
    decreases |fs|
  {
    hide SameLetter, Lower, Put;
    if fs != [] {
      SameName(fs[0].name, gs[0].name);
      CaseIgnored(fs[1..], gs[1..], Put(STR, acc, Lower(fs[0].name), Some(fs[0].value)));
    }
  }

  // ----- the searches, by positions

  lemma {:induction false} FindBlankFirst(s: string, i: nat, k: nat)
    requires i <= |s|
    ensures FindBlank(s, i) == Some(k) <==>
            && i <= k && k + 4 <= |s| && BlankAt(s, k)
            && forall j :: i <= j < k ==> s[j] != '\0' && !BlankAt(s, j)
    decreases |s| - i
  {
    if i + 4 <= |s| && !BlankAt(s, i) && s[i] != '\0' {
      FindBlankFirst(s, i + 1, k);
    }
  }

  ghost predicate HasBlank(s: string, k: int) {
    0 <= k && k + 4 <= |s| && s[k..k + 4] == "\r\n\r\n"
  }

  lemma BlankText(s: string, k: nat)
    requires k + 4 <= |s|
    ensures BlankAt(s, k) <==> HasBlank(s, k)
  {
    assert s[k..k + 4] == [s[k], s[k + 1], s[k + 2], s[k + 3]];
  }

  /** strstr finds the first blank line that no terminator comes before. */
  lemma FindBlankIs(s: string, i: nat, k: nat)
    requires i <= |s|
    ensures FindBlank(s, i) == Some(k) <==> i <= k && HasBlank(s, k) && forall j :: i <= j < k ==> s[j] != '\0' && !HasBlank(s, j)
  {
    hide FindBlank, BlankAt;
    FindBlankFirst(s, i, k);
    if i <= k && k + 4 <= |s| {
      forall j | i <= j <= k
        ensures BlankAt(s, j) <==> HasBlank(s, j)
      {
        BlankText(s, j);
      }
    }
  }

  /** A first name is ended by a colon only, a later one by a colon or a line feed. */
  lemma DelimitersAre(c: char)
    ensures IsDelimiter(c, true) <==> c in ":"
    ensures IsDelimiter(c, false) <==> c in "\n:"
  {
  }
}
