/**
 Building and printing a request with uo_http_msg, and the round trip through the parser.
 The header table is the ordered map that uo_strhashtbl implements.
 */
module HttpWriter {
  import opened OrderedMap
  import opened CText
  import opened HttpParser
  import opened HttpWire

  /** A growing buffer, by the bytes before its position. */
  class OutBuf {
    var text: string

    constructor ()
      ensures text == ""
    {
      text := "";
    }
  }

  /** A request message in the sending role, with the buffer that was given to it. */
  class SendRequest {
    const own: OutBuf
    var startLine: bool
    var methodSpUri: string
    var versionCrlf: string
    var headers: seq<Item<string, string>>
    var body: string

    /** The header table never lists a name twice. */
    ghost predicate Valid()
      reads this`headers
    {
      Unique(STR, headers)
    }

    constructor (own: OutBuf)
      ensures Valid() && !startLine && headers == [] && body == "" && this.own == own
    {
      this.own := own;
      startLine, methodSpUri, versionCrlf, headers, body := false, "", "", [], "";
    }

    method SetRequestLine(verb: Method, uri: string, version: Version) returns (ok: bool)
      modifies this`startLine, this`methodSpUri, this`versionCrlf
      ensures ok <==> verb != INVALID && version != NO_VERSION && CStr(uri) != ""
      ensures ok ==> startLine && methodSpUri == MethodText(verb) + " " + CStr(uri) && versionCrlf == VersionText(version) + CRLF
      ensures !ok ==> unchanged(this)
    {
      if verb == INVALID || version == NO_VERSION || CStr(uri) == "" {
        return false;
      }
      methodSpUri := MethodText(verb) + " " + CStr(uri);
      versionCrlf := VersionText(version) + CRLF;
      startLine := true;
      return true;
    }

    method SetHeader(name: string, value: string)
      requires Valid()
      modifies this`headers
      ensures Valid() && headers == Put(STR, old(headers), name, value)
    {
      StrLawful();
      UniqueKept(STR, headers, name, value);
      headers := Put(STR, headers, name, value);
    }

    method SetContent(content: string, contentType: string)
      requires Valid() && |content| < 0x1_0000_0000_0000_0000
      modifies this`headers, this`body
      ensures Valid() && headers == WithContent(old(headers), content, contentType)
      ensures body == if content == "" then old(body) else content
      ensures forall verb :: Framed(verb, headers, body) <==> content != "" || old(body) == ""
    {
      hide Framed, Put;
      forall verb
        ensures Framed(verb, WithContent(headers, content, contentType), BodyAfter(body, content))
           <==> content != "" || body == ""
      {
        ContentFramed(verb, headers, body, content, contentType);
      }
      if content == "" {
        SetHeader("content-length", "0");
        assert headers == WithContent(old(headers), content, contentType) && body == BodyAfter(old(body), content);
        return;
      }
      body := content;
      SetHeader("content-length", Decimal(|content|));
      SetHeader("content-type", contentType);
      assert headers == WithContent(old(headers), content, contentType) && body == BodyAfter(old(body), content);
    }

    /**
     Print the message: start line, the headers in table order, blank line, body. The message's own buffer
     is emptied first, so what is printed is appended to any other buffer, and replaces what was in its own.
     */
    method WriteToBuf(dst: OutBuf)
      modifies own`text, dst`text
      ensures dst != own ==> own.text == ""
      ensures dst.text == (if dst == own then "" else old(dst.text))
                          + (methodSpUri + " " + versionCrlf + FieldLines(FieldsFor(headers)) + CRLF + body)
    {
      own.text := "";
      ghost var before := dst.text;
      dst.text := dst.text + (methodSpUri + " " + versionCrlf);
      WriteHeaders(dst);
      ghost var lines := FieldLines(FieldsFor(headers));
      dst.text := dst.text + CRLF;
      if body != "" {
        dst.text := dst.text + body;
      }
      assert dst.text == before + (methodSpUri + " " + versionCrlf) + lines + CRLF + body;
      Regroup(before, methodSpUri + " " + versionCrlf, lines, CRLF, body);
    }

    /** The loop over the header list. */
    method WriteHeaders(dst: OutBuf)
      modifies dst`text
      ensures dst.text == old(dst.text) + FieldLines(FieldsFor(headers))
    {
      var link := 0;
      while link < |headers|
        invariant link <= |headers|
        invariant dst.text + FieldLines(FieldsFor(headers[link..])) == old(dst.text) + FieldLines(FieldsFor(headers))
      {
        var item := headers[link];
        assert headers[link..][1..] == headers[link + 1..];
        LinesStep(headers[link..], dst.text);
        dst.text := dst.text + (item.key + ": " + item.value + CRLF);
        link := link + 1;
      }
      assert headers[link..] == [];
    }
  }

  /** The header lines that WriteToBuf prints. */
  function FieldsFor(hs: seq<Item<string, string>>): (fs: seq<Field>)
    ensures |fs| == |hs| && forall i :: 0 <= i < |hs| ==> fs[i] == Field(hs[i].key, " ", hs[i].value)
  {
    if hs == [] then [] else [Field(hs[0].key, " ", hs[0].value)] + FieldsFor(hs[1..])
  }

  lemma Regroup(a: string, b: string, c: string, d: string, e: string)
    ensures a + b + c + d + e == a + (b + c + d + e)
  {
  }

  lemma FieldLine(it: Item<string, string>)
    ensures FieldText(Field(it.key, " ", it.value)) == it.key + ": " + it.value
  {
  }

  lemma LinesFirst(hs: seq<Item<string, string>>)
    requires hs != []
    ensures FieldLines(FieldsFor(hs))
         == FieldText(Field(hs[0].key, " ", hs[0].value)) + CRLF + FieldLines(FieldsFor(hs[1..]))
  {
    hide FieldText;
    assert FieldsFor(hs)[1..] == FieldsFor(hs[1..]);
  }

  lemma LinesStep(hs: seq<Item<string, string>>, out: string)
    requires hs != []
    ensures out + FieldLines(FieldsFor(hs))
         == out + (hs[0].key + ": " + hs[0].value + CRLF) + FieldLines(FieldsFor(hs[1..]))
  {
    hide FieldsFor, FieldLines;
    FieldLine(hs[0]);
    var text, rest := hs[0].key + ": " + hs[0].value + CRLF, FieldLines(FieldsFor(hs[1..]));
    LinesFirst(hs);
    assert FieldLines(FieldsFor(hs)) == text + rest;
  }

  /** The header table after SetContent. */
  function WithContent(hs: seq<Item<string, string>>, content: string, contentType: string): seq<Item<string, string>> {
    if content == "" then Put(STR, hs, "content-length", "0")
    else Put(STR, Put(STR, hs, "content-length", Decimal(|content|)), "content-type", contentType)
  }

  // ----- round trip

  ghost predicate HeaderOk(it: Item<string, string>) {
    FieldOk(Field(it.key, " ", it.value)) && Lower(it.key) == it.key
  }

  ghost predicate HeadersOk(hs: seq<Item<string, string>>) {
    Unique(STR, hs) && forall i :: 0 <= i < |hs| ==> HeaderOk(hs[i])
  }

  /** The received form of a header table. */
  ghost function AsReceived(hs: seq<Item<string, string>>): (r: Headers)
    ensures |r| == |hs| && forall i :: 0 <= i < |hs| ==> r[i] == Item(hs[i].key, Some(hs[i].value))
  {
    seq(|hs|, i requires 0 <= i < |hs| => Item(hs[i].key, Some(hs[i].value)))
  }

  /** Storing distinct lower-case fields one by one rebuilds the table, in order. */
  lemma {:induction false} HeadersRebuilt(hs: seq<Item<string, string>>, n: nat)
    requires HeadersOk(hs) && n <= |hs|
    ensures HeadersOf(FieldsFor(hs)[n..], AsReceived(hs)[..n]) == AsReceived(hs)
    decreases |hs| - n
  {
    var fs, rs := FieldsFor(hs), AsReceived(hs);
    if n < |hs| {
      assert fs[n..][1..] == fs[n + 1..];
      assert IndexOf(STR, rs[..n], hs[n].key) == n;
      assert rs[..n + 1] == rs[..n] + [rs[n]];
      HeadersRebuilt(hs, n + 1);
    } else {
      assert rs[..n] == rs;
    }
  }

  /** The headers announce the body: by its exact length, or by a method that has none. */
  ghost predicate Framed(verb: Method, hs: seq<Item<string, string>>, body: string) {
    var text := Lookup(STR, hs, "content-length", "");
    if text == "" then body == "" && Bodyless(verb) else Strtoull(text) == Some(|body|)
  }

  /** The length that SetContent announces, whatever the table held before. */
  lemma LengthAnnounces(hs: seq<Item<string, string>>, content: string, contentType: string)
    requires Unique(STR, hs)
    ensures Lookup(STR, WithContent(hs, content, contentType), "content-length", "") == Decimal(|content|)
    ensures Unique(STR, WithContent(hs, content, contentType))
  {
    hide Decimal;
    StrLawful();
    var n := Decimal(|content|);
    assert content == "" ==> n == "0" by { ZeroIs(); }
    var hs1 := Put(STR, hs, "content-length", n);
    UniqueKept(STR, hs, "content-length", n);
    UniqueKept(STR, hs1, "content-type", contentType);
    LookupPut(STR, hs, "content-length", n, "content-length", "");
    LookupPut(STR, hs1, "content-type", contentType, "content-length", "");
  }

  /** The headers that SetContent leaves: the length, the type unless the content is empty, and all others as before. */
  lemma ContentHeaders(hs: seq<Item<string, string>>, content: string, contentType: string, name: string)
    requires Unique(STR, hs)
    ensures Lookup(STR, WithContent(hs, content, contentType), name, "")
         == if name == "content-length" then Decimal(|content|)
            else if name == "content-type" && content != "" then contentType
            else Lookup(STR, hs, name, "")
  {
    hide Decimal, Lookup, Put;
    StrLawful();
    LengthAnnounces(hs, content, contentType);
    var n := if content == "" then "0" else Decimal(|content|);
    var hs1 := Put(STR, hs, "content-length", n);
    UniqueKept(STR, hs, "content-length", n);
    LookupPut(STR, hs, "content-length", n, name, "");
    LookupPut(STR, hs1, "content-type", contentType, name, "");
  }

  /** What SetContent leaves as the body. */
  function BodyAfter(body: string, content: string): string {
    if content == "" then body else content
  }

  /**
   SetContent leaves a message whose headers announce its body exactly when it stored a body or there
   was none: empty content announces length 0 and keeps an earlier body.
   */
  lemma ContentFramed(verb: Method, hs: seq<Item<string, string>>, body: string, content: string, contentType: string)
    requires Unique(STR, hs) && |content| < 0x1_0000_0000_0000_0000
    ensures Framed(verb, WithContent(hs, content, contentType), BodyAfter(body, content)) <==> content != "" || body == ""
  {
    hide WithContent, Decimal, Strtoull, Lookup;
    LengthAnnounces(hs, content, contentType);
    StrtoullDecimal(|content|);
  }

  ghost predicate AllValued(hs: seq<Item<string, string>>) {
    forall i :: 0 <= i < |hs| ==> hs[i].value != ""
  }

  lemma ReceivedLength(hs: seq<Item<string, string>>)
    requires AllValued(hs)
    ensures var text := Lookup(STR, hs, "content-length", "");
            Lookup(STR, AsReceived(hs), "content-length", None) == if text == "" then None else Some(text)
  {
    hide IndexOf;
    var i := IndexOf(STR, hs, "content-length");
    IndexOfFirst(STR, AsReceived(hs), "content-length", i);
  }

  /** The printed fields have different names, and are valued exactly when the table is. */
  lemma PrintedNames(hs: seq<Item<string, string>>)
    requires HeadersOk(hs)
    ensures DistinctNames(FieldsFor(hs)) && (Valued(FieldsFor(hs)) <==> AllValued(hs))
  {
    hide Lower, FieldsFor;
    var fs := FieldsFor(hs);
    assert forall i :: 0 <= i < |hs| ==> HeaderOk(hs[i]) && fs[i] == Field(hs[i].key, " ", hs[i].value);
    if Valued(fs) {
      assert forall i :: 0 <= i < |hs| ==> fs[i].value == hs[i].value;
    }
  }

  lemma PrintedWellFormed(verb: Method, uri: string, version: Version, hs: seq<Item<string, string>>, body: string)
    requires verb != INVALID && version != NO_VERSION && Lacks(uri, '\r') && Lacks(uri, '\0') && HeadersOk(hs)
    ensures WellFormed(WireRequest(verb, uri, version, FieldsFor(hs), body))
  {
    hide Lacks, Lower;
    assert forall i :: 0 <= i < |hs| ==> HeaderOk(hs[i]);
  }

  /**
   Printing then parsing gives the request back: for every method, version and CR-free URI and every
   table of lower-case headers, one receive of the printed bytes yields the same method, URI, version,
   header table (in order) and body, exactly when no header is empty and the headers announce the body.
   */
  lemma PrintParse(verb: Method, uri: string, version: Version, hs: seq<Item<string, string>>, body: string)
    requires verb != INVALID && version != NO_VERSION && Lacks(uri, '\r') && Lacks(uri, '\0')
    requires HeadersOk(hs)
    ensures var r := WireRequest(verb, uri, version, FieldsFor(hs), body);
            && WellFormed(r) && Bytes(r) != ""
            && (Receive(NEW_MSG, "", [Bytes(r)]) == Received(Denoted(r), []) <==> AllValued(hs) && Framed(verb, hs, body))
            && Denoted(r).verb == verb && Denoted(r).uri == uri && Denoted(r).version == version
            && Denoted(r).headers == AsReceived(hs) && Denoted(r).body == body
  {
    hide Receive, Bytes, Head, RequestLine, Strtoull, Lookup, WellFormed, Kept, HeadersOk, ReadTable, HeadersOf, AllValued, FieldsFor;
    var r := WireRequest(verb, uri, version, FieldsFor(hs), body);
    PrintedWellFormed(verb, uri, version, hs, body);
    HeadersRebuilt(hs, 0);
    assert FieldsFor(hs)[0..] == FieldsFor(hs) && AsReceived(hs)[..0] == [];
    PrintedNames(hs);
    KeptIff(r);
    OneReceive(r);
    if AllValued(hs) {
      ReceivedLength(hs);
    }
  }

  /** What WriteToBuf appends is the wire form of the request that was set up. */
  lemma PrintedForm(verb: Method, uri: string, version: Version, hs: seq<Item<string, string>>, body: string)
    ensures MethodText(verb) + " " + uri + " " + (VersionText(version) + CRLF) + FieldLines(FieldsFor(hs)) + CRLF + body
         == Bytes(WireRequest(verb, uri, version, FieldsFor(hs), body))
  {
    hide MethodText, VersionText, FieldLines;
    assert MethodText(verb) + " " + uri + " " + (VersionText(version) + CRLF) == RequestLine(verb, uri, version);
  }

  // ----- from the calls to the received message

  lemma PutOk(hs: seq<Item<string, string>>, name: string, value: string)
    requires HeadersOk(hs) && HeaderOk(Item(name, value))
    ensures HeadersOk(Put(STR, hs, name, value))
  {
    hide IndexOf, Lower;
    StrLawful();
    UniqueKept(STR, hs, name, value);
    assert forall i :: 0 <= i < |hs| ==> HeaderOk(hs[i]);
  }

  lemma HeaderFrom(name: string, value: string)
    requires LowerName(name) && ValueOk(value)
    ensures HeaderOk(Item(name, value))
  {
    FieldFrom(name, value);
  }

  lemma ContentOk(hs: seq<Item<string, string>>, content: string, contentType: string)
    requires HeadersOk(hs) && (content != "" ==> ValueOk(contentType))
    ensures HeadersOk(WithContent(hs, content, contentType))
  {
    hide HeadersOk, HeaderOk, ValueOk, Put, Decimal;
    var n := Decimal(|content|);
    DecimalOk(|content|);
    assert content == "" ==> n == "0" by { ZeroIs(); }
    HeaderFrom("content-length", n);
    PutOk(hs, "content-length", n);
    if content != "" {
      HeaderFrom("content-type", contentType);
      PutOk(Put(STR, hs, "content-length", n), "content-type", contentType);
    }
  }

  lemma ZeroIs()
    ensures Decimal(0) == "0"
  {
  }

  /** The calls that set up a message after its request line. */
  datatype Call = Header(name: string, value: string) | Content(content: string, contentType: string)

  ghost predicate CallOk(c: Call) {
    match c
    case Header(name, value) => HeaderOk(Item(name, value))
    case Content(content, contentType) =>
      |content| < 0x1_0000_0000_0000_0000 && (content != "" ==> ValueOk(contentType))
  }

  /** The header table and the body after the calls. */
  ghost function Built(calls: seq<Call>): (seq<Item<string, string>>, string) {
    if calls == [] then ([], "")
    else
      var (hs, body) := Built(calls[..|calls| - 1]);
      match calls[|calls| - 1]
      case Header(name, value) => (Put(STR, hs, name, value), body)
      case Content(content, contentType) => (WithContent(hs, content, contentType), BodyAfter(body, content))
  }

  lemma BuiltNext(calls: seq<Call>, i: nat)
    requires i < |calls|
    ensures Built(calls[..i + 1]) ==
            var (hs, body) := Built(calls[..i]);
            match calls[i]
            case Header(name, value) => (Put(STR, hs, name, value), body)
            case Content(content, contentType) => (WithContent(hs, content, contentType), BodyAfter(body, content))
  {
    hide Put, WithContent;
    assert calls[..i + 1][..i] == calls[..i];
  }

  /** One receive of the bytes gives exactly this message. */
  ghost predicate DeliveredAs(
    bytes: string, verb: Method, uri: string, version: Version, hs: seq<Item<string, string>>, body: string)
  {
    && bytes != ""
    && var m := Denoted(WireRequest(verb, uri, version, FieldsFor(hs), body));
    && Receive(NEW_MSG, "", [bytes]) == Received(m, [])
    && m.verb == verb && m.uri == uri && m.version == version && m.headers == AsReceived(hs) && m.body == body
  }

  lemma Delivered(
    bytes: string, verb: Method, uri: string, version: Version, hs: seq<Item<string, string>>, body: string)
    requires verb != INVALID && version != NO_VERSION && Lacks(uri, '\r') && Lacks(uri, '\0')
    requires HeadersOk(hs)
    requires bytes == "" + (MethodText(verb) + " " + uri + " " + (VersionText(version) + CRLF)
                            + FieldLines(FieldsFor(hs)) + CRLF + body)
    ensures DeliveredAs(bytes, verb, uri, version, hs, body) <==> AllValued(hs) && Framed(verb, hs, body)
  {
    hide AllValued, Receive, HeadersOk, Framed, MethodText, VersionText, FieldLines, FieldsFor, Lacks, Denoted, WellFormed;
    PrintedForm(verb, uri, version, hs, body);
    PrintParse(verb, uri, version, hs, body);
    var r := WireRequest(verb, uri, version, FieldsFor(hs), body);
    assert bytes == Bytes(r);
  }

  /**
   Set up a request by any sequence of calls, print it, and hand the bytes to a receiver: the receiver ends
   with the method, URI, version, header table and body that were set, exactly when no header is empty and
   the headers announce the body.
   */
  method SendAndReceive(verb: Method, uri: string, version: Version, calls: seq<Call>) returns (bytes: string)
    requires verb != INVALID && version != NO_VERSION && uri != "" && Lacks(uri, '\r') && Lacks(uri, '\0')
    requires forall i :: 0 <= i < |calls| ==> CallOk(calls[i])
    ensures var (hs, body) := Built(calls);
            DeliveredAs(bytes, verb, uri, version, hs, body) <==> AllValued(hs) && Framed(verb, hs, body)
    ensures calls != [] && calls[|calls| - 1].Content? && calls[|calls| - 1].content != "" ==>
      (DeliveredAs(bytes, verb, uri, version, Built(calls).0, Built(calls).1) <==> AllValued(Built(calls).0))
  {
    hide AllValued, HeadersOk, HeaderOk, Framed, WithContent, Put, Built, DeliveredAs, MethodText, VersionText, FieldLines, FieldsFor, CStr, ValueOk;
    var own := new OutBuf();
    var dst := new OutBuf();
    var request := new SendRequest(own);
    var ok := request.SetRequestLine(verb, uri, version);
    NoTerminator(uri);
    NoHeaders();
    for i := 0 to |calls|
      invariant request.Valid() && request.startLine && dst.text == ""
      invariant request.methodSpUri == MethodText(verb) + " " + uri && request.versionCrlf == VersionText(version) + CRLF
      invariant HeadersOk(request.headers) && (request.headers, request.body) == Built(calls[..i])
      invariant i > 0 && calls[i - 1].Content? && calls[i - 1].content != "" ==> Framed(verb, request.headers, request.body)
    {
      BuiltNext(calls, i);
      match calls[i] {
        case Header(name, value) =>
          PutOk(request.headers, name, value);
          request.SetHeader(name, value);
        case Content(content, contentType) =>
          ContentOk(request.headers, content, contentType);
          request.SetContent(content, contentType);
      }
    }
    assert calls[..|calls|] == calls;
    request.WriteToBuf(dst);
    bytes := dst.text;
    Delivered(bytes, verb, uri, version, request.headers, request.body);
  }

  lemma NoHeaders()
    ensures HeadersOk([]) && Built([]) == ([], "")
  {
  }
}
