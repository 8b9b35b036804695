/**
 When receiving a request goes wrong in memory: the value of a header is sought behind the terminator of
 the header text if the name before it runs to the end of that text.
 */
module HttpFault {
  import opened OrderedMap
  import opened CText
  import opened HttpParser
  import opened HttpWire

  // ----- every text

  /** Some turn of the header loop finds a name that nothing ends. */
  predicate Unended(s: string, first: bool)
    decreases |s|
  {
    var t := SkipDelimiters(s, first);
    && t != ""
    && match ParseField(t, first)
       case None => true
       case Some(turn) => Unended(turn.rest, false)
  }

  /** Whether the header loop faults depends on the text alone, not on the table it fills. */
  lemma {:induction false} FaultIff(s: string, first: bool, acc: Headers)
    ensures ParseFields(s, first, acc) == None <==> Unended(s, first)
    decreases |s|
  {
    hide SkipDelimiters, ParseField, Put;
    var t := SkipDelimiters(s, first);
    if t != "" && ParseField(t, first).Some? {
      var turn := ParseField(t, first).value;
      FaultIff(turn.rest, false, Put(STR, acc, turn.name, turn.value));
    }
  }

  // ----- the same by positions in the text

  /** Delimiters up to a, a name up to the delimiter at b, white space up to d. */
  ghost predicate NameAt(s: string, first: bool, a: int, b: int, d: int) {
    && 0 <= a < b < d <= |s|
    && (forall k :: 0 <= k < a ==> IsDelimiter(s[k], first))
    && (forall k :: a <= k < b ==> !IsDelimiter(s[k], first)) && IsDelimiter(s[b], first)
    && (forall k :: b < k < d ==> IsSpace(s[k])) && (d < |s| ==> !IsSpace(s[d]))
  }

  /** A value from d on: up to a carriage return just before e, or to the end. */
  ghost predicate ValueAt(s: string, d: int, e: int) {
    && 0 <= d <= e <= |s|
    && (forall k :: d <= k < e - 1 ==> s[k] != '\r')
    && if d < e && s[e - 1] == '\r' then true else e == |s|
  }

  /** The first e characters are a header: a name and its value. */
  ghost predicate HeaderAt(s: string, first: bool, e: int) {
    exists a, b, d :: NameAt(s, first, a, b, d) && ValueAt(s, d, e)
  }

  /** The text is headers of these lengths, one behind the other, and then a name that nothing ends. */
  ghost predicate LeadsToOpen(s: string, first: bool, ns: seq<nat>)
    decreases |ns|
  {
    if ns == [] then OpenName(s, first)
    else HeaderAt(s, first, ns[0]) && ns[0] <= |s| && LeadsToOpen(s[ns[0]..], false, ns[1..])
  }

  lemma {:induction false} SkipSplit(s: string, first: bool) returns (lead: string)
    ensures s == lead + SkipDelimiters(s, first) && forall i :: 0 <= i < |lead| ==> IsDelimiter(lead[i], first)
  {
    lead := "";
    if s != "" && IsDelimiter(s[0], first) {
      lead := SkipSplit(s[1..], first);
      lead := [s[0]] + lead;
    }
  }

  lemma {:induction false} SkipIs(s: string, first: bool, n: nat)
    requires n < |s| && !IsDelimiter(s[n], first) && forall i :: 0 <= i < n ==> IsDelimiter(s[i], first)
    ensures SkipDelimiters(s, first) == s[n..]
  {
    if n > 0 {
      SkipIs(s[1..], first, n - 1);
      assert s[1..][n - 1..] == s[n..];
    }
  }

  /** A header, as described by positions, is what one turn of the loop takes. */
  lemma HeaderTaken(s: string, first: bool, e: nat)
    requires HeaderAt(s, first, e)
    ensures 0 < e <= |s| && SkipDelimiters(s, first) != ""
    ensures var turn := ParseField(SkipDelimiters(s, first), first); turn.Some? && turn.value.rest == s[e..]
  {
    hide SkipDelimiters, TokenLength, ParseField, Chr;
    var a, b, d :| NameAt(s, first, a, b, d) && ValueAt(s, d, e);
    var t, ws, p := s[a..], s[b + 1..d], s[d..];
    SkipIs(s, first, a);
    NameTaken(s, first, a, b);
    assert t[b - a + 1..] == s[b + 1..] == ws + p;
    assert forall k :: 0 <= k < |ws| ==> ws[k] == s[b + 1 + k];
    RestOf(t, first, b - a, ws, p);
    ValueTaken(s, d, e);
  }

  lemma NameTaken(s: string, first: bool, a: nat, b: nat)
    requires a < b < |s| && IsDelimiter(s[b], first) && forall k :: a <= k < b ==> !IsDelimiter(s[k], first)
    ensures TokenLength(s[a..], first) == b - a
  {
    hide TokenLength;
    TokenIs(s[a..], first, b - a);
  }

  lemma ValueTaken(s: string, d: nat, e: nat)
    requires ValueAt(s, d, e)
    ensures var v := Chr(s[d..], '\r'); s[e..] == if v < |s[d..]| then s[d..][v + 1..] else ""
  {
    hide Chr;
    var p := s[d..];
    if d < e && s[e - 1] == '\r' {
      ChrIs(p, '\r', e - 1 - d);
      assert p[e - 1 - d + 1..] == s[e..];
    } else {
      ChrIs(p, '\r', |p|);
    }
  }

  /** What a turn leaves, when its name has n characters and white space ws comes before the value. */
  lemma RestOf(t: string, first: bool, n: nat, ws: string, p: string)
    requires TokenLength(t, first) == n < |t| && t[n + 1..] == ws + p && (p == "" || !IsSpace(p[0]))
    requires forall k :: 0 <= k < |ws| ==> IsSpace(ws[k])
    ensures var turn, v := ParseField(t, first), Chr(p, '\r');
            turn.Some? && turn.value.rest == if v < |p| then p[v + 1..] else ""
  {
    hide TokenLength, DropSpace, Chr, Lower;
    DropSpaceOver(ws, p);
    AlreadyDropped(p);
  }

  lemma AlreadyDropped(s: string)
    requires s == "" || !IsSpace(s[0])
    ensures DropSpace(s) == s
  {
  }

  /** What one turn of the loop takes is a header by positions. */
  lemma TakenHeader(s: string, first: bool) returns (e: nat)
    requires SkipDelimiters(s, first) != "" && ParseField(SkipDelimiters(s, first), first).Some?
    ensures HeaderAt(s, first, e) && 0 < e <= |s| && ParseField(SkipDelimiters(s, first), first).value.rest == s[e..]
  {
    hide SkipDelimiters, DropSpace, TokenLength, Chr, NameAt, ValueAt, ParseField;
    var t := SkipDelimiters(s, first);
    var lead := SkipSplit(s, first);
    var n := TokenLength(t, first);
    NameEnded(t, first);
    var p := DropSpace(t[n + 1..]);
    var ws := DropSpaceSplit(t[n + 1..]);
    NamePlaced(s, first, lead, t, ws, p);
    RestOf(t, first, n, ws, p);
    SuffixAt(lead, t, n + 1 + |ws|, p, ws, n);
    e := ValueEnds(s, first, |lead|, |lead| + n, |lead| + n + 1 + |ws|, p);
  }

  /** Behind a name and white space, the value ends before the first carriage return, or with the text. */
  lemma ValueEnds(s: string, first: bool, a: nat, b: nat, d: nat, p: string) returns (e: nat)
    requires NameAt(s, first, a, b, d) && s[d..] == p
    ensures HeaderAt(s, first, e) && 0 < e <= |s|
    ensures var v := Chr(p, '\r'); s[e..] == if v < |p| then p[v + 1..] else ""
  {
    hide Chr, ValueAt;
    var v := Chr(p, '\r');
    ValuePlaced(s, d, p);
    e := if v < |p| then d + v + 1 else |s|;
    if v < |p| {
      assert s[d..][v + 1..] == s[e..];
    }
  }

  lemma NameEnded(t: string, first: bool)
    requires ParseField(t, first).Some?
    ensures TokenLength(t, first) < |t|
  {
    hide TokenLength, DropSpace, Lower;
  }

  lemma SuffixAt(lead: string, t: string, k: nat, p: string, ws: string, n: nat)
    requires n < |t| && t[n + 1..] == ws + p && k == n + 1 + |ws|
    ensures |lead| + k <= |lead + t| && (lead + t)[|lead| + k..] == p
  {
    assert t[k..] == t[n + 1..][|ws|..] == p;
    assert (lead + t)[|lead| + k..] == t[k..];
  }

  lemma ValuePlaced(s: string, d: nat, p: string)
    requires d <= |s| && s[d..] == p
    ensures var v := Chr(p, '\r'); ValueAt(s, d, if v < |p| then d + v + 1 else |s|)
  {
    hide Chr;
    assert forall k :: d <= k < |s| ==> s[k] == p[k - d];
  }

  lemma NamePlaced(s: string, first: bool, lead: string, t: string, ws: string, p: string)
    requires s == lead + t && t != "" && TokenLength(t, first) < |t| && !IsDelimiter(t[0], first)
    requires t[TokenLength(t, first) + 1..] == ws + p && (p != "" ==> !IsSpace(p[0]))
    requires (forall i :: 0 <= i < |lead| ==> IsDelimiter(lead[i], first)) && forall i :: 0 <= i < |ws| ==> IsSpace(ws[i])
    ensures var n := TokenLength(t, first); NameAt(s, first, |lead|, |lead| + n, |lead| + n + 1 + |ws|)
  {
    hide TokenLength;
    var n := TokenLength(t, first);
    var a, b, d := |lead|, |lead| + n, |lead| + n + 1 + |ws|;
    assert forall k :: a <= k < |s| ==> s[k] == t[k - a];
    forall k | b < k < |s|
      ensures s[k] == (ws + p)[k - b - 1]
    {
      assert t[n + 1..][k - b - 1] == t[k - a];
    }
    assert n > 0;
  }

  lemma UnendedIff(s: string, first: bool)
    ensures Unended(s, first) <==> exists ns :: LeadsToOpen(s, first, ns)
  {
    hide Unended, LeadsToOpen;
    if Unended(s, first) {
      UnendedLeads(s, first);
    }
    if ns :| LeadsToOpen(s, first, ns) {
      LeadsUnended(s, first, ns);
    }
  }

  lemma {:induction false} LeadsUnended(s: string, first: bool, ns: seq<nat>)
    requires LeadsToOpen(s, first, ns)
    ensures Unended(s, first)
    decreases |ns|
  {
    hide SkipDelimiters, HeaderAt, OpenName, ParseField;
    if ns == [] {
      OpenIff(s, first);
    } else {
      HeaderTaken(s, first, ns[0]);
      LeadsUnended(s[ns[0]..], false, ns[1..]);
    }
  }

  lemma OpenIff(s: string, first: bool)
    ensures var t := SkipDelimiters(s, first); OpenName(s, first) <==> t != "" && ParseField(t, first) == None
  {
    hide SkipDelimiters, OpenName, TokenLength, Lower, DropSpace;
    OpenNameSkips(s, first);
  }

  lemma {:induction false} UnendedLeads(s: string, first: bool)
    requires Unended(s, first)
    ensures exists ns :: LeadsToOpen(s, first, ns)
    decreases |s|
  {
    hide SkipDelimiters, HeaderAt, OpenName, ParseField;
    OpenIff(s, first);
    if ParseField(SkipDelimiters(s, first), first) == None {
      assert LeadsToOpen(s, first, []);
    } else {
      var e := TakenHeader(s, first);
      UnendedLeads(s[e..], false);
      var ns :| LeadsToOpen(s[e..], false, ns);
      assert ([e] + ns)[1..] == ns;
      assert LeadsToOpen(s, first, [e] + ns);
    }
  }

  /**
   For every header text: the loop reads behind its copy exactly when the text is headers, one behind the
   other, and then a name that nothing ends.
   */
  lemma FaultsAtOpenName(s: string, acc: Headers)
    ensures ParseFields(s, true, acc) == None <==> exists ns :: LeadsToOpen(s, true, ns)
  {
    FaultIff(s, true, acc);
    UnendedIff(s, true);
  }

  /** The header text that a receive would parse now, if its blank line is there. */
  function HeaderTextOf(m: Msg, buf: string): Option<string>
    requires 2 <= m.offset <= |buf|
  {
    match FindBlank(buf, m.offset - 2)
    case None => None
    case Some(end) => Some(if m.offset > end then "" else buf[m.offset..end])
  }

  /**
   For every message state and buffer: a receive faults exactly when it gets as far as the headers,
   because no body is complete, and their text has a name that nothing ends.
   */
  lemma ReceiveFaultsIff(m: Msg, buf: string)
    requires m.startLine && 2 <= m.offset <= |buf|
    ensures AfterStartLine(m, buf).Fault?
       <==> && !(m.headersDone && ParseBody(m, buf).1)
            && HeaderTextOf(m, buf).Some? && Unended(HeaderTextOf(m, buf).value, true)
  {
    hide FindBlank, ParseFields, Unended, Strtoull, Lookup;
    var m2 := if m.headersDone then ParseBody(m, buf).0 else m;
    assert !(m.headersDone && ParseBody(m, buf).1) ==> m2.offset == m.offset;
    if HeaderTextOf(m, buf).Some? {
      FaultIff(HeaderTextOf(m, buf).value, true, m2.headers);
      NothingUnended();
    }
  }

  lemma NothingUnended()
    ensures !Unended("", true)
  {
  }

  // ----- a last line that is no header

  /** Delimiters up to position i, and none from there on. */
  ghost predicate OpensAt(line: string, first: bool, i: int) {
    && 0 <= i < |line|
    && (forall j :: 0 <= j < i ==> IsDelimiter(line[j], first))
    && (forall j :: i <= j < |line| ==> !IsDelimiter(line[j], first))
  }

  /** After its leading delimiters, the line has something and no further delimiter. */
  ghost predicate OpenName(line: string, first: bool) {
    exists i :: OpensAt(line, first, i)
  }

  lemma OpensLater(line: string, first: bool, i: int)
    requires line != "" && IsDelimiter(line[0], first)
    ensures OpensAt(line, first, i) <==> OpensAt(line[1..], first, i - 1)
  {
    var rest := line[1..];
    if OpensAt(rest, first, i - 1) {
      assert forall j :: 0 < j < |line| ==> line[j] == rest[j - 1];
    }
  }

  lemma {:induction false} OpenNameSkips(line: string, first: bool)
    ensures var t := SkipDelimiters(line, first); OpenName(line, first) <==> t != "" && TokenLength(t, first) == |t|
  {
    if line != "" && IsDelimiter(line[0], first) {
      hide OpensAt, TokenLength;
      OpenNameSkips(line[1..], first);
      if i :| OpensAt(line, first, i) {
        OpensLater(line, first, i);
      }
      if i :| OpensAt(line[1..], first, i) {
        OpensLater(line, first, i + 1);
        assert OpensAt(line, first, i + 1);
      }
    } else if line != "" {
      hide TokenLength;
      var n := TokenLength(line, first);
      if n == |line| {
        assert OpensAt(line, first, 0);
      }
    }
  }

  function Lead(first: bool): string {
    if first then "" else "\n"
  }

  lemma LeadSkipped(s: string, first: bool)
    ensures SkipDelimiters(Lead(first) + s, first) == SkipDelimiters(s, first)
  {
    assert first ==> Lead(first) + s == s;
    assert !first ==> (Lead(first) + s)[1..] == s;
  }

  lemma LastLine(line: string, first: bool)
    requires Lacks(line, '\r')
    ensures Unended(Lead(first) + line, first) <==> OpenName(line, first)
  {
    hide SkipDelimiters, TokenLength, OpenName;
    LeadSkipped(line, first);
    OpenNameSkips(line, first);
    var t := SkipDelimiters(line, first);
    SkipSuffix(line, first);
    if t != "" && TokenLength(t, first) < |t| {
      var p := DropSpace(t[TokenLength(t, first) + 1..]);
      DropSuffix(t[TokenLength(t, first) + 1..]);
      assert Chr(p, '\r') == |p|;
      NothingEnded();
    }
  }

  lemma NothingEnded()
    ensures !Unended("", false)
  {
  }

  lemma {:induction false} SkipSuffix(s: string, first: bool)
    requires Lacks(s, '\r')
    ensures Lacks(SkipDelimiters(s, first), '\r')
  {
    if s != "" && IsDelimiter(s[0], first) {
      SkipSuffix(s[1..], first);
    }
  }

  lemma {:induction false} DropSuffix(s: string)
    requires Lacks(s, '\r')
    ensures Lacks(DropSpace(s), '\r')
  {
    if s != "" && IsSpace(s[0]) {
      DropSuffix(s[1..]);
    }
  }

  /** The last of the lines has an empty value, and takes the line behind it for its value. */
  predicate Eats(fs: seq<Field>) {
    if fs == [] then false
    else if fs[0].value != "" then Eats(fs[1..])
    else |fs| == 1 || Eats(fs[2..])
  }

  ghost predicate LastNameOpen(fs: seq<Field>, line: string) {
    !Eats(fs) && OpenName(line, fs == [])
  }

  lemma EatsLine(f: Field, line: string, first: bool)
    requires FieldOk(f) && f.value == "" && Lacks(line, '\r')
    ensures var turn := ParseField(FieldText(f) + (CRLF + line), first); turn.Some? && turn.value.rest == ""
  {
    hide Lower, DropSpace, TokenLength;
    var t := FieldText(f) + (CRLF + line);
    var ws := f.pad + CRLF;
    assert t == f.name + (":" + (ws + line)) && t == f.name + ":" + (ws + line);
    NameEnds(f.name, ws + line, first);
    Splits(f.name + ":", ws + line);
    SpacesJoin(f.pad, "");
    assert f.pad + CRLF + "" == ws;
    DropSpaceOver(ws, line);
    DropSuffix(line);
  }

  /** Behind well-formed header lines, the last line alone decides, unless it is eaten. */
  lemma {:induction false} LastLineDecides(fs: seq<Field>, line: string, first: bool)
    requires (forall i :: 0 <= i < |fs| ==> FieldOk(fs[i])) && Lacks(line, '\r')
    ensures Unended(Lead(first) + (FieldLines(fs) + line), first) <==> !Eats(fs) && OpenName(line, first && fs == [])
    decreases |fs|
  {
    hide SkipDelimiters, ParseField, FieldText, OpenName, FieldOk, FieldLines, Lower, DropSpace;
    if fs == [] {
      assert FieldLines(fs) + line == line by { NoLines(line); }
      LastLine(line, first);
    } else {
      var rest := FieldLines(fs[1..]) + line;
      LinesFirst(fs, line);
      FieldSkips(fs[0], CRLF + rest, first);
      FieldNotEmpty(fs[0], CRLF + rest);
      if fs[0].value != "" {
        FieldParsed(fs[0], CRLF + rest, first);
        LastLineDecides(fs[1..], line, false);
        assert (CRLF + rest)[1..] == Lead(false) + rest;
      } else if |fs| == 1 {
        assert rest == line by { NoLines(line); }
        EatsLine(fs[0], line, first);
        NothingEnded();
      } else {
        var more := CRLF + (FieldLines(fs[2..]) + line);
        assert fs[1..][1..] == fs[2..];
        LinesFirst(fs[1..], line);
        FieldSwallows(fs[0], fs[1], more, first);
        LastLineDecides(fs[2..], line, false);
        assert more[1..] == Lead(false) + (FieldLines(fs[2..]) + line);
      }
    }
  }

  lemma NoLines(line: string)
    ensures FieldLines([]) + line == line
  {
  }

  lemma LinesFirst(fs: seq<Field>, line: string)
    requires fs != []
    ensures FieldLines(fs) + line == FieldText(fs[0]) + (CRLF + (FieldLines(fs[1..]) + line))
  {
    hide FieldText;
  }

  // ----- whole receptions

  /** The header section of r, with one more line at its end. */
  ghost function HeadWith(r: WireRequest, line: string): string {
    RequestLine(r.verb, r.uri, r.version) + (FieldLines(r.fields) + line) + CRLF + CRLF
  }

  lemma BlankAfterOne(pre: string, line: string, rest: string)
    requires line != "" && Lacks(line, '\r') && Lacks(line, '\0')
    ensures FindBlank(pre + CRLF + line + CRLF + CRLF + rest, |pre|) == Some(|pre| + 2 + |line|)
  {
    hide Lacks;
    var s := pre + CRLF + line + CRLF + CRLF + rest;
    NoBlankIn(pre, line, CRLF + rest);
    assert s == pre + CRLF + line + CRLF + (CRLF + rest);
    assert BlankAt(s, |pre| + 2 + |line|);
  }

  lemma {:induction false} BlankAfterLine(pre: string, fs: seq<Field>, line: string, rest: string)
    requires forall i :: 0 <= i < |fs| ==> FieldOk(fs[i])
    requires line != "" && Lacks(line, '\r') && Lacks(line, '\0')
    ensures FindBlank(pre + CRLF + (FieldLines(fs) + line) + CRLF + CRLF + rest, |pre|)
         == Some(|pre| + 2 + |FieldLines(fs) + line|)
    decreases |fs|
  {
    hide FieldText, FieldOk, Lacks, FindBlank;
    var s := pre + CRLF + (FieldLines(fs) + line) + CRLF + CRLF + rest;
    if fs == [] {
      assert FieldLines(fs) + line == line;
      BlankAfterOne(pre, line, rest);
    } else {
      var ft := FieldText(fs[0]);
      var more := FieldLines(fs[1..]) + line;
      FieldTextQuiet(fs[0]);
      BlankAfterLine(pre + CRLF + ft, fs[1..], line, rest);
      assert FieldLines(fs) + line == ft + CRLF + more;
      NoBlankIn(pre, ft, more + CRLF + CRLF + rest);
      assert s == pre + CRLF + ft + CRLF + (more + CRLF + CRLF + rest);
      assert s == (pre + CRLF + ft) + CRLF + more + CRLF + CRLF + rest;
    }
  }

  lemma HeadWithEnds(r: WireRequest, line: string, rest: string)
    requires WellFormed(r) && line != "" && Lacks(line, '\r') && Lacks(line, '\0')
    ensures |RequestLine(r.verb, r.uri, r.version)| >= 2
    ensures FindBlank(HeadWith(r, line) + rest, |RequestLine(r.verb, r.uri, r.version)| - 2) == Some(|HeadWith(r, line)| - 4)
  {
    hide FieldLines, RequestLine;
    LineShape(r);
    var first := RequestLine(r.verb, r.uri, r.version);
    var pre := first[..|first| - 2];
    BlankAfterLine(pre, r.fields, line, rest);
    assert first == pre + CRLF;
    assert HeadWith(r, line) + rest == pre + CRLF + (FieldLines(r.fields) + line) + CRLF + CRLF + rest;
  }

  /** What a receive makes of the header section: nothing yet, or a fault exactly when the last name is open. */
  lemma HeadersWith(r: WireRequest, line: string, rest: string, buf: string)
    requires WellFormed(r) && line != "" && Lacks(line, '\r') && Lacks(line, '\0')
    requires buf <= HeadWith(r, line) + rest && |RequestLine(r.verb, r.uri, r.version)| <= |buf|
    ensures 2 <= AfterLine(r).offset
    ensures |buf| < |HeadWith(r, line)| ==> ParseHeaders(AfterLine(r), buf) == Returns(AfterLine(r), false)
    ensures |buf| >= |HeadWith(r, line)| ==> (ParseHeaders(AfterLine(r), buf).Fault? <==> LastNameOpen(r.fields, line))
  {
    hide WellFormed, ParseFields, RequestLine, FindBlank, OpenName, Unended, FieldLines, HeadWith, Lacks;
    var all := HeadWith(r, line) + rest;
    var n := |RequestLine(r.verb, r.uri, r.version)|;
    HeadWithEnds(r, line, rest);
    assert buf == all[..|buf|];
    BlankInPrefix(all, |buf|, n - 2);
    if |buf| >= |HeadWith(r, line)| {
      var text := FieldLines(r.fields) + line;
      HeadWithText(r, line, rest, buf);
      FaultIff(text, true, []);
      FieldsOf(r);
      LastLineDecides(r.fields, line, true);
      assert Lead(true) + text == text;
    }
  }

  lemma HeadWithText(r: WireRequest, line: string, rest: string, buf: string)
    requires buf <= HeadWith(r, line) + rest && |HeadWith(r, line)| <= |buf|
    ensures var n := |RequestLine(r.verb, r.uri, r.version)|;
            n <= |HeadWith(r, line)| - 4 && buf[n..|HeadWith(r, line)| - 4] == FieldLines(r.fields) + line
  {
    hide RequestLine, FieldLines;
    var first, text := RequestLine(r.verb, r.uri, r.version), FieldLines(r.fields) + line;
    assert buf[..|HeadWith(r, line)|] == HeadWith(r, line);
    assert HeadWith(r, line)[|first|..|first| + |text|] == text;
    assert buf[|first|..|first| + |text|] == buf[..|HeadWith(r, line)|][|first|..|first| + |text|];
  }

  lemma FieldsOf(r: WireRequest)
    requires WellFormed(r)
    ensures LineOk(r) && forall i :: 0 <= i < |r.fields| ==> FieldOk(r.fields[i])
  {
  }

  /** What the receiver holds after n bytes of the header section. */
  ghost function Held(r: WireRequest, n: nat): Msg {
    if n < |RequestLine(r.verb, r.uri, r.version)| then NEW_MSG else AfterLine(r)
  }

  lemma ReceiveWith(r: WireRequest, line: string, rest: string, n: nat, buf: string)
    requires WellFormed(r) && line != "" && Lacks(line, '\r') && Lacks(line, '\0')
    requires n < |HeadWith(r, line)| && n < |buf| && buf <= HeadWith(r, line) + rest
    ensures Resumable(Held(r, n), buf)
    ensures |buf| < |HeadWith(r, line)| ==> AfterRecv(Held(r, n), buf) == Returns(Held(r, |buf|), NextRecv)
    ensures |buf| >= |HeadWith(r, line)| ==> (AfterRecv(Held(r, n), buf).Fault? <==> LastNameOpen(r.fields, line))
  {
    hide WellFormed, LineOk, RequestLine, ParseStartLine, ParseHeaders, ParseBody, LastNameOpen, FieldLines;
    var first := RequestLine(r.verb, r.uri, r.version);
    FieldsOf(r);
    HeadWithEnds(r, line, rest);
    if n < |first| {
      var more := FieldLines(r.fields) + line + CRLF + CRLF + rest;
      assert HeadWith(r, line) + rest == first + more;
      StartLineAt(r, more, buf);
    }
    if |first| <= |buf| {
      HeadersWith(r, line, rest, buf);
    }
  }

  /**
   A header section whose last line is no header, and is not eaten by the line before it, makes the
   receiver read behind its copy of the text, for every division into receives, as soon as the section is
   complete and whatever follows it; and if nothing follows, exactly such a last line does.
   */
  lemma {:induction false} CrashesIff(r: WireRequest, line: string, rest: string, n: nat, chunks: seq<string>)
    requires WellFormed(r) && line != "" && Lacks(line, '\r') && Lacks(line, '\0')
    requires n < |HeadWith(r, line)| && NonEmptyChunks(chunks)
    requires (HeadWith(r, line) + rest)[..n] + Concat(chunks) == HeadWith(r, line) + rest
    ensures Held(r, n).startLine ==> 2 <= Held(r, n).offset <= n
    ensures var reception := Receive(Held(r, n), (HeadWith(r, line) + rest)[..n], chunks);
            && (LastNameOpen(r.fields, line) ==> reception == Crashed)
            && (rest == "" && reception == Crashed ==> LastNameOpen(r.fields, line))
    decreases |chunks|
  {
    hide WellFormed, Lacks, RequestLine, AfterRecv, LastNameOpen, HeadWith;
    HeadWithEnds(r, line, rest);
    var all := HeadWith(r, line) + rest;
    assert chunks != [];
    var buf := all[..n] + chunks[0];
    assert all == buf + Concat(chunks[1..]);
    ReceiveWith(r, line, rest, n, buf);
    if |buf| < |HeadWith(r, line)| {
      assert buf == all[..|buf|];
      CrashesIff(r, line, rest, |buf|, chunks[1..]);
    } else if rest == "" {
      assert buf == all && Concat(chunks[1..]) == "";
      assert chunks[1..] == [] by { NoneLeft(chunks[1..]); }
    }
  }

  /** The single line foo in place of headers. */
  lemma SomeCrash()
    ensures var r := WireRequest(GET, "/", HTTP_1_1, [], "");
            WellFormed(r) && HeadWith(r, "foo") != "" && Receive(NEW_MSG, "", [HeadWith(r, "foo")]) == Crashed
  {
    hide HeadWith, Receive, WellFormed;
    var r := WireRequest(GET, "/", HTTP_1_1, [], "");
    assert WellFormed(r) by { SomeLine(); }
    assert OpensAt("foo", true, 0);
    var all := HeadWith(r, "foo");
    HeadWithEnds(r, "foo", "");
    assert all + "" == all && all[..0] == "" && "" + Concat([all]) == all by { assert [all][1..] == []; }
    CrashesIff(r, "foo", "", 0, [all]);
  }

  lemma SomeLine()
    ensures WellFormed(WireRequest(GET, "/", HTTP_1_1, [], ""))
  {
  }
}
