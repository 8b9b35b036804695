/**
 The terminator that uo_http_msg_parse_body writes behind a body, and the size of the receive buffer it is
 written to. The buffer is doubled when it is full before a read, and when it is full before the headers
 are searched; a body that completes on a later receive is terminated without that.
 */
module HttpBounds {
  import opened OrderedMap
  import opened CText
  import opened HttpParser
  import opened HttpWire

  /** uo_buf_realloc_2x when no byte is free: before each read, and in uo_buf_null_terminate. */
  function Grown(size: nat, used: nat): nat {
    if used < size then size else 2 * size
  }

  /** Where parse_body writes the terminator, when it completes a body of a given length. */
  function WriteAt(m: Msg, buf: string): Option<nat>
    requires m.offset <= |buf|
  {
    match Lookup(STR, m.headers, "content-length", None)
    case None => None
    case Some(text) =>
      match Strtoull(text)
      case None => None
      case Some(n) => if n > |buf| - m.offset then None else Some(m.offset + n)
  }

  /** A write of parse_body goes beyond a buffer of this size. */
  ghost predicate Beyond(m: Msg, buf: string, size: nat)
    requires m.offset <= |buf|
  {
    WriteAt(m, buf).Some? && WriteAt(m, buf).value >= size
  }

  /** One receive, with the buffer size at that time: which call of parse_body completes, and where it writes. */
  ghost predicate WritesBeyond(m: Msg, buf: string, size: nat)
    requires Resumable(m, buf)
  {
    var (m1, line) := if m.startLine then (m, true) else ParseStartLine(m, buf);
    line && if m1.headersDone && ParseBody(m1, buf).1 then Beyond(m1, buf, size)
            else
              var m2 := if m1.headersDone then ParseBody(m1, buf).0 else m1;
              match ParseHeaders(m2, buf)
              case Fault => false
              case Returns(m3, ok) => ok && ParseBody(m3, buf).1 && Beyond(m3, buf, Grown(size, |buf|))
  }

  lemma WrittenWithin(m: Msg, buf: string)
    requires m.offset <= |buf|
    ensures WriteAt(m, buf).Some? ==> m.offset <= WriteAt(m, buf).value <= |buf|
  {
  }

  /**
   For every message state and buffer: a receive writes beyond the buffer exactly when the headers were
   complete before it, and it completes a body that ends with the last byte of a full buffer.
   */
  lemma WritesBeyondIff(m: Msg, buf: string, size: nat)
    requires Resumable(m, buf) && |buf| <= size
    ensures WritesBeyond(m, buf, size) <==> m.headersDone && ParseBody(m, buf).1 && WriteAt(m, buf) == Some(size)
  {
    hide ParseStartLine, ParseHeaders, ParseBody, WriteAt;
    var (m1, line) := if m.startLine then (m, true) else ParseStartLine(m, buf);
    if line {
      WrittenWithin(m1, buf);
      var m2 := if m1.headersDone then ParseBody(m1, buf).0 else m1;
      if m1.headersDone && ParseBody(m1, buf).1 {
      } else {
        var o := ParseHeaders(m2, buf);
        if o.Returns? && o.result {
          WrittenWithin(o.msg, buf);
        }
      }
    }
  }

  // ----- whole receptions

  /** Some receive writes beyond the buffer, which has this size before the first. */
  ghost predicate Overruns(m: Msg, buf: string, size: nat, chunks: seq<string>)
    requires NonEmptyChunks(chunks)
    requires m.startLine ==> 2 <= m.offset <= |buf|
    requires m.headersDone ==> m.startLine
    decreases |chunks|
  {
    chunks != [] &&
    var all, now := buf + chunks[0], Grown(size, |buf|);
    || WritesBeyond(m, all, now)
    || match AfterRecv(m, all)
       case Returns(m', NextRecv) => Overruns(m', all, now, chunks[1..])
       case _ => false
  }

  /** Every read fits into what is free. */
  ghost predicate Fits(used: nat, size: nat, chunks: seq<string>)
    decreases |chunks|
  {
    chunks != [] ==>
      && used + |chunks[0]| <= Grown(size, used)
      && Fits(used + |chunks[0]|, Grown(size, used), chunks[1..])
  }

  /** The buffer size during the last receive, and how many bytes were there before it. */
  ghost function LastSize(used: nat, size: nat, chunks: seq<string>): nat
    requires chunks != []
    decreases |chunks|
  {
    if |chunks| == 1 then Grown(size, used) else LastSize(used + |chunks[0]|, Grown(size, used), chunks[1..])
  }

  ghost function LastUsed(used: nat, chunks: seq<string>): nat
    requires chunks != []
    decreases |chunks|
  {
    if |chunks| == 1 then used else LastUsed(used + |chunks[0]|, chunks[1..])
  }

  /** What one receive of an announced request writes. */
  lemma OneWrite(r: WireRequest, n: nat, buf: string, size: nat)
    requires WellFormed(r) && ReadAnnounced(r) && ContentLength(ReadTable(r.fields, [])).Some?
    requires n < |buf| <= size && buf <= Bytes(r) && Resumable(Expected(r, n), buf)
    ensures WritesBeyond(Expected(r, n), buf, size) <==> |Head(r)| <= n && |buf| == |Bytes(r)| == size
  {
    hide WellFormed, Head, RequestLine, ReadTable, Strtoull, ParseBody;
    LineInHead(r);
    WritesBeyondIff(Expected(r, n), buf, size);
    if |Head(r)| <= n {
      BodyAt(r, buf);
    }
  }

  /**
   For every division of an announced request that is not misread, into receives that fit the buffer: the
   terminator is written beyond the buffer exactly when the last receive starts within the body and
   fills the buffer.
   */
  lemma {:induction false} OverrunsIff(r: WireRequest, n: nat, size: nat, chunks: seq<string>)
    requires WellFormed(r) && ReadAnnounced(r) && ContentLength(ReadTable(r.fields, [])).Some? && !Misread(r.body)
    requires n < |Bytes(r)| && NonEmptyChunks(chunks) && Bytes(r)[..n] + Concat(chunks) == Bytes(r)
    requires Fits(n, size, chunks)
    ensures chunks != [] && (Expected(r, n).startLine ==> 2 <= Expected(r, n).offset <= n)
    ensures Overruns(Expected(r, n), Bytes(r)[..n], size, chunks)
       <==> |Head(r)| <= LastUsed(n, chunks) && LastSize(n, size, chunks) == |Bytes(r)|
    decreases |chunks|
  {
    hide WellFormed, ReadAnnounced, Misread, AfterRecv, Bytes, ReadTable, WritesBeyond, Overruns, Expected, Head, ContentLength;
    assert chunks != [];
    var buf, now := Bytes(r)[..n] + chunks[0], Grown(size, n);
    assert Bytes(r) == buf + Concat(chunks[1..]);
    ExpectedOk(r, n);
    StepOf(r, n, buf);
    OneWrite(r, n, buf, now);
    assert chunks == [chunks[0]] + chunks[1..];
    OverrunsOne(Expected(r, n), Bytes(r)[..n], size, chunks[0], chunks[1..]);
    if |buf| == |Bytes(r)| {
      assert chunks[1..] == [] by { NoneLeft(chunks[1..]); }
    } else {
      assert chunks[1..] != [];
      assert buf == Bytes(r)[..|buf|];
      OverrunsIff(r, |buf|, now, chunks[1..]);
    }
  }

  lemma ExpectedOk(r: WireRequest, n: nat)
    requires WellFormed(r) && n < |Bytes(r)|
    ensures Expected(r, n).startLine ==> 2 <= Expected(r, n).offset <= n
    ensures Expected(r, n).headersDone ==> Expected(r, n).startLine
  {
    hide WellFormed, Head, RequestLine, ReadTable;
    HeadEnds(r);
    LineInHead(r);
  }

  lemma StepOf(r: WireRequest, n: nat, buf: string)
    requires WellFormed(r) && ReadAnnounced(r) && !Misread(r.body) && n < |buf| && buf <= Bytes(r)
    ensures Resumable(Expected(r, n), buf)
    ensures AfterRecv(Expected(r, n), buf)
         == Returns(Expected(r, |buf|), if |buf| == |Bytes(r)| then Complete else NextRecv)
  {
    hide WellFormed, ReadAnnounced, Misread, Head, AfterRecv, Bytes, Expected;
    if n < |Head(r)| {
      HeadStep(r, n, buf);
    } else {
      BodyStep(r, n, buf);
    }
  }

  lemma OverrunsOne(m: Msg, buf: string, size: nat, chunk: string, rest: seq<string>)
    requires chunk != "" && NonEmptyChunks(rest)
    requires m.startLine ==> 2 <= m.offset <= |buf|
    requires m.headersDone ==> m.startLine
    ensures var now, o := Grown(size, |buf|), AfterRecv(m, buf + chunk);
            Overruns(m, buf, size, [chunk] + rest)
            <==> || WritesBeyond(m, buf + chunk, now)
                 || (o.Returns? && o.result == NextRecv && Overruns(o.msg, buf + chunk, now, rest))
  {
    hide AfterRecv, WritesBeyond;
    assert ([chunk] + rest)[1..] == rest;
  }

  /** Such receives exist for every request with a body: the head first, and then the body, up to the last free byte. */
  lemma SomeOverrun(r: WireRequest)
    requires WellFormed(r) && ReadAnnounced(r) && ContentLength(ReadTable(r.fields, [])).Some? && !Misread(r.body)
    requires r.body != ""
    ensures var chunks := [Head(r), r.body];
            && NonEmptyChunks(chunks) && Fits(0, |Bytes(r)|, chunks)
            && Overruns(NEW_MSG, "", |Bytes(r)|, chunks)
  {
    hide WellFormed, ReadAnnounced, Misread, ReadTable, Overruns, Head, RequestLine, Concat, Fits, LastUsed, LastSize, AfterHead;
    HeadEnds(r);
    LineInHead(r);
    var chunks := [Head(r), r.body];
    TwoChunks(Head(r), r.body);
    assert Bytes(r)[..0] == "" && "" + Concat(chunks) == Bytes(r);
    assert Expected(r, 0) == NEW_MSG;
    OverrunsIff(r, 0, |Bytes(r)|, chunks);
  }

  lemma TwoChunks(a: string, b: string)
    requires a != "" && b != ""
    ensures Concat([a, b]) == a + b && Fits(0, |a + b|, [a, b])
    ensures LastUsed(0, [a, b]) == |a| && LastSize(0, |a + b|, [a, b]) == |a + b|
  {
    var size := |a + b|;
    assert [a, b][1..] == [b] && [b][1..] == [] && Concat([b]) == b;
    assert Fits(|a|, size, [b]) by { assert Fits(size, size, []); }
    assert LastUsed(|a|, [b]) == |a| && LastSize(|a|, size, [b]) == size;
  }

  // ----- the size of the buffer

  function Doubled(size: nat, times: nat): nat {
    if times == 0 then size else 2 * Doubled(size, times - 1)
  }

  /** The least size, after some number of doublings, that is more than the bytes used. */
  ghost predicate IsLeast(size: nat, used: nat, grown: nat) {
    && used < grown && (exists k: nat :: grown == Doubled(size, k))
    && forall k: nat :: used < Doubled(size, k) ==> grown <= Doubled(size, k)
  }

  lemma {:induction false} DoubledGrows(size: nat, k: nat, n: nat)
    requires k <= n
    ensures Doubled(size, k) <= Doubled(size, n)
  {
    if k < n {
      DoubledGrows(size, k, n - 1);
    }
  }

  /** A larger size is at least twice as large. */
  lemma DoubledApart(size: nat, k: nat, n: nat)
    requires Doubled(size, k) < Doubled(size, n)
    ensures 2 * Doubled(size, k) <= Doubled(size, n)
  {
    if n <= k {
      DoubledGrows(size, n, k);
    } else {
      DoubledGrows(size, k + 1, n);
    }
  }

  lemma LeastAtFirst(size: nat)
    requires 0 < size
    ensures IsLeast(size, 0, size)
  {
    assert size == Doubled(size, 0);
    forall k: nat
      ensures size <= Doubled(size, k)
    {
      DoubledGrows(size, 0, k);
    }
  }

  lemma LeastLater(size: nat, used: nat, grown: nat, used': nat)
    requires IsLeast(size, used, grown) && used <= used' <= grown
    ensures IsLeast(size, used', Grown(grown, used'))
  {
    var n: nat :| grown == Doubled(size, n);
    assert Doubled(size, n + 1) == 2 * grown;
    forall k: nat | used' < Doubled(size, k)
      ensures Grown(grown, used') <= Doubled(size, k)
    {
      if used' == grown {
        DoubledApart(size, n, k);
      }
    }
  }

  /** In every reception that fits, the buffer is never larger than doubling makes it for the bytes before the last read. */
  lemma {:induction false} LeastSize(used: nat, size: nat, start: nat, before: nat, chunks: seq<string>)
    requires chunks != [] && IsLeast(start, before, size) && before <= used <= size && Fits(used, size, chunks)
    ensures IsLeast(start, LastUsed(used, chunks), LastSize(used, size, chunks))
    decreases |chunks|
  {
    hide IsLeast;
    LeastLater(start, before, size, used);
    if |chunks| > 1 {
      LeastSize(used + |chunks[0]|, Grown(size, used), start, used, chunks[1..]);
    }
  }

  /** The size of the buffer during the last receive is the least doubling of its first size that leaves a byte free. */
  lemma SizeIsLeast(size: nat, chunks: seq<string>)
    requires size > 0 && chunks != [] && Fits(0, size, chunks)
    ensures IsLeast(size, LastUsed(0, chunks), LastSize(0, size, chunks))
  {
    hide IsLeast;
    LeastAtFirst(size);
    LeastSize(0, size, size, 0, chunks);
  }
}
