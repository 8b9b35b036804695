/**
 Length-prefixed messages of uo_tcp: the before_send hook puts a 4-byte big-endian length in front of
 the message, and the after_recv hook collects bytes until the announced length has arrived.
 Buffers are byte arrays with a write position; lengths are truncated to 32 bits as in the code.
 */
module Framing {
  import opened TcpConn

  type Byte = b: int | 0 <= b < 256
  const WORD32 := 0x1_0000_0000

  /** uo_buf: the allocated bytes and the position before which they are in use. */
  class Buf {
    var data: array<Byte>
    var ptr: nat

    ghost predicate Valid()
      reads this
    {
      ptr <= data.Length && data.Length > 0
    }

    ghost function Contents(): seq<Byte>
      requires Valid()
      reads this, data
    {
      data[..ptr]
    }

    constructor (size: nat)
      requires size > 0
      ensures Valid() && fresh(data) && data.Length == size && ptr == 0
    {
      data := new Byte[size];
      ptr := 0;
    }

    /** uo_buf_realloc_2x. */
    method Realloc2x()
      requires Valid()
      modifies this`data
      ensures Valid() && fresh(data) && data.Length == 2 * old(data.Length)
      ensures Contents() == old(Contents())
    {
      var mem := data;
      var bigger := new Byte[2 * mem.Length];
      var i := 0;
      while i < mem.Length
        invariant i <= mem.Length && bigger[..i] == mem[..i]
        modifies bigger
      {
        bigger[i] := mem[i];
        i := i + 1;
      }
      assert bigger[..ptr] == bigger[..i][..ptr] == mem[..i][..ptr];
      data := bigger;
    }

    /** memmove towards the end: move the first n bytes up by k, from the back. */
    method MoveUp(n: nat, k: nat)
      requires n + k <= data.Length
      modifies data
      ensures data[k..k + n] == old(data[..n])
    {
      var i := n;
      while i > 0
        invariant 0 <= i <= n
        invariant data[k + i..k + n] == old(data[i..n])
        invariant forall j :: 0 <= j < i ==> data[j] == old(data[j])
      {
        i := i - 1;
        data[k + i] := data[i];
        assert data[k + i..k + n] == [data[k + i]] + data[k + i + 1..k + n];
      }
    }

    /** memmove towards the start: move n bytes down by k, from the front. */
    method MoveDown(n: nat, k: nat)
      requires n + k <= data.Length
      modifies data
      ensures data[..n] == old(data[k..k + n]) && data[n..] == old(data[n..])
    {
      var i := 0;
      while i < n
        invariant 0 <= i <= n
        invariant data[..i] == old(data[k..k + i])
        invariant forall j :: i <= j < data.Length ==> data[j] == old(data[j])
      {
        data[i] := data[k + i];
        i := i + 1;
        assert data[..i] == data[..i - 1] + [data[i - 1]];
      }
    }
  }

  /** htonl. */
  function BigEndian(n: nat): (bs: seq<Byte>)
    requires n < WORD32
    ensures |bs| == 4
  {
    [n / 0x100_0000, n / 0x1_0000 % 0x100, n / 0x100 % 0x100, n % 0x100]
  }

  /** ntohl. */
  function FromBigEndian(bs: seq<Byte>): nat
    requires |bs| == 4
  {
    var b0: int, b1: int, b2: int, b3: int := bs[0], bs[1], bs[2], bs[3];
    ((b0 * 0x100 + b1) * 0x100 + b2) * 0x100 + b3
  }

  lemma BigEndianRoundTrip(n: nat)
    requires n < WORD32
    ensures FromBigEndian(BigEndian(n)) == n
  {
    var a, b := n / 0x100, n / 0x1_0000;
    assert n == a * 0x100 + n % 0x100;
    assert a / 0x100 == b && a == b * 0x100 + a % 0x100;
    assert b / 0x100 == n / 0x100_0000 && b == b / 0x100 * 0x100 + b % 0x100;
  }

  /** The frame of a message. */
  function Frame(msg: seq<Byte>): seq<Byte>
    requires |msg| < WORD32
  {
    BigEndian(|msg|) + msg
  }

  /** The number whose digits to base 256 these are, the most significant one first. */
  function Worth(a: int, b: int, c: int, d: int): int {
    a * 0x100_0000 + b * 0x1_0000 + c * 0x100 + d
  }

  /** Four bytes that give the length, the most significant one first, and then the message. */
  ghost predicate IsFrame(bs: seq<Byte>, msg: seq<Byte>) {
    && |bs| == |msg| + 4 && bs[4..] == msg
    && Worth(bs[0], bs[1], bs[2], bs[3]) == |msg|
  }

  /** Two sequences of four bytes with the same value are equal. */
  lemma DigitsUnique(a: int, b: int, c: int, d: int, n: nat)
    requires 0 <= a < 256 && 0 <= b < 256 && 0 <= c < 256 && 0 <= d < 256
    requires Worth(a, b, c, d) == n
    ensures a == n / 0x100_0000 && b == n / 0x1_0000 % 0x100 && c == n / 0x100 % 0x100 && d == n % 0x100
  {
    assert n / 0x100 == a * 0x1_0000 + b * 0x100 + c;
    assert n / 0x1_0000 == a * 0x100 + b;
  }

  /** The frame of a message shorter than 2^32 bytes is the only such sequence. */
  lemma FrameIff(bs: seq<Byte>, msg: seq<Byte>)
    requires |msg| < 0x1_0000_0000
    ensures IsFrame(bs, msg) <==> bs == Frame(msg)
  {
    hide FromBigEndian;
    var prefix := BigEndian(|msg|);
    assert Frame(msg)[4..] == msg;
    Digits(|msg|);
    if IsFrame(bs, msg) {
      DigitsUnique(bs[0], bs[1], bs[2], bs[3], |msg|);
      assert bs[..4] == prefix && bs == bs[..4] + bs[4..];
    }
  }

  lemma Digits(n: nat)
    requires n < 0x1_0000_0000
    ensures var bs := BigEndian(n); Worth(bs[0], bs[1], bs[2], bs[3]) == n
  {
    BigEndianRoundTrip(n);
  }

  /**
   uo_tcp_conn_before_send_length_prefixed_msg. It stays within the buffer exactly when one doubling makes room
   for the prefix. It then leaves the frame of the message, exactly when the message is shorter than 2^32 bytes.
   */
  method BeforeSend(wbuf: Buf) returns (ok: bool)
    requires wbuf.Valid()
    modifies wbuf, wbuf.data
    ensures wbuf.Valid() && (ok <==> old(2 * wbuf.data.Length - wbuf.ptr) >= 4)
    ensures ok ==> |wbuf.Contents()| == |old(wbuf.Contents())| + 4
    ensures wbuf.data.Length == old(if wbuf.data.Length - wbuf.ptr < 4 then 2 * wbuf.data.Length else wbuf.data.Length)
    ensures ok ==> (IsFrame(wbuf.Contents(), old(wbuf.Contents())) <==> old(wbuf.ptr) < 0x1_0000_0000)
  {
    hide BigEndian, FromBigEndian, IsFrame;
    ghost var msg := wbuf.Contents();
    var len := wbuf.ptr % WORD32;
    if wbuf.data.Length - wbuf.ptr < 4 {
      wbuf.Realloc2x();
      if wbuf.data.Length - wbuf.ptr < 4 {
        return false;
      }
    }
    ok := true;
    assert wbuf.data[..wbuf.ptr] == msg;
    assert wbuf.ptr < WORD32 ==> wbuf.data[..len] == msg;
    WritePrefix(wbuf, len);
    wbuf.ptr := wbuf.ptr + 4;
    assert wbuf.Contents()[..4] == wbuf.data[..4];
    assert wbuf.data[..len + 4] == wbuf.data[..4] + wbuf.data[4..len + 4];
    Prefixed(wbuf.Contents(), msg, len);
  }

  /** Behind the 32-bit length of a message, a frame. */
  lemma Prefixed(bs: seq<Byte>, msg: seq<Byte>, len: nat)
    requires len == |msg| % 0x1_0000_0000 && |bs| == |msg| + 4 && bs[..4] == BigEndian(len)
    requires |msg| < 0x1_0000_0000 ==> bs[4..] == msg
    ensures IsFrame(bs, msg) <==> |msg| < 0x1_0000_0000
  {
    hide BigEndian;
    Digits(len);
    assert bs[..4][0] == bs[0] && bs[..4][1] == bs[1] && bs[..4][2] == bs[2] && bs[..4][3] == bs[3];
  }

  /** Move len bytes up and put their length before them. */
  method WritePrefix(wbuf: Buf, len: nat)
    requires len + 4 <= wbuf.data.Length && len < WORD32
    modifies wbuf.data
    ensures wbuf.data[..4] == BigEndian(len) && wbuf.data[4..len + 4] == old(wbuf.data[..len])
  {
    wbuf.MoveUp(len, 4);
    ghost var moved := wbuf.data[4..len + 4];
    var prefix := BigEndian(len);
    wbuf.data[0], wbuf.data[1], wbuf.data[2], wbuf.data[3] := prefix[0], prefix[1], prefix[2], prefix[3];
    assert wbuf.data[..4] == prefix;
    assert wbuf.data[4..len + 4] == moved;
  }

  /** What the receiving hook decides on the bytes collected so far. */
  datatype Verdict = TooShort | Incomplete | Full(msg: seq<Byte>)

  /** The length is truncated to 32 bits before it is compared and used to move the message down. */
  function Judge(rbuf: seq<Byte>): Verdict {
    var len := |rbuf| % WORD32;
    if len < 4 then TooShort
    else if FromBigEndian(rbuf[..4]) > len - 4 then Incomplete
    else Full(rbuf[4..len] + rbuf[len - 4..|rbuf| - 4])
  }

  lemma MovedDown(mem: seq<Byte>, mem': seq<Byte>, len: nat, ptr: nat)
    requires 4 <= len <= ptr <= |mem| == |mem'|
    requires mem'[..len - 4] == mem[4..len] && mem'[len - 4..] == mem[len - 4..]
    ensures mem'[..ptr - 4] == mem[..ptr][4..len] + mem[..ptr][len - 4..ptr - 4]
  {
    assert mem'[..ptr - 4] == mem'[..len - 4] + mem'[len - 4..][..ptr - len];
    assert mem[..ptr][4..len] == mem[4..len];
    assert mem[len - 4..][..ptr - len] == mem[..ptr][len - 4..ptr - 4];
  }

  /** uo_tcp_conn_after_recv_length_prefixed_msg. */
  method AfterRecv(rbuf: Buf, pending: Pending) returns (pending': Pending, full: bool)
    requires rbuf.Valid()
    modifies rbuf, rbuf.data
    ensures rbuf.Valid()
    ensures match Judge(old(rbuf.Contents()))
            case TooShort => pending' == Ask(pending, NextClose) && !full && rbuf.Contents() == old(rbuf.Contents())
            case Incomplete => pending' == Ask(pending, NextRecv) && !full && rbuf.Contents() == old(rbuf.Contents())
            case Full(msg) => pending' == pending && full && rbuf.Contents() == msg
  {
    var len := rbuf.ptr % WORD32;
    pending', full := pending, false;
    if len < 4 {
      pending' := Ask(pending, NextClose);
    } else if FromBigEndian(rbuf.data[..4]) > len - 4 {
      pending' := Ask(pending, NextRecv);
    } else {
      full := true;
      ghost var mem := rbuf.data[..];
      assert rbuf.data[4..len] == mem[4..len] && rbuf.data[len - 4..] == mem[len - 4..];
      rbuf.MoveDown(len - 4, 4);
      rbuf.ptr := rbuf.ptr - 4;
      assert rbuf.data[..rbuf.ptr] == rbuf.data[..][..rbuf.ptr];
      assert rbuf.data[..len - 4] == rbuf.data[..][..len - 4] && rbuf.data[len - 4..] == rbuf.data[..][len - 4..];
      MovedDown(mem, rbuf.data[..], len, rbuf.ptr + 4);
    }
  }

  // ----- every division into receives

  /** How a message arrives: the flow sends the answer, closes, or still waits for bytes. */
  datatype Arrival = Delivered(msg: seq<Byte>, unread: seq<seq<Byte>>) | Closed | Waiting(rbuf: seq<Byte>)

  /** What the hook asks for. */
  function Requests(v: Verdict): seq<Pending> {
    match v
    case TooShort => [NextClose]
    case Incomplete => [NextRecv]
    case Full(_) => []
  }

  /** Run the hook on each receive, followed by the flow's default request to send. */
  ghost function Collect(rbuf: seq<Byte>, chunks: seq<seq<Byte>>): Arrival
    decreases |chunks|
  {
    if chunks == [] then Waiting(rbuf)
    else
      var all := rbuf + chunks[0];
      match AskAll(Nothing, Requests(Judge(all)) + [NextSend])
      case NextRecv => Collect(all, chunks[1..])
      case NextSend => Delivered(if Judge(all).Full? then Judge(all).msg else all, chunks[1..])
      case _ => Closed
  }

  ghost function Concat(chunks: seq<seq<Byte>>): seq<Byte> {
    if chunks == [] then [] else chunks[0] + Concat(chunks[1..])
  }

  /** On a prefix of a frame the hook waits, until the whole frame is there. */
  lemma JudgePrefix(msg: seq<Byte>, n: nat)
    requires |msg| < WORD32 && 4 <= n <= |msg| + 4 && n < WORD32
    ensures Judge(Frame(msg)[..n]) == if n < |msg| + 4 then Incomplete else Full(msg)
  {
    hide BigEndian, FromBigEndian;
    var rbuf := Frame(msg)[..n];
    assert rbuf[..4] == BigEndian(|msg|);
    BigEndianRoundTrip(|msg|);
    assert |rbuf| % WORD32 == n;
    if n == |msg| + 4 {
      assert rbuf[4..] == msg && rbuf[n - 4..n - 4] == [];
    }
  }

  /** The request of the hook overrides the flow's request to send. */
  lemma HookFirst(v: Verdict)
    ensures AskAll(Nothing, Requests(v) + [NextSend])
         == match v case TooShort => NextClose case Incomplete => NextRecv case Full(_) => NextSend
  {
    FirstRequestWins(Requests(v) + [NextSend]);
  }

  lemma {:induction false} CollectsAll(msg: seq<Byte>, n: nat, chunks: seq<seq<Byte>>)
    requires |msg| + 4 < WORD32 && n < |msg| + 4 && Frame(msg)[..n] + Concat(chunks) == Frame(msg)
    requires forall i :: 0 <= i < |chunks| ==> chunks[i] != []
    requires chunks != [] && n + |chunks[0]| >= 4
    ensures Collect(Frame(msg)[..n], chunks) == Delivered(msg, [])
    decreases |chunks|
  {
    hide Judge, Frame;
    FrameLength(msg);
    var all := Frame(msg)[..n] + chunks[0];
    assert Frame(msg) == all + Concat(chunks[1..]);
    assert all == Frame(msg)[..|all|];
    JudgePrefix(msg, |all|);
    HookFirst(Judge(all));
    if |all| < |msg| + 4 {
      assert chunks[1..] != [];
      CollectsAll(msg, |all|, chunks[1..]);
    } else {
      assert chunks[1..] == [];
    }
  }

  lemma FrameLength(msg: seq<Byte>)
    requires |msg| < WORD32
    ensures |Frame(msg)| == |msg| + 4
  {
  }

  /** A frame of 2^32 bytes or more is never handed over as sent: at that size the length wraps to less than 4. */
  lemma {:induction false} TooLong(msg: seq<Byte>, n: nat, chunks: seq<seq<Byte>>)
    requires |msg| < WORD32 <= |msg| + 4 && n < WORD32 && Frame(msg)[..n] + Concat(chunks) == Frame(msg)
    requires forall i :: 0 <= i < |chunks| ==> chunks[i] != []
    ensures !Collect(Frame(msg)[..n], chunks).Delivered?
    decreases |chunks|
  {
    hide Judge, Frame;
    FrameLength(msg);
    if chunks != [] {
      var all := Frame(msg)[..n] + chunks[0];
      assert Frame(msg) == all + Concat(chunks[1..]);
      assert all == Frame(msg)[..|all|];
      HookFirst(Judge(all));
      if |all| < 4 || |all| >= WORD32 {
        JudgeShort(all);
      } else {
        JudgePrefix(msg, |all|);
        TooLong(msg, |all|, chunks[1..]);
      }
    }
  }

  lemma JudgeShort(rbuf: seq<Byte>)
    requires |rbuf| < 4 || WORD32 <= |rbuf| < WORD32 + 4
    ensures Judge(rbuf) == TooShort
  {
  }

  /**
   For every message and every division of its frame into non-empty receives: the message is handed
   over, intact and with the last byte, exactly when the first receive has the whole length prefix and
   the frame is shorter than 2^32 bytes.
   */
  lemma FramingRoundTrip(msg: seq<Byte>, chunks: seq<seq<Byte>>)
    requires |msg| < 0x1_0000_0000 && IsFrame(Concat(chunks), msg)
    requires forall i :: 0 <= i < |chunks| ==> chunks[i] != []
    ensures chunks != []
    ensures Collect([], chunks) == Delivered(msg, []) <==> |chunks[0]| >= 4 && |msg| + 4 < 0x1_0000_0000
  {
    FrameIff(Concat(chunks), msg);
    FrameLength(msg);
    assert chunks != [];
    assert Frame(msg)[..0] == [] && [] + Concat(chunks) == Frame(msg);
    if |msg| + 4 >= WORD32 {
      TooLong(msg, 0, chunks);
    } else if |chunks[0]| >= 4 {
      CollectsAll(msg, 0, chunks);
    } else {
      assert [] + chunks[0] == chunks[0];
      JudgeShort(chunks[0]);
      HookFirst(Judge(chunks[0]));
    }
  }

  /** What the hook decides on fewer than 2^32 bytes: bytes behind the announced ones are handed over with the message. */
  lemma JudgeIs(rbuf: seq<Byte>)
    requires |rbuf| < 0x1_0000_0000
    ensures Judge(rbuf) == TooShort <==> |rbuf| < 4
    ensures |rbuf| >= 4 ==>
      Judge(rbuf) == if Worth(rbuf[0], rbuf[1], rbuf[2], rbuf[3]) + 4 > |rbuf| then Incomplete else Full(rbuf[4..])
  {
    if |rbuf| >= 4 {
      assert rbuf[..4][0] == rbuf[0] && rbuf[..4][1] == rbuf[1] && rbuf[..4][2] == rbuf[2] && rbuf[..4][3] == rbuf[3];
      assert rbuf[4..|rbuf|] + rbuf[|rbuf| - 4..|rbuf| - 4] == rbuf[4..];
    }
  }
}
