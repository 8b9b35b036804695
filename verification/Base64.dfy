/**
 uo_base64: the standard and URL-safe encodings of RFC 4648. Source and destination may be the same
 memory, as the encoders run backwards and the decoders forwards.
 */
module Base64 {

  type Byte = bv8

  // ----- alphabets

  /** The tables btoa and btoa_url. */
  function Symbol(url: bool, v: Byte): Byte {
    if v < 26 then v + 65
    else if v < 52 then v + 71
    else if v < 62 then v - 4
    else if v == 62 then (if url then 45 else 43)
    else (if url then 95 else 47)
  }

  /** The tables atob and atob_url. */
  function Value(url: bool, c: Byte): Byte {
    if 65 <= c <= 90 then c - 65
    else if 97 <= c <= 122 then c - 71
    else if 48 <= c <= 57 then c + 4
    else if c == (if url then 45 else 43) then 62
    else if c == (if url then 95 else 47) then 63
    else if !url && c == PAD then 0x40
    else 0xFF
  }

  const PAD: Byte := 61

  lemma SymbolValue(url: bool, v: Byte)
    requires v < 64
    ensures Value(url, Symbol(url, v)) == v && Symbol(url, v) != PAD
  {
  }

  // ----- groups

  /** The four sextets of three bytes, as the encoders compute them. */
  function Sextet0(b0: Byte): Byte { b0 >> 2 }
  function Sextet1(b0: Byte, b1: Byte): Byte { ((b0 & 3) << 4) | (b1 >> 4) }
  function Sextet2(b1: Byte, b2: Byte): Byte { ((b1 & 15) << 2) | (b2 >> 6) }
  function Sextet3(b2: Byte): Byte { b2 & 63 }

  /** The bytes that the decoders make of table values. */
  function Octet0(a0: Byte, a1: Byte): Byte { (a0 << 2) | (a1 >> 4) }
  function Octet1(a1: Byte, a2: Byte): Byte { ((a1 & 15) << 4) | (a2 >> 2) }
  function Octet2(a2: Byte, a3: Byte): Byte { ((a2 & 3) << 6) | a3 }

  lemma GroupRoundTrip(b0: Byte, b1: Byte, b2: Byte)
    ensures Sextet0(b0) < 64 && Sextet1(b0, b1) < 64 && Sextet2(b1, b2) < 64 && Sextet3(b2) < 64
    ensures Octet0(Sextet0(b0), Sextet1(b0, b1)) == b0
    ensures Octet1(Sextet1(b0, b1), Sextet2(b1, b2)) == b1
    ensures Octet2(Sextet2(b1, b2), Sextet3(b2)) == b2
  {
  }

  function Group(url: bool, b0: Byte, b1: Byte, b2: Byte): (g: seq<Byte>)
    ensures |g| == 4
  {
    [Symbol(url, Sextet0(b0)), Symbol(url, Sextet1(b0, b1)), Symbol(url, Sextet2(b1, b2)), Symbol(url, Sextet3(b2))]
  }

  /** The encoding of a byte string, from the front. */
  function Encode(url: bool, s: seq<Byte>): (e: seq<Byte>) {
    if |s| == 0 then []
    else if |s| == 1 then
      [Symbol(url, Sextet0(s[0])), Symbol(url, Sextet1(s[0], 0))] + if url then [] else [PAD, PAD]
    else if |s| == 2 then
      [Symbol(url, Sextet0(s[0])), Symbol(url, Sextet1(s[0], s[1])), Symbol(url, Sextet2(s[1], 0))] + if url then [] else [PAD]
    else Group(url, s[0], s[1], s[2]) + Encode(url, s[3..])
  }

  // ----- RFC 4648: the bit stream cut into sextets

  /** Bit i of a byte string, the most significant bit of the first byte first; zero beyond the end. */
  ghost function BitAt(s: seq<Byte>, i: nat): Byte {
    if i / 8 < |s| then (s[i / 8] >> (7 - i % 8)) & 1 else 0
  }

  /** The k-th group of six bits. */
  ghost function SixBits(s: seq<Byte>, k: nat): Byte {
    (BitAt(s, 6 * k) << 5) | (BitAt(s, 6 * k + 1) << 4) | (BitAt(s, 6 * k + 2) << 3)
    | (BitAt(s, 6 * k + 3) << 2) | (BitAt(s, 6 * k + 4) << 1) | BitAt(s, 6 * k + 5)
  }

  lemma FirstTwo(s: seq<Byte>)
    requires s != []
    ensures SixBits(s, 0) == Sextet0(s[0])
    ensures SixBits(s, 1) == Sextet1(s[0], if |s| > 1 then s[1] else 0)
  {
  }

  lemma LastTwo(s: seq<Byte>)
    requires |s| > 1
    ensures SixBits(s, 2) == Sextet2(s[1], if |s| > 2 then s[2] else 0)
    ensures |s| > 2 ==> SixBits(s, 3) == Sextet3(s[2])
  {
    hide SixBits;
    ThirdGroup(s);
    if |s| > 2 {
      FourthGroup(s);
    }
  }

  lemma ThirdGroup(s: seq<Byte>)
    requires |s| > 1
    ensures SixBits(s, 2) == Sextet2(s[1], if |s| > 2 then s[2] else 0)
  {
  }

  lemma FourthGroup(s: seq<Byte>)
    requires |s| > 2
    ensures SixBits(s, 3) == Sextet3(s[2])
  {
  }

  lemma BitShift(s: seq<Byte>, i: nat)
    requires |s| >= 3
    ensures BitAt(s, i + 24) == BitAt(s[3..], i)
  {
    assert (i + 24) / 8 == i / 8 + 3 && (i + 24) % 8 == i % 8;
  }

  lemma BitsShift(s: seq<Byte>, k: nat)
    requires |s| >= 3
    ensures SixBits(s, k + 4) == SixBits(s[3..], k)
  {
    hide BitAt;
    BitShift(s, 6 * k);
    BitShift(s, 6 * k + 1);
    BitShift(s, 6 * k + 2);
    BitShift(s, 6 * k + 3);
    BitShift(s, 6 * k + 4);
    BitShift(s, 6 * k + 5);
  }

  /** The length of the encoding of q whole quanta and r more bytes. */
  function EncodedLength(url: bool, q: nat, r: nat): nat {
    4 * q + if r == 0 then 0 else if url then r + 1 else 4
  }

  lemma {:induction false} EncodeLength(url: bool, s: seq<Byte>, q: nat, r: nat)
    requires |s| == 3 * q + r && r < 3
    ensures |Encode(url, s)| == EncodedLength(url, q, r)
    decreases q
  {
    if q > 0 {
      EncodeLength(url, s[3..], q - 1, r);
    }
  }

  /** Symbol k of the encoding stands for the k-th group of six bits; padding fills the last quantum. */
  lemma {:induction false} SymbolsAre(url: bool, s: seq<Byte>, q: nat, r: nat, k: nat)
    requires |s| == 3 * q + r && r < 3
    ensures |Encode(url, s)| == EncodedLength(url, q, r)
    ensures k < EncodedLength(true, q, r) <= |Encode(url, s)| ==> Encode(url, s)[k] == Symbol(url, SixBits(s, k))
    ensures EncodedLength(true, q, r) <= k < |Encode(url, s)| ==> Encode(url, s)[k] == PAD
    decreases q
  {
    hide SixBits, Symbol, Sextet0, Sextet1, Sextet2, Sextet3;
    EncodeLength(url, s, q, r);
    if s != [] {
      FirstTwo(s);
    }
    if |s| > 1 {
      LastTwo(s);
    }
    if q > 0 && k >= 4 {
      BitsShift(s, k - 4);
      SymbolsAre(url, s[3..], q - 1, r, k - 4);
    }
  }

  // ----- RFC 4648: the alphabets, as its tables 1 and 2 list them

  const UPPER := "ABCDEFGHIJKLMNOPQRSTUVWXYZ"
  const LOWER := "abcdefghijklmnopqrstuvwxyz"
  const DIGITS := "0123456789"

  function Alphabet(url: bool): (a: string)
    ensures |a| == 64
  {
    UPPER + (LOWER + (DIGITS + if url then "-_" else "+/"))
  }

  lemma UpperAre(v: nat)
    requires v < 26
    ensures UPPER[v] == (v + 65) as char
  {
  }

  lemma LowerAre(v: nat)
    requires v < 26
    ensures LOWER[v] == (v + 97) as char
  {
  }

  lemma DigitsAre(v: nat)
    requires v < 10
    ensures DIGITS[v] == (v + 48) as char
  {
  }

  /** The code of each letter, by ranges. */
  ghost function CodeOf(url: bool, v: nat): nat
    requires v < 64
  {
    if v < 26 then v + 65 else if v < 52 then v + 71 else if v < 62 then v - 4
    else if v == 62 then (if url then 45 else 43) else if url then 95 else 47
  }

  lemma LetterAt(url: bool, v: nat)
    requires v < 64
    ensures Alphabet(url)[v] as int == CodeOf(url, v)
  {
    if v < 26 {
      UpperAre(v);
    } else if v < 52 {
      LowerAre(v - 26);
    } else if v < 62 {
      DigitsAre(v - 52);
    }
  }

  lemma SymbolCode(url: bool, v: Byte)
    requires v < 64
    ensures Symbol(url, v) as int == CodeOf(url, v as int)
  {
    if v < 26 {
      assert (v + 65) as int == v as int + 65;
    } else if v < 52 {
      assert (v + 71) as int == v as int + 71;
    } else if v < 62 {
      assert (v - 4) as int == v as int - 4;
    }
  }

  /** The letter for a group of six bits. */
  ghost function Letter(url: bool, v: Byte): Byte
    requires v < 64
  {
    LetterAt(url, v as int);
    Alphabet(url)[v as int] as Byte
  }

  lemma LettersAre(url: bool, v: Byte)
    requires v < 64
    ensures Symbol(url, v) == Letter(url, v)
  {
    hide Symbol, Alphabet;
    SymbolCode(url, v);
    LetterAt(url, v as int);
  }

  lemma SixBitsSmall(s: seq<Byte>, k: nat)
    ensures SixBits(s, k) < 64
  {
    BitSmall(s, 6 * k);
    BitSmall(s, 6 * k + 1);
    BitSmall(s, 6 * k + 2);
    BitSmall(s, 6 * k + 3);
    BitSmall(s, 6 * k + 4);
    BitSmall(s, 6 * k + 5);
  }

  lemma BitSmall(s: seq<Byte>, i: nat)
    ensures BitAt(s, i) <= 1
  {
  }

  /**
   The encodings of sections 4 and 5 of RFC 4648: symbol k is the letter for the k-th group of six bits, and
   the standard encoding is filled up with '=' to a multiple of four characters.
   */
  lemma EncodesBits(url: bool, s: seq<Byte>, k: nat)
    ensures |Encode(url, s)| == if url then (4 * |s| + 2) / 3 else 4 * ((|s| + 2) / 3)
    ensures SixBits(s, k) < 64
    ensures k < (4 * |s| + 2) / 3 ==> Encode(url, s)[k] == Letter(url, SixBits(s, k))
    ensures (4 * |s| + 2) / 3 <= k < |Encode(url, s)| ==> Encode(url, s)[k] == '=' as Byte
  {
    hide Encode, SixBits, Symbol, Letter;
    var q, r := |s| / 3, |s| % 3;
    SymbolsAre(url, s, q, r, k);
    SixBitsSmall(s, k);
    LettersAre(url, SixBits(s, k));
  }

  /** The decoding table: the place of each letter of the alphabet, one mark for '=', and another for the rest. */
  lemma ValuesAre(url: bool, c: Byte, v: Byte)
    requires v < 64
    ensures Value(url, Letter(url, v)) == v
    ensures (forall w: Byte :: w < 64 ==> Letter(url, w) != c) ==> Value(url, c) == if !url && c == '=' as Byte then 0x40 else 0xFF
  {
    hide Letter;
    SymbolValue(url, v);
    LettersAre(url, v);
    var w := Value(url, c);
    if w < 64 {
      LettersAre(url, w);
      assert Symbol(url, w) == c;
    }
  }

  // ----- encoding in memory

  /** uo_base64_len. */
  function Base64Len(len: nat): (n: nat)
    ensures n == 4 * ((len + 2) / 3)
  {
    (len * 4 / 3 + 3) / 4 * 4
  }

  lemma LengthBySplit(q: nat, r: nat)
    requires r < 3
    ensures Base64Len(3 * q + r) == 4 * q + if r == 0 then 0 else 4
  {
    assert 3 * q + r + 2 == 3 * (q + if r == 0 then 0 else 1) + if r == 0 then 2 else r - 1;
  }

  lemma EncodeSplit(url: bool, s: seq<Byte>, b: nat)
    requires 3 <= b <= |s|
    ensures Encode(url, s[b - 3..]) == Group(url, s[b - 3], s[b - 2], s[b - 1]) + Encode(url, s[b..])
  {
    assert s[b - 3..][3..] == s[b..];
  }

  /** The characters that the switch on len % 3 stores for the incomplete last quantum. */
  function TailSymbols(url: bool, t: seq<Byte>): seq<Byte>
    requires |t| < 3
  {
    if |t| == 1 then
      [Symbol(url, t[0] >> 2), Symbol(url, (t[0] & 3) << 4)] + if url then [] else [PAD, PAD]
    else if |t| == 2 then
      [Symbol(url, t[0] >> 2), Symbol(url, ((t[0] & 3) << 4) | (t[1] >> 4)), Symbol(url, (t[1] & 15) << 2)]
      + if url then [] else [PAD]
    else []
  }

  lemma TailText(url: bool, t: seq<Byte>)
    requires |t| < 3
    ensures Encode(url, t) == TailSymbols(url, t) && |TailSymbols(url, t)| == EncodedLength(url, 0, |t|)
  {
    if |t| > 0 {
      assert Sextet1(t[0], 0) == (t[0] & 3) << 4;
    }
    if |t| > 1 {
      assert Sextet2(t[1], 0) == (t[1] & 15) << 2;
    }
  }

  /** Store characters backwards, so that they end before position a + |w|. */
  method Store(dst: array<Byte>, a: nat, w: seq<Byte>)
    requires a + |w| <= dst.Length
    modifies dst
    ensures dst[a..] == w + old(dst[a + |w|..]) && dst[..a] == old(dst[..a])
  {
    var k := |w|;
    while k > 0
      invariant 0 <= k <= |w|
      invariant forall i :: k <= i < |w| ==> dst[a + i] == w[i]
      invariant forall i :: 0 <= i < dst.Length && !(a + k <= i < a + |w|) ==> dst[i] == old(dst[i])
    {
      k := k - 1;
      dst[a + k] := w[k];
    }
  }

  /** The switch: encode the last r bytes, after q whole quanta, behind position 4q. */
  method EncodeTail(url: bool, dst: array<Byte>, src: array<Byte>, q: nat, r: nat) returns (end: nat)
    requires r < 3 && 3 * q + r <= src.Length && EncodedLength(url, q, r) <= dst.Length
    modifies dst
    ensures end == EncodedLength(url, q, r) && 4 * q <= end
    ensures dst[4 * q..] == Encode(url, old(src[3 * q..3 * q + r])) + old(dst[end..])
    ensures src[..3 * q] == old(src[..3 * q])
  {
    hide Encode, TailSymbols, Base64Len;
    var a, b := 4 * q, 3 * q;
    var t := src[b..b + r];
    TailText(url, t);
    end := Base64Len(b + r);
    LengthBySplit(q, r);
    if url && r > 0 {
      end := end - (3 - r);
    }
    assert src == dst ==> src[..b] == dst[..a][..b];
    Store(dst, a, TailSymbols(url, t));
    assert src == dst ==> src[..b] == dst[..a][..b];
  }

  /** One turn of the loop: three bytes before position b to four symbols before position a. */
  method EncodeQuantum(url: bool, dst: array<Byte>, src: array<Byte>, a: nat, b: nat)
    requires 3 <= b <= src.Length && 4 <= a <= dst.Length && b - 3 <= a - 4
    modifies dst
    ensures dst[a - 4..] == old(Group(url, src[b - 3], src[b - 2], src[b - 1])) + old(dst[a..])
    ensures src[..b - 3] == old(src[..b - 3])
  {
    hide Group;
    var b2, b1, b0 := src[b - 1], src[b - 2], src[b - 3];
    assert src == dst ==> src[..b - 3] == dst[..a - 4][..b - 3];
    Store(dst, a - 4, Group(url, b0, b1, b2));
    assert src == dst ==> src[..b - 3] == dst[..a - 4][..b - 3];
  }

  /** The same turn, in terms of the bytes s that src held at first. */
  method EncodeTurn(url: bool, dst: array<Byte>, src: array<Byte>, a: nat, b: nat, ghost s: seq<Byte>, ghost after: seq<Byte>)
    requires 3 <= b <= src.Length && 4 <= a <= dst.Length && b - 3 <= a - 4
    requires b <= |s| && src[..b] == s[..b] && dst[a..] == Encode(url, s[b..]) + after
    modifies dst
    ensures src[..b - 3] == s[..b - 3] && dst[a - 4..] == Encode(url, s[b - 3..]) + after
  {
    hide Encode, Group;
    EncodeSplit(url, s, b);
    assert src[..b][b - 3] == s[b - 3] && src[..b][b - 2] == s[b - 2] && src[..b][b - 1] == s[b - 1];
    assert src[..b - 3] == src[..b][..b - 3] == s[..b][..b - 3] == s[..b - 3];
    EncodeQuantum(url, dst, src, a, b);
    Associative(Group(url, s[b - 3], s[b - 2], s[b - 1]), Encode(url, s[b..]), after);
  }

  /**
   uo_base64_encode and uo_base64url_encode: from the back, one quantum at a time. dst and src may be
   the same array.
   */
  method EncodeTo(url: bool, dst: array<Byte>, src: array<Byte>, len: nat) returns (end: nat)
    requires len <= src.Length && EncodedLength(url, len / 3, len % 3) <= dst.Length
    modifies dst
    ensures end == EncodedLength(url, len / 3, len % 3)
    ensures dst[..] == Encode(url, old(src[..len])) + old(dst[end..])
  {
    hide Encode, Symbol, Group;
    ghost var s := src[..len];
    var q := len / 3;
    end := EncodeTail(url, dst, src, q, len % 3);
    ghost var after := old(dst[end..]);
    var a, b := 4 * q, 3 * q;
    assert s[b..] == old(src[b..len]) && s[..b] == old(src[..b]);
    while a > 0
      invariant 0 <= q && a == 4 * q && b == 3 * q && b <= len && a <= dst.Length
      invariant src[..b] == s[..b]
      invariant dst[a..] == Encode(url, s[b..]) + after
      decreases a
    {
      EncodeTurn(url, dst, src, a, b, s, after);
      a, b, q := a - 4, b - 3, q - 1;
    }
    assert s[0..] == s && dst[0..] == dst[..];
  }

  lemma Associative(x: seq<Byte>, y: seq<Byte>, z: seq<Byte>)
    ensures x + y + z == x + (y + z)
  {
  }

  // ----- decoding

  /** Three bytes of four symbols. */
  function Quantum(url: bool, s: seq<Byte>): (g: seq<Byte>)
    requires |s| >= 4
    ensures |g| == 3
  {
    [Octet0(Value(url, s[0]), Value(url, s[1])), Octet1(Value(url, s[1]), Value(url, s[2])),
     Octet2(Value(url, s[2]), Value(url, s[3]))]
  }

  /** What uo_base64url_decode makes of a text, from the front. */
  function DecodeUrl(s: seq<Byte>): seq<Byte> {
    if |s| >= 4 then Quantum(true, s) + DecodeUrl(s[4..])
    else if |s| == 3 then
      [Octet0(Value(true, s[0]), Value(true, s[1])), Octet1(Value(true, s[1]), Value(true, s[2]))]
    else if |s| == 2 then [Octet0(Value(true, s[0]), Value(true, s[1]))]
    else []
  }

  lemma QuantumOfGroup(url: bool, b0: Byte, b1: Byte, b2: Byte, rest: seq<Byte>)
    ensures Quantum(url, Group(url, b0, b1, b2) + rest) == [b0, b1, b2]
  {
    hide Symbol, Value, Sextet0, Sextet1, Sextet2, Sextet3, Octet0, Octet1, Octet2;
    GroupRoundTrip(b0, b1, b2);
    SymbolValue(url, Sextet0(b0));
    SymbolValue(url, Sextet1(b0, b1));
    SymbolValue(url, Sextet2(b1, b2));
    SymbolValue(url, Sextet3(b2));
  }

  /** Decoding inverts the URL-safe encoding for every byte string. */
  lemma {:induction false} UrlRoundTrip(s: seq<Byte>)
    ensures DecodeUrl(Encode(true, s)) == s
  {
    hide Symbol, Value, Sextet0, Sextet1, Sextet2, Sextet3, Octet0, Octet1, Octet2, Quantum;
    if |s| >= 3 {
      UrlRoundTrip(s[3..]);
      QuantumOfGroup(true, s[0], s[1], s[2], Encode(true, s[3..]));
      assert Encode(true, s)[4..] == Encode(true, s[3..]);
      assert [s[0], s[1], s[2]] + s[3..] == s;
    } else if |s| == 2 {
      GroupRoundTrip(s[0], s[1], 0);
      SymbolValue(true, Sextet0(s[0]));
      SymbolValue(true, Sextet1(s[0], s[1]));
      SymbolValue(true, Sextet2(s[1], 0));
      assert s == [s[0], s[1]];
    } else if |s| == 1 {
      GroupRoundTrip(s[0], 0, 0);
      SymbolValue(true, Sextet0(s[0]));
      SymbolValue(true, Sextet1(s[0], 0));
      assert s == [s[0]];
    }
  }

  datatype Decoded = OutOfBounds | Decoded(bytes: seq<Byte>)

  /** What a decoding amounts to, once the first bytes are done. */
  function Prefixed(done: seq<Byte>, d: Decoded): Decoded {
    if d.OutOfBounds? then d else Decoded(done + d.bytes)
  }

  /** The loop guard of uo_base64_decode: go on, stop, or read beyond the memory. */
  datatype Guard = Go | Stop | Beyond

  /**
   The guard on memory m with k characters of text left: it looks at the third and fourth character
   even when the text has ended.
   */
  function GuardOf(m: seq<Byte>, k: int): Guard {
    if k > 4 then (if |m| >= 4 then Go else Beyond)
    else if |m| < 3 then Beyond
    else if m[2] == PAD then Stop
    else if |m| < 4 then Beyond
    else if m[3] == PAD then Stop
    else Go
  }

  /** The bytes of the last, padded quantum. */
  function LastBytes(m: seq<Byte>): seq<Byte>
    requires |m| >= 3
  {
    var a0, a1, a2 := Value(false, m[0]), Value(false, m[1]), Value(false, m[2]);
    [Octet0(a0, a1)] + if a2 != 0x40 then [Octet1(a1, a2)] else []
  }

  /** What uo_base64_decode makes of memory m with k characters of text left. */
  function DecodeStd(m: seq<Byte>, k: int): Decoded
    decreases |m|
  {
    match GuardOf(m, k)
    case Beyond => OutOfBounds
    case Go => Prefixed(Quantum(false, m), DecodeStd(m[4..], k - 4))
    case Stop => Decoded(if k > 0 then LastBytes(m) else [])
  }

  /** After the text, the loop stops only at a padding character found where it looks. */
  predicate PadFollows(t: seq<Byte>) {
    (|t| >= 3 && t[2] == PAD) || (|t| >= 4 && t[3] == PAD)
  }

  /**
   Decoding standard base64 in memory that goes on with t gives the bytes back exactly when the last
   quantum is padded, or padding happens to follow the text.
   */
  lemma {:induction false} StdRoundTrip(s: seq<Byte>, t: seq<Byte>)
    ensures DecodeStd(Encode(false, s) + t, |Encode(false, s)|) == Decoded(s) <==> |s| % 3 != 0 || PadFollows(t)
    decreases |s|
  {
    hide Symbol, Value, Sextet0, Sextet1, Sextet2, Sextet3, Octet0, Octet1, Octet2, Quantum, DecodeStd;
    var e := Encode(false, s);
    if |s| == 0 {
      assert e + t == t && s == [];
      StdNothing(t);
    } else if |s| < 3 {
      StdTail(s, t);
    } else {
      var g, e' := Group(false, s[0], s[1], s[2]), Encode(false, s[3..]);
      StdRoundTrip(s[3..], t);
      QuantumOfGroup(false, s[0], s[1], s[2], e' + t);
      GroupUnpadded(s[0], s[1], s[2]);
      Associative(g, e', t);
      assert (g + (e' + t))[4..] == e' + t;
      DecodeStdUnfolds(e + t, |e|);
      assert s == [s[0], s[1], s[2]] + s[3..];
    }
  }

  lemma StdNothing(t: seq<Byte>)
    ensures DecodeStd(t, 0) == Decoded([]) <==> PadFollows(t)
  {
    hide Quantum;
  }

  lemma GroupUnpadded(b0: Byte, b1: Byte, b2: Byte)
    ensures Group(false, b0, b1, b2)[2] != PAD && Group(false, b0, b1, b2)[3] != PAD
  {
    GroupRoundTrip(b0, b1, b2);
    SymbolValue(false, Sextet2(b1, b2));
    SymbolValue(false, Sextet3(b2));
  }

  lemma StdTail(s: seq<Byte>, t: seq<Byte>)
    requires 1 <= |s| <= 2
    ensures DecodeStd(Encode(false, s) + t, |Encode(false, s)|) == Decoded(s)
  {
    hide Symbol, Sextet0, Sextet1, Sextet2, Sextet3, Octet0, Octet1, Octet2;
    var e := Encode(false, s);
    if |s| == 1 {
      GroupRoundTrip(s[0], 0, 0);
      SymbolValue(false, Sextet0(s[0]));
      SymbolValue(false, Sextet1(s[0], 0));
      assert s == [s[0]];
    } else {
      GroupRoundTrip(s[0], s[1], 0);
      SymbolValue(false, Sextet0(s[0]));
      SymbolValue(false, Sextet1(s[0], s[1]));
      SymbolValue(false, Sextet2(s[1], 0));
      assert s == [s[0], s[1]];
    }
  }

  // ----- decoding in place

  /** uo_base64url_decode with dst equal to src: the output never overtakes the input. */
  method DecodeUrlInPlace(buf: array<Byte>, len: nat) returns (end: nat)
    requires len <= buf.Length
    modifies buf
    ensures end <= buf.Length && buf[..end] == DecodeUrl(old(buf[..len]))
  {
    hide DecodeUrl, Quantum;
    ghost var s := buf[..len];
    var a, b := 0, 0;
    assert s[0..] == s;
    while a + 4 <= len
      invariant 0 <= b <= a <= len && 4 * b == 3 * a
      invariant buf[a..len] == s[a..]
      invariant DecodeUrl(s) == buf[..b] + DecodeUrl(s[a..])
      decreases len - a
    {
      UrlQuantum(s[a..]);
      QuantumPrefix(true, buf[a..], s[a..]);
      assert buf[a + 4..len] == buf[a..len][4..] == s[a + 4..] == s[a..][4..];
      ghost var rest := buf[a + 4..];
      assert rest[..len - a - 4] == s[a + 4..];
      DecodeQuantum(true, buf, a, b);
      assert buf[a + 4..len] == buf[a + 4..][..len - a - 4];
      a, b := a + 4, b + 3;
    }
    end := DecodeUrlRest(buf, len, a, b);
  }

  lemma QuantumPrefix(url: bool, m: seq<Byte>, s: seq<Byte>)
    requires |s| >= 4 && s <= m
    ensures Quantum(url, m) == Quantum(url, s)
  {
  }

  /** The switch after the loop: up to three characters are left. */
  method DecodeUrlRest(buf: array<Byte>, len: nat, a: nat, b: nat) returns (end: nat)
    requires b <= a <= len <= buf.Length && len - a < 4
    modifies buf
    ensures end <= buf.Length && buf[..end] == old(buf[..b]) + DecodeUrl(old(buf[a..len]))
  {
    hide DecodeUrl, Value, Octet0, Octet1, Octet2;
    UrlRest(buf[a..len]);
    match len - a
    case 3 =>
      var a0, a1, a2 := Value(true, buf[a]), Value(true, buf[a + 1]), Value(true, buf[a + 2]);
      buf[b] := Octet0(a0, a1);
      buf[b + 1] := Octet1(a1, a2);
      end := b + 2;
    case 2 =>
      var a0, a1 := Value(true, buf[a]), Value(true, buf[a + 1]);
      buf[b] := Octet0(a0, a1);
      end := b + 1;
    case _ =>
      end := b;
  }

  lemma UrlQuantum(s: seq<Byte>)
    requires |s| >= 4
    ensures DecodeUrl(s) == Quantum(true, s) + DecodeUrl(s[4..])
  {
  }

  lemma UrlRest(s: seq<Byte>)
    requires |s| < 4
    ensures |s| == 3 ==> DecodeUrl(s) == [Octet0(Value(true, s[0]), Value(true, s[1])), Octet1(Value(true, s[1]), Value(true, s[2]))]
    ensures |s| == 2 ==> DecodeUrl(s) == [Octet0(Value(true, s[0]), Value(true, s[1]))]
    ensures |s| < 2 ==> DecodeUrl(s) == []
  {
  }

  /** One quantum in place: four characters at a to three bytes at b. */
  method DecodeQuantum(url: bool, buf: array<Byte>, a: nat, b: nat)
    requires b <= a && a + 4 <= buf.Length
    modifies buf
    ensures buf[..b + 3] == old(buf[..b]) + Quantum(url, old(buf[a..]))
    ensures buf[a + 4..] == old(buf[a + 4..])
  {
    hide Value, Octet0, Octet1, Octet2;
    var a0, a1, a2, a3 := Value(url, buf[a]), Value(url, buf[a + 1]), Value(url, buf[a + 2]), Value(url, buf[a + 3]);
    buf[b] := Octet0(a0, a1);
    buf[b + 1] := Octet1(a1, a2);
    buf[b + 2] := Octet2(a2, a3);
  }

  /** The part after the loop: the last quantum, of two or three characters. */
  method DecodeLast(buf: array<Byte>, a: nat, b: nat) returns (end: nat)
    requires b <= a && a + 3 <= buf.Length
    modifies buf
    ensures end <= buf.Length && buf[..end] == old(buf[..b]) + LastBytes(old(buf[a..]))
  {
    hide Value, Octet0, Octet1, Octet2;
    var a0, a1, a2 := Value(false, buf[a]), Value(false, buf[a + 1]), Value(false, buf[a + 2]);
    buf[b] := Octet0(a0, a1);
    end := b + 1;
    if a2 != 0x40 {
      buf[b + 1] := Octet1(a1, a2);
      end := b + 2;
    }
  }

  /** Evaluate the loop guard at position a. */
  method Look(buf: array<Byte>, len: nat, a: nat) returns (g: Guard)
    requires a <= buf.Length && len <= buf.Length
    ensures g == GuardOf(buf[a..], len - a)
  {
    if a + 4 < len { return Go; }
    if a + 2 >= buf.Length { return Beyond; }
    if buf[a + 2] == PAD { return Stop; }
    if a + 3 >= buf.Length { return Beyond; }
    return if buf[a + 3] == PAD then Stop else Go;
  }

  lemma DecodeStdUnfolds(m: seq<Byte>, k: int)
    ensures DecodeStd(m, k)
         == match GuardOf(m, k)
            case Beyond => OutOfBounds
            case Go => Prefixed(Quantum(false, m), DecodeStd(m[4..], k - 4))
            case Stop => Decoded(if k > 0 then LastBytes(m) else [])
  {
  }

  lemma Regroup(done: seq<Byte>, g: seq<Byte>, d: Decoded)
    ensures Prefixed(done, Prefixed(g, d)) == Prefixed(done + g, d)
  {
    if d.Decoded? {
      assert done + (g + d.bytes) == done + g + d.bytes;
    }
  }

  /** uo_base64_decode with dst equal to src; false when it reads beyond the memory. */
  method DecodeInPlace(buf: array<Byte>, len: nat) returns (ok: bool, end: nat)
    requires len <= buf.Length
    modifies buf
    ensures end <= buf.Length
    ensures DecodeStd(old(buf[..]), len) == if ok then Decoded(buf[..end]) else OutOfBounds
  {
    hide DecodeStd, Quantum, LastBytes;
    ghost var m := buf[..];
    var a, b := 0, 0;
    var g := Look(buf, len, a);
    assert m[0..] == m == buf[0..] && Prefixed([], DecodeStd(m, len)) == DecodeStd(m, len);
    while g == Go
      invariant 0 <= b <= a <= buf.Length && 4 * b == 3 * a
      invariant buf[a..] == m[a..] && g == GuardOf(m[a..], len - a)
      invariant DecodeStd(m, len) == Prefixed(buf[..b], DecodeStd(m[a..], len - a))
      decreases buf.Length - a
    {
      DecodeStdUnfolds(m[a..], len - a);
      Regroup(buf[..b], Quantum(false, m[a..]), DecodeStd(m[a..][4..], len - a - 4));
      assert m[a..][4..] == m[a + 4..] == buf[a..][4..] == buf[a + 4..];
      DecodeQuantum(false, buf, a, b);
      a, b := a + 4, b + 3;
      g := Look(buf, len, a);
    }
    DecodeStdUnfolds(m[a..], len - a);
    ok, end := g == Stop, b;
    if g == Stop && a < len {
      end := DecodeLast(buf, a, b);
    }
  }

  // ----- both ways, in one buffer

  /** URL-safe: encoding in place and decoding in place restores every byte string. */
  method UrlInPlace(buf: array<Byte>, len: nat) returns (end: nat)
    requires len <= buf.Length && EncodedLength(true, len / 3, len % 3) <= buf.Length
    modifies buf
    ensures end <= buf.Length && buf[..end] == old(buf[..len])
  {
    hide Encode, DecodeUrl;
    UrlRoundTrip(buf[..len]);
    EncodeLength(true, buf[..len], len / 3, len % 3);
    var n := EncodeTo(true, buf, buf, len);
    end := DecodeUrlInPlace(buf, n);
  }

  /**
   Standard: encoding in place and decoding in place restores the bytes exactly when their number is
   not divisible by three or padding happens to follow the text in memory.
   */
  method StdInPlace(buf: array<Byte>, len: nat) returns (ok: bool, end: nat)
    requires len <= buf.Length && EncodedLength(false, len / 3, len % 3) <= buf.Length
    modifies buf
    ensures end <= buf.Length
    ensures ok && buf[..end] == old(buf[..len])
       <==> len % 3 != 0 || PadFollows(old(buf[EncodedLength(false, len / 3, len % 3)..]))
  {
    hide Encode, DecodeStd;
    ghost var s := buf[..len];
    EncodeLength(false, s, len / 3, len % 3);
    var n := EncodeTo(false, buf, buf, len);
    assert buf[n..] == old(buf[n..]);
    StdRoundTrip(s, buf[n..]);
    ok, end := DecodeInPlace(buf, n);
  }
}
