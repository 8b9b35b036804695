/**
 The string codec of uo_json: encoding, decoding, and finding the end of a string in a text by the
 parity of the backslashes before each quote.
 */
module Json {
  import opened CText

  /** iscntrl in the C locale. */
  predicate IsCntrl(c: char) {
    c < ' ' || c == '\U{7F}'
  }

  function HexDigit(n: nat): char
    requires n < 16
  {
    if n < 10 then '0' + n as char else 'A' + (n - 10) as char
  }

  // ----- encoding

  function Escape(c: char): string {
    if IsCntrl(c) then "\\u00" + [HexDigit(c as int / 16), HexDigit(c as int % 16)]
    else if c == '\"' || c == '\\' then ['\\', c]
    else [c]
  }

  function Body(s: string): string {
    if s == "" then "" else Escape(s[0]) + Body(s[1..])
  }

  function Encode(s: string): string {
    "\"" + Body(s) + "\""
  }

  lemma BodyStep(s: string, i: nat, out: string)
    requires i < |s|
    ensures out + Body(s[i..]) == out + Escape(s[i]) + Body(s[i + 1..])
  {
    assert s[i..][1..] == s[i + 1..];
  }

  lemma EscapeCases(c: char)
    ensures IsCntrl(c) ==> Escape(c) == "\\u00" + [HexDigit(c as int / 16), HexDigit(c as int % 16)]
    ensures !IsCntrl(c) && (c == '\"' || c == '\\') ==> Escape(c) == ['\\', c]
    ensures !IsCntrl(c) && c != '\"' && c != '\\' ==> Escape(c) == [c]
  {
  }

  /** uo_json_encode_utf8; a null pointer is encoded as null. */
  method EncodeUtf8(text: Option<string>) returns (out: string)
    ensures out == if text.None? then "null" else Encode(text.value)
  {
    if text.None? {
      return "null";
    }
    var src := text.value;
    out := "\"";
    var i := 0;
    while i < |src|
      invariant i <= |src| && out + Body(src[i..]) == "\"" + Body(src)
    {
      hide Body, Escape;
      var c := src[i];
      BodyStep(src, i, out);
      EscapeCases(c);
      if IsCntrl(c) {
        out := out + ("\\u00" + [HexDigit(c as int / 16), HexDigit(c as int % 16)]);
      } else if c == '\"' || c == '\\' {
        out := out + ['\\', c];
      } else {
        out := out + [c];
      }
      i := i + 1;
    }
    assert src[i..] == "";
    out := out + "\"";
  }

  // ----- decoding

  predicate IsHex(c: char) {
    '0' <= c <= '9' || 'a' <= c <= 'f' || 'A' <= c <= 'F'
  }

  function HexValue(c: char): nat
    requires IsHex(c)
  {
    if c <= '9' then (c - '0') as int else if c <= 'F' then (c - 'A') as int + 10 else (c - 'a') as int + 10
  }

  ghost function Pow16(n: nat): nat {
    if n == 0 then 1 else 16 * Pow16(n - 1)
  }

  lemma MulMono(x: nat, y: nat, p: nat)
    requires x <= y
    ensures x * p <= y * p
  {
  }

  lemma Grow16(a: nat, b: nat, n: nat)
    requires a + 1 <= 16 * (b + 1)
    ensures (a + 1) * Pow16(n) <= (b + 1) * Pow16(n + 1)
  {
    var p, c := Pow16(n), b + 1;
    MulMono(a + 1, 16 * c, p);
    assert 16 * c * p == c * (16 * p);
  }

  /** The number denoted by the leading hexadecimal digits, and how many there are. */
  function ScanDigits(s: string, acc: nat): (r: (nat, nat))
    ensures r.0 < (acc + 1) * Pow16(|s|)
  {
    if s != "" && IsHex(s[0]) then
      var (v, n) := ScanDigits(s[1..], 16 * acc + HexValue(s[0]));
      Grow16(16 * acc + HexValue(s[0]), acc, |s| - 1);
      (v, n + 1)
    else
      AtLeastOne(acc, |s|);
      (acc, 0)
  }

  lemma {:induction false} AtLeastOne(acc: nat, n: nat)
    ensures acc < (acc + 1) * Pow16(n)
  {
    if n > 0 {
      AtLeastOne(acc, n - 1);
      Grow16(acc, acc, n - 1);
    }
  }

  /** sscanf with %04x: white space, then at most four characters of sign, 0x prefix and digits. */
  function ScanHex4(mem: string): (r: Option<int>)
    ensures r.Some? ==> r.value < 0x1_0000
  {
    var t := DropSpace(mem);
    var w := t[..if |t| < 4 then |t| else 4];
    var signed := w != "" && (w[0] == '-' || w[0] == '+');
    var u := if signed then w[1..] else w;
    var d := if |u| > 2 && u[0] == '0' && (u[1] == 'x' || u[1] == 'X') && IsHex(u[2]) then u[2..] else u;
    var r := ScanDigits(d, 0);
    UpToFour(|d|);
    var v: int := r.0;
    if r.1 == 0 then None else Some(if signed && w[0] == '-' then -v else v)
  }

  lemma UpToFour(n: nat)
    requires n <= 4
    ensures Pow16(n) <= 0x1_0000
  {
    assert Pow16(1) == 16 && Pow16(2) == 256 && Pow16(3) == 4096 && Pow16(4) == 65536;
  }

  /** uo_utf8_append for what four hexadecimal digits can denote; a negative number is refused. */
  function Utf8(cp: int): Option<string>
    requires cp < 0x1_0000
  {
    if cp < 0 then None
    else if cp < 0x80 then Some([cp as char])
    else if cp < 0x800 then Some([(0xC0 + cp / 0x40) as char, (0x80 + cp % 0x40) as char])
    else Some([(0xE0 + cp / 0x1000) as char, (0x80 + cp / 0x40 % 0x40) as char, (0x80 + cp % 0x40) as char])
  }

  /** Decoding returns the text, returns NULL, or writes through a null pointer. */
  datatype Decoded = Done(text: string) | Failed | Crashed

  /** What a two-character escape stands for, other than \u. */
  function Unescape(c: char): Option<char> {
    if c == '\"' || c == '\\' || c == '/' then Some(c)
    else if c == 'b' then Some('\U{08}')
    else if c == 'f' then Some('\U{0C}')
    else if c == 'n' then Some('\n')
    else if c == 'r' then Some('\r')
    else if c == 't' then Some('\t')
    else None
  }

  /**
   The decoding loop on memory t with k characters left before the closing quote. The output is None
   once uo_utf8_append has returned a null pointer.
   */
  function DecodeFrom(t: string, k: nat, out: Option<string>): Decoded
    requires k <= |t|
    decreases k
  {
    if k == 0 then (if out.None? then Failed else Done(out.value))
    else if t[0] != '\\' then
      (if out.None? then Crashed else DecodeFrom(t[1..], k - 1, Some(out.value + [t[0]])))
    else if k == 1 then Failed
    else if t[1] == 'u' then
      if k < 6 then Failed
      else match ScanHex4(t[2..])
        case None => Failed
        case Some(cp) =>
          (match Utf8(cp)
           case None => DecodeFrom(t[6..], k - 6, None)
           case Some(u) => if out.None? then Crashed else DecodeFrom(t[6..], k - 6, Some(out.value + u)))
    else match Unescape(t[1])
      case None => Failed
      case Some(c) => if out.None? then Crashed else DecodeFrom(t[2..], k - 2, Some(out.value + [c]))
  }

  /** uo_json_decode_utf8 on len characters of memory. */
  function Decode(mem: string, len: nat): Decoded
    requires len <= |mem|
  {
    if len < 2 || mem[0] != '\"' || mem[len - 1] != '\"' then Failed
    else DecodeFrom(mem[1..], len - 2, Some(""))
  }

  /** What is printed for a control character is scanned back. */
  lemma HexRoundTrip(c: char, rest: string)
    requires IsCntrl(c)
    ensures ScanHex4("00" + [HexDigit(c as int / 16), HexDigit(c as int % 16)] + rest) == Some(c as int)
  {
    var h := "00" + [HexDigit(c as int / 16), HexDigit(c as int % 16)];
    var t := h + rest;
    assert DropSpace(t) == t && t[..4] == h;
    assert h[1..] == ['0', h[2], h[3]] && h[2..] == [h[2], h[3]] && h[3..] == [h[3]];
    assert ScanDigits([h[3]][1..], c as int) == (c as int, 0);
    assert ScanDigits(h[3..], c as int / 16) == (c as int, 1);
    assert ScanDigits(h[2..], 0) == (c as int, 2) by { assert h[2..][1..] == h[3..]; }
    assert ScanDigits(h[1..], 0) == (c as int, 3) by { assert h[1..][1..] == h[2..]; }
    assert ScanDigits(h, 0) == (c as int, 4);
  }

  /** Decoding one encoded character gives it back and leaves the rest. */
  lemma EscapeDecodes(c: char, rest: string, k: nat, out: string)
    requires k <= |rest|
    ensures DecodeFrom(Escape(c) + rest, |Escape(c)| + k, Some(out)) == DecodeFrom(rest, k, Some(out + [c]))
  {
    var t := Escape(c) + rest;
    if IsCntrl(c) {
      var h := "00" + [HexDigit(c as int / 16), HexDigit(c as int % 16)];
      assert t[2..] == h + rest && t[6..] == rest;
      HexRoundTrip(c, rest);
    } else if c == '\"' || c == '\\' {
      assert t[2..] == rest;
    } else {
      assert t[1..] == rest;
    }
  }

  lemma {:induction false} BodyDecodes(s: string, rest: string, out: string)
    ensures DecodeFrom(Body(s) + rest, |Body(s)|, Some(out)) == Done(out + s)
    decreases |s|
  {
    hide Escape, DecodeFrom;
    if s == "" {
      assert out + s == out;
      Finished(Body(s) + rest, out);
    } else {
      EscapeDecodes(s[0], Body(s[1..]) + rest, |Body(s[1..])|, out);
      assert Body(s) + rest == Escape(s[0]) + (Body(s[1..]) + rest);
      BodyDecodes(s[1..], rest, out + [s[0]]);
      assert out + s == out + [s[0]] + s[1..];
    }
  }

  lemma Finished(t: string, out: string)
    ensures DecodeFrom(t, 0, Some(out)) == Done(out)
  {
  }

  /** Decoding inverts encoding for every string, whatever follows it in memory. */
  lemma EncodeDecode(s: string, rest: string)
    ensures Decode(Encode(s) + rest, |Encode(s)|) == Done(s)
  {
    hide DecodeFrom;
    var t := Encode(s) + rest;
    assert t[1..] == Body(s) + ("\"" + rest);
    BodyDecodes(s, "\"" + rest, "");
    assert "" + s == s;
  }

  /** uo_json_decode_utf8, as the loop it is. The output is None once it has become a null pointer. */
  method DecodeUtf8(mem: string, len: nat) returns (r: Decoded)
    requires len <= |mem|
    ensures r == Decode(mem, len)
  {
    hide DecodeFrom, ScanHex4, Utf8, Unescape;
    if len < 2 || mem[0] != '\"' || mem[len - 1] != '\"' {
      return Failed;
    }
    var src, end := 1, len - 1;
    var dst: Option<string> := Some("");
    while src < end
      invariant 1 <= src <= end
      invariant Decode(mem, len) == DecodeFrom(mem[src..], end - src, dst)
      decreases end - src
    {
      DecodeUnfolds(mem[src..], end - src, dst);
      assert mem[src..][1..] == mem[src + 1..];
      if mem[src] != '\\' {
        if dst.None? { return Crashed; }
        dst := Some(dst.value + [mem[src]]);
        src := src + 1;
      } else {
        if src + 1 >= end { return Failed; }
        assert mem[src..][2..] == mem[src + 2..] && mem[src..][1] == mem[src + 1];
        if mem[src + 1] == 'u' {
          if src + 6 > end { return Failed; }
          var cp := ScanHex4(mem[src + 2..]);
          if cp.None? { return Failed; }
          var u := Utf8(cp.value);
          assert mem[src..][6..] == mem[src + 6..];
          if u.Some? && dst.None? { return Crashed; }
          dst := if u.None? then None else Some(dst.value + u.value);
          src := src + 6;
        } else {
          var c := Unescape(mem[src + 1]);
          if c.None? { return Failed; }
          if dst.None? { return Crashed; }
          dst := Some(dst.value + [c.value]);
          src := src + 2;
        }
      }
    }
    DecodeUnfolds(mem[src..], 0, dst);
    return if dst.None? then Failed else Done(dst.value);
  }

  lemma DecodeUnfolds(t: string, k: nat, out: Option<string>)
    requires k <= |t|
    ensures k == 0 ==> DecodeFrom(t, k, out) == if out.None? then Failed else Done(out.value)
    ensures k > 0 && t[0] != '\\' ==>
      DecodeFrom(t, k, out) == if out.None? then Crashed else DecodeFrom(t[1..], k - 1, Some(out.value + [t[0]]))
    ensures k == 1 && t[0] == '\\' ==> DecodeFrom(t, k, out) == Failed
    ensures 1 < k < 6 && t[0] == '\\' && t[1] == 'u' ==> DecodeFrom(t, k, out) == Failed
    ensures k >= 6 && t[0] == '\\' && t[1] == 'u' ==>
      var cp := ScanHex4(t[2..]);
      DecodeFrom(t, k, out) ==
        if cp.None? then Failed
        else if Utf8(cp.value).None? then DecodeFrom(t[6..], k - 6, None)
        else if out.None? then Crashed
        else DecodeFrom(t[6..], k - 6, Some(out.value + Utf8(cp.value).value))
    ensures k >= 2 && t[0] == '\\' && t[1] != 'u' ==>
      DecodeFrom(t, k, out) ==
        if Unescape(t[1]).None? then Failed
        else if out.None? then Crashed
        else DecodeFrom(t[2..], k - 2, Some(out.value + [Unescape(t[1]).value]))
  {
    hide ScanHex4, Utf8, Unescape;
  }

  // ----- finding the end of a string

  /** strchr for a quote from position i on. */
  function NextQuote(t: string, i: nat): (r: Option<nat>)
    requires i <= |t|
    ensures r.Some? ==> i <= r.value < |t| && t[r.value] == '\"'
    decreases |t| - i
  {
    if i == |t| || t[i] == '\0' then None
    else if t[i] == '\"' then Some(i)
    else NextQuote(t, i + 1)
  }

  /** How many backslashes stand immediately before position i. The text starts with a quote. */
  function Backslashes(t: string, i: nat): nat
    requires 1 <= i <= |t| && t[0] == '\"'
  {
    if t[i - 1] == '\\' then 1 + Backslashes(t, i - 1) else 0
  }

  /** uo_json_is_char_escaped: walk back over the backslashes, flipping. */
  method IsCharEscaped(t: string, i: nat) returns (escaped: bool)
    requires 1 <= i <= |t| && t[0] == '\"'
    ensures escaped <==> Backslashes(t, i) % 2 == 1
  {
    escaped := false;
    var p := i - 1;
    while t[p] == '\\'
      invariant 0 <= p < i
      invariant escaped <==> (Backslashes(t, i) - Backslashes(t, p + 1)) % 2 == 1
      decreases p
    {
      escaped := !escaped;
      p := p - 1;
    }
  }

  /** The search of uo_json_find_str_end from position i on. */
  function FindFrom(t: string, i: nat): Option<nat>
    requires 1 <= i <= |t| && t[0] == '\"'
    decreases |t| - i
  {
    match NextQuote(t, i)
    case None => None
    case Some(q) => if Backslashes(t, q) % 2 == 1 then FindFrom(t, q + 1) else Some(q + 1)
  }

  /** uo_json_find_str_end. */
  method FindStrEnd(t: string) returns (end: Option<nat>)
    requires t != "" && t[0] == '\"'
    ensures end == FindFrom(t, 1)
  {
    var quote := NextQuote(t, 1);
    ghost var from := 1;
    while quote.Some?
      invariant 1 <= from <= |t| && quote == NextQuote(t, from)
      invariant FindFrom(t, 1) == FindFrom(t, from)
      decreases |t| - from
    {
      var escaped := IsCharEscaped(t, quote.value);
      if !escaped {
        return Some(quote.value + 1);
      }
      from := quote.value + 1;
      quote := NextQuote(t, quote.value + 1);
    }
    return None;
  }

  /** A forward lexer: a backslash and the character after it, or one other character, at a time. */
  function LexEnd(t: string, i: nat): Option<nat>
    requires i <= |t|
    decreases |t| - i
  {
    if i == |t| || t[i] == '\0' then None
    else if t[i] == '\"' then Some(i + 1)
    else if t[i] != '\\' then LexEnd(t, i + 1)
    else if i + 1 == |t| || t[i + 1] == '\0' then None
    else LexEnd(t, i + 2)
  }

  /** Looking back at the parity of the backslashes agrees with lexing forwards, on every text. */
  lemma {:induction false} ParityIsLexing(t: string, i: nat)
    requires 1 <= i <= |t| && t[0] == '\"' && Backslashes(t, i) % 2 == 0
    ensures FindFrom(t, i) == LexEnd(t, i)
    decreases |t| - i
  {
    if i < |t| && t[i] != '\0' && t[i] != '\"' {
      assert NextQuote(t, i) == NextQuote(t, i + 1);
      if t[i] != '\\' {
        ParityIsLexing(t, i + 1);
      } else if i + 1 < |t| && t[i + 1] != '\0' {
        assert Backslashes(t, i + 1) == 1 + Backslashes(t, i);
        assert t[i + 1] != '\"' ==> NextQuote(t, i + 1) == NextQuote(t, i + 2);
        ParityIsLexing(t, i + 2);
      } else {
        assert NextQuote(t, i + 1) == None;
      }
    }
  }

  lemma LexEscape(pre: string, c: char, rest: string)
    requires rest != ""
    ensures LexEnd(pre + Escape(c) + rest, |pre|) == LexEnd(pre + Escape(c) + rest, |pre| + |Escape(c)|)
  {
    var t, n := pre + Escape(c) + rest, |pre|;
    if IsCntrl(c) {
      assert t[n] == '\\' && t[n + 1] == 'u' && t[n + 2] == '0' && t[n + 3] == '0';
      assert t[n + 4] == HexDigit(c as int / 16) && t[n + 5] == HexDigit(c as int % 16);
      assert LexEnd(t, n) == LexEnd(t, n + 2);
      assert LexEnd(t, n + 2) == LexEnd(t, n + 3) == LexEnd(t, n + 4);
      assert LexEnd(t, n + 4) == LexEnd(t, n + 5) == LexEnd(t, n + 6);
    } else if c == '\"' || c == '\\' {
      assert t[n] == '\\' && t[n + 1] == c;
    } else {
      assert t[n] == c;
    }
  }

  lemma {:induction false} LexBody(pre: string, s: string, rest: string)
    ensures LexEnd(pre + Body(s) + "\"" + rest, |pre|) == Some(|pre| + |Body(s)| + 1)
    decreases |s|
  {
    hide Escape;
    var t := pre + Body(s) + "\"" + rest;
    if s != "" {
      var more := Body(s[1..]) + "\"" + rest;
      LexEscape(pre, s[0], more);
      assert t == pre + Escape(s[0]) + more;
      LexBody(pre + Escape(s[0]), s[1..], rest);
      assert t == pre + Escape(s[0]) + Body(s[1..]) + "\"" + rest;
    }
  }

  /** On an encoded string followed by any text, the search stops exactly at its end. */
  lemma FindsEncodedEnd(s: string, rest: string)
    ensures FindFrom(Encode(s) + rest, 1) == Some(|Encode(s)|)
  {
    var t := Encode(s) + rest;
    ParityIsLexing(t, 1);
    LexBody("\"", s, rest);
    assert t == "\"" + Body(s) + "\"" + rest;
  }
}
