/**
 What a JSON string means, by sections 7 of RFC 8259 and 3 of RFC 3629, and that the codec agrees: every
 spelling of a text is decoded to it, and what is encoded is spelled as the RFC asks.
 */
module JsonSpelling {
  import opened CText
  import opened Json

  // ----- hexadecimal digits

  const UPPER_HEX := "0123456789ABCDEF"
  const LOWER_HEX := "0123456789abcdef"

  /** The digit c stands for v, in either letter case. */
  predicate IsDigitOf(c: char, v: nat) {
    v < 16 && (c == UPPER_HEX[v] || c == LOWER_HEX[v])
  }

  lemma DigitIs(c: char, v: nat)
    requires IsDigitOf(c, v)
    ensures IsHex(c) && HexValue(c) == v && !IsSpace(c) && c != '+' && c != '-' && c != 'x' && c != 'X'
  {
  }

  /** sscanf with %04x takes four digits as they are. */
  lemma FourDigits(ds: string, vs: seq<nat>, rest: string)
    requires |ds| == |vs| == 4 && forall i :: 0 <= i < 4 ==> IsDigitOf(ds[i], vs[i])
    ensures ScanHex4(ds + rest) == Some(4096 * vs[0] + 256 * vs[1] + 16 * vs[2] + vs[3])
  {
    hide HexValue, IsHex;
    DigitIs(ds[0], vs[0]);
    DigitIs(ds[1], vs[1]);
    DigitIs(ds[2], vs[2]);
    DigitIs(ds[3], vs[3]);
    var t := ds + rest;
    assert DropSpace(t) == t && t[..4] == ds;
    assert ds == [ds[0], ds[1], ds[2], ds[3]];
    ScanFour(ds[0], ds[1], ds[2], ds[3]);
  }

  lemma ScanFour(a: char, b: char, c: char, d: char)
    requires IsHex(a) && IsHex(b) && IsHex(c) && IsHex(d)
    ensures ScanDigits([a, b, c, d], 0)
         == (4096 * HexValue(a) + 256 * HexValue(b) + 16 * HexValue(c) + HexValue(d), 4)
  {
    hide HexValue, IsHex;
    assert [a, b, c, d][1..] == [b, c, d] && [b, c, d][1..] == [c, d] && [c, d][1..] == [d] && [d][1..] == [];
    var x := HexValue(a);
    var y := 16 * x + HexValue(b);
    var z := 16 * y + HexValue(c);
    assert ScanDigits([d], z) == (16 * z + HexValue(d), 1);
    assert ScanDigits([c, d], y) == (16 * z + HexValue(d), 2);
    assert ScanDigits([b, c, d], x) == (16 * z + HexValue(d), 3);
  }

  // ----- UTF-8

  /** Section 3 of RFC 3629: the bytes of a code point below 2^16, with its bits in their payloads. */
  ghost predicate IsUtf8(bytes: string, cp: nat) {
    if cp < 0x80 then |bytes| == 1 && bytes[0] as int == cp
    else if cp < 0x800 then
      && |bytes| == 2 && 0xC0 <= bytes[0] as int < 0xE0 && 0x80 <= bytes[1] as int < 0xC0
      && cp == 0x40 * (bytes[0] as int - 0xC0) + (bytes[1] as int - 0x80)
    else
      && |bytes| == 3 && 0xE0 <= bytes[0] as int < 0xF0 && 0x80 <= bytes[1] as int < 0xC0 && 0x80 <= bytes[2] as int < 0xC0
      && cp == 0x1000 * (bytes[0] as int - 0xE0) + 0x40 * (bytes[1] as int - 0x80) + (bytes[2] as int - 0x80)
  }

  lemma Utf8Is(cp: nat, bytes: string)
    requires cp < 0x1_0000
    ensures Utf8(cp) == Some(bytes) <==> IsUtf8(bytes, cp)
  {
    hide IsUtf8;
    assert Utf8(cp).Some?;
    Utf8Bytes(cp);
    if IsUtf8(bytes, cp) {
      Utf8Unique(bytes, Utf8(cp).value, cp);
    }
  }

  lemma Utf8Bytes(cp: nat)
    requires cp < 0x1_0000
    ensures Utf8(cp).Some? && IsUtf8(Utf8(cp).value, cp)
  {
    if cp >= 0x800 {
      var a := cp / 0x40;
      assert cp == 0x40 * a + cp % 0x40 && a == 0x40 * (a / 0x40) + a % 0x40 && a / 0x40 == cp / 0x1000;
    }
  }

  lemma Utf8Unique(a: string, b: string, cp: nat)
    requires IsUtf8(a, cp) && IsUtf8(b, cp)
    ensures a == b
  {
  }

  // ----- spellings

  /** The two-character escapes of section 7 of RFC 8259: the letter, and the code point it stands for. */
  const SHORT: seq<(char, nat)> :=
    [('\"', 0x22), ('\\', 0x5C), ('/', 0x2F), ('b', 0x08), ('f', 0x0C), ('n', 0x0A), ('r', 0x0D), ('t', 0x09)]

  /** One way to write a character: as it is, as entry n of the table, or as four digits. */
  datatype Spelling = Plain(c: char) | Short(n: nat) | Hex(digits: string, values: seq<nat>)

  ghost predicate SpellingOk(sp: Spelling) {
    match sp
    case Plain(c) => c != '\\'
    case Short(n) => n < |SHORT|
    case Hex(ds, vs) => |ds| == |vs| == 4 && forall i :: 0 <= i < 4 ==> IsDigitOf(ds[i], vs[i])
  }

  ghost function Spelled(sp: Spelling): string
    requires SpellingOk(sp)
  {
    match sp
    case Plain(c) => [c]
    case Short(n) => ['\\', SHORT[n].0]
    case Hex(ds, _) => "\\u" + ds
  }

  /** The bytes that a spelling stands for. */
  ghost predicate Means(sp: Spelling, bytes: string)
    requires SpellingOk(sp)
  {
    match sp
    case Plain(c) => bytes == [c]
    case Short(n) => |bytes| == 1 && bytes[0] as int == SHORT[n].1
    case Hex(_, vs) => IsUtf8(bytes, 4096 * vs[0] + 256 * vs[1] + 16 * vs[2] + vs[3])
  }

  lemma ShortIs(n: nat)
    requires n < |SHORT|
    ensures SHORT[n].0 != 'u' && SHORT[n].1 < 128 && Unescape(SHORT[n].0) == Some(SHORT[n].1 as char)
  {
  }

  lemma SpellingDecodes(sp: Spelling, bytes: string, rest: string, k: nat, out: string)
    requires SpellingOk(sp) && Means(sp, bytes) && k <= |rest|
    ensures DecodeFrom(Spelled(sp) + rest, |Spelled(sp)| + k, Some(out)) == DecodeFrom(rest, k, Some(out + bytes))
  {
    hide DecodeFrom, ScanHex4, Utf8, Unescape, IsUtf8;
    match sp {
      case Plain(c) =>
        var t := Spelled(sp) + rest;
        DecodeUnfolds(t, |Spelled(sp)| + k, Some(out));
        assert t[1..] == rest;
      case Short(n) => ShortDecodes(n, bytes, rest, k, out);
      case Hex(ds, vs) => HexDecodes(ds, vs, bytes, rest, k, out);
    }
  }

  lemma ShortDecodes(n: nat, bytes: string, rest: string, k: nat, out: string)
    requires SpellingOk(Short(n)) && Means(Short(n), bytes) && k <= |rest|
    ensures DecodeFrom(Spelled(Short(n)) + rest, 2 + k, Some(out)) == DecodeFrom(rest, k, Some(out + bytes))
  {
    hide DecodeFrom, ScanHex4, Utf8, Unescape, IsUtf8;
    var t := Spelled(Short(n)) + rest;
    DecodeUnfolds(t, 2 + k, Some(out));
    ShortIs(n);
    assert t[2..] == rest && bytes == [SHORT[n].1 as char];
  }

  lemma HexDecodes(ds: string, vs: seq<nat>, bytes: string, rest: string, k: nat, out: string)
    requires SpellingOk(Hex(ds, vs)) && Means(Hex(ds, vs), bytes) && k <= |rest|
    ensures DecodeFrom(Spelled(Hex(ds, vs)) + rest, 6 + k, Some(out)) == DecodeFrom(rest, k, Some(out + bytes))
  {
    hide DecodeFrom, ScanHex4, Utf8, Unescape, IsUtf8;
    var t := Spelled(Hex(ds, vs)) + rest;
    DecodeUnfolds(t, 6 + k, Some(out));
    assert t[2..] == ds + rest && t[6..] == rest;
    FourDigits(ds, vs, rest);
    var cp := 4096 * vs[0] + 256 * vs[1] + 16 * vs[2] + vs[3];
    assert cp < 0x1_0000 by { FourBounds(vs); }
    Utf8Is(cp, bytes);
  }

  lemma FourBounds(vs: seq<nat>)
    requires |vs| == 4 && forall i :: 0 <= i < 4 ==> vs[i] < 16
    ensures 4096 * vs[0] + 256 * vs[1] + 16 * vs[2] + vs[3] < 0x1_0000
  {
  }

  ghost predicate AllOk(sps: seq<Spelling>, texts: seq<string>) {
    |sps| == |texts| && forall i :: 0 <= i < |sps| ==> SpellingOk(sps[i]) && Means(sps[i], texts[i])
  }

  ghost function SpelledAll(sps: seq<Spelling>): string
    requires forall i :: 0 <= i < |sps| ==> SpellingOk(sps[i])
  {
    if sps == [] then "" else Spelled(sps[0]) + SpelledAll(sps[1..])
  }

  ghost function Concat(texts: seq<string>): string {
    if texts == [] then "" else texts[0] + Concat(texts[1..])
  }

  lemma {:induction false} SpellingsDecode(sps: seq<Spelling>, texts: seq<string>, rest: string, k: nat, out: string)
    requires AllOk(sps, texts) && k <= |rest|
    ensures DecodeFrom(SpelledAll(sps) + rest, |SpelledAll(sps)| + k, Some(out)) == DecodeFrom(rest, k, Some(out + Concat(texts)))
    decreases |sps|
  {
    hide DecodeFrom, Spelled, Means;
    if sps == [] {
      assert SpelledAll(sps) + rest == rest && out + Concat(texts) == out;
    } else {
      var more := SpelledAll(sps[1..]) + rest;
      assert SpelledAll(sps) + rest == Spelled(sps[0]) + more;
      SpellingDecodes(sps[0], texts[0], more, |SpelledAll(sps[1..])| + k, out);
      SpellingsDecode(sps[1..], texts[1..], rest, k, out + texts[0]);
      assert out + texts[0] + Concat(texts[1..]) == out + Concat(texts);
    }
  }

  lemma Quoted(text: string, rest: string)
    ensures var json := "\"" + text + "\"";
            Decode(json + rest, |json|) == DecodeFrom(text + ("\"" + rest), |text|, Some(""))
  {
    hide DecodeFrom;
    var json := "\"" + text + "\"";
    assert (json + rest)[1..] == text + ("\"" + rest);
  }

  /** Every spelling of a text, between quotes and with anything behind it in memory, is decoded to the text. */
  lemma DecodesSpellings(sps: seq<Spelling>, texts: seq<string>, rest: string)
    requires AllOk(sps, texts)
    ensures var json := "\"" + SpelledAll(sps) + "\""; Decode(json + rest, |json|) == Done(Concat(texts))
  {
    hide DecodeFrom, SpelledAll, Concat, SpellingOk, Means;
    Quoted(SpelledAll(sps), rest);
    SpellingsDecode(sps, texts, "\"" + rest, 0, "");
    Finished("\"" + rest, Concat(texts));
    assert "" + Concat(texts) == Concat(texts);
  }

  /** An escape that is not in the table is refused, wherever it stands. */
  lemma RefusesEscape(sps: seq<Spelling>, texts: seq<string>, x: char, more: string, rest: string)
    requires AllOk(sps, texts) && x != 'u' && forall n :: 0 <= n < |SHORT| ==> x != SHORT[n].0
    ensures var json := "\"" + SpelledAll(sps) + ['\\', x] + more + "\""; Decode(json + rest, |json|) == Failed
  {
    hide DecodeFrom, Unescape, SpelledAll, Means, Concat;
    var json := "\"" + SpelledAll(sps) + ['\\', x] + more + "\"";
    var tail := ['\\', x] + more + "\"" + rest;
    InsideQuotes(SpelledAll(sps), ['\\', x] + more, rest);
    assert "\"" + SpelledAll(sps) + (['\\', x] + more) + "\"" == json;
    SpellingsDecode(sps, texts, tail, 2 + |more|, "");
    NotShort(x);
    EscapeFails(tail, 2 + |more|, "" + Concat(texts));
  }

  lemma InsideQuotes(a: string, b: string, rest: string)
    ensures var json := "\"" + a + b + "\""; (json + rest)[1..] == a + (b + "\"" + rest) && json[0] == '\"' == json[|json| - 1]
  {
  }

  lemma EscapeFails(t: string, k: nat, out: string)
    requires 2 <= k <= |t| && t[0] == '\\' && t[1] != 'u' && Unescape(t[1]) == None
    ensures DecodeFrom(t, k, Some(out)) == Failed
  {
    hide Unescape, DecodeFrom;
    DecodeUnfolds(t, k, Some(out));
  }

  lemma NotShort(x: char)
    requires forall n :: 0 <= n < |SHORT| ==> x != SHORT[n].0
    ensures Unescape(x) == None
  {
    assert SHORT[0].0 == '\"' && SHORT[1].0 == '\\' && SHORT[2].0 == '/' && SHORT[3].0 == 'b';
    assert SHORT[4].0 == 'f' && SHORT[5].0 == 'n' && SHORT[6].0 == 'r' && SHORT[7].0 == 't';
  }

  // ----- what is encoded

  /** The spelling that the encoder chooses: digits for control characters, an escape for quote and backslash. */
  lemma EscapeIs(c: char)
    requires c as int < 0x100
    ensures c as int < 0x20 || c as int == 0x7F ==> Escape(c) == "\\u00" + [UPPER_HEX[c as int / 16], UPPER_HEX[c as int % 16]]
    ensures c == '\"' || c == '\\' ==> Escape(c) == ['\\', c]
    ensures !(c as int < 0x20 || c as int == 0x7F || c == '\"' || c == '\\') ==> Escape(c) == [c]
  {
  }

  /** What is encoded has no control characters, as section 7 of RFC 8259 asks. */
  lemma {:induction false} NoControls(s: string, i: nat)
    requires (forall k :: 0 <= k < |s| ==> s[k] as int < 0x100) && i < |Encode(s)|
    ensures Encode(s)[i] as int >= 0x20 && Encode(s)[i] as int != 0x7F
  {
    hide Escape;
    if 0 < i < |Encode(s)| - 1 {
      BodyNoControls(s, i - 1);
    }
  }

  lemma {:induction false} BodyNoControls(s: string, i: nat)
    requires (forall k :: 0 <= k < |s| ==> s[k] as int < 0x100) && i < |Body(s)|
    ensures Body(s)[i] as int >= 0x20 && Body(s)[i] as int != 0x7F
    decreases |s|
  {
    hide Escape;
    EscapeIs(s[0]);
    if i >= |Escape(s[0])| {
      BodyNoControls(s[1..], i - |Escape(s[0])|);
    }
  }

  // ----- the other forms that sscanf takes

  /** White space, a sign and three digits. */
  lemma SignedDigits(ws: string, sign: char, ds: string, vs: seq<nat>, rest: string)
    requires (forall i :: 0 <= i < |ws| ==> IsSpace(ws[i])) && (sign == '+' || sign == '-')
    requires |ds| == |vs| == 3 && forall i :: 0 <= i < 3 ==> IsDigitOf(ds[i], vs[i])
    ensures var v: int := 256 * vs[0] + 16 * vs[1] + vs[2];
            ScanHex4(ws + ([sign] + (ds + rest))) == Some(if sign == '-' then -v else v)
  {
    hide HexValue, IsHex;
    DigitIs(ds[0], vs[0]);
    DigitIs(ds[1], vs[1]);
    DigitIs(ds[2], vs[2]);
    var t := [sign] + (ds + rest);
    DropSpaceSkips(ws, t);
    assert t[..4] == [sign] + ds && ([sign] + ds)[1..] == ds;
    assert ds == [ds[0], ds[1], ds[2]];
    ScanThree(ds[0], ds[1], ds[2]);
  }

  lemma ScanThree(a: char, b: char, c: char)
    requires IsHex(a) && IsHex(b) && IsHex(c)
    ensures ScanDigits([a, b, c], 0) == (256 * HexValue(a) + 16 * HexValue(b) + HexValue(c), 3)
  {
    hide HexValue, IsHex;
    assert [a, b, c][1..] == [b, c] && [b, c][1..] == [c] && [c][1..] == [];
    var y := 16 * HexValue(a) + HexValue(b);
    assert ScanDigits([c], y) == (16 * y + HexValue(c), 1);
    assert ScanDigits([b, c], HexValue(a)) == (16 * y + HexValue(c), 2);
  }

  /** A prefix 0x and two digits. */
  lemma PrefixedDigits(x: char, ds: string, vs: seq<nat>, rest: string)
    requires (x == 'x' || x == 'X') && |ds| == |vs| == 2 && forall i :: 0 <= i < 2 ==> IsDigitOf(ds[i], vs[i])
    ensures ScanHex4(['0', x] + (ds + rest)) == Some(16 * vs[0] + vs[1])
  {
    hide HexValue, IsHex;
    DigitIs(ds[0], vs[0]);
    DigitIs(ds[1], vs[1]);
    var t := ['0', x] + (ds + rest);
    assert DropSpace(t) == t && t[..4] == ['0', x] + ds && (['0', x] + ds)[2..] == ds;
    assert ds == [ds[0], ds[1]] && [ds[0], ds[1]][1..] == [ds[1]] && [ds[1]][1..] == [];
    assert ScanDigits([ds[1]], HexValue(ds[0])) == (16 * HexValue(ds[0]) + HexValue(ds[1]), 1);
  }

  /** A code point that is not there: no digit at all. */
  lemma NoDigits(c: char, rest: string)
    requires !IsSpace(c) && c != '+' && c != '-' && forall v :: 0 <= v < 16 ==> !IsDigitOf(c, v)
    ensures ScanHex4([c] + rest) == None
  {
    var t := [c] + rest;
    assert DropSpace(t) == t;
    if IsHex(c) {
      assert IsDigitOf(c, HexValue(c));
    }
  }
}
