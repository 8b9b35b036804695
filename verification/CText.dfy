/** C strings and the standard library functions on them that the text codecs call. */
module CText {
  import opened OrderedMap

  datatype Option<T> = None | Some(value: T)

  ghost predicate Lacks(s: string, c: char) {
    forall i :: 0 <= i < |s| ==> s[i] != c
  }

  /** memchr: the index of the first c, or the length. */
  function Chr(s: string, c: char): (i: nat)
    ensures i <= |s| && (i < |s| ==> s[i] == c) && forall j :: 0 <= j < i ==> s[j] != c
  {
    if s == "" || s[0] == c then 0 else 1 + Chr(s[1..], c)
  }

  /** strrchr: the index of the last c, or -1. */
  function RChr(s: string, c: char): (i: int)
    ensures -1 <= i < |s| && (i >= 0 ==> s[i] == c) && forall j :: i < j < |s| ==> s[j] != c
  {
    if s == "" then -1
    else if s[|s| - 1] == c then |s| - 1
    else RChr(s[..|s| - 1], c)
  }

  lemma ChrIs(s: string, c: char, i: nat)
    requires i <= |s| && (i < |s| ==> s[i] == c) && forall j :: 0 <= j < i ==> s[j] != c
    ensures Chr(s, c) == i
  {
  }

  lemma RChrIs(s: string, c: char, i: nat)
    requires i < |s| && s[i] == c && forall j :: i < j < |s| ==> s[j] != c
    ensures RChr(s, c) == i
  {
  }

  /** The characters before the first terminator. */
  function CStr(s: string): string {
    s[..Chr(s, '\0')]
  }

  predicate IsSpace(c: char) {
    c == ' ' || '\t' <= c <= '\r'
  }

  function DropSpace(s: string): (r: string)
    ensures |r| <= |s| && (r != "" ==> !IsSpace(r[0]))
  {
    if s != "" && IsSpace(s[0]) then DropSpace(s[1..]) else s
  }

  lemma {:induction false} DropSpaceSkips(pad: string, rest: string)
    requires forall i :: 0 <= i < |pad| ==> IsSpace(pad[i])
    requires rest != "" && !IsSpace(rest[0])
    ensures DropSpace(pad + rest) == rest
  {
    if pad == "" {
      assert pad + rest == rest;
    } else {
      DropSpaceSkips(pad[1..], rest);
      assert (pad + rest)[1..] == pad[1..] + rest;
    }
  }

  lemma {:induction false} AllSpace(s: string)
    requires forall i :: 0 <= i < |s| ==> IsSpace(s[i])
    ensures DropSpace(s) == ""
  {
    if s != "" {
      AllSpace(s[1..]);
    }
  }

  /** What DropSpace drops is the leading white space. */
  lemma {:induction false} DropSpaceSplit(s: string) returns (ws: string)
    ensures s == ws + DropSpace(s) && forall i :: 0 <= i < |ws| ==> IsSpace(ws[i])
  {
    ws := "";
    if s != "" && IsSpace(s[0]) {
      ws := DropSpaceSplit(s[1..]);
      ws := [s[0]] + ws;
    }
  }

  lemma {:induction false} DropSpaceOver(ws: string, rest: string)
    requires forall i :: 0 <= i < |ws| ==> IsSpace(ws[i])
    ensures DropSpace(ws + rest) == DropSpace(rest)
  {
    if ws == "" {
      assert ws + rest == rest;
    } else {
      DropSpaceOver(ws[1..], rest);
      assert (ws + rest)[1..] == ws[1..] + rest;
    }
  }

  function ToLower(c: char): char {
    if 'A' <= c <= 'Z' then (c as int + 32) as char else c
  }

  function Lower(s: string): (r: string)
    ensures |r| == |s| && forall i :: 0 <= i < |s| ==> r[i] == ToLower(s[i])
  {
    if s == "" then "" else [ToLower(s[0])] + Lower(s[1..])
  }

  predicate IsDigit(c: char) {
    '0' <= c <= '9'
  }

  function LeadingDigits(s: string): (n: nat)
    ensures n <= |s| && (n < |s| ==> !IsDigit(s[n])) && forall i :: 0 <= i < n ==> IsDigit(s[i])
  {
    if s != "" && IsDigit(s[0]) then 1 + LeadingDigits(s[1..]) else 0
  }

  /** The number that a run of decimal digits denotes. */
  function DecimalValue(s: string): nat
    requires forall i :: 0 <= i < |s| ==> IsDigit(s[i])
  {
    if s == "" then 0
    else
      assert IsDigit(s[|s| - 1]);
      10 * DecimalValue(s[..|s| - 1]) + (s[|s| - 1] - '0') as int
  }

  /** strtoull in base 10: white space, an optional sign, digits; None when the value does not fit. */
  function Strtoull(s: string): Option<nat> {
    var t := DropSpace(s);
    var negative := t != "" && t[0] == '-';
    var d := if t != "" && (t[0] == '-' || t[0] == '+') then t[1..] else t;
    var v := DecimalValue(d[..LeadingDigits(d)]);
    if v >= 0x1_0000_0000_0000_0000 then None
    else Some(if negative && v > 0 then 0x1_0000_0000_0000_0000 - v else v)
  }

  /** printf's %lu. */
  function Decimal(n: nat): (s: string)
    ensures s != "" && forall i :: 0 <= i < |s| ==> IsDigit(s[i])
  {
    var last := ['0' + (n % 10) as char];
    if n < 10 then last else Decimal(n / 10) + last
  }

  lemma {:induction false} DecimalRoundTrip(n: nat)
    ensures DecimalValue(Decimal(n)) == n
  {
    if n >= 10 {
      DecimalRoundTrip(n / 10);
      assert Decimal(n)[..|Decimal(n)| - 1] == Decimal(n / 10);
    }
  }

  /** What is printed with %lu is read back by strtoull. */
  lemma StrtoullDecimal(n: nat)
    requires n < 0x1_0000_0000_0000_0000
    ensures Strtoull(Decimal(n)) == Some(n)
  {
    var s := Decimal(n);
    assert s[0] != '-' && s[0] != '+' && IsDigit(s[0]);
    assert LeadingDigits(s) == |s|;
    assert s[..|s|] == s;
    DecimalRoundTrip(n);
  }

  // ----- string keys

  /** uo_strhash_djb2. */
  function Djb2(s: string): nat {
    if s == "" then 5381
    else (Djb2(s[..|s| - 1]) * 33 + s[|s| - 1] as int) % 0x1_0000_0000_0000_0000
  }

  /** The keying of uo_strhashtbl. The null pointer is represented by a text that no C string equals. */
  const STR: Keying<string> := Keying("\0", Djb2, (a: string, b: string) => a == b)

  lemma StrLawful()
    ensures Lawful(STR)
  {
  }

  // ----- what the C library and the hash are, by independent descriptions

  /** isspace and tolower in the C locale, by listing the characters. */
  lemma LocaleIs(c: char)
    ensures IsSpace(c) <==> c in " \t\n\U{0B}\U{0C}\r"
    ensures IsDigit(c) <==> c in "0123456789"
  {
  }

  const CAPITALS := "ABCDEFGHIJKLMNOPQRSTUVWXYZ"
  const SMALLS := "abcdefghijklmnopqrstuvwxyz"

  lemma LowerLetters(i: nat)
    requires i < 26
    ensures ToLower(CAPITALS[i]) == SMALLS[i] && ToLower(SMALLS[i]) == SMALLS[i]
  {
    assert CAPITALS[i] == (65 + i) as char && SMALLS[i] == (97 + i) as char;
  }

  lemma CapitalListed(c: char)
    requires 'A' <= c <= 'Z'
    ensures c in CAPITALS
  {
    assert CAPITALS[c as int - 65] == c;
  }

  lemma LowerOthers(c: char)
    requires c !in CAPITALS
    ensures ToLower(c) == c
  {
    if 'A' <= c <= 'Z' {
      CapitalListed(c);
    }
  }

  /** Two characters are the same letter, or the same other character. */
  ghost predicate SameLetter(a: char, b: char) {
    a == b || exists i :: 0 <= i < 26 && ((a == CAPITALS[i] && b == SMALLS[i]) || (a == SMALLS[i] && b == CAPITALS[i]))
  }

  lemma SameLetterLower(a: char, b: char)
    ensures SameLetter(a, b) <==> ToLower(a) == ToLower(b)
  {
    if SameLetter(a, b) && a != b {
      var i :| 0 <= i < 26 && ((a == CAPITALS[i] && b == SMALLS[i]) || (a == SMALLS[i] && b == CAPITALS[i]));
      LowerLetters(i);
    }
    if ToLower(a) == ToLower(b) && a != b {
      var i := ToLower(a) as int - 97;
      assert CAPITALS[i] == (65 + i) as char && SMALLS[i] == (97 + i) as char;
    }
  }

  /** Names are read alike exactly when they differ in letter case only. */
  lemma SameName(a: string, b: string)
    ensures Lower(a) == Lower(b) <==> |a| == |b| && forall i :: 0 <= i < |a| ==> SameLetter(a[i], b[i])
  {
    hide Lower, SameLetter, ToLower;
    if |a| == |b| {
      forall i | 0 <= i < |a|
        ensures SameLetter(a[i], b[i]) <==> Lower(a)[i] == Lower(b)[i]
      {
        SameLetterLower(a[i], b[i]);
      }
      if forall i :: 0 <= i < |a| ==> SameLetter(a[i], b[i]) {
        assert Lower(a) == Lower(b);
      }
    }
  }

  /** strtoull on white space, a sign, digits, and anything that does not go on with a digit. */
  lemma StrtoullIs(ws: string, sign: string, digits: string, rest: string)
    requires (forall i :: 0 <= i < |ws| ==> IsSpace(ws[i])) && (sign == "" || sign == "+" || sign == "-")
    requires digits != "" && (forall i :: 0 <= i < |digits| ==> IsDigit(digits[i])) && (rest == "" || !IsDigit(rest[0]))
    ensures var v := DecimalValue(digits);
            Strtoull(ws + (sign + (digits + rest)))
            == if v >= 0x1_0000_0000_0000_0000 then None
               else if sign == "-" && v > 0 then Some(0x1_0000_0000_0000_0000 - v) else Some(v)
  {
    hide DropSpace, LeadingDigits, DecimalValue, Strtoull;
    var d := digits + rest;
    var t := sign + d;
    assert t[0] == if sign == "" then digits[0] else sign[0];
    DropSpaceSkips(ws, t);
    LeadingAre(digits, rest);
    assert d[..|digits|] == digits;
    assert t[|sign|..] == d;
    StrtoullUnfolds(ws + t, t, sign);
  }

  lemma StrtoullUnfolds(s: string, t: string, sign: string)
    requires DropSpace(s) == t && t != "" && sign <= t && (sign == "+" || sign == "-" || (sign == "" && t[0] != '+' && t[0] != '-'))
    ensures var d := t[|sign|..];
            var v := DecimalValue(d[..LeadingDigits(d)]);
            Strtoull(s) == if v >= 0x1_0000_0000_0000_0000 then None
                           else if sign == "-" && v > 0 then Some(0x1_0000_0000_0000_0000 - v) else Some(v)
  {
    hide DropSpace, LeadingDigits, DecimalValue;
    if sign == "" {
      assert t[0..] == t;
    } else {
      assert t[0] == sign[0];
    }
  }

  lemma {:induction false} LeadingAre(digits: string, rest: string)
    requires (forall i :: 0 <= i < |digits| ==> IsDigit(digits[i])) && (rest == "" || !IsDigit(rest[0]))
    ensures LeadingDigits(digits + rest) == |digits|
  {
    var s := digits + rest;
    assert forall i :: 0 <= i < |digits| ==> s[i] == digits[i];
    assert rest != "" ==> s[|digits|] == rest[0];
  }

  /** Without digits there is nothing to convert, and the value is 0. */
  lemma StrtoullNothing(s: string)
    requires s == "" || !(IsSpace(s[0]) || IsDigit(s[0]) || s[0] == '+' || s[0] == '-')
    ensures Strtoull(s) == Some(0)
  {
    assert DropSpace(s) == s && s[..LeadingDigits(s)] == "";
  }

  /** %lu prints no leading zeros: the text is as short as the number allows. */
  lemma {:induction false} DecimalShortest(n: nat)
    ensures n > 0 ==> Decimal(n)[0] != '0'
    ensures n == 0 ==> Decimal(n) == "0"
  {
    if n >= 10 {
      DecimalShortest(n / 10);
    }
  }

  /** The digits of a number, by place value. */
  lemma PlaceValue(s: string, c: char)
    requires (forall i :: 0 <= i < |s| ==> IsDigit(s[i])) && IsDigit(c)
    ensures DecimalValue(s + [c]) == 10 * DecimalValue(s) + (c as int - 48) && DecimalValue("") == 0
  {
    assert (s + [c])[..|s|] == s;
  }

  /** The sum of the characters, each weighted with a power of 33, and the start value before them. */
  ghost function Weighted(s: string, start: nat): nat {
    if s == "" then start else Weighted(s[1..], 33 * start + s[0] as int)
  }

  /** The hash is 5381 * 33^n + s[0] * 33^(n-1) + ... + s[n-1], taken modulo 2^64 only at the end. */
  lemma {:induction false} Djb2Is(s: string)
    ensures Djb2(s) == Weighted(s, 5381) % 0x1_0000_0000_0000_0000
  {
    if s != "" {
      var t, c := s[..|s| - 1], s[|s| - 1];
      Djb2Is(t);
      WeightedLast(t, c, 5381);
      assert s == t + [c];
      ModThrough(Weighted(t, 5381), c as int);
    }
  }

  lemma {:induction false} WeightedLast(s: string, c: char, start: nat)
    ensures Weighted(s + [c], start) == 33 * Weighted(s, start) + c as int
    decreases |s|
  {
    if s == "" {
      assert s + [c] == [c] && [c][1..] == "";
    } else {
      assert (s + [c])[1..] == s[1..] + [c];
      WeightedLast(s[1..], c, 33 * start + s[0] as int);
    }
  }

  lemma ModThrough(x: nat, c: nat)
    ensures (x % 0x1_0000_0000_0000_0000 * 33 + c) % 0x1_0000_0000_0000_0000 == (33 * x + c) % 0x1_0000_0000_0000_0000
  {
  }
}
