/**
 uo_http_req_handler: patterns with parameters in braces and possibly a final asterisk, prepared as C
 memory and matched against the "method SP uri" of a request; the parameter values go to a table.
 */
module ReqPattern {
  import opened OrderedMap
  import opened CText

  type Table = seq<Item<string, string>>

  // ----- preparing a pattern

  /** A prepared pattern and the number of its parameters. */
  datatype Memory = Memory(text: string, params: nat)

  /** Replace the first closing brace after each opening one by a terminator, from position i on. */
  function Prepared(p: string, i: nat): Option<Memory>
    requires i <= |p|
    decreases |p| - i
  {
    var open := i + Chr(p[i..], '{');
    if open == |p| then Some(Memory(p, 0))
    else
      var close := open + Chr(p[open..], '}');
      if close == |p| then None
      else Counted(Prepared(p[close := '\0'], close + 1), 1)
  }

  lemma PreparedUnfolds(p: string, i: nat)
    requires i <= |p|
    ensures var open := i + Chr(p[i..], '{');
            var close := if open < |p| then open + Chr(p[open..], '}') else |p|;
            Prepared(p, i)
            == if open == |p| then Some(Memory(p, 0))
               else if close == |p| then None
               else Counted(Prepared(p[close := '\0'], close + 1), 1)
  {
    hide Chr, Counted, Prepared;
    var open := i + Chr(p[i..], '{');
    if open < |p| && open + Chr(p[open..], '}') < |p| {
      PreparedTurn(p, i, open, open + Chr(p[open..], '}'));
    } else {
      PreparedStops(p, i);
    }
  }

  lemma PreparedStops(p: string, i: nat)
    requires i <= |p|
    ensures var open := i + Chr(p[i..], '{');
            && (open == |p| ==> Prepared(p, i) == Some(Memory(p, 0)))
            && (open < |p| && open + Chr(p[open..], '}') == |p| ==> Prepared(p, i) == None)
  {
    hide Chr, Counted;
  }

  function Counted(m: Option<Memory>, n: nat): Option<Memory> {
    if m.None? then None else Some(m.value.(params := m.value.params + n))
  }

  /** uo_http_req_handler_create: the pattern memory with two terminators, and the number of parameters. */
  method Create(pattern: string) returns (r: Option<Memory>)
    ensures var m := Prepared(pattern, 0);
            r == if m.None? then None else Some(m.value.(text := m.value.text + "\0\0"))
  {
    hide Chr, Prepared;
    var p, i, n := pattern, 0, 0;
    while true
      invariant 0 <= i <= |p|
      invariant n >= 0 && Prepared(pattern, 0) == Counted(Prepared(p, i), n)
      decreases |p| - i
    {
      PreparedUnfolds(p, i);
      var open := i + Chr(p[i..], '{');
      if open == |p| {
        return Some(Memory(p + "\0\0", n));
      }
      var close := open + Chr(p[open..], '}');
      if close == |p| {
        return None;
      }
      p, i, n := p[close := '\0'], close + 1, n + 1;
    }
  }

  // ----- matching

  /** A parameter's name, and where its value lies in the request text. */
  datatype Binding = Binding(name: string, start: nat, end: nat)

  datatype Outcome = Match(bindings: seq<Binding>) | NoMatch | Fault

  /** uo_strdiff on two terminated texts: where they first differ, or None. */
  function Diff(s: string, t: string): (r: Option<nat>)
    requires '\0' in s && '\0' in t
    ensures r.Some? ==> r.value < |s| && r.value < |t| && s[r.value] != t[r.value] && s[..r.value] == t[..r.value]
    ensures r.Some? ==> forall i :: 0 <= i < r.value ==> s[i] != '\0'
  {
    if s[0] != t[0] then Some(0)
    else if s[0] == '\0' then None
    else match Diff(s[1..], t[1..])
      case None => None
      case Some(k) => Some(k + 1)
  }

  predicate Terminated(t: string) {
    t != "" && t[|t| - 1] == '\0'
  }

  /** What one parameter of the pattern leads to. */
  datatype Turn = Bound(mem: string, t: string, binding: Binding) | Missed | Broken

  /**
   One turn of the parameter loop of uo_http_req_handler_try: t is the rest of the request text, which
   starts at offset off. Broken is a null or out-of-bounds dereference.
   */
  function TryOne(mem: string, t: string, off: nat): (r: Turn)
    requires '\0' in mem && Terminated(t)
    ensures r.Bound? ==> '\0' in r.mem && Terminated(r.t) && off <= r.binding.start <= r.binding.end
    ensures r.Bound? ==> r.binding.end + |r.t| == off + |t|
  {
    match Diff(mem, t)
    case None => Broken
    case Some(k) =>
      if mem[k] != '{' then Missed else TakeParam(mem[k..], t[k..], off + k)
  }

  /** The rest of the turn, with the pattern at an opening brace and the text at the value. */
  function TakeParam(param: string, t: string, start: nat): (r: Turn)
    requires param != "" && param[0] != '\0' && Terminated(t)
    ensures r.Bound? ==> '\0' in r.mem && Terminated(r.t) && start == r.binding.start <= r.binding.end
    ensures r.Bound? ==> r.binding.end + |r.t| == start + |t|
  {
    var len := Chr(param, '\0');
    if len + 1 >= |param| || '\0' !in param[len + 1..] then Broken
    else
      var mem1 := param[len + 1..];
      var e := Chr(t, mem1[0]);
      if e == |t| then Missed else Bound(mem1, t[e..], Binding(param[1..len], start, start + e))
  }

  /** The matching part of uo_http_req_handler_try, with n parameters left in the pattern memory. */
  function TryFrom(mem: string, n: nat, t: string, off: nat, acc: seq<Binding>): Outcome
    requires '\0' in mem && Terminated(t)
    decreases n
  {
    if n == 0 then
      var d := Diff(mem, t);
      if d.None? || mem[d.value] == '*' then Match(acc) else NoMatch
    else match TryOne(mem, t, off)
      case Missed => NoMatch
      case Broken => Fault
      case Bound(mem1, t1, b) => TryFrom(mem1, n - 1, t1, b.end, acc + [b])
  }

  // ----- documented patterns

  /** Literal text with named parameters between, and possibly an asterisk at the end. */
  datatype Pattern = Last(lit: string, star: bool) | Param(lit: string, name: string, rest: Pattern)

  function PatternText(p: Pattern): string {
    match p
    case Last(lit, star) => lit + if star then "*" else ""
    case Param(lit, name, rest) => lit + ("{" + (name + ("}" + PatternText(rest))))
  }

  function PatternMemory(p: Pattern): (m: string)
    ensures m != "" && '\0' in m
  {
    match p
    case Last(lit, star) =>
      var end := if star then "*\0\0" else "\0\0";
      assert end[|end| - 1] == '\0';
      assert (lit + end)[|lit| + |end| - 1] == '\0';
      lit + end
    case Param(lit, name, rest) =>
      var m := lit + Brace(name, PatternMemory(rest));
      assert m[|lit| + 1 + |name|] == '\0';
      m
  }

  function Params(p: Pattern): nat {
    if p.Last? then 0 else 1 + Params(p.rest)
  }

  /** No empty literal between parameters, and no asterisk directly after a parameter. */
  ghost predicate WellFormed(p: Pattern, first: bool)
    decreases p
  {
    && Lacks(p.lit, '{') && Lacks(p.lit, '\0')
    && match p
       case Last(lit, star) => Lacks(lit, '*') && (first || lit != "" || !star)
       case Param(lit, name, rest) => (first || lit != "") && Lacks(name, '}') && Lacks(name, '\0') && WellFormed(rest, false)
  }

  /** The pattern with values for its parameters, and a rest in place of the asterisk. */
  ghost function Fill(p: Pattern, vs: seq<string>, rest: string): string
    requires |vs| == Params(p)
    decreases p
  {
    match p
    case Last(lit, _) => lit + rest
    case Param(lit, _, p') => lit + (vs[0] + Fill(p', vs[1..], rest))
  }

  /** Each value is free of the character that follows its parameter in the pattern. */
  ghost predicate Delimited(p: Pattern, vs: seq<string>)
    requires |vs| == Params(p)
    decreases p
  {
    match p
    case Last(_, _) => true
    case Param(_, _, p') => Lacks(vs[0], PatternMemory(p')[0]) && Delimited(p', vs[1..])
  }

  function HasStar(p: Pattern): bool {
    if p.Last? then p.star else HasStar(p.rest)
  }

  /** What may follow: anything after an asterisk, but not a longer text that starts with one. */
  ghost predicate RestOk(star: bool, rest: string) {
    if star then rest == "" || rest[0] != '*' || rest == "*" else rest == ""
  }

  /** The request text is the pattern instantiated with these values. */
  ghost predicate Instance(p: Pattern, uri: string, vs: seq<string>, rest: string) {
    |vs| == Params(p) && uri == Fill(p, vs, rest) && Delimited(p, vs) && RestOk(HasStar(p), rest)
  }

  ghost function BindingsOf(p: Pattern, vs: seq<string>, off: nat): seq<Binding>
    requires |vs| == Params(p)
    decreases p
  {
    match p
    case Last(_, _) => []
    case Param(lit, name, p') =>
      var start := off + |lit|;
      [Binding(name, start, start + |vs[0]|)] + BindingsOf(p', vs[1..], start + |vs[0]|)
  }

  // ----- one literal

  lemma StillTerminated(a: string, s: string)
    requires '\0' in s
    ensures '\0' in a + s
  {
    var i :| 0 <= i < |s| && s[i] == '\0';
    assert (a + s)[|a| + i] == '\0';
  }

  lemma LacksFirst(a: string)
    requires a != "" && Lacks(a, '\0')
    ensures a[0] != '\0' && Lacks(a[1..], '\0')
  {
  }

  lemma FirstApart(a: string, s: string)
    requires a != ""
    ensures a + s == [a[0]] + (a[1..] + s)
  {
  }

  lemma {:induction false} DiffAfter(a: string, s: string, t: string)
    requires Lacks(a, '\0') && '\0' in s && '\0' in t
    ensures '\0' in a + s && '\0' in a + t
    ensures Diff(a + s, a + t) == match Diff(s, t) case None => None case Some(k) => Some(|a| + k)
  {
    hide Diff, Lacks;
    StillTerminated(a, s);
    StillTerminated(a, t);
    if a == "" {
      assert a + s == s && a + t == t;
    } else {
      var b := a[1..];
      LacksFirst(a);
      StillTerminated(b, s);
      StillTerminated(b, t);
      DiffAfter(b, s, t);
      DiffSkips(a[0], b + s, b + t);
      FirstApart(a, s);
      FirstApart(a, t);
    }
  }

  /** A common first character only shifts the difference. */
  lemma DiffSkips(c: char, s: string, t: string)
    requires c != '\0' && '\0' in s && '\0' in t
    ensures '\0' in [c] + s && '\0' in [c] + t
    ensures Diff([c] + s, [c] + t) == match Diff(s, t) case None => None case Some(k) => Some(1 + k)
  {
    StillTerminated([c], s);
    StillTerminated([c], t);
    assert ([c] + s)[1..] == s && ([c] + t)[1..] == t;
  }

  lemma LaterTerminator(s: string)
    requires '\0' in s && s[0] != '\0'
    ensures '\0' in s[1..]
  {
    var i :| 0 <= i < |s| && s[i] == '\0';
    assert s[1..][i - 1] == '\0';
  }

  /** If a literal is not a prefix of the text, the difference lies inside the literal. */
  lemma {:induction false} DiffInside(a: string, s: string, u: string)
    requires Lacks(a, '\0') && '\0' in a + s && '\0' in u + "\0" && !(a <= u)
    ensures Diff(a + s, u + "\0").Some? && Diff(a + s, u + "\0").value < |a|
  {
    if u != "" && a[0] == u[0] {
      assert a == [a[0]] + a[1..] && u == [u[0]] + u[1..];
      assert (a + s)[1..] == a[1..] + s && (u + "\0")[1..] == u[1..] + "\0";
      LaterTerminator(a + s);
      StillTerminated(u[1..], "\0");
      DiffInside(a[1..], s, u[1..]);
    }
  }

  // ----- whole patterns

  /** The last literal, with or without an asterisk after it. */
  lemma TryLast(p: Pattern, first: bool, u: string, off: nat, acc: seq<Binding>)
    requires p.Last? && WellFormed(p, first) && Lacks(u, '\0')
    ensures Terminated(u + "\0")
    ensures TryFrom(PatternMemory(p), 0, u + "\0", off, acc)
         == if p.lit <= u && RestOk(p.star, u[|p.lit|..]) then Match(acc) else NoMatch
  {
    hide Diff;
    var end := if p.star then "*\0\0" else "\0\0";
    assert end[|end| - 1] == '\0';
    StillTerminated(u, "\0");
    StillTerminated(p.lit, end);
    if p.lit <= u {
      var rest := u[|p.lit|..];
      assert u + "\0" == p.lit + (rest + "\0");
      StillTerminated(rest, "\0");
      DiffAfter(p.lit, end, rest + "\0");
      EndDiff(p.star, rest);
    } else {
      DiffInside(p.lit, end, u);
    }
  }

  lemma EndDiff(star: bool, rest: string)
    requires Lacks(rest, '\0')
    ensures var end := if star then "*\0\0" else "\0\0";
            && '\0' in end && '\0' in rest + "\0"
            && (Diff(end, rest + "\0").None? || end[Diff(end, rest + "\0").value] == '*' <==> RestOk(star, rest))
  {
    var end := if star then "*\0\0" else "\0\0";
    var t := rest + "\0";
    assert end[|end| - 1] == '\0';
    StillTerminated(rest, "\0");
    if star && rest != "" && rest[0] == '*' {
      assert end[1..] == "\0\0" && t[1..] == rest[1..] + "\0";
      if rest != "*" {
        assert t[1] == rest[1] != '\0';
      }
    }
  }

  /** One parameter: the literal before it, and its value up to the next delimiter. */
  lemma TryParam(p: Pattern, first: bool, u: string, off: nat)
    requires p.Param? && WellFormed(p, first) && Lacks(u, '\0') && Lacks(u, '{')
    ensures Terminated(u + "\0")
    ensures !(p.lit <= u) ==> TryOne(PatternMemory(p), u + "\0", off) == Missed
    ensures p.lit <= u ==>
      var e := Chr(u[|p.lit|..] + "\0", PatternMemory(p.rest)[0]);
      var start := off + |p.lit|;
      TryOne(PatternMemory(p), u + "\0", off)
      == if e == |u| - |p.lit| + 1 then Missed
         else Bound(PatternMemory(p.rest), u[|p.lit| + e..] + "\0", Binding(p.name, start, start + e))
  {
    hide PatternMemory, WellFormed, Brace, Chr, TakeParam, TryOne;
    var tail := Brace(p.name, PatternMemory(p.rest));
    MemoryParam(p, first);
    if p.lit <= u {
      var v := u[|p.lit|..];
      var t := v + "\0";
      assert u + "\0" == p.lit + t;
      LiteralFits(p.lit, tail, t, off);
      TakesParam(tail, p.name, PatternMemory(p.rest), t, off + |p.lit|);
      var e := Chr(t, PatternMemory(p.rest)[0]);
      if e < |t| {
        assert t[e..] == u[|p.lit| + e..] + "\0";
      }
    } else {
      LiteralMisses(p.lit, tail, u, off);
    }
  }

  lemma LiteralFits(lit: string, tail: string, t: string, off: nat)
    requires Lacks(lit, '\0') && '\0' in tail && tail[0] == '{' && Terminated(t) && t[0] != '{'
    ensures '\0' in lit + tail && Terminated(lit + t)
    ensures TryOne(lit + tail, lit + t, off) == TakeParam(tail, t, off + |lit|)
  {
    hide Diff, TakeParam;
    DiffAfter(lit, tail, t);
    DiffNow(tail, t);
    assert (lit + tail)[|lit|..] == tail && (lit + t)[|lit|..] == t;
  }

  lemma LiteralMisses(lit: string, tail: string, u: string, off: nat)
    requires Lacks(lit, '\0') && Lacks(lit, '{') && '\0' in tail && !(lit <= u)
    ensures '\0' in lit + tail && Terminated(u + "\0")
    ensures TryOne(lit + tail, u + "\0", off) == Missed
  {
    hide Diff, TakeParam;
    StillTerminated(lit, tail);
    StillTerminated(u, "\0");
    DiffInside(lit, tail, u);
  }

  lemma TakesParam(param: string, name: string, mem1: string, t: string, start: nat)
    requires |param| == |name| + 2 + |mem1| && param[0] == '{' && param[1..1 + |name|] == name
    requires param[1 + |name|] == '\0' && param[2 + |name|..] == mem1
    requires Lacks(name, '\0') && '\0' in mem1 && Terminated(t)
    ensures TakeParam(param, t, start)
         == if Chr(t, mem1[0]) == |t| then Missed
            else Bound(mem1, t[Chr(t, mem1[0])..], Binding(name, start, start + Chr(t, mem1[0])))
  {
    hide Chr;
    assert forall i :: 0 <= i < |name| ==> param[1 + i] == name[i];
    ChrIs(param, '\0', 1 + |name|);
  }

  lemma DiffNow(s: string, t: string)
    requires '\0' in s && '\0' in t && s[0] != t[0]
    ensures Diff(s, t) == Some(0)
  {
  }

  /** The memory of a parameter: the opening brace, the name, a terminator, and the rest. */
  function Brace(name: string, rest: string): (m: string)
    ensures |m| == |name| + 2 + |rest| && m[0] == '{' && m[1..1 + |name|] == name
    ensures m[1 + |name|] == '\0' && m[2 + |name|..] == rest && '\0' in m
  {
    "{" + (name + ("\0" + rest))
  }

  lemma MemoryParam(p: Pattern, first: bool)
    requires p.Param? && WellFormed(p, first)
    ensures PatternMemory(p) == p.lit + Brace(p.name, PatternMemory(p.rest))
    ensures Lacks(p.lit, '{') && Lacks(p.lit, '\0') && Lacks(p.name, '\0') && WellFormed(p.rest, false)
  {
  }

  /** A value is followed by the delimiter that the next part of the pattern starts with. */
  lemma DelimiterFollows(p: Pattern, vs: seq<string>, rest: string)
    requires WellFormed(p, false) && |vs| == Params(p) && RestOk(HasStar(p), rest)
    ensures (Fill(p, vs, rest) + "\0")[0] == PatternMemory(p)[0]
  {
  }

  lemma InstanceSplits(lit: string, v: string, rest: string, u: string, c: char)
    requires u == lit + (v + rest) && Lacks(v, c) && (rest + "\0")[0] == c
    ensures |lit| + |v| <= |u| && lit <= u && u[|lit|..] == v + rest && u[|lit| + |v|..] == rest
    ensures Chr(u[|lit|..] + "\0", c) == |v|
  {
    hide Chr;
    var t := u[|lit|..] + "\0";
    assert t == v + (rest + "\0");
    ChrIs(t, c, |v|);
  }

  /** Every instance of the pattern is matched, with exactly its values. */
  lemma {:induction false} Complete(p: Pattern, first: bool, u: string, vs: seq<string>, rest: string, off: nat, acc: seq<Binding>)
    requires WellFormed(p, first) && Instance(p, u, vs, rest) && Lacks(u, '\0') && Lacks(u, '{')
    ensures Terminated(u + "\0")
    ensures TryFrom(PatternMemory(p), Params(p), u + "\0", off, acc) == Match(acc + BindingsOf(p, vs, off))
    decreases p
  {
    hide PatternMemory, TryOne, Chr, Lacks;
    if p.Last? {
      TryLast(p, first, u, off, acc);
      assert u[|p.lit|..] == rest;
      assert acc + [] == acc;
    } else {
      TryParam(p, first, u, off);
      var u' := Fill(p.rest, vs[1..], rest);
      DelimiterFollows(p.rest, vs[1..], rest);
      InstanceSplits(p.lit, vs[0], u', u, PatternMemory(p.rest)[0]);
      var start := off + |p.lit|;
      var b := Binding(p.name, start, start + |vs[0]|);
      LacksSuffix(u, |p.lit| + |vs[0]|);
      Complete(p.rest, false, u', vs[1..], rest, b.end, acc + [b]);
      assert acc + [b] + BindingsOf(p.rest, vs[1..], b.end) == acc + BindingsOf(p, vs, off);
    }
  }

  lemma LacksSuffix(u: string, k: nat)
    requires k <= |u| && Lacks(u, '\0') && Lacks(u, '{')
    ensures Lacks(u[k..], '\0') && Lacks(u[k..], '{')
  {
  }

  lemma LastInstance(p: Pattern, u: string, off: nat, acc: seq<Binding>)
    requires p.Last? && p.lit <= u
    ensures RestOk(p.star, u[|p.lit|..]) ==> Instance(p, u, [], u[|p.lit|..])
    ensures acc + BindingsOf(p, [], off) == acc
  {
  }

  lemma InstanceWithParam(p: Pattern, u: string, e: nat, vs: seq<string>, rest: string, off: nat)
    requires p.Param? && p.lit <= u && e <= |u| - |p.lit| && |vs| == Params(p.rest)
    requires Instance(p.rest, u[|p.lit| + e..], vs, rest)
    requires Lacks(u[|p.lit|..][..e], PatternMemory(p.rest)[0])
    ensures var w := u[|p.lit|..][..e];
            && Instance(p, u, [w] + vs, rest)
            && BindingsOf(p, [w] + vs, off)
               == [Binding(p.name, off + |p.lit|, off + |p.lit| + e)] + BindingsOf(p.rest, vs, off + |p.lit| + e)
  {
    hide PatternMemory;
    var w := u[|p.lit|..][..e];
    assert ([w] + vs)[1..] == vs;
    assert u == p.lit + (w + u[|p.lit| + e..]);
  }

  /** Whatever is matched is an instance, and no match attempt goes out of bounds. */
  lemma {:induction false} Sound(p: Pattern, first: bool, u: string, off: nat, acc: seq<Binding>)
      returns (vs: seq<string>, rest: string)
    requires WellFormed(p, first) && Lacks(u, '\0') && Lacks(u, '{')
    ensures Terminated(u + "\0")
    ensures var o := TryFrom(PatternMemory(p), Params(p), u + "\0", off, acc);
            && o != Fault
            && (o.Match? ==> Instance(p, u, vs, rest) && |vs| == Params(p) && o.bindings == acc + BindingsOf(p, vs, off))
    decreases p
  {
    hide PatternMemory, TryOne, Chr, Instance, BindingsOf;
    vs, rest := [], "";
    if p.Last? {
      TryLast(p, first, u, off, acc);
      if p.lit <= u {
        rest := u[|p.lit|..];
        LastInstance(p, u, off, acc);
      }
    } else {
      TryParam(p, first, u, off);
      if p.lit <= u {
        var v := u[|p.lit|..];
        var e := Chr(v + "\0", PatternMemory(p.rest)[0]);
        if e <= |v| {
          var start := off + |p.lit|;
          var b := Binding(p.name, start, start + e);
          LacksSuffix(u, |p.lit| + e);
          var vs', rest' := Sound(p.rest, false, u[|p.lit| + e..], b.end, acc + [b]);
          vs, rest := [v[..e]] + vs', rest';
          if Instance(p.rest, u[|p.lit| + e..], vs', rest') {
            InstanceParams(p.rest, u[|p.lit| + e..], vs', rest');
            assert forall i :: 0 <= i < e ==> (v + "\0")[i] == v[..e][i];
            InstanceWithParam(p, u, e, vs', rest', off);
            assert acc + [b] + BindingsOf(p.rest, vs', b.end) == acc + ([b] + BindingsOf(p.rest, vs', b.end));
          }
        }
      }
    }
  }

  /**
   For a documented pattern and a request text without braces, the match attempt never goes out of
   bounds, and it succeeds with given bindings exactly when the text is the pattern instantiated with
   values free of their following delimiter, at exactly those places.
   */
  lemma MatchIff(p: Pattern, uri: string, bs: seq<Binding>)
    requires WellFormed(p, true) && Lacks(uri, '\0') && Lacks(uri, '{')
    ensures Terminated(uri + "\0")
    ensures TryFrom(PatternMemory(p), Params(p), uri + "\0", 0, []) != Fault
    ensures TryFrom(PatternMemory(p), Params(p), uri + "\0", 0, []) == Match(bs)
       <==> exists vs, rest :: Instance(p, uri, vs, rest) && bs == BindingsOf(p, vs, 0)
  {
    hide PatternMemory, TryFrom, Instance, WellFormed;
    var vs, rest := Sound(p, true, uri, 0, []);
    assert TryFrom(PatternMemory(p), Params(p), uri + "\0", 0, []).Match? ==>
        TryFrom(PatternMemory(p), Params(p), uri + "\0", 0, []) == Match(BindingsOf(p, vs, 0)) by {
      if Instance(p, uri, vs, rest) {
        InstanceParams(p, uri, vs, rest);
        assert [] + BindingsOf(p, vs, 0) == BindingsOf(p, vs, 0);
      }
    }
    forall vs, rest | Instance(p, uri, vs, rest)
      ensures |vs| == Params(p) && TryFrom(PatternMemory(p), Params(p), uri + "\0", 0, []) == Match(BindingsOf(p, vs, 0))
    {
      InstanceParams(p, uri, vs, rest);
      Complete(p, true, uri, vs, rest, 0, []);
      assert [] + BindingsOf(p, vs, 0) == BindingsOf(p, vs, 0);
    }
  }

  lemma InstanceParams(p: Pattern, uri: string, vs: seq<string>, rest: string)
    requires Instance(p, uri, vs, rest)
    ensures |vs| == Params(p)
  {
  }

  // ----- the prepared memory of a documented pattern

  /** The prepared text, without the two terminators at the end. */
  ghost function PreparedText(p: Pattern): string {
    match p
    case Last(lit, star) => lit + if star then "*" else ""
    case Param(lit, name, rest) => lit + Brace(name, PreparedText(rest))
  }

  lemma {:induction false} PreparedMemory(p: Pattern)
    ensures PreparedText(p) + "\0\0" == PatternMemory(p)
  {
    if p.Param? {
      PreparedMemory(p.rest);
      BraceConcat(p.name, PreparedText(p.rest), "\0\0");
      assert PreparedText(p) + "\0\0" == p.lit + (Brace(p.name, PreparedText(p.rest)) + "\0\0");
    } else {
      var star := if p.star then "*" else "";
      assert p.lit + star + "\0\0" == p.lit + (star + "\0\0");
      assert star + "\0\0" == if p.star then "*\0\0" else "\0\0";
    }
  }

  lemma BraceConcat(name: string, a: string, b: string)
    ensures Brace(name, a) + b == Brace(name, a + b)
  {
  }

  /** Create turns the text of a documented pattern into its memory and counts its parameters. */
  lemma {:induction false} Prepares(pre: string, p: Pattern, first: bool)
    requires WellFormed(p, first)
    ensures Prepared(pre + PatternText(p), |pre|) == Some(Memory(pre + PreparedText(p), Params(p)))
    decreases p
  {
    hide Chr, Prepared, Brace;
    if p.Last? {
      var body := p.lit + if p.star then "*" else "";
      PreparedUnfolds(pre + body, |pre|);
      assert (pre + body)[|pre|..] == body;
      ChrIs(body, '{', |body|);
    } else {
      var pre' := pre + p.lit + "{" + p.name + "\0";
      PreparesOne(pre + p.lit, |pre|, p.name, PatternText(p.rest));
      assert pre + PatternText(p) == pre + p.lit + ("{" + (p.name + ("}" + PatternText(p.rest))));
      Prepares(pre', p.rest, false);
      Opened(pre, p.lit, p.name, PreparedText(p.rest));
    }
  }

  lemma FindsOpen(pre: string, i: nat, rest: string)
    requires i <= |pre| && Lacks(pre[i..], '{') && rest != "" && rest[0] == '{'
    ensures Chr((pre + rest)[i..], '{') == |pre| - i
  {
    hide Chr;
    assert (pre + rest)[i..] == pre[i..] + rest;
    ChrIs(pre[i..] + rest, '{', |pre| - i);
  }

  lemma PreparedTurn(p: string, i: nat, open: nat, close: nat)
    requires i <= open < close < |p| && Chr(p[i..], '{') == open - i && Chr(p[open..], '}') == close - open
    ensures Prepared(p, i) == Counted(Prepared(p[close := '\0'], close + 1), 1)
  {
    hide Chr, Counted;
  }

  lemma FindsClose(pre: string, name: string, more: string)
    requires Lacks(name, '}')
    ensures Chr((pre + ("{" + (name + ("}" + more))))[|pre|..], '}') == 1 + |name|
  {
    hide Chr;
    var s := "{" + (name + ("}" + more));
    assert (pre + s)[|pre|..] == s;
    assert forall k :: 0 <= k < 1 + |name| ==> s[k] == if k == 0 then '{' else name[k - 1];
    ChrIs(s, '}', 1 + |name|);
  }

  lemma ClosedBy(pre: string, name: string, more: string)
    ensures var text := pre + ("{" + (name + ("}" + more)));
            text[|pre| + 1 + |name| := '\0'] == pre + "{" + name + "\0" + more
  {
    var open := pre + "{" + name;
    var text := pre + ("{" + (name + ("}" + more)));
    assert text == open + "}" + more;
    assert |open| == |pre| + 1 + |name|;
    assert (open + "}" + more)[|open| := '\0'] == open + "\0" + more;
  }

  /** One turn of the loop in Create. */
  lemma PreparesOne(pre: string, i: nat, name: string, more: string)
    requires i <= |pre| && Lacks(pre[i..], '{') && Lacks(name, '}')
    ensures Prepared(pre + ("{" + (name + ("}" + more))), i)
         == Counted(Prepared(pre + "{" + name + "\0" + more, |pre| + 2 + |name|), 1)
  {
    hide Chr, Prepared, Lacks;
    var braced := "{" + (name + ("}" + more));
    FindsOpen(pre, i, braced);
    FindsClose(pre, name, more);
    ClosedBy(pre, name, more);
    PreparedTurn(pre + braced, i, |pre|, |pre| + 1 + |name|);
  }

  lemma Opened(pre: string, lit: string, name: string, rest: string)
    ensures pre + lit + "{" + name + "\0" + rest == pre + (lit + Brace(name, rest))
  {
  }

  // ----- storing the values

  /** The copy of the request text from the first value on, with a terminator written at each value's end. */
  function Cut(buf: string, origin: nat, bs: seq<Binding>): (r: string)
    requires forall i :: 0 <= i < |bs| ==> origin <= bs[i].end < origin + |buf|
    ensures |r| == |buf|
    decreases |bs|
  {
    if bs == [] then buf else Cut(buf[bs[0].end - origin := '\0'], origin, bs[1..])
  }

  /** Values lie one behind the other, at least one character apart, within the text. */
  ghost predicate Apart(bs: seq<Binding>, origin: nat, limit: nat) {
    && (forall i :: 0 <= i < |bs| ==> origin <= bs[i].start <= bs[i].end <= limit)
    && (forall i, j :: 0 <= i < j < |bs| ==> bs[i].end < bs[j].start)
  }

  ghost predicate EndsWithin(bs: seq<Binding>, origin: nat, n: nat) {
    forall i :: 0 <= i < |bs| ==> origin <= bs[i].end < origin + n
  }

  lemma {:induction false} CutElsewhere(buf: string, origin: nat, bs: seq<Binding>, k: nat)
    requires EndsWithin(bs, origin, |buf|) && k < |buf|
    requires buf[k] == '\0' || forall i :: 0 <= i < |bs| ==> bs[i].end != origin + k
    ensures Cut(buf, origin, bs)[k] == buf[k]
    decreases |bs|
  {
    if bs != [] {
      CutElsewhere(buf[bs[0].end - origin := '\0'], origin, bs[1..], k);
    }
  }

  lemma {:induction false} CutEnds(buf: string, origin: nat, bs: seq<Binding>, i: nat)
    requires EndsWithin(bs, origin, |buf|) && i < |bs|
    ensures Cut(buf, origin, bs)[bs[i].end - origin] == '\0'
    decreases |bs|
  {
    var buf' := buf[bs[0].end - origin := '\0'];
    if i == 0 {
      CutElsewhere(buf', origin, bs[1..], bs[0].end - origin);
    } else {
      CutEnds(buf', origin, bs[1..], i - 1);
    }
  }

  lemma CutKeeps(buf: string, origin: nat, bs: seq<Binding>, i: nat, k: nat)
    requires i < |bs| && buf != "" && Apart(bs, origin, origin + |buf| - 1) && EndsWithin(bs, origin, |buf|)
    requires bs[i].start - origin <= k < bs[i].end - origin
    ensures Cut(buf, origin, bs)[k] == buf[k]
  {
    hide Cut;
    forall j | 0 <= j < |bs|
      ensures bs[j].end != origin + k
    {
      if j < i {
        assert bs[j].end < bs[i].start;
      } else if i < j {
        assert bs[i].end < bs[j].start;
      }
    }
    CutElsewhere(buf, origin, bs, k);
  }

  lemma StopsAt(s: string, from: nat, value: string)
    requires Lacks(value, '\0') && from + |value| < |s| && s[from + |value|] == '\0'
    requires s[from..from + |value|] == value
    ensures CStr(s[from..]) == value
  {
    hide Chr;
    var t := s[from..];
    assert forall k :: 0 <= k < |value| ==> t[k] == s[from..from + |value|][k];
    ChrIs(t, '\0', |value|);
    assert t[..|value|] == value;
  }

  /** The stored value of a parameter is exactly the matched part of the request text. */
  lemma ValueStored(uri: string, bs: seq<Binding>, i: nat)
    requires i < |bs| && Lacks(uri, '\0') && Apart(bs, bs[0].start, |uri|)
    ensures var origin := bs[0].start;
            CStr(Cut(uri[origin..] + "\0", origin, bs)[bs[i].start - origin..]) == uri[bs[i].start..bs[i].end]
  {
    hide Cut, CStr, Lacks, Apart, EndsWithin;
    var origin := bs[0].start;
    ApartWithin(bs, origin, |uri|, i);
    var buf := uri[origin..] + "\0";
    CutSlice(buf, origin, bs, i);
    var value := uri[bs[i].start..bs[i].end];
    SliceOf(uri, origin, bs[i].start, bs[i].end);
    StillLacks(uri, bs[i].start, bs[i].end);
    StopsAt(Cut(buf, origin, bs), bs[i].start - origin, value);
  }

  lemma ApartWithin(bs: seq<Binding>, origin: nat, limit: nat, i: nat)
    requires Apart(bs, origin, limit) && i < |bs|
    ensures origin <= bs[i].start <= bs[i].end <= limit && EndsWithin(bs, origin, limit - origin + 1)
  {
  }

  lemma CutSlice(buf: string, origin: nat, bs: seq<Binding>, i: nat)
    requires i < |bs| && buf != "" && Apart(bs, origin, origin + |buf| - 1) && EndsWithin(bs, origin, |buf|)
    ensures var from, to := bs[i].start - origin, bs[i].end - origin;
            var cut := Cut(buf, origin, bs);
            0 <= from <= to < |buf| && cut[from..to] == buf[from..to] && cut[to] == '\0'
  {
    hide Cut, Apart, EndsWithin;
    ApartWithin(bs, origin, origin + |buf| - 1, i);
    CutEnds(buf, origin, bs, i);
    var from, to := bs[i].start - origin, bs[i].end - origin;
    var cut := Cut(buf, origin, bs);
    forall k | from <= k < to
      ensures cut[k] == buf[k]
    {
      CutKeeps(buf, origin, bs, i, k);
    }
  }

  lemma SliceOf(uri: string, origin: nat, i: nat, j: nat)
    requires origin <= i <= j <= |uri|
    ensures (uri[origin..] + "\0")[i - origin..j - origin] == uri[i..j]
  {
  }

  lemma StillLacks(uri: string, i: nat, j: nat)
    requires Lacks(uri, '\0') && i <= j <= |uri|
    ensures Lacks(uri[i..j], '\0')
  {
  }

  /** The table after a match: each parameter's value under its name, in pattern order. */
  function StoreAll(params: Table, cut: string, origin: nat, bs: seq<Binding>): Table
    requires forall i :: 0 <= i < |bs| ==> origin <= bs[i].start <= origin + |cut|
    decreases |bs|
  {
    if bs == [] then params
    else StoreAll(Put(STR, params, bs[0].name, CStr(cut[bs[0].start - origin..])), cut, origin, bs[1..])
  }

  lemma {:induction false} BindingsApart(p: Pattern, first: bool, vs: seq<string>, rest: string, off: nat)
    requires WellFormed(p, first) && |vs| == Params(p)
    ensures Apart(BindingsOf(p, vs, off), off, off + |Fill(p, vs, rest)|)
    ensures BindingsOf(p, vs, off) != [] && !first ==> BindingsOf(p, vs, off)[0].start > off
    decreases p
  {
    if p.Param? {
      var end := off + |p.lit| + |vs[0]|;
      BindingsApart(p.rest, false, vs[1..], rest, end);
      ApartFirst(Binding(p.name, off + |p.lit|, end), BindingsOf(p.rest, vs[1..], end), off, off + |Fill(p, vs, rest)|);
    }
  }

  lemma ApartFirst(b: Binding, bs: seq<Binding>, off: nat, limit: nat)
    requires off <= b.start <= b.end <= limit && Apart(bs, b.end, limit) && (bs != [] ==> bs[0].start > b.end)
    ensures Apart([b] + bs, off, limit)
  {
    assert forall j :: 0 < j < |bs| ==> bs[0].end < bs[j].start;
    assert forall j :: 0 <= j < |bs| ==> b.end < bs[j].start;
  }

  /** The parameters of a pattern stored with given values. */
  function Bind(p: Pattern, vs: seq<string>, params: Table): Table
    requires |vs| == Params(p)
    decreases p
  {
    if p.Last? then params else Bind(p.rest, vs[1..], Put(STR, params, p.name, vs[0]))
  }

  /** Storing from the cut copy is storing the matched parts of the text. */
  lemma ValuePlace(uri: string, off: nat, lit: string, v: string, rest: string)
    requires off <= |uri| && uri[off..] == lit + (v + rest)
    ensures var start := off + |lit|;
            start + |v| <= |uri| && uri[start..start + |v|] == v && uri[start + |v|..] == rest
  {
    var start := off + |lit|;
    assert uri[start..] == uri[off..][|lit|..] == v + rest;
    assert uri[start..start + |v|] == uri[start..][..|v|];
    assert uri[start + |v|..] == uri[start..][|v|..];
  }

  lemma {:induction false} StoresValues(uri: string, bs: seq<Binding>, i: nat, p: Pattern, vs: seq<string>, rest: string, off: nat, params: Table)
    requires bs != [] && Lacks(uri, '\0') && Apart(bs, bs[0].start, |uri|)
    requires i <= |bs| && |vs| == Params(p) && bs[i..] == BindingsOf(p, vs, off)
    requires off <= |uri| && uri[off..] == Fill(p, vs, rest)
    ensures StoreAll(params, Cut(uri[bs[0].start..] + "\0", bs[0].start, bs), bs[0].start, bs[i..]) == Bind(p, vs, params)
    decreases p
  {
    hide Cut, Put, CStr, Lacks;
    ApartWithin(bs, bs[0].start, |uri|, 0);
    var origin := bs[0].start;
    var cut := Cut(uri[origin..] + "\0", origin, bs);
    if p.Param? {
      var u' := Fill(p.rest, vs[1..], rest);
      var start := off + |p.lit|;
      assert bs[i] == bs[i..][0] == Binding(p.name, start, start + |vs[0]|);
      ValuePlace(uri, off, p.lit, vs[0], u');
      ApartWithin(bs, origin, |uri|, i);
      ValueStored(uri, bs, i);
      assert bs[i..][1..] == bs[i + 1..];
      StoresValues(uri, bs, i + 1, p.rest, vs[1..], rest, start + |vs[0]|, Put(STR, params, p.name, vs[0]));
    }
  }

  /** Values found so far lie one behind the other and end by position limit. */
  ghost predicate InOrder(bs: seq<Binding>, limit: nat) {
    && (forall i :: 0 <= i < |bs| ==> bs[i].start <= bs[i].end <= limit)
    && (forall i, j :: 0 <= i < j < |bs| ==> bs[i].end <= bs[j].start)
  }

  /** The first loop of uo_http_req_handler_try and the check of the end of the request text. */
  method MatchParams(pattern: string, count: nat, uri: string) returns (o: Outcome)
    requires '\0' in pattern && Lacks(uri, '\0')
    ensures Terminated(uri + "\0") && o == TryFrom(pattern, count, uri + "\0", 0, [])
    ensures o.Match? ==> InOrder(o.bindings, |uri|)
  {
    hide TryOne, Diff;
    var mem, n, t, off, bs := pattern, count, uri + "\0", 0, [];
    while n > 0
      invariant '\0' in mem && Terminated(t) && n >= 0 && off >= 0 && off + |t| == |uri| + 1 && InOrder(bs, off)
      invariant TryFrom(pattern, count, uri + "\0", 0, []) == TryFrom(mem, n, t, off, bs)
    {
      match TryOne(mem, t, off) {
        case Missed => return NoMatch;
        case Broken => return Fault;
        case Bound(mem1, t1, b) => mem, n, t, off, bs := mem1, n - 1, t1, b.end, bs + [b];
      }
    }
    var d := Diff(mem, t);
    o := if d.None? || mem[d.value] == '*' then Match(bs) else NoMatch;
  }

  /** The second loop: a copy of the text is cut at each value's end, and the table points into the copy. */
  method StoreParams(uri: string, bs: seq<Binding>, params: Table) returns (params': Table)
    requires bs != [] && InOrder(bs, |uri|)
    ensures params' == StoreAll(params, Cut(uri[bs[0].start..] + "\0", bs[0].start, bs), bs[0].start, bs)
  {
    hide Put, CStr;
    var origin := bs[0].start;
    var buf := uri[origin..] + "\0";
    ghost var whole := buf;
    var i := 0;
    while i < |bs|
      invariant 0 <= i <= |bs| && |buf| == |whole|
      invariant Cut(whole, origin, bs) == Cut(buf, origin, bs[i..])
    {
      assert bs[i..][1..] == bs[i + 1..];
      buf := buf[bs[i].end - origin := '\0'];
      i := i + 1;
    }
    params', i := params, 0;
    while i < |bs|
      invariant 0 <= i <= |bs|
      invariant StoreAll(params, buf, origin, bs) == StoreAll(params', buf, origin, bs[i..])
    {
      assert bs[i..][1..] == bs[i + 1..];
      params' := Put(STR, params', bs[i].name, CStr(buf[bs[i].start - origin..]));
      i := i + 1;
    }
  }

  /** uo_http_req_handler_create on a documented pattern. */
  method CreateDocumented(p: Pattern) returns (m: Memory)
    requires WellFormed(p, true)
    ensures m == Memory(PatternMemory(p), Params(p))
  {
    hide PatternMemory, WellFormed, Prepared, PatternText, PreparedText, Params;
    var r := Create(PatternText(p));
    Prepares("", p, true);
    PreparedMemory(p);
    assert "" + PatternText(p) == PatternText(p) && "" + PreparedText(p) == PreparedText(p);
    return r.value;
  }

  /**
   uo_http_req_handler_create and uo_http_req_handler_try on a documented pattern: the handler matches
   exactly the instances of the pattern, and stores exactly the values of the instance.
   */
  method CreateAndTry(p: Pattern, uri: string, params: Table) returns (matched: bool, params': Table)
    requires WellFormed(p, true) && Lacks(uri, '\0') && Lacks(uri, '{')
    ensures matched <==> exists vs, rest :: Instance(p, uri, vs, rest)
    ensures forall vs, rest :: Instance(p, uri, vs, rest) ==> params' == Bind(p, vs, params)
    ensures !matched ==> params' == params
  {
    var m := CreateDocumented(p);
    matched, params' := Try(m, p, uri, params);
  }

  method Try(m: Memory, ghost p: Pattern, uri: string, params: Table) returns (matched: bool, params': Table)
    requires WellFormed(p, true) && Lacks(uri, '\0') && Lacks(uri, '{')
    requires m == Memory(PatternMemory(p), Params(p))
    ensures matched <==> exists vs, rest :: Instance(p, uri, vs, rest)
    ensures forall vs, rest :: Instance(p, uri, vs, rest) ==> params' == Bind(p, vs, params)
    ensures !matched ==> params' == params
  {
    hide Instance, TryFrom, PatternMemory, WellFormed, StoreAll, Cut;
    var o := MatchParams(m.text, m.params, uri);
    MatchIff(p, uri, if o.Match? then o.bindings else []);
    forall vs, rest | Instance(p, uri, vs, rest)
      ensures |vs| == Params(p) && o == Match(BindingsOf(p, vs, 0))
    {
      InstanceParams(p, uri, vs, rest);
      MatchIff(p, uri, BindingsOf(p, vs, 0));
    }
    matched, params' := o.Match?, params;
    if o.Match? && o.bindings != [] {
      params' := StoreParams(uri, o.bindings, params);
    }
    forall vs, rest | Instance(p, uri, vs, rest)
      ensures params' == Bind(p, vs, params)
    {
      InstanceStored(p, uri, vs, rest, params);
    }
  }

  lemma InstanceStored(p: Pattern, uri: string, vs: seq<string>, rest: string, params: Table)
    requires WellFormed(p, true) && Lacks(uri, '\0') && Instance(p, uri, vs, rest)
    ensures var bs := BindingsOf(p, vs, 0);
            if bs == [] then Bind(p, vs, params) == params
            else
              && Apart(bs, bs[0].start, |uri|)
              && StoreAll(params, Cut(uri[bs[0].start..] + "\0", bs[0].start, bs), bs[0].start, bs) == Bind(p, vs, params)
  {
    hide StoreAll, Cut;
    var bs := BindingsOf(p, vs, 0);
    if bs != [] {
      BindingsApart(p, true, vs, rest, 0);
      ApartFromFirst(bs, |uri|);
      assert uri[0..] == uri && bs[0..] == bs;
      StoresValues(uri, bs, 0, p, vs, rest, 0, params);
    }
  }

  lemma ApartFromFirst(bs: seq<Binding>, limit: nat)
    requires bs != [] && Apart(bs, 0, limit)
    ensures Apart(bs, bs[0].start, limit)
  {
  }
}
