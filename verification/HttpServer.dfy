/**
 uo_http_server: what happens to a received request. The after_recv driver decides whether the flow
 may send, and the registered handlers run from the connection's callback, one after the other.
 */
module HttpServer {
  import P = HttpParser
  import W = HttpWire
  import C = TcpConn
  import R = ReqPattern
  import opened CText

  // ----- when the response is sent

  /** The requests that reach the connection after a receive: the driver's, and then the flow's default. */
  function RequestsAfter(result: P.Request): seq<C.Pending> {
    (if result == P.NextRecv then [C.NextRecv] else []) + [C.NextSend]
  }

  /** The response is sent next exactly when the driver has the complete request. */
  lemma SendsWhenComplete(result: P.Request)
    ensures C.AskAll(C.Nothing, RequestsAfter(result)) == if result == P.Complete then C.NextSend else C.NextRecv
  {
    C.FirstRequestWins(RequestsAfter(result));
  }

  /**
   For a well-formed request that is not misread, whatever prefix of its bytes has arrived, the next
   operation is a receive until the last byte is there, and then a send of the answer if the receiver can
   tell, from the headers as it reads them, that it was the last.
   */
  lemma NoEarlySend(r: W.WireRequest, n: nat, buf: string)
    requires W.WellFormed(r) && W.LengthOk(r) && !W.Misread(r.body)
    requires n < |buf| && buf <= W.Bytes(r)
    ensures P.Resumable(W.Expected(r, n), buf) && P.AfterRecv(W.Expected(r, n), buf).Returns?
    ensures C.AskAll(C.Nothing, RequestsAfter(P.AfterRecv(W.Expected(r, n), buf).result))
         == if |buf| == |W.Bytes(r)| && W.ReadAnnounced(r) then C.NextSend else C.NextRecv
  {
    hide W.WellFormed, W.Misread, W.ReadTable, W.ContentLength, P.AfterRecv, P.ParseBody, W.Expected, W.Head, W.AfterHead, Strtoull;
    if !W.ReadAnnounced(r) {
      W.LineInHead(r);
      W.HeadRead(r, n, buf);
      if |buf| >= |W.Head(r)| {
        W.BodyInvalid(r, W.AfterHead(r), buf);
      }
    } else if n < |W.Head(r)| {
      W.HeadStep(r, n, buf);
    } else {
      W.BodyStep(r, n, buf);
    }
    SendsWhenComplete(P.AfterRecv(W.Expected(r, n), buf).result);
  }

  // ----- request handlers

  /** A registered handler: its pattern, the memory that create made of it, and how many functions it has. */
  datatype Handler = Handler(pattern: R.Pattern, memory: R.Memory, funcs: nat)

  ghost predicate Registered(hs: seq<Handler>) {
    forall i :: 0 <= i < |hs| ==>
      R.WellFormed(hs[i].pattern, true) && hs[i].memory == R.Memory(R.PatternMemory(hs[i].pattern), R.Params(hs[i].pattern))
  }

  /** uo_http_server_add_req_handler. */
  method Register(hs: seq<Handler>, pattern: R.Pattern, funcs: nat) returns (hs': seq<Handler>)
    requires Registered(hs) && R.WellFormed(pattern, true)
    ensures Registered(hs') && |hs'| == |hs| + 1 && hs <= hs'
    ensures hs'[|hs|].pattern == pattern && hs'[|hs|].funcs == funcs
  {
    var memory := R.CreateDocumented(pattern);
    hs' := hs + [Handler(pattern, memory, funcs)];
  }

  /** The request's method and URI are an instance of the handler's pattern. */
  ghost predicate Matches(h: Handler, text: string) {
    exists vs, rest :: R.Instance(h.pattern, text, vs, rest)
  }

  /** The request data after a match: the parameters of the pattern bound to the values of the instance. */
  ghost function Bound(h: Handler, text: string, data: R.Table): R.Table
    requires Matches(h, text)
  {
    var vs, rest :| R.Instance(h.pattern, text, vs, rest);
    R.InstanceParams(h.pattern, text, vs, rest);
    R.Bind(h.pattern, vs, data)
  }

  ghost predicate AllMatch(hs: seq<Handler>, text: string, ran: seq<nat>) {
    forall i :: 0 <= i < |ran| ==> ran[i] < |hs| && Matches(hs[ran[i]], text)
  }

  /** The request data after the handlers found. */
  ghost function Stored(hs: seq<Handler>, text: string, ran: seq<nat>): R.Table
    requires AllMatch(hs, text, ran)
  {
    if ran == [] then [] else Bound(hs[ran[|ran| - 1]], text, Stored(hs, text, ran[..|ran| - 1]))
  }

  /**
   A function in the callback: the search, function number index of a handler (or of after_recv_msg, -1), or
   the one with this index of those that call number parent put in front.
   */
  datatype Func = Process | User(handler: int, index: nat) | Added(handler: int, parent: nat, index: nat)

  /** What a user function does: it may set the status line, and put functions of its own in front. */
  datatype Act = Act(sets: bool, adds: nat)

  /** What call number k does. A run in which handling ends has finitely many calls, so a sequence says it all. */
  function ActOf(acts: seq<Act>, k: nat): Act {
    if k < |acts| then acts[k] else Act(false, 0)
  }

  /** An invoked user function, and whether it set the status line. */
  datatype Call = Call(func: Func, sets: bool)

  /**
   The part of the callback that handles a request. prev is the handler found last, or -1 for the list
   head; data is the request data; ran lists the handlers found so far, and calls the user functions
   invoked so far.
   */
  datatype State = State(prev: int, status: bool, funcs: seq<Func>, data: R.Table, ran: seq<nat>, calls: seq<Call>)

  /** The loop over the handler list: the first matching handler from position i on, or the length. */
  ghost function NextMatch(hs: seq<Handler>, text: string, i: nat): (j: nat)
    requires i <= |hs|
    ensures i <= j <= |hs| && (j < |hs| ==> Matches(hs[j], text)) && forall k :: i <= k < j ==> !Matches(hs[k], text)
    decreases |hs| - i
  {
    if i == |hs| || Matches(hs[i], text) then i else NextMatch(hs, text, i + 1)
  }

  /** Invoke the first function. */
  ghost function Step(hs: seq<Handler>, text: string, acts: seq<Act>, s: State): State
    requires s.funcs != [] && -1 <= s.prev < |hs|
  {
    var rest, act := s.funcs[1..], ActOf(acts, |s.calls|);
    if s.funcs[0] != Process then
      s.(funcs := Adds(s.funcs[0].handler, |s.calls|, act.adds) + rest, status := s.status || act.sets,
         calls := s.calls + [Call(s.funcs[0], act.sets)])
    else if s.status then s.(funcs := rest)
    else
      var j := NextMatch(hs, text, s.prev + 1);
      if j == |hs| then s.(funcs := rest)
      else s.(prev := j, funcs := Users(hs[j].funcs, j) + [Process] + rest, data := Bound(hs[j], text, s.data), ran := s.ran + [j])
  }

  /** The functions that call number k puts in front. */
  function Adds(handler: int, k: nat, n: nat): (fs: seq<Func>) {
    seq(n, i requires 0 <= i => Added(handler, k, i))
  }

  /** The matching handlers among the first n, in registration order. */
  ghost function Matching(hs: seq<Handler>, text: string, n: nat): seq<nat>
    requires n <= |hs|
  {
    if n == 0 then [] else Matching(hs, text, n - 1) + if Matches(hs[n - 1], text) then [n - 1] else []
  }

  lemma {:induction false} MatchingSkips(hs: seq<Handler>, text: string, i: nat, j: nat)
    requires i <= j <= |hs| && forall k :: i <= k < j ==> !Matches(hs[k], text)
    ensures Matching(hs, text, j) == Matching(hs, text, i)
    decreases j
  {
    if i < j {
      MatchingSkips(hs, text, i, j - 1);
    }
  }

  lemma {:induction false} MatchingPrefix(hs: seq<Handler>, text: string, i: nat, j: nat)
    requires i <= j <= |hs|
    ensures Matching(hs, text, i) <= Matching(hs, text, j)
    decreases j
  {
    if i < j {
      MatchingPrefix(hs, text, i, j - 1);
    }
  }

  ghost predicate Ascending(ran: seq<nat>, n: nat) {
    && (forall i :: 0 <= i < |ran| ==> ran[i] < n)
    && (forall i, j :: 0 <= i < j < |ran| ==> ran[i] < ran[j])
  }

  lemma AscendingNext(ran: seq<nat>, n: nat)
    requires Ascending(ran, n)
    ensures Ascending(ran, n + 1) && Ascending(ran + [n], n + 1)
  {
  }

  lemma {:induction false} MatchingAscends(hs: seq<Handler>, text: string, n: nat)
    requires n <= |hs|
    ensures Ascending(Matching(hs, text, n), n)
  {
    hide Matches, Ascending;
    if n == 0 {
      NoneAscending();
    } else {
      MatchingAscends(hs, text, n - 1);
      AscendingNext(Matching(hs, text, n - 1), n - 1);
      assert Matching(hs, text, n - 1) + [] == Matching(hs, text, n - 1);
    }
  }

  lemma {:induction false} MatchingSound(hs: seq<Handler>, text: string, n: nat)
    requires n <= |hs|
    ensures AllMatch(hs, text, Matching(hs, text, n))
  {
    hide Matches;
    if n > 0 {
      MatchingSound(hs, text, n - 1);
    }
  }

  lemma {:induction false} MatchingComplete(hs: seq<Handler>, text: string, n: nat, k: nat)
    requires k < n <= |hs| && Matches(hs[k], text)
    ensures k in Matching(hs, text, n)
  {
    hide Matches;
    if k < n - 1 {
      MatchingComplete(hs, text, n - 1, k);
    } else {
      assert Matching(hs, text, n)[|Matching(hs, text, n - 1)|] == k;
    }
  }

  /** The matching handlers: in registration order, all of them match, and none that matches is left out. */
  lemma MatchingIncreases(hs: seq<Handler>, text: string, n: nat)
    requires n <= |hs|
    ensures Ascending(Matching(hs, text, n), n) && AllMatch(hs, text, Matching(hs, text, n))
    ensures forall k :: 0 <= k < n && Matches(hs[k], text) ==> k in Matching(hs, text, n)
  {
    hide Matches, Ascending, Matching;
    MatchingAscends(hs, text, n);
    MatchingSound(hs, text, n);
    forall k | 0 <= k < n && Matches(hs[k], text)
      ensures k in Matching(hs, text, n)
    {
      MatchingComplete(hs, text, n, k);
    }
  }

  lemma NoneAscending()
    ensures Ascending([], 0)
  {
  }

  /** The functions of a handler, in order. */
  function Users(n: nat, handler: int): (fs: seq<Func>) {
    seq(n, i requires 0 <= i => User(handler, i))
  }

  /** How much is left of what the acts can still add. */
  function Left(acts: seq<Act>, k: nat): nat {
    if k < |acts| then |acts| - k else 0
  }

  /**
   What running these functions from call number k on amounts to: each function, and then everything that it put in
   front, before the next one.
   */
  ghost function Tree(fs: seq<Func>, k: nat, acts: seq<Act>): seq<Func>
    requires NoProcess(fs)
    decreases Left(acts, k), |fs|
  {
    if fs == [] then []
    else
      var inner := Tree(Adds(fs[0].handler, k, ActOf(acts, k).adds), k + 1, acts);
      [fs[0]] + inner + Tree(fs[1..], k + 1 + |inner|, acts)
  }

  ghost predicate NoProcess(fs: seq<Func>) {
    forall i :: 0 <= i < |fs| ==> fs[i] != Process
  }

  /** What follows from a function that is call number k. */
  ghost function Inner(f: Func, k: nat, acts: seq<Act>): seq<Func>
    requires f != Process
  {
    Tree(Adds(f.handler, k, ActOf(acts, k).adds), k + 1, acts)
  }

  lemma TreeFirst(fs: seq<Func>, k: nat, acts: seq<Act>)
    requires NoProcess(fs) && fs != []
    ensures var inner := Inner(fs[0], k, acts);
            NoProcess(fs[1..]) && Tree(fs, k, acts) == [fs[0]] + inner + Tree(fs[1..], k + 1 + |inner|, acts)
  {
    hide Adds, ActOf;
  }

  /** Running two lists one behind the other is running the first and then the second. */
  lemma {:induction false} TreeAppend(a: seq<Func>, b: seq<Func>, k: nat, acts: seq<Act>)
    requires NoProcess(a) && NoProcess(b)
    ensures NoProcess(a + b)
    ensures Tree(a + b, k, acts) == Tree(a, k, acts) + Tree(b, k + |Tree(a, k, acts)|, acts)
    decreases |a|
  {
    hide Tree, Inner;
    assert NoProcess(a + b);
    if a == [] {
      assert a + b == b;
      NoTree(k, acts);
    } else {
      var inner := Inner(a[0], k, acts);
      var k' := k + 1 + |inner|;
      TreeFirst(a, k, acts);
      TreeFirst(a + b, k, acts);
      assert (a + b)[1..] == a[1..] + b;
      TreeAppend(a[1..], b, k', acts);
      var x, y := Tree(a[1..], k', acts), Tree(b, k' + |Tree(a[1..], k', acts)|, acts);
      assert [a[0]] + inner + (x + y) == [a[0]] + inner + x + y;
    }
  }

  lemma NoTree(k: nat, acts: seq<Act>)
    ensures Tree([], k, acts) == []
  {
  }

  /** Everything that is run for after_recv_msg, and then for the handlers found, in order. */
  ghost function Due(hs: seq<Handler>, users: nat, ran: seq<nat>, acts: seq<Act>): seq<Func>
    requires forall i :: 0 <= i < |ran| ==> ran[i] < |hs|
  {
    if ran == [] then Tree(Users(users, -1), 0, acts)
    else
      var before := Due(hs, users, ran[..|ran| - 1], acts);
      before + Tree(Users(hs[ran[|ran| - 1]].funcs, ran[|ran| - 1]), |before|, acts)
  }

  ghost function Invoked(calls: seq<Call>): (fs: seq<Func>)
    ensures |fs| == |calls|
  {
    seq(|calls|, i requires 0 <= i < |calls| => calls[i].func)
  }

  /** User functions of the handler found last and then one Process; or nothing at the end. */
  ghost predicate FuncsOk(fs: seq<Func>, prev: int) {
    fs == [] || (fs[|fs| - 1] == Process && forall i :: 0 <= i < |fs| - 1 ==> fs[i] != Process && fs[i].handler == prev)
  }

  /** The user functions before the Process at the end. */
  ghost function Pending(fs: seq<Func>): seq<Func> {
    if fs == [] then [] else fs[..|fs| - 1]
  }

  /** Each call did what the acts say. */
  ghost predicate Acted(calls: seq<Call>, acts: seq<Act>) {
    forall i :: 0 <= i < |calls| ==> calls[i].func != Process && calls[i].sets == ActOf(acts, i).sets
  }

  /** The status line is set exactly when some call set it, and only functions of the handler found last did. */
  ghost predicate StatusOk(calls: seq<Call>, status: bool, prev: int) {
    && (status <==> exists i :: 0 <= i < |calls| && calls[i].sets)
    && (forall i :: 0 <= i < |calls| && calls[i].sets ==> calls[i].func != Process && calls[i].func.handler == prev)
  }

  lemma StatusStep(calls: seq<Call>, status: bool, f: Func, sets: bool)
    requires f != Process && StatusOk(calls, status, f.handler)
    ensures StatusOk(calls + [Call(f, sets)], status || sets, f.handler)
  {
    var calls' := calls + [Call(f, sets)];
    assert calls'[|calls|].sets == sets;
    if status {
      var i :| 0 <= i < |calls| && calls[i].sets;
      assert calls'[i].sets;
    }
  }

  lemma PendingStep(calls: seq<Call>, fs: seq<Func>, prev: int, acts: seq<Act>)
    requires |fs| > 1 && FuncsOk(fs, prev)
    ensures var k := |calls|;
            var act := ActOf(acts, k);
            var calls', fs' := calls + [Call(fs[0], act.sets)], Adds(fs[0].handler, k, act.adds) + fs[1..];
            && FuncsOk(fs', prev) && NoProcess(Pending(fs)) && NoProcess(Pending(fs'))
            && Invoked(calls') + Tree(Pending(fs'), k + 1, acts) == Invoked(calls) + Tree(Pending(fs), k, acts)
  {
    hide Tree, Adds, Invoked;
    var k := |calls|;
    var act := ActOf(acts, k);
    var adds, rest := Adds(fs[0].handler, k, act.adds), Pending(fs[1..]);
    AddsOk(fs[0].handler, k, act.adds);
    PendingRest(adds, fs, prev);
    TreeAppend(adds, rest, k + 1, acts);
    TreeFirst(Pending(fs), k, acts);
    InvokedNext(calls, Call(fs[0], act.sets));
    Regroup(Invoked(calls), [fs[0]], Tree(adds, k + 1, acts), Tree(rest, k + 1 + |Tree(adds, k + 1, acts)|, acts));
  }

  lemma AddsOk(handler: int, k: nat, n: nat)
    ensures forall i :: 0 <= i < n ==> Adds(handler, k, n)[i] != Process && Adds(handler, k, n)[i].handler == handler
    ensures |Adds(handler, k, n)| == n && NoProcess(Adds(handler, k, n))
  {
  }

  lemma PendingRest(adds: seq<Func>, fs: seq<Func>, prev: int)
    requires |fs| > 1 && FuncsOk(fs, prev) && forall i :: 0 <= i < |adds| ==> adds[i] != Process && adds[i].handler == prev
    ensures FuncsOk(adds + fs[1..], prev) && Pending(adds + fs[1..]) == adds + Pending(fs[1..])
    ensures Pending(fs) != [] && Pending(fs)[0] == fs[0] && Pending(fs)[1..] == Pending(fs[1..])
    ensures NoProcess(Pending(fs)) && NoProcess(Pending(fs[1..])) && NoProcess(adds + Pending(fs[1..]))
  {
  }

  lemma InvokedNext(calls: seq<Call>, c: Call)
    ensures Invoked(calls + [c]) == Invoked(calls) + [c.func]
  {
  }

  lemma Regroup(a: seq<Func>, b: seq<Func>, c: seq<Func>, d: seq<Func>)
    ensures a + b + (c + d) == a + (b + c + d)
  {
  }

  ghost predicate Inv(hs: seq<Handler>, text: string, users: nat, acts: seq<Act>, s: State) {
    && -1 <= s.prev < |hs|
    && FuncsOk(s.funcs, s.prev) && NoProcess(Pending(s.funcs))
    && s.ran == Matching(hs, text, s.prev + 1) && AllMatch(hs, text, s.ran)
    && s.data == Stored(hs, text, s.ran)
    && StatusOk(s.calls, s.status, s.prev) && Acted(s.calls, acts)
    && Invoked(s.calls) + Tree(Pending(s.funcs), |s.calls|, acts) == Due(hs, users, s.ran, acts)
    && (s.funcs == [] ==> s.status || s.ran == Matching(hs, text, |hs|))
  }

  lemma UserInv(hs: seq<Handler>, text: string, users: nat, acts: seq<Act>, s: State)
    requires Inv(hs, text, users, acts, s) && s.funcs != [] && s.funcs[0] != Process
    ensures Inv(hs, text, users, acts, Step(hs, text, acts, s))
  {
    hide StatusOk, Pending, Invoked, Due, Matching, Matches, Stored, Tree, NoProcess, Adds;
    StatusStep(s.calls, s.status, s.funcs[0], ActOf(acts, |s.calls|).sets);
    PendingStep(s.calls, s.funcs, s.prev, acts);
  }

  lemma FoundNext(hs: seq<Handler>, text: string, users: nat, ran: seq<nat>, j: nat, acts: seq<Act>)
    requires j < |hs| && Matches(hs[j], text) && ran == Matching(hs, text, j) && AllMatch(hs, text, ran)
    ensures ran + [j] == Matching(hs, text, j + 1) && AllMatch(hs, text, ran + [j])
    ensures Due(hs, users, ran + [j], acts)
         == Due(hs, users, ran, acts) + Tree(Users(hs[j].funcs, j), |Due(hs, users, ran, acts)|, acts)
    ensures Stored(hs, text, ran + [j]) == Bound(hs[j], text, Stored(hs, text, ran))
  {
    hide Matches, Bound, Tree;
    assert (ran + [j])[..|ran|] == ran;
  }

  lemma StatusUnset(calls: seq<Call>, prev: int, j: int)
    requires StatusOk(calls, false, prev)
    ensures StatusOk(calls, false, j)
  {
  }

  lemma FoundFuncs(n: nat, j: int)
    ensures var fs := Users(n, j) + [Process]; FuncsOk(fs, j) && Pending(fs) == Users(n, j) && NoProcess(Users(n, j))
  {
  }

  lemma NothingPending(acts: seq<Act>, k: nat)
    ensures Pending([Process]) == [] && Pending([]) == [] && Tree([], k, acts) == [] && NoProcess([])
  {
  }

  lemma ProcessInv(hs: seq<Handler>, text: string, users: nat, acts: seq<Act>, s: State)
    requires Inv(hs, text, users, acts, s) && s.funcs != [] && s.funcs[0] == Process
    ensures Inv(hs, text, users, acts, Step(hs, text, acts, s))
  {
    hide StatusOk, Invoked, Due, Matching, Users, Matches, Stored, Bound, Tree, NoProcess, Pending;
    assert s.funcs == [Process];
    NothingPending(acts, |s.calls|);
    assert Invoked(s.calls) + [] == Invoked(s.calls);
    if !s.status {
      var j := NextMatch(hs, text, s.prev + 1);
      MatchingSkips(hs, text, s.prev + 1, j);
      if j < |hs| {
        FoundNext(hs, text, users, s.ran, j, acts);
        StatusUnset(s.calls, s.prev, j);
        FoundFuncs(hs[j].funcs, j);
        assert Users(hs[j].funcs, j) + [Process] + [] == Users(hs[j].funcs, j) + [Process];
      }
    }
  }

  /** The callback of a connection while it handles one request. */
  class Handling {
    var prev: int
    var status: bool
    var funcs: seq<Func>
    var data: R.Table
    var ran: seq<nat>
    var calls: seq<Call>

    ghost function View(): State
      reads this
    {
      State(prev, status, funcs, data, ran, calls)
    }

    /** The request is complete: the functions of after_recv_msg come before the first Process. */
    constructor (hs: seq<Handler>, ghost text: string, users: nat, ghost acts: seq<Act>)
      ensures Inv(hs, text, users, acts, View())
    {
      prev, status, funcs, data, ran, calls := -1, false, Users(users, -1) + [Process], [], [], [];
      new;
      hide Matches, Tree;
      FoundFuncs(users, -1);
      assert Invoked([]) + Tree(Pending(funcs), 0, acts) == Tree(Pending(funcs), 0, acts);
    }

    /** uo_http_server_process_req_handlers: look for the next matching handler behind prev. */
    method ProcessReqHandlers(hs: seq<Handler>, text: string, ghost acts: seq<Act>)
      requires Registered(hs) && Lacks(text, '\0') && Lacks(text, '{')
      requires funcs != [] && funcs[0] == Process && -1 <= prev < |hs|
      modifies this
      ensures View() == Step(hs, text, acts, old(View()))
    {
      hide Registered, Matches, Lacks, Bound, NextMatch, Users;
      funcs := funcs[1..];
      if !status {
        var link, stored := NextHandler(hs, text, prev + 1, data);
        if link < |hs| {
          data := stored;
          prev := link;
          funcs := [Process] + funcs;
          funcs := Users(hs[link].funcs, link) + funcs;
          ran := ran + [link];
          assert funcs == Users(hs[link].funcs, link) + [Process] + old(funcs)[1..];
        }
      }
    }

    /** A user function: it may set the status line, and put functions in front. */
    method InvokeUser(act: Act)
      requires funcs != [] && funcs[0] != Process
      modifies this
      ensures funcs == Adds(old(funcs)[0].handler, |old(calls)|, act.adds) + old(funcs)[1..]
      ensures status == (old(status) || act.sets) && calls == old(calls) + [Call(old(funcs)[0], act.sets)]
      ensures prev == old(prev) && data == old(data) && ran == old(ran)
    {
      var f, k := funcs[0], |calls|;
      calls := calls + [Call(f, act.sets)];
      status := status || act.sets;
      funcs := Adds(f.handler, k, act.adds) + funcs[1..];
    }

    /** Invoke the callback until it has no functions left. */
    method Handle(hs: seq<Handler>, text: string, ghost users: nat, acts: seq<Act>)
      requires Registered(hs) && Lacks(text, '\0') && Lacks(text, '{') && Inv(hs, text, users, acts, View())
      modifies this
      ensures Inv(hs, text, users, acts, View()) && funcs == []
    {
      hide Inv, Registered, Lacks;
      while funcs != []
        invariant Inv(hs, text, users, acts, View())
        decreases |hs| - prev, Left(acts, |calls|), |funcs|
      {
        InRange(hs, text, users, acts, View());
        if funcs[0] == Process {
          ProcessInv(hs, text, users, acts, View());
          ProcessReqHandlers(hs, text, acts);
        } else {
          UserInv(hs, text, users, acts, View());
          InvokeUser(ActOf(acts, |calls|));
        }
      }
    }
  }

  lemma InRange(hs: seq<Handler>, text: string, users: nat, acts: seq<Act>, s: State)
    requires Inv(hs, text, users, acts, s)
    ensures -1 <= s.prev < |hs|
  {
  }

  /** The loop of process_req_handlers, which ends at the list head or with a match. */
  method NextHandler(hs: seq<Handler>, text: string, from: nat, data: R.Table) returns (link: nat, stored: R.Table)
    requires Registered(hs) && Lacks(text, '\0') && Lacks(text, '{') && from <= |hs|
    ensures link == NextMatch(hs, text, from)
    ensures link < |hs| ==> stored == Bound(hs[link], text, data)
  {
    hide Matches, Lacks, Bound, R.WellFormed, R.PatternMemory, R.Params;
    link, stored := from, data;
    while link < |hs|
      invariant from <= link <= |hs| && NextMatch(hs, text, link) == NextMatch(hs, text, from)
    {
      var matched, bound := TryHandler(hs[link], text, data);
      if matched {
        stored := bound;
        return;
      }
      link := link + 1;
    }
  }

  method TryHandler(h: Handler, text: string, data: R.Table) returns (matched: bool, stored: R.Table)
    requires Registered([h]) && Lacks(text, '\0') && Lacks(text, '{')
    ensures matched <==> Matches(h, text)
    ensures matched ==> stored == Bound(h, text, data)
  {
    hide Lacks, R.WellFormed, R.Instance, R.PatternMemory;
    assert R.WellFormed([h][0].pattern, true);
    matched, stored := R.Try(h.memory, h.pattern, text, data);
  }

  /** What holds when the callback has no functions left. */
  lemma EndsHandled(hs: seq<Handler>, text: string, users: nat, acts: seq<Act>, s: State)
    requires Inv(hs, text, users, acts, s) && s.funcs == []
    ensures s.ran <= Matching(hs, text, |hs|) && AllMatch(hs, text, s.ran) && s.data == Stored(hs, text, s.ran)
    ensures Invoked(s.calls) == Due(hs, users, s.ran, acts) && Acted(s.calls, acts)
    ensures (forall i :: 0 <= i < |s.calls| ==> !s.calls[i].sets) ==> s.ran == Matching(hs, text, |hs|)
    ensures forall i :: 0 <= i < |s.calls| && s.calls[i].sets ==>
      && s.calls[i].func != Process && -1 <= s.calls[i].func.handler < |hs|
      && s.ran == Matching(hs, text, s.calls[i].func.handler + 1)
  {
    hide Matches, Stored, Due, Tree, Matching, Invoked, NoProcess;
    MatchingPrefix(hs, text, s.prev + 1, |hs|);
    NothingPending(acts, |s.calls|);
    assert Invoked(s.calls) + [] == Invoked(s.calls);
  }

  /** If no function puts others in front, exactly the functions of the handlers are run. */
  lemma {:induction false} PlainTree(fs: seq<Func>, k: nat, acts: seq<Act>)
    requires NoProcess(fs) && forall i :: 0 <= i < |acts| ==> acts[i].adds == 0
    ensures Tree(fs, k, acts) == fs
    decreases |fs|
  {
    if fs != [] {
      assert Adds(fs[0].handler, k, ActOf(acts, k).adds) == [];
      PlainTree(fs[1..], k + 1, acts);
    }
  }
}
