/**
 What a connection does, over its runs: which handlers run between its own functions. The statements speak of the
 lists and the steps of a run only.
 */
module TcpFlow {
  import opened TcpConn

  ghost predicate AtHandler<H>(s: State<H>) {
    s.phase == Running && s.cb.funcs != [] && s.cb.funcs[0].Handler?
  }

  ghost predicate EndsWith<H>(fs: seq<Func<H>>, tail: seq<Func<H>>) {
    |tail| <= |fs| && fs[|fs| - |tail|..] == tail
  }

  /** The invocation at step p takes the first of these handlers; until then they stay in the list, followed by the tail. */
  ghost predicate InvokedAt<H>(states: seq<State<H>>, steps: seq<Step<H>>, i: nat, p: nat, hs: seq<Func<H>>, tail: seq<Func<H>>)
    requires |states| == |steps| + 1
  {
    && i <= p < |steps| && steps[p].InvokeHandler? && states[p].cb.funcs == hs + tail
    && forall k :: i <= k <= p ==> EndsWith(states[k].cb.funcs, hs + tail)
  }

  /**
   From state i to state j all of these handlers are invoked, at steps ps and in this order, with nothing but what
   handlers put in front in between; and at the end exactly the tail is left.
   */
  ghost predicate AllInvoked<H>(states: seq<State<H>>, steps: seq<Step<H>>, i: nat, j: nat, hs: seq<Func<H>>, tail: seq<Func<H>>, ps: seq<nat>)
    requires j < |states| == |steps| + 1
  {
    && |ps| == |hs| && states[j].phase == Running && states[j].cb.funcs == tail
    && (forall n :: 0 <= n < |ps| ==> ps[n] < j && InvokedAt(states, steps, i, ps[n], hs[n..], tail))
    && (forall n, m :: 0 <= n < m < |ps| ==> ps[n] < ps[m])
  }

  /** State j is the first one from state i on in which the next function is not a handler. */
  ghost predicate FirstAway<H>(states: seq<State<H>>, i: nat, j: nat) {
    && i <= j < |states| && !AtHandler(states[j])
    && forall k :: i <= k < j ==> AtHandler(states[k])
  }

  /** Whenever the handlers from state i on are through, these have been invoked, and the tail is left. */
  ghost predicate RunsThrough<H>(states: seq<State<H>>, steps: seq<Step<H>>, i: nat, hs: seq<Func<H>>, tail: seq<Func<H>>)
    requires |states| == |steps| + 1
  {
    forall j :: FirstAway(states, i, j) ==> exists ps :: AllInvoked(states, steps, i, j, hs, tail, ps)
  }

  // ----- handlers are consumed in order

  /** In front of a handler only its invocation and requests from outside are possible. */
  lemma HandlerNext<H>(ev: Events<H>, s: State<H>, a: Step<H>)
    requires AtHandler(s) && Enabled(s, a)
    ensures Next(ev, s, a).phase == Running
    ensures a.Outside? || a.InvokeHandler?
    ensures a.Outside? ==> Next(ev, s, a).cb == s.cb
    ensures a.InvokeHandler? ==> HandlersOnly(a.first) && Next(ev, s, a).cb.funcs == a.first + s.cb.funcs[1..]
  {
  }

  lemma SuffixEnds<H>(fs: seq<Func<H>>, hs: seq<Func<H>>, tail: seq<Func<H>>, n: nat)
    requires n <= |hs| && EndsWith(fs, hs + tail)
    ensures EndsWith(fs, hs[n..] + tail)
  {
    var d := |fs| - |hs + tail|;
    assert fs[d + n..] == fs[d..][n..];
    assert (hs + tail)[n..] == hs[n..] + tail;
  }

  /** One state more in front, with all of these handlers still in its list. */
  lemma Earlier<H>(states: seq<State<H>>, steps: seq<Step<H>>, i: nat, j: nat, hs: seq<Func<H>>, tail: seq<Func<H>>, ps: seq<nat>)
    requires i < j < |states| == |steps| + 1 && AllInvoked(states, steps, i + 1, j, hs, tail, ps)
    requires EndsWith(states[i].cb.funcs, hs + tail)
    ensures AllInvoked(states, steps, i, j, hs, tail, ps)
  {
    hide EndsWith;
    forall n | 0 <= n < |ps|
      ensures InvokedAt(states, steps, i, ps[n], hs[n..], tail)
    {
      SuffixEnds(states[i].cb.funcs, hs, tail, n);
    }
  }

  /** The invocation of the first handler, with the others still to come. */
  lemma Popped<H>(states: seq<State<H>>, steps: seq<Step<H>>, i: nat, j: nat, hs: seq<Func<H>>, tail: seq<Func<H>>, ps: seq<nat>)
    requires i < j < |states| == |steps| + 1 && hs != [] && AllInvoked(states, steps, i + 1, j, hs[1..], tail, ps)
    requires states[i].cb.funcs == hs + tail && steps[i].InvokeHandler?
    ensures AllInvoked(states, steps, i, j, hs, tail, [i] + ps)
  {
    hide EndsWith, InvokedAt;
    assert EndsWith(states[i].cb.funcs, hs[1..] + tail) by { EndsAfter([], hs[..1], hs[1..] + tail); assert [] + (hs[..1] + (hs[1..] + tail)) == hs + tail; }
    Earlier(states, steps, i, j, hs[1..], tail, ps);
    var qs := [i] + ps;
    forall n | 0 <= n < |qs|
      ensures qs[n] < j && InvokedAt(states, steps, i, qs[n], hs[n..], tail)
    {
      if n == 0 {
        assert hs[0..] == hs;
        EndsAfter([], [], hs + tail);
        assert [] + ([] + (hs + tail)) == hs + tail;
        NowInvoked(states, steps, i, hs, tail);
      } else {
        assert hs[1..][n - 1..] == hs[n..] && qs[n] == ps[n - 1];
      }
    }
    After(states, steps, i, j, hs[1..], tail, ps);
  }

  lemma NowInvoked<H>(states: seq<State<H>>, steps: seq<Step<H>>, i: nat, hs: seq<Func<H>>, tail: seq<Func<H>>)
    requires i < |steps| == |states| - 1 && states[i].cb.funcs == hs + tail && steps[i].InvokeHandler? && EndsWith(hs + tail, hs + tail)
    ensures InvokedAt(states, steps, i, i, hs, tail)
  {
  }

  lemma After<H>(states: seq<State<H>>, steps: seq<Step<H>>, i: nat, j: nat, hs: seq<Func<H>>, tail: seq<Func<H>>, ps: seq<nat>)
    requires i < j < |states| == |steps| + 1 && AllInvoked(states, steps, i + 1, j, hs, tail, ps)
    ensures forall n :: 0 <= n < |ps| ==> i < ps[n]
  {
    hide EndsWith;
  }

  lemma EndsAfter<H>(a: seq<Func<H>>, b: seq<Func<H>>, tail: seq<Func<H>>)
    ensures EndsWith(a + (b + tail), tail)
  {
  }

  lemma {:induction false} Consume<H>(ev: Events<H>, states: seq<State<H>>, steps: seq<Step<H>>, i: nat, j: nat,
      pre: seq<Func<H>>, hs: seq<Func<H>>, tail: seq<Func<H>>) returns (ps: seq<nat>)
    requires IsRun(ev, states, steps) && FirstAway(states, i, j) && states[i].phase == Running
    requires states[i].cb.funcs == pre + (hs + tail) && HandlersOnly(pre) && HandlersOnly(hs) && tail != [] && !tail[0].Handler?
    ensures AllInvoked(states, steps, i, j, hs, tail, ps)
    decreases j - i
  {
    hide Enabled, Next, AllInvoked, EndsWith, Possible;
    if i == j {
      ps := [];
      assert pre == [] && hs == [] by { NoneLeft(pre, hs, tail); }
      Done(states, steps, i, tail);
      assert pre + (hs + tail) == tail;
    } else {
      var a := steps[i];
      assert Enabled(states[i], a);
      HandlerNext(ev, states[i], a);
      if a.Outside? {
        ps := Consume(ev, states, steps, i + 1, j, pre, hs, tail);
      } else if pre != [] {
        assert a.first + (pre + (hs + tail))[1..] == (a.first + pre[1..]) + (hs + tail);
        ps := Consume(ev, states, steps, i + 1, j, a.first + pre[1..], hs, tail);
      } else {
        HeadHandler(hs, tail);
        assert pre + (hs + tail) == hs + tail;
        ps := Consume(ev, states, steps, i + 1, j, a.first, hs[1..], tail);
        Popped(states, steps, i, j, hs, tail, ps);
        ps := [i] + ps;
      }
      if pre != [] || a.Outside? {
        EndsAfter([], pre, hs + tail);
        assert [] + (pre + (hs + tail)) == pre + (hs + tail);
        Earlier(states, steps, i, j, hs, tail, ps);
      }
    }
  }

  lemma NoneLeft<H>(pre: seq<Func<H>>, hs: seq<Func<H>>, tail: seq<Func<H>>)
    requires HandlersOnly(pre) && HandlersOnly(hs) && tail != [] && !(pre + (hs + tail))[0].Handler?
    ensures pre == [] && hs == []
  {
  }

  lemma Done<H>(states: seq<State<H>>, steps: seq<Step<H>>, i: nat, tail: seq<Func<H>>)
    requires i < |states| == |steps| + 1 && states[i].phase == Running && states[i].cb.funcs == tail
    ensures AllInvoked(states, steps, i, i, [], tail, [])
  {
  }

  lemma HeadHandler<H>(hs: seq<Func<H>>, tail: seq<Func<H>>)
    requires HandlersOnly(hs) && tail != [] && !tail[0].Handler? && (hs + tail)[0].Handler?
    ensures hs != [] && (hs + tail)[1..] == hs[1..] + tail && HandlersOnly(hs[1..])
  {
  }

  /** A list of handlers and a tail, from state i on. */
  lemma Through<H>(ev: Events<H>, states: seq<State<H>>, steps: seq<Step<H>>, i: nat, hs: seq<Func<H>>, tail: seq<Func<H>>)
    requires IsRun(ev, states, steps) && i < |states| && states[i].phase == Running && states[i].cb.funcs == hs + tail
    requires HandlersOnly(hs) && tail != [] && !tail[0].Handler?
    ensures RunsThrough(states, steps, i, hs, tail)
  {
    hide Next, Enabled, AllInvoked;
    forall j | FirstAway(states, i, j)
      ensures exists ps :: AllInvoked(states, steps, i, j, hs, tail, ps)
    {
      assert [] + (hs + tail) == hs + tail;
      var ps := Consume(ev, states, steps, i, j, [], hs, tail);
    }
  }

  // ----- the events

  /** The connection is opened: the handlers for this run, and then advance. */
  lemma Opens<H>(ev: Events<H>, states: seq<State<H>>, steps: seq<Step<H>>)
    requires EventsOk(ev) && IsRun(ev, states, steps)
    ensures RunsThrough(states, steps, 0, ev.afterOpen, [Advance])
    ensures states[0].pending == Nothing && states[0].cb.stack == [TheConn]
  {
    hide Next, Enabled, RunsThrough;
    Through(ev, states, steps, 0, ev.afterOpen, [Advance]);
  }

  ghost predicate Calls<H>(s: State<H>, a: Step<H>, f: Func<H>) {
    a.Invoke? && s.phase == Running && s.cb.funcs != [] && s.cb.funcs[0] == f
  }

  lemma SentNext<H>(ev: Events<H>, s: State<H>)
    requires EventsOk(ev) && Inv(s) && Enabled(s, Invoke) && Calls(s, Invoke, Send)
    ensures var t := Next(ev, s, Invoke);
            t.phase == Running && t.cb.funcs == ev.afterSend + [AfterSend, Advance] && t.cb.stack == s.cb.stack
  {
    CoreAlone(s);
    assert s.cb.funcs[1..] + (ev.afterSend + [AfterSend, Advance]) == ev.afterSend + [AfterSend, Advance];
  }

  lemma ClosedNext<H>(ev: Events<H>, s: State<H>)
    requires EventsOk(ev) && Inv(s) && Enabled(s, Invoke) && Calls(s, Invoke, Close)
    ensures var t := Next(ev, s, Invoke);
            t.phase == Running && t.cb.funcs == ev.afterClose + [AfterClose] && t.cb.stack == s.cb.stack
  {
    CoreAlone(s);
    assert s.cb.funcs[1..] + (ev.afterClose + [AfterClose]) == ev.afterClose + [AfterClose];
  }

  /** How the counters move: by one, in the function of that name, and in no other step. */
  ghost predicate Counted<H>(s: State<H>, a: Step<H>, t: State<H>) {
    && t.sent == s.sent + (if Calls(s, a, Send) then 1 else 0)
    && t.closes == s.closes + (if Calls(s, a, Close) then 1 else 0)
    && t.destroys == s.destroys + (if Calls(s, a, AfterClose) then 1 else 0)
    && t.received == s.received + (if Calls(s, a, Recv) && s.cb.stack != [] && s.cb.stack[|s.cb.stack| - 1] != Number(0) then 1 else 0)
  }

  lemma Counters<H>(ev: Events<H>, states: seq<State<H>>, steps: seq<Step<H>>, i: nat)
    requires IsRun(ev, states, steps) && i < |steps|
    ensures Counted(states[i], steps[i], states[i + 1])
  {
    hide Next, Enabled;
    CountedNext(ev, states[i], steps[i]);
  }

  lemma CountedNext<H>(ev: Events<H>, s: State<H>, a: Step<H>)
    requires Enabled(s, a)
    ensures Counted(s, a, Next(ev, s, a))
  {
  }

  /** After a send the handlers for it run, then after_send, then advance. */
  lemma Sends<H>(ev: Events<H>, states: seq<State<H>>, steps: seq<Step<H>>, i: nat)
    requires EventsOk(ev) && IsRun(ev, states, steps) && i < |steps| && states[i + 1].sent != states[i].sent
    ensures RunsThrough(states, steps, i + 1, ev.afterSend, [AfterSend, Advance])
  {
    hide Next, Enabled, RunsThrough, Inv;
    EveryState(ev, states, steps, i);
    Counters(ev, states, steps, i);
    assert Enabled(states[i], steps[i]);
    SentNext(ev, states[i]);
    Through(ev, states, steps, i + 1, ev.afterSend, [AfterSend, Advance]);
  }

  /** After the close the handlers for it run, and then the function that destroys the connection. */
  lemma Closes<H>(ev: Events<H>, states: seq<State<H>>, steps: seq<Step<H>>, i: nat)
    requires EventsOk(ev) && IsRun(ev, states, steps) && i < |steps| && states[i + 1].closes != states[i].closes
    ensures RunsThrough(states, steps, i + 1, ev.afterClose, [AfterClose])
  {
    hide Next, Enabled, RunsThrough, Inv;
    EveryState(ev, states, steps, i);
    Counters(ev, states, steps, i);
    assert Enabled(states[i], steps[i]);
    ClosedNext(ev, states[i]);
    Through(ev, states, steps, i + 1, ev.afterClose, [AfterClose]);
  }

  // ----- reads

  /** From state i to state j nothing happens but requests from outside. */
  ghost predicate OutsideOnly<H>(steps: seq<Step<H>>, i: nat, j: nat) {
    j <= |steps| && forall k :: i <= k < j ==> steps[k].Outside?
  }

  lemma OutsideKeeps<H>(ev: Events<H>, s: State<H>, a: Step<H>)
    requires Enabled(s, a) && a.Outside?
    ensures var t := Next(ev, s, a); t.phase == s.phase && t.cb == s.cb
    ensures var t := Next(ev, s, a); t.pending == if s.pending == Nothing then a.request else s.pending
  {
  }

  lemma {:induction false} StaysOutside<H>(ev: Events<H>, states: seq<State<H>>, steps: seq<Step<H>>, i: nat, j: nat)
    requires IsRun(ev, states, steps) && i <= j && OutsideOnly(steps, i, j)
    ensures states[j].phase == states[i].phase && states[j].cb == states[i].cb
    ensures states[i].pending != Nothing ==> states[j].pending == states[i].pending
    decreases j
  {
    hide Next, Enabled;
    if i < j {
      StaysOutside(ev, states, steps, i, j - 1);
      assert Enabled(states[j - 1], steps[j - 1]);
      OutsideKeeps(ev, states[j - 1], steps[j - 1]);
    }
  }

  lemma ReadNext<H>(ev: Events<H>, s: State<H>, a: Step<H>)
    requires Inv(s) && Enabled(s, a) && a.InvokeRead?
    ensures var t := Next(ev, s, a);
            t.phase == Running && t.cb.funcs == [Recv] && t.cb.stack != [] && t.cb.stack[|t.cb.stack| - 1] == Number(a.length)
  {
    CoreAlone(s);
  }

  lemma AtRecv<H>(s: State<H>, a: Step<H>)
    requires s.phase == Running && s.cb.funcs == [Recv] && Enabled(s, a) && !a.Outside?
    ensures a == Invoke && ReadResult(s.cb.stack)
  {
  }

  lemma RecvNext<H>(ev: Events<H>, s: State<H>)
    requires Enabled(s, Invoke) && s.phase == Running && s.cb.funcs == [Recv] && ReadResult(s.cb.stack)
    ensures var t, n := Next(ev, s, Invoke), s.cb.stack[|s.cb.stack| - 1].n;
            && t.phase == Running && t.cb.funcs == (if n > 0 then ev.afterRecv + [Advance] else [Advance])
            && t.received == s.received + (if n > 0 then 1 else 0)
            && t.pending == (if n == 0 && s.pending == Nothing then NextClose else s.pending)
  {
    assert s.cb.funcs[1..] + (ev.afterRecv + [Advance]) == ev.afterRecv + [Advance];
    assert s.cb.funcs[1..] + [Advance] == [Advance];
  }

  /**
   After a read of some bytes, whatever is requested meanwhile, they are received and the handlers for
   this run, and then advance. A read of no bytes runs no handlers, and requests a close unless there is a request.
   */
  lemma Receives<H>(ev: Events<H>, states: seq<State<H>>, steps: seq<Step<H>>, i: nat, j: nat)
    requires EventsOk(ev) && IsRun(ev, states, steps) && i < j < |steps| && steps[i].InvokeRead?
    requires OutsideOnly(steps, i + 1, j) && !steps[j].Outside?
    ensures states[j + 1].received == states[j].received + (if steps[i].length > 0 then 1 else 0)
    ensures RunsThrough(states, steps, j + 1, if steps[i].length > 0 then ev.afterRecv else [], [Advance])
    ensures states[j + 1].pending == if steps[i].length == 0 && states[j].pending == Nothing then NextClose else states[j].pending
  {
    hide Next, Enabled, RunsThrough, Inv;
    EveryState(ev, states, steps, i);
    assert Enabled(states[i], steps[i]);
    ReadNext(ev, states[i], steps[i]);
    StaysOutside(ev, states, steps, i + 1, j);
    assert Enabled(states[j], steps[j]);
    AtRecv(states[j], steps[j]);
    RecvNext(ev, states[j]);
    var hs := if steps[i].length > 0 then ev.afterRecv else [];
    assert steps[i].length == 0 ==> hs + [Advance] == [Advance];
    Through(ev, states, steps, j + 1, hs, [Advance]);
  }

  /** Bytes are received only at the end of a read of some bytes. */
  lemma {:induction false} ReceivedWhen<H>(ev: Events<H>, states: seq<State<H>>, steps: seq<Step<H>>, j: nat) returns (i: nat)
    requires EventsOk(ev) && IsRun(ev, states, steps) && j < |states| && states[j].phase == Running && states[j].cb.funcs == [Recv]
    ensures i < j && steps[i].InvokeRead? && OutsideOnly(steps, i + 1, j)
    ensures states[j].cb.stack != [] && states[j].cb.stack[|states[j].cb.stack| - 1] == Number(steps[i].length)
  {
    hide Next, Enabled, Inv;
    assert j > 0 by { NotOpened(ev); }
    var s, a := states[j - 1], steps[j - 1];
    EveryState(ev, states, steps, j - 1);
    assert Enabled(s, a);
    if a.InvokeRead? {
      ReadNext(ev, s, a);
      i := j - 1;
    } else {
      FromRead(ev, s, a);
      i := ReceivedWhen(ev, states, steps, j - 1);
    }
  }

  lemma NotOpened<H>(ev: Events<H>)
    ensures Opened(ev).cb.funcs != [Recv]
  {
    var fs := Opened(ev).cb.funcs;
    assert fs[|fs| - 1] == Advance;
  }

  /** No other step leaves the end of a read behind. */
  lemma FromRead<H>(ev: Events<H>, s: State<H>, a: Step<H>)
    requires EventsOk(ev) && Inv(s) && Enabled(s, a) && !a.InvokeRead? && Next(ev, s, a).phase == Running && Next(ev, s, a).cb.funcs == [Recv]
    ensures a.Outside? && Next(ev, s, a).cb == s.cb && s.phase == Running
  {
    hide Next, Enabled, OneCore, Inv;
    if a.Outside? {
      OutsideKeeps(ev, s, a);
    } else {
      LastElse(ev, s, a);
    }
  }

  lemma LastElse<H>(ev: Events<H>, s: State<H>, a: Step<H>)
    requires EventsOk(ev) && Inv(s) && Enabled(s, a) && !a.InvokeRead? && !a.Outside?
    ensures var t := Next(ev, s, a); t.phase == Running ==> t.cb.funcs != [] && t.cb.funcs[|t.cb.funcs| - 1] != Recv
  {
    if a.Invoke? {
      if IsCore(s.cb.funcs[0]) {
        CoreAlone(s);
      }
    }
  }

  /** Whenever bytes are received, a read of some bytes came before, and the handlers for this run next. */
  lemma Received<H>(ev: Events<H>, states: seq<State<H>>, steps: seq<Step<H>>, j: nat)
    requires EventsOk(ev) && IsRun(ev, states, steps) && j < |steps| && states[j + 1].received != states[j].received
    ensures exists i :: 0 <= i < j && steps[i].InvokeRead? && steps[i].length > 0 && OutsideOnly(steps, i + 1, j)
    ensures RunsThrough(states, steps, j + 1, ev.afterRecv, [Advance])
  {
    hide Next, Enabled, RunsThrough, Inv;
    Counters(ev, states, steps, j);
    EveryState(ev, states, steps, j);
    CoreAlone(states[j]);
    var i := ReceivedWhen(ev, states, steps, j);
    assert 0 <= i < j && steps[i].InvokeRead? && steps[i].length > 0 && OutsideOnly(steps, i + 1, j);
    Receives(ev, states, steps, i, j);
  }

  // ----- requests

  /** What is requested in a step. */
  function AskedIn<H>(a: Step<H>): seq<Pending> {
    if a.Outside? then [a.request] else if a.InvokeHandler? then a.requests else []
  }

  /** All requests of the steps from i to j, in order. */
  function Requested<H>(steps: seq<Step<H>>, i: nat, j: nat): seq<Pending>
    requires i <= j <= |steps|
    decreases j
  {
    if i == j then [] else Requested(steps, i, j - 1) + AskedIn(steps[j - 1])
  }

  /** Neither advance nor the end of a read of no bytes. */
  ghost predicate Quiet<H>(s: State<H>, a: Step<H>) {
    && !a.Decide? && !Calls(s, a, Advance)
    && !(Calls(s, a, Recv) && s.cb.stack != [] && s.cb.stack[|s.cb.stack| - 1] == Number(0))
  }

  ghost predicate QuietUntil<H>(states: seq<State<H>>, steps: seq<Step<H>>, i: nat, j: nat) {
    j <= |steps| < |states| && forall k :: i <= k < j ==> Quiet(states[k], steps[k])
  }

  function FirstOf(current: Pending, requests: seq<Pending>): Pending {
    if current == Nothing && requests != [] then requests[0] else current
  }

  lemma {:induction false} AskAllFirst(current: Pending, requests: seq<Pending>)
    requires forall i :: 0 <= i < |requests| ==> IsRequest(requests[i])
    ensures AskAll(current, requests) == FirstOf(current, requests)
  {
    if current == Nothing {
      FirstRequestWins(requests);
    } else {
      LaterIgnored(current, requests);
    }
  }

  lemma QuietNext<H>(ev: Events<H>, s: State<H>, a: Step<H>)
    requires Enabled(s, a) && Quiet(s, a)
    ensures Next(ev, s, a).pending == FirstOf(s.pending, AskedIn(a)) && forall r :: r in AskedIn(a) ==> IsRequest(r)
  {
    if a.InvokeHandler? {
      AskAllFirst(s.pending, a.requests);
    }
  }

  lemma RequestedUnfolds<H>(steps: seq<Step<H>>, i: nat, j: nat)
    requires i <= j <= |steps|
    ensures Requested(steps, i, j) == if i == j then [] else Requested(steps, i, j - 1) + AskedIn(steps[j - 1])
  {
  }

  lemma NothingAsked(current: Pending)
    ensures FirstOf(current, []) == current
  {
  }

  lemma FirstOfBoth(current: Pending, a: seq<Pending>, b: seq<Pending>)
    requires forall r :: r in a ==> IsRequest(r)
    ensures FirstOf(FirstOf(current, a), b) == FirstOf(current, a + b)
  {
    assert a != [] ==> a[0] in a;
  }

  /** Of all that is requested the first request stays pending. */
  lemma {:induction false} FirstPending<H>(ev: Events<H>, states: seq<State<H>>, steps: seq<Step<H>>, i: nat, j: nat)
    requires IsRun(ev, states, steps) && i <= j && QuietUntil(states, steps, i, j)
    ensures states[j].pending == FirstOf(states[i].pending, Requested(steps, i, j))
    ensures forall r :: r in Requested(steps, i, j) ==> IsRequest(r)
    decreases j
  {
    hide Next, Enabled, Quiet, AskedIn, Requested, FirstOf;
    RequestedUnfolds(steps, i, j);
    if i == j {
      NothingAsked(states[j].pending);
    } else {
      FirstPending(ev, states, steps, i, j - 1);
      assert Enabled(states[j - 1], steps[j - 1]) && Quiet(states[j - 1], steps[j - 1]);
      QuietNext(ev, states[j - 1], steps[j - 1]);
      FirstOfBoth(states[i].pending, Requested(steps, i, j - 1), AskedIn(steps[j - 1]));
    }
  }

  lemma AdvanceNext<H>(ev: Events<H>, s: State<H>)
    requires EventsOk(ev) && Inv(s) && Enabled(s, Invoke) && Calls(s, Invoke, Advance)
    ensures var t := Next(ev, s, Invoke);
            && t.pending == Nothing && t.cb.stack == s.cb.stack
            && t.phase == (if s.pending == Nothing then Deciding else Running)
            && t.cb.funcs == match s.pending
                             case NextRecv => ev.beforeRecv + [BeforeRecv]
                             case NextSend => ev.beforeSend + [Send]
                             case NextClose => ev.beforeClose + [Close]
                             case _ => []
  {
    CoreAlone(s);
    assert s.cb.funcs[1..] == [];
  }

  /**
   Advance does what was requested first: the handlers that come before it run, and then it is done. Without a
   request it looks once more before it lets the connection go idle.
   */
  lemma Obeys<H>(ev: Events<H>, states: seq<State<H>>, steps: seq<Step<H>>, i: nat, j: nat)
    requires EventsOk(ev) && IsRun(ev, states, steps) && i <= j < |steps| && states[i].pending == Nothing
    requires QuietUntil(states, steps, i, j) && Calls(states[j], steps[j], Advance)
    ensures states[j + 1].pending == Nothing
    ensures var requests := Requested(steps, i, j);
            if requests == [] then states[j + 1].phase == Deciding else
              match requests[0]
              case NextRecv => RunsThrough(states, steps, j + 1, ev.beforeRecv, [BeforeRecv])
              case NextSend => RunsThrough(states, steps, j + 1, ev.beforeSend, [Send])
              case NextClose => RunsThrough(states, steps, j + 1, ev.beforeClose, [Close])
              case _ => false
  {
    hide Next, Enabled, RunsThrough, Inv, Quiet;
    FirstPending(ev, states, steps, i, j);
    var requests := Requested(steps, i, j);
    assert requests != [] ==> requests[0] in requests;
    Advances(ev, states, steps, j);
  }

  lemma Advances<H>(ev: Events<H>, states: seq<State<H>>, steps: seq<Step<H>>, j: nat)
    requires EventsOk(ev) && IsRun(ev, states, steps) && j < |steps| && Calls(states[j], steps[j], Advance)
    ensures states[j + 1].pending == Nothing
    ensures states[j].pending == Nothing ==> states[j + 1].phase == Deciding
    ensures states[j].pending == NextRecv ==> RunsThrough(states, steps, j + 1, ev.beforeRecv, [BeforeRecv])
    ensures states[j].pending == NextSend ==> RunsThrough(states, steps, j + 1, ev.beforeSend, [Send])
    ensures states[j].pending == NextClose ==> RunsThrough(states, steps, j + 1, ev.beforeClose, [Close])
  {
    hide Next, Enabled, RunsThrough, Inv;
    EveryState(ev, states, steps, j);
    assert Enabled(states[j], steps[j]);
    AdvanceNext(ev, states[j]);
    match states[j].pending {
      case NextRecv => Through(ev, states, steps, j + 1, ev.beforeRecv, [BeforeRecv]);
      case NextSend => Through(ev, states, steps, j + 1, ev.beforeSend, [Send]);
      case NextClose => Through(ev, states, steps, j + 1, ev.beforeClose, [Close]);
      case _ =>
    }
  }

  lemma AtAdvance<H>(s: State<H>, a: Step<H>)
    requires s.phase == Running && s.cb.funcs == [Advance] && Enabled(s, a) && !a.Outside?
    ensures Calls(s, a, Advance)
  {
  }

  /** A read of no bytes, with no request at its end, leads to a close, whatever is requested after it. */
  lemma EndOfInput<H>(ev: Events<H>, states: seq<State<H>>, steps: seq<Step<H>>, i: nat, j: nat, k: nat)
    requires EventsOk(ev) && IsRun(ev, states, steps) && i < j < k < |steps| && steps[i].InvokeRead? && steps[i].length == 0
    requires OutsideOnly(steps, i + 1, j) && !steps[j].Outside? && OutsideOnly(steps, j + 1, k) && !steps[k].Outside?
    requires states[j].pending == Nothing
    ensures states[k].pending == NextClose && RunsThrough(states, steps, k + 1, ev.beforeClose, [Close])
  {
    hide Next, Enabled, RunsThrough, Inv;
    Receives(ev, states, steps, i, j);
    StaysOutside(ev, states, steps, j + 1, k);
    assert states[k].phase == Running && states[k].cb.funcs == [Advance] by { FailedRead(ev, states, steps, i, j); }
    assert Enabled(states[k], steps[k]);
    AtAdvance(states[k], steps[k]);
    Advances(ev, states, steps, k);
  }

  lemma FailedRead<H>(ev: Events<H>, states: seq<State<H>>, steps: seq<Step<H>>, i: nat, j: nat)
    requires EventsOk(ev) && IsRun(ev, states, steps) && i < j < |steps| && steps[i].InvokeRead? && steps[i].length == 0
    requires OutsideOnly(steps, i + 1, j) && !steps[j].Outside?
    ensures states[j + 1].phase == Running && states[j + 1].cb.funcs == [Advance]
  {
    hide Next, Enabled, Inv;
    EveryState(ev, states, steps, i);
    assert Enabled(states[i], steps[i]) && Enabled(states[j], steps[j]);
    ReadNext(ev, states[i], steps[i]);
    StaysOutside(ev, states, steps, i + 1, j);
    AtRecv(states[j], steps[j]);
    RecvNext(ev, states[j]);
  }

  /** The second look: a request made meanwhile leads back to advance, and without one the connection is idle. */
  lemma Decides<H>(ev: Events<H>, states: seq<State<H>>, steps: seq<Step<H>>, i: nat)
    requires EventsOk(ev) && IsRun(ev, states, steps) && i < |steps| && states[i].phase == Deciding && !steps[i].Outside?
    ensures if states[i].pending == Nothing then states[i + 1].phase == GoneIdle && states[i + 1].pending == Idle
            else states[i + 1].phase == Running && states[i + 1].cb.funcs == [Advance] && states[i + 1].pending == states[i].pending
  {
    hide Next, Enabled;
    EveryState(ev, states, steps, i);
    assert Enabled(states[i], steps[i]);
    DecideNext(ev, states[i], steps[i]);
  }

  lemma DecideNext<H>(ev: Events<H>, s: State<H>, a: Step<H>)
    requires Enabled(s, a) && s.phase == Deciding && !a.Outside? && s.cb.funcs == []
    ensures var t := Next(ev, s, a);
            if s.pending == Nothing then t.phase == GoneIdle && t.pending == Idle
            else t.phase == Running && t.cb.funcs == [Advance] && t.pending == s.pending
  {
    assert s.cb.funcs + [Advance] == [Advance];
  }

  // ----- no run gets stuck

  /** Until the connection is idle or destroyed it can go on, without waiting for a request from outside. */
  lemma NeverStuck<H>(ev: Events<H>, states: seq<State<H>>, steps: seq<Step<H>>, i: nat)
    requires EventsOk(ev) && IsRun(ev, states, steps) && i < |states|
    ensures (exists a :: Enabled(states[i], a) && !a.Outside?) <==> states[i].phase == Running || states[i].phase == Deciding
  {
    hide Next, Enabled, Inv;
    EveryState(ev, states, steps, i);
    var s := states[i];
    if s.phase == Running || s.phase == Deciding {
      var a := SomeStep(s);
    } else {
      forall a: Step<H>
        ensures !Enabled(s, a)
      {
        Over(s, a);
      }
    }
  }

  lemma SomeStep<H>(s: State<H>) returns (a: Step<H>)
    requires Inv(s) && (s.phase == Running || s.phase == Deciding)
    ensures Enabled(s, a) && !a.Outside?
  {
    if s.phase == Deciding {
      a := Decide;
    } else if s.cb.funcs[0].Handler? {
      a := InvokeHandler([], [], [TheConn]);
    } else if s.cb.funcs[0] == BeforeRecv {
      a := InvokeRead(0, false);
    } else {
      a := Invoke;
    }
  }

  lemma Over<H>(s: State<H>, a: Step<H>)
    requires s.phase == GoneIdle || s.phase == Destroyed
    ensures !Enabled(s, a)
  {
  }
}
