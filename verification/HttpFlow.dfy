/**
 What the HTTP server does on a connection, over its runs: the functions that run between the connection's own ones,
 named one by one.
 */
module HttpFlow {
  import C = TcpConn
  import F = TcpFlow
  import opened HttpConn

  type State = C.State<Hook>
  type Step = C.Step<Hook>

  /** A run of the server in which every read can be registered. */
  ghost predicate Serves(u: UserEvents, states: seq<State>, steps: seq<Step>) {
    UserEventsOk(u) && IsRun(u, states, steps) && forall k :: 0 <= k < |steps| ==> !Forgets(steps[k])
  }

  lemma ServesRuns(u: UserEvents, states: seq<State>, steps: seq<Step>)
    requires Serves(u, states, steps)
    ensures C.EventsOk(EVENTS) && C.IsRun(EVENTS, states, steps)
  {
    HttpRuns(u, states, steps);
  }

  /** The next step in state k invokes this function of the server, and then the others of the list are due. */
  ghost predicate Next(states: seq<State>, steps: seq<Step>, k: nat, h: Hook, rest: seq<Func>, tail: seq<Func>) {
    && k < |steps| < |states| && !steps[k].Outside?
    && states[k].phase == C.Running && states[k].cb.funcs == [C.Handler(h)] + rest + tail
    && C.HandlersOnly(rest) && tail != [] && !tail[0].Handler?
  }

  /** What the function did: what it put in front runs before the rest of the list, and its requests are made. */
  lemma HookThen(u: UserEvents, states: seq<State>, steps: seq<Step>, k: nat, h: Hook, rest: seq<Func>, tail: seq<Func>)
    returns (parsed: Parsed)
    requires Serves(u, states, steps) && Next(states, steps, k, h, rest, tail)
    ensures steps[k].InvokeHandler? && states[k].cb.stack != [] && Does(u, h, parsed, states[k].cb.stack, steps[k])
    ensures F.RunsThrough(states, steps, k + 1, steps[k].first + rest, tail)
    ensures states[k + 1].pending == F.FirstOf(states[k].pending, steps[k].requests)
  {
    hide Does, C.Enabled, C.Next, EVENTS, F.RunsThrough;
    ServesRuns(u, states, steps);
    var s, a := states[k], steps[k];
    assert Enabled(u, s, a) && C.Enabled(s, a);
    assert s.cb.funcs[0] == C.Handler(h) && s.cb.funcs[1..] == rest + tail;
    F.HandlerNext(EVENTS, s, a);
    F.QuietNext(EVENTS, s, a);
    parsed :| Does(u, h, parsed, s.cb.stack, a);
    assert a.first + (rest + tail) == (a.first + rest) + tail;
    F.Through(EVENTS, states, steps, k + 1, a.first + rest, tail);
  }

  /** Step k is the next one after step i that is not a request from outside. */
  ghost predicate Follows(steps: seq<Step>, i: nat, k: nat) {
    i < k < |steps| && F.OutsideOnly(steps, i + 1, k) && !steps[k].Outside?
  }

  lemma Waits(u: UserEvents, states: seq<State>, steps: seq<Step>, i: nat, k: nat, h: Hook, rest: seq<Func>, tail: seq<Func>)
    requires Serves(u, states, steps) && i <= k < |steps| && F.OutsideOnly(steps, i, k) && !steps[k].Outside?
    requires states[i].phase == C.Running && states[i].cb.funcs == [C.Handler(h)] + rest + tail
    requires C.HandlersOnly(rest) && tail != [] && !tail[0].Handler?
    ensures Next(states, steps, k, h, rest, tail)
  {
    hide IsRun, C.Next, C.Enabled, EVENTS;
    ServesRuns(u, states, steps);
    F.StaysOutside(EVENTS, states, steps, i, k);
  }

  lemma DoesFront(u: UserEvents, h: Hook, parsed: Parsed, stack: seq<C.Item>, a: Step)
    requires stack != [] && a.InvokeHandler? && Does(u, h, parsed, stack, a) && !h.User? && !h.ProcessHandlers?
    ensures a.first == Front(u, h, parsed) && Asks(h, parsed, a.requests)
  {
  }

  // ----- the events, one by one

  /** When the connection is opened, the user's functions run, then the TCP connection is passed back, then a receive is requested. */
  lemma OpensHttp(u: UserEvents, states: seq<State>, steps: seq<Step>, k: nat)
    requires Serves(u, states, steps) && k < |steps| && F.OutsideOnly(steps, 0, k) && !steps[k].Outside?
    ensures F.RunsThrough(states, steps, k + 1, u.afterOpen + [C.Handler(PassBack), C.Handler(AskRecv)], [C.Advance])
    ensures states[k + 1].pending == states[k].pending
  {
    hide F.RunsThrough, Does, C.Next, C.Enabled;
    ServesRuns(u, states, steps);
    Waits(u, states, steps, 0, k, OnOpen, [C.Handler(AskRecv)], [C.Advance]);
    var parsed := HookThen(u, states, steps, k, OnOpen, [C.Handler(AskRecv)], [C.Advance]);
    DoesFront(u, OnOpen, parsed, states[k].cb.stack, steps[k]);
    assert steps[k].first + [C.Handler(AskRecv)] == u.afterOpen + [C.Handler(PassBack), C.Handler(AskRecv)];
  }

  /** Before a send the user's functions run, then the response is written, then the TCP connection is passed back. */
  lemma SendsHttp(u: UserEvents, states: seq<State>, steps: seq<Step>, i: nat, k: nat)
    requires Serves(u, states, steps) && Follows(steps, i, k) && F.Calls(states[i], steps[i], C.Advance) && states[i].pending == C.NextSend
    ensures F.RunsThrough(states, steps, k + 1, u.beforeSend + [C.Handler(WriteResponse), C.Handler(PassBack)], [C.Send])
  {
    hide F.RunsThrough, Does, IsRun, C.Next, C.Enabled, C.Inv;
    ServesRuns(u, states, steps);
    C.EveryState(EVENTS, states, steps, i);
    assert C.Enabled(states[i], steps[i]);
    F.AdvanceNext(EVENTS, states[i]);
    Waits(u, states, steps, i + 1, k, OnBeforeSend, [], [C.Send]);
    var parsed := HookThen(u, states, steps, k, OnBeforeSend, [], [C.Send]);
    DoesFront(u, OnBeforeSend, parsed, states[k].cb.stack, steps[k]);
    assert steps[k].first + [] == u.beforeSend + [C.Handler(WriteResponse), C.Handler(PassBack)];
  }

  /** After a send the user's functions run, then the messages are reset, the TCP connection is passed back and a receive is requested. */
  lemma SentHttp(u: UserEvents, states: seq<State>, steps: seq<Step>, i: nat, k: nat)
    requires Serves(u, states, steps) && Follows(steps, i, k) && states[i + 1].sent != states[i].sent
    ensures F.RunsThrough(states, steps, k + 1, u.afterSend + [C.Handler(ResetMessages), C.Handler(PassBack), C.Handler(AskRecv)], [C.AfterSend, C.Advance])
    ensures steps[k].InvokeHandler? && (steps[k].requests == [C.NextClose] || steps[k].requests == [C.NextRecv])
  {
    hide F.RunsThrough, Does, IsRun, C.Next, C.Enabled, C.Inv;
    ServesRuns(u, states, steps);
    C.EveryState(EVENTS, states, steps, i);
    assert C.Enabled(states[i], steps[i]);
    F.Counters(EVENTS, states, steps, i);
    F.SentNext(EVENTS, states[i]);
    Waits(u, states, steps, i + 1, k, OnSent, [C.Handler(AskRecv)], [C.AfterSend, C.Advance]);
    var parsed := HookThen(u, states, steps, k, OnSent, [C.Handler(AskRecv)], [C.AfterSend, C.Advance]);
    DoesFront(u, OnSent, parsed, states[k].cb.stack, steps[k]);
    assert steps[k].first + [C.Handler(AskRecv)] == u.afterSend + [C.Handler(ResetMessages), C.Handler(PassBack), C.Handler(AskRecv)];
  }

  /** Before the close the user's functions run, and the TCP connection is passed back. */
  lemma ClosesHttp(u: UserEvents, states: seq<State>, steps: seq<Step>, i: nat, k: nat)
    requires Serves(u, states, steps) && Follows(steps, i, k) && F.Calls(states[i], steps[i], C.Advance) && states[i].pending == C.NextClose
    ensures F.RunsThrough(states, steps, k + 1, u.beforeClose + [C.Handler(PassBack)], [C.Close])
  {
    hide F.RunsThrough, Does, IsRun, C.Next, C.Enabled, C.Inv;
    ServesRuns(u, states, steps);
    C.EveryState(EVENTS, states, steps, i);
    assert C.Enabled(states[i], steps[i]);
    F.AdvanceNext(EVENTS, states[i]);
    Waits(u, states, steps, i + 1, k, OnBeforeClose, [], [C.Close]);
    var parsed := HookThen(u, states, steps, k, OnBeforeClose, [], [C.Close]);
    DoesFront(u, OnBeforeClose, parsed, states[k].cb.stack, steps[k]);
    assert steps[k].first + [] == u.beforeClose + [C.Handler(PassBack)];
  }

  /** After the close the user's functions run, and the HTTP connection is disposed of. */
  lemma ClosedHttp(u: UserEvents, states: seq<State>, steps: seq<Step>, i: nat, k: nat)
    requires Serves(u, states, steps) && Follows(steps, i, k) && states[i + 1].closes != states[i].closes
    ensures F.RunsThrough(states, steps, k + 1, u.afterClose + [C.Handler(DisposeHttp)], [C.AfterClose])
  {
    hide F.RunsThrough, Does, IsRun, C.Next, C.Enabled, C.Inv;
    ServesRuns(u, states, steps);
    C.EveryState(EVENTS, states, steps, i);
    assert C.Enabled(states[i], steps[i]);
    F.Counters(EVENTS, states, steps, i);
    F.ClosedNext(EVENTS, states[i]);
    Waits(u, states, steps, i + 1, k, OnClosed, [], [C.AfterClose]);
    var parsed := HookThen(u, states, steps, k, OnClosed, [], [C.AfterClose]);
    DoesFront(u, OnClosed, parsed, states[k].cb.stack, steps[k]);
    assert steps[k].first + [] == u.afterClose + [C.Handler(DisposeHttp)];
  }

  // ----- a request and its response

  /** The user's functions for a complete request, with or without those for its headers. */
  ghost predicate UsersOfRequest(u: UserEvents, us: seq<Func>) {
    us == u.afterRecvMsg || us == u.afterRecvHeaders + u.afterRecvMsg
  }

  /** The search for handlers runs behind these, then the TCP connection is passed back and a send requested. */
  function Handled(us: seq<Func>): seq<Func> {
    us + [C.Handler(ProcessHandlers), C.Handler(PassBack), C.Handler(AskSend)]
  }

  lemma AtRecv(states: seq<State>, steps: seq<Step>, i: nat)
    requires C.EventsOk(EVENTS) && C.IsRun(EVENTS, states, steps) && i < |steps| && states[i + 1].received != states[i].received
    ensures states[i + 1].phase == C.Running
    ensures states[i + 1].cb.funcs == [C.Handler(OnRecv)] + [C.Handler(AskSend)] + [C.Advance]
  {
    hide C.Next, C.Enabled, C.Inv;
    C.EveryState(EVENTS, states, steps, i);
    F.Counters(EVENTS, states, steps, i);
    C.CoreAlone(states[i]);
    assert C.Enabled(states[i], steps[i]);
    F.AtRecv(states[i], steps[i]);
    F.RecvNext(EVENTS, states[i]);
  }

  /** Either the request is complete and its handlers are searched for, or a receive is requested. */
  ghost predicate Handles(u: UserEvents, states: seq<State>, steps: seq<Step>, k: nat, us: seq<Func>)
    requires k < |steps| == |states| - 1 && steps[k].InvokeHandler?
  {
    if steps[k].requests == [] then
      UsersOfRequest(u, us) && F.RunsThrough(states, steps, k + 1, Handled(us), [C.Advance])
    else
      && steps[k].requests == [C.NextRecv] && (us == [] || us == u.afterRecvHeaders + [C.Handler(PassBack)])
      && F.RunsThrough(states, steps, k + 1, us + [C.Handler(AskSend)], [C.Advance])
  }

  lemma HandlesFront(u: UserEvents, parsed: Parsed, first: seq<Func>, requests: seq<C.Pending>) returns (us: seq<Func>)
    requires first == Front(u, OnRecv, parsed) && Asks(OnRecv, parsed, requests)
    ensures requests == [] ==> UsersOfRequest(u, us) && first + [C.Handler(AskSend)] == Handled(us)
    ensures requests != [] ==> requests == [C.NextRecv] && first == us && (us == [] || us == u.afterRecvHeaders + [C.Handler(PassBack)])
  {
    match parsed {
      case WithHeaders =>
        us := u.afterRecvHeaders + u.afterRecvMsg;
        assert first + [C.Handler(AskSend)] == Handled(us);
      case BodyAtLast =>
        us := u.afterRecvMsg;
        assert first + [C.Handler(AskSend)] == Handled(us);
      case _ => us := first;
    }
  }

  /** After a receive: the functions for a complete request, or another receive. */
  lemma ReceivesHttp(u: UserEvents, states: seq<State>, steps: seq<Step>, i: nat, k: nat) returns (us: seq<Func>)
    requires Serves(u, states, steps) && Follows(steps, i, k) && states[i + 1].received != states[i].received
    ensures steps[k].InvokeHandler? && Handles(u, states, steps, k, us)
    ensures states[k + 1].pending == F.FirstOf(states[k].pending, steps[k].requests)
  {
    hide F.RunsThrough, Does, IsRun, C.Next, C.Enabled, C.Inv, EVENTS, Front, Asks, UsersOfRequest;
    ServesRuns(u, states, steps);
    AtRecv(states, steps, i);
    Waits(u, states, steps, i + 1, k, OnRecv, [C.Handler(AskSend)], [C.Advance]);
    var parsed := HookThen(u, states, steps, k, OnRecv, [C.Handler(AskSend)], [C.Advance]);
    DoesFront(u, OnRecv, parsed, states[k].cb.stack, steps[k]);
    us := HandlesFront(u, parsed, steps[k].first, steps[k].requests);
  }

  ghost predicate Invokes(s: State, a: Step, h: Hook) {
    a.InvokeHandler? && AtHook(s) && s.cb.funcs[0].hook == h
  }

  predicate IsFlow(h: Hook) {
    h == AskRecv || h == AskSend
  }

  function RequestOf(h: Hook): C.Pending
    requires IsFlow(h)
  {
    if h == AskRecv then C.NextRecv else C.NextSend
  }

  /** Only the flow's own function requests anything between these states. */
  ghost predicate OnlyFlowAsks(states: seq<State>, steps: seq<Step>, k: nat, m: nat, ask: Hook) {
    m <= |steps| < |states| && forall q :: k <= q < m ==> F.AskedIn(steps[q]) == [] || Invokes(states[q], steps[q], ask)
  }

  lemma FlowAsks(u: UserEvents, states: seq<State>, steps: seq<Step>, q: nat, ask: Hook)
    requires Serves(u, states, steps) && q < |steps| && IsFlow(ask) && Invokes(states[q], steps[q], ask)
    ensures F.AskedIn(steps[q]) == [RequestOf(ask)]
  {
    hide C.Next, EVENTS;
    assert Enabled(u, states[q], steps[q]);
  }

  lemma {:induction false} AllAsked(u: UserEvents, states: seq<State>, steps: seq<Step>, k: nat, p: nat, m: nat, ask: Hook)
    requires Serves(u, states, steps) && k <= m && IsFlow(ask) && OnlyFlowAsks(states, steps, k, m, ask)
    ensures forall r :: r in F.Requested(steps, k, m) ==> r == RequestOf(ask)
    ensures k <= p < m && Invokes(states[p], steps[p], ask) ==> F.Requested(steps, k, m) != []
    decreases m
  {
    hide Serves, Invokes, F.Requested, F.AskedIn, RequestOf;
    F.RequestedUnfolds(steps, k, m);
    if k < m {
      AllAsked(u, states, steps, k, p, m - 1, ask);
      if Invokes(states[m - 1], steps[m - 1], ask) {
        FlowAsks(u, states, steps, m - 1, ask);
      }
    }
  }

  lemma HandlersQuiet(u: UserEvents, states: seq<State>, steps: seq<Step>, k: nat, j: nat, m: nat)
    requires Serves(u, states, steps) && F.FirstAway(states, k, j) && j <= m && F.OutsideOnly(steps, j, m)
    ensures F.QuietUntil(states, steps, k, m)
  {
    hide C.Next, C.Enabled, EVENTS, IsRun;
    ServesRuns(u, states, steps);
    forall q | k <= q < m
      ensures F.Quiet(states[q], steps[q])
    {
      if q < j {
        assert C.Enabled(states[q], steps[q]);
        F.HandlerNext(EVENTS, states[q], steps[q]);
      }
    }
  }

  /** When handlers that end with a request of the flow are through, and nobody else asked for anything, it is pending. */
  lemma FlowPending(u: UserEvents, states: seq<State>, steps: seq<Step>, k: nat, j: nat, m: nat, hs: seq<Func>, ask: Hook, ps: seq<nat>)
    requires Serves(u, states, steps) && F.FirstAway(states, k, j) && j <= m < |steps| && states[k].pending == C.Nothing
    requires F.OutsideOnly(steps, j, m) && !steps[m].Outside? && OnlyFlowAsks(states, steps, k, m, ask) && IsFlow(ask)
    requires F.AllInvoked(states, steps, k, j, hs, [C.Advance], ps) && hs != [] && hs[|hs| - 1] == C.Handler(ask)
    ensures F.Calls(states[m], steps[m], C.Advance) && states[m].pending == RequestOf(ask)
  {
    hide C.Next, C.Enabled, EVENTS, IsRun, F.OutsideOnly, OnlyFlowAsks, F.QuietUntil;
    ServesRuns(u, states, steps);
    F.StaysOutside(EVENTS, states, steps, j, m);
    assert C.Enabled(states[m], steps[m]);
    F.AtAdvance(states[m], steps[m]);
    HandlersQuiet(u, states, steps, k, j, m);
    F.FirstPending(EVENTS, states, steps, k, m);
    var p := LastAsks(states, steps, k, j, hs, ask, ps);
    AllAsked(u, states, steps, k, p, m, ask);
    var requests := F.Requested(steps, k, m);
    assert requests[0] in requests;
  }

  lemma LastAsks(states: seq<State>, steps: seq<Step>, k: nat, j: nat, hs: seq<Func>, ask: Hook, ps: seq<nat>) returns (p: nat)
    requires j < |states| == |steps| + 1 && F.AllInvoked(states, steps, k, j, hs, [C.Advance], ps) && hs != [] && hs[|hs| - 1] == C.Handler(ask)
    requires F.FirstAway(states, k, j)
    ensures k <= p < j && Invokes(states[p], steps[p], ask)
  {
    hide F.EndsWith;
    var n := |hs| - 1;
    p := ps[n];
    assert F.InvokedAt(states, steps, k, ps[n], hs[n..], [C.Advance]);
    assert hs[n..] == [C.Handler(ask)];
  }

  /**
   A complete request is answered: when nothing is pending and only the flow asks for operations, first the user's functions and
   the search for handlers run, and then advance starts a send, before which the response is written.
   */
  lemma Answers(u: UserEvents, states: seq<State>, steps: seq<Step>, i: nat, k: nat, j: nat, m: nat, n: nat)
    returns (us: seq<Func>, ps: seq<nat>)
    requires Serves(u, states, steps) && Follows(steps, i, k) && states[i + 1].received != states[i].received
    requires steps[k].InvokeHandler? ==> steps[k].requests == [] && states[k].pending == C.Nothing
    requires F.FirstAway(states, k + 1, j) && j <= m < |steps| && F.OutsideOnly(steps, j, m) && !steps[m].Outside?
    requires OnlyFlowAsks(states, steps, k + 1, m, AskSend) && Follows(steps, m, n)
    ensures UsersOfRequest(u, us) && F.AllInvoked(states, steps, k + 1, j, Handled(us), [C.Advance], ps)
    ensures F.RunsThrough(states, steps, n + 1, u.beforeSend + [C.Handler(WriteResponse), C.Handler(PassBack)], [C.Send])
  {
    hide C.Next, IsRun, F.AllInvoked, OnlyFlowAsks, F.OutsideOnly, C.Enabled;
    ServesRuns(u, states, steps);
    us := ReceivesHttp(u, states, steps, i, k);
    ps :| F.AllInvoked(states, steps, k + 1, j, Handled(us), [C.Advance], ps);
    FlowPending(u, states, steps, k + 1, j, m, Handled(us), AskSend, ps);
    SendsHttp(u, states, steps, m, n);
  }

  /** The server receives first: when only the flow asks for operations, the first advance starts a receive. */
  lemma ReceivesFirst(u: UserEvents, states: seq<State>, steps: seq<Step>, k: nat, j: nat, m: nat)
    requires Serves(u, states, steps) && k < |steps| && F.OutsideOnly(steps, 0, k) && !steps[k].Outside? && states[k].pending == C.Nothing
    requires F.FirstAway(states, k + 1, j) && j <= m < |steps| && F.OutsideOnly(steps, j, m) && !steps[m].Outside?
    requires OnlyFlowAsks(states, steps, k + 1, m, AskRecv)
    ensures F.Calls(states[m], steps[m], C.Advance) && F.RunsThrough(states, steps, m + 1, [], [C.BeforeRecv])
  {
    hide C.Next, IsRun, F.AllInvoked, OnlyFlowAsks, F.OutsideOnly, C.Enabled;
    ServesRuns(u, states, steps);
    OpensHttp(u, states, steps, k);
    var hs := u.afterOpen + [C.Handler(PassBack), C.Handler(AskRecv)];
    var ps :| F.AllInvoked(states, steps, k + 1, j, hs, [C.Advance], ps);
    FlowPending(u, states, steps, k + 1, j, m, hs, AskRecv, ps);
    F.Advances(EVENTS, states, steps, m);
  }

  // ----- every outcome can occur

  /** The next function of the server can run, with these requests. */
  ghost predicate CanAsk(u: UserEvents, s: State, requests: seq<C.Pending>) {
    exists a: Step :: a.InvokeHandler? && a.requests == requests && Enabled(u, s, a)
  }

  lemma HookCan(u: UserEvents, s: State, parsed: Parsed, requests: seq<C.Pending>)
    requires s.phase == C.Running && s.cb.funcs != [] && s.cb.funcs[0].Handler? && s.cb.stack != []
    requires !s.cb.funcs[0].hook.User? && !s.cb.funcs[0].hook.ProcessHandlers? && Asks(s.cb.funcs[0].hook, parsed, requests)
    ensures CanAsk(u, s, requests)
  {
    var h := s.cb.funcs[0].hook;
    var a := C.InvokeHandler(requests, Front(u, h, parsed), Exchanged(h, parsed, s.cb.stack));
    assert Does(u, h, parsed, s.cb.stack, a);
    assert Enabled(u, s, a);
  }

  lemma OthersCan(u: UserEvents, s: State, requests: seq<C.Pending>, us: seq<Func>)
    requires s.phase == C.Running && s.cb.funcs != [] && s.cb.funcs[0].Handler? && s.cb.stack != []
    requires UsersOnly(us) && forall r :: r in requests ==> C.IsRequest(r)
    ensures s.cb.funcs[0].hook.User? ==> Enabled(u, s, C.InvokeHandler(requests, us, s.cb.stack))
    ensures s.cb.funcs[0].hook.ProcessHandlers? ==> Enabled(u, s, C.InvokeHandler([], us + [C.Handler(ProcessHandlers)], s.cb.stack))
    ensures s.cb.funcs[0].hook.ProcessHandlers? ==> Enabled(u, s, C.InvokeHandler([], [], s.cb.stack))
  {
    var h, stack := s.cb.funcs[0].hook, s.cb.stack;
    if h.User? {
      assert Does(u, h, Incomplete, stack, C.InvokeHandler(requests, us, stack));
    } else if h.ProcessHandlers? {
      assert Does(u, h, Incomplete, stack, C.InvokeHandler([], us + [C.Handler(ProcessHandlers)], stack));
      assert Does(u, h, Incomplete, stack, C.InvokeHandler([], [], stack));
    }
  }

  /**
   In every run, whichever function of the server or user is next: a receive may complete the request or not, after a
   send a close or a receive may be requested, a user function may request anything and put others in front, the search for
   handlers may find one or not, and every other function can run.
   */
  lemma EveryOutcome(u: UserEvents, states: seq<State>, steps: seq<Step>, i: nat, requests: seq<C.Pending>, us: seq<Func>)
    requires Serves(u, states, steps) && i < |states| && AtHook(states[i])
    requires UsersOnly(us) && forall r :: r in requests ==> C.IsRequest(r)
    ensures var s := states[i];
            match s.cb.funcs[0].hook
            case OnRecv => CanAsk(u, s, []) && CanAsk(u, s, [C.NextRecv])
            case OnSent => CanAsk(u, s, [C.NextClose]) && CanAsk(u, s, [C.NextRecv])
            case AskRecv => CanAsk(u, s, [C.NextRecv])
            case AskSend => CanAsk(u, s, [C.NextSend])
            case User(_) => Enabled(u, s, C.InvokeHandler(requests, us, s.cb.stack))
            case ProcessHandlers =>
              && Enabled(u, s, C.InvokeHandler([], us + [C.Handler(ProcessHandlers)], s.cb.stack))
              && Enabled(u, s, C.InvokeHandler([], [], s.cb.stack))
            case _ => CanAsk(u, s, [])
  {
    hide CanAsk, Enabled, IsRun;
    HttpRuns(u, states, steps);
    assert FindsObject(states[i]);
    var s := states[i];
    OthersCan(u, s, requests, us);
    match s.cb.funcs[0].hook {
      case OnRecv =>
        HookCan(u, s, BodyAtLast, []);
        HookCan(u, s, Incomplete, [C.NextRecv]);
      case OnSent =>
        HookCan(u, s, Incomplete, [C.NextClose]);
        HookCan(u, s, Incomplete, [C.NextRecv]);
      case AskRecv => HookCan(u, s, Incomplete, [C.NextRecv]);
      case AskSend => HookCan(u, s, Incomplete, [C.NextSend]);
      case User(_) =>
      case ProcessHandlers =>
      case _ => HookCan(u, s, Incomplete, []);
    }
  }
}
