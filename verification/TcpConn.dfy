/**
 uo_tcp_conn: the connection as a machine driven by the contents of one callback. Each step is one
 invocation of a function of the callback, except that the two atomic accesses of advance are two
 steps, and other threads may request the next operation at any moment between steps.
 Writes are taken to succeed, as the send loop has no working failure branch.
 */
module TcpConn {
  import opened Callback

  /** The atomic state: the operation requested next, or idle. */
  datatype Pending = Nothing | NextRecv | NextSend | NextClose | Idle

  /** uo_tcp_conn_next_recv, _send and _close ask for these. */
  predicate IsRequest(p: Pending) {
    p == NextRecv || p == NextSend || p == NextClose
  }

  /** uo_tcp_conn_next_state while the connection is not idle: the compare-exchange succeeds only from nothing. */
  function Ask(current: Pending, request: Pending): Pending {
    if current == Nothing then request else current
  }

  function AskAll(current: Pending, requests: seq<Pending>): Pending
    decreases |requests|
  {
    if requests == [] then current else AskAll(Ask(current, requests[0]), requests[1..])
  }

  /** Of several requests between two advances the first one decides, and the others are ignored. */
  lemma {:induction false} FirstRequestWins(requests: seq<Pending>)
    requires forall i :: 0 <= i < |requests| ==> IsRequest(requests[i])
    ensures AskAll(Nothing, requests) == if requests == [] then Nothing else requests[0]
  {
    if requests != [] {
      LaterIgnored(requests[0], requests[1..]);
    }
  }

  lemma {:induction false} LaterIgnored(current: Pending, requests: seq<Pending>)
    requires current != Nothing
    ensures AskAll(current, requests) == current
    decreases |requests|
  {
    if requests != [] {
      LaterIgnored(current, requests[1..]);
    }
  }

  /** The functions a callback of a connection can hold. Handlers are the user's, or a protocol's. */
  datatype Func<H> = Advance | BeforeRecv | Recv | Send | Close | AfterClose | AfterSend | Handler(hook: H)

  /** The continuations that keep the connection going; exactly one of them should be pending. */
  predicate IsCore<H>(f: Func<H>) {
    !f.Handler? && !f.AfterSend?
  }

  /** What lies on the stack: the connection, lengths and error codes, a forgotten event, or a protocol's object. */
  datatype Item = TheConn | Number(n: nat) | Event | Object(id: int)

  /** The event handlers, as lists of functions. Their callbacks carry no data of their own. */
  datatype Events<H> = Events(
    afterOpen: seq<Func<H>>, beforeRecv: seq<Func<H>>, afterRecv: seq<Func<H>>, beforeSend: seq<Func<H>>,
    afterSend: seq<Func<H>>, beforeClose: seq<Func<H>>, afterClose: seq<Func<H>>)

  predicate HandlersOnly<H>(fs: seq<Func<H>>) {
    forall i :: 0 <= i < |fs| ==> fs[i].Handler?
  }

  ghost predicate EventsOk<H>(ev: Events<H>) {
    && HandlersOnly(ev.afterOpen) && HandlersOnly(ev.beforeRecv) && HandlersOnly(ev.afterRecv)
    && HandlersOnly(ev.beforeSend) && HandlersOnly(ev.afterSend) && HandlersOnly(ev.beforeClose) && HandlersOnly(ev.afterClose)
  }

  /** Running, between the two atomic accesses of advance, gone idle, or destroyed. */
  datatype Phase = Running | Deciding | GoneIdle | Destroyed

  datatype State<H> = State(
    phase: Phase, pending: Pending, cb: Cb<Func<H>, Item>, received: nat, sent: nat, closes: nat, destroys: nat)

  /** What the environment contributes to a step. */
  datatype Step<H> =
    | Invoke
    | InvokeRead(length: nat, leftover: bool)
    | InvokeHandler(requests: seq<Pending>, first: seq<Func<H>>, stack: seq<Item>)
    | Decide
    | Outside(request: Pending)

  /** uo_tcp_conn_open. */
  function Opened<H>(ev: Events<H>): State<H> {
    State(Running, Nothing, Cb(ev.afterOpen + [Advance], [TheConn]), 0, 0, 0, 0)
  }

  /** Handlers must hand the connection back at the bottom of the stack before its next function runs. */
  predicate HandsBack<H>(fs: seq<Func<H>>, stack: seq<Item>) {
    (fs != [] && fs[0].Handler?) || (stack != [] && stack[0] == TheConn)
  }

  /** The step is the next one that the callback, or another thread, can make. */
  ghost predicate Possible<H>(s: State<H>, a: Step<H>) {
    match a
    case Invoke =>
      && s.phase == Running && s.cb.funcs != [] && !s.cb.funcs[0].Handler? && s.cb.funcs[0] != BeforeRecv
      && (s.cb.funcs[0] == Recv ==> ReadResult(s.cb.stack))
    case InvokeRead(_, _) => s.phase == Running && s.cb.funcs != [] && s.cb.funcs[0] == BeforeRecv
    case InvokeHandler(_, _, _) => s.phase == Running && s.cb.funcs != [] && s.cb.funcs[0].Handler?
    case Decide => s.phase == Deciding
    case Outside(request) => (s.phase == Running || s.phase == Deciding) && IsRequest(request)
  }

  /** What is asked of handlers: proper requests, only handlers put in front, and the connection handed back. */
  ghost predicate Behaves<H>(s: State<H>, a: Step<H>)
    requires a.InvokeHandler? && s.cb.funcs != []
  {
    && (forall i :: 0 <= i < |a.requests| ==> IsRequest(a.requests[i]))
    && HandlersOnly(a.first) && HandsBack(a.first + s.cb.funcs[1..], a.stack)
  }

  ghost predicate Enabled<H>(s: State<H>, a: Step<H>) {
    Possible(s, a) && (a.InvokeHandler? ==> Behaves(s, a))
  }

  function Then<H>(s: State<H>, fs: seq<Func<H>>): State<H>
    requires s.cb.funcs != []
  {
    s.(cb := Cb(s.cb.funcs[1..] + fs, s.cb.stack))
  }

  ghost function Next<H>(ev: Events<H>, s: State<H>, a: Step<H>): State<H>
    requires Possible(s, a)
  {
    match a
    case Invoke => Called(ev, s)
    case InvokeRead(length, leftover) =>
      var junk := if length == 0 && leftover then [Event] else [];
      s.(cb := Cb([Recv] + s.cb.funcs[1..],
                  s.cb.stack + junk + if length > 0 then [Number(length)] else [Number(1), Number(0)]))
    case InvokeHandler(requests, first, stack) =>
      s.(pending := AskAll(s.pending, requests), cb := Cb(first + s.cb.funcs[1..], stack))
    case Decide =>
      if s.pending == Nothing then s.(pending := Idle, phase := GoneIdle)
      else s.(phase := Running, cb := Cb(s.cb.funcs + [Advance], s.cb.stack))
    case Outside(request) => s.(pending := Ask(s.pending, request))
  }

  /** The bodies of the connection's own functions. */
  ghost function Called<H>(ev: Events<H>, s: State<H>): State<H>
    requires Possible(s, Invoke)
  {
    var n := |s.cb.stack|;
    match s.cb.funcs[0]
    case Advance =>
      var t := s.(pending := Nothing);
      (match s.pending
       case NextRecv => Then(t, ev.beforeRecv + [BeforeRecv])
       case NextSend => Then(t, ev.beforeSend + [Send])
       case NextClose => Then(t, ev.beforeClose + [Close])
       case Nothing => Then(t, []).(phase := Deciding)
       case Idle => Then(t, []).(phase := GoneIdle))
    case Recv =>
      if s.cb.stack[n - 1].n > 0 then
        Then(s.(cb := Cb(s.cb.funcs, s.cb.stack[..n - 1]), received := s.received + 1), ev.afterRecv + [Advance])
      else
        Then(s.(cb := Cb(s.cb.funcs, s.cb.stack[..n - 2]), pending := Ask(s.pending, NextClose)), [Advance])
    case Send => Then(s.(sent := s.sent + 1), ev.afterSend + [AfterSend, Advance])
    case AfterSend => Then(s, [])
    case Close => Then(s.(closes := s.closes + 1), ev.afterClose + [AfterClose])
    case AfterClose => Then(s.(destroys := s.destroys + 1, phase := Destroyed), [])
    case BeforeRecv => s
    case Handler(_) => s
  }

  // ----- the invariant

  /** Handlers and after_send steps, and then one core continuation at the very end. */
  ghost predicate OneCore<H>(fs: seq<Func<H>>, core: Func<H>) {
    && fs != [] && fs[|fs| - 1] == core && IsCore(core)
    && forall i :: 0 <= i < |fs| - 1 ==> !IsCore(fs[i])
  }

  ghost predicate Inv<H>(s: State<H>) {
    match s.phase
    case Running =>
      && s.cb.funcs != []
      && var core := s.cb.funcs[|s.cb.funcs| - 1];
      && OneCore(s.cb.funcs, core)
      && s.pending != Idle
      && HandsBack(s.cb.funcs, s.cb.stack)
      && (core == Recv ==> s.cb.funcs == [Recv] && ReadResult(s.cb.stack))
      && s.destroys == 0 && s.closes == if core == AfterClose then 1 else 0
    case Deciding => s.cb.funcs == [] && HandsBack<H>([], s.cb.stack) && s.pending != Idle && s.closes == 0 && s.destroys == 0
    case GoneIdle => s.cb.funcs == [] && s.pending == Idle && s.closes == 0 && s.destroys == 0
    case Destroyed => s.cb.funcs == [] && s.closes == 1 && s.destroys == 1
  }

  /** A finished read leaves its length on the stack, or an error code and zero. */
  ghost predicate ReadResult(stack: seq<Item>) {
    && |stack| >= 2 && stack[|stack| - 1].Number?
    && (stack[|stack| - 1].n == 0 ==> |stack| >= 3)
  }

  /** How many core continuations are pending. */
  ghost function CoreCount<H>(fs: seq<Func<H>>): nat {
    if fs == [] then 0 else (if IsCore(fs[0]) then 1 else 0) + CoreCount(fs[1..])
  }

  lemma {:induction false} OneCoreCounts<H>(fs: seq<Func<H>>, core: Func<H>)
    requires OneCore(fs, core)
    ensures CoreCount(fs) == 1
  {
    if |fs| > 1 {
      OneCoreCounts(fs[1..], core);
    }
  }

  /** A core function is the only one of its list. */
  lemma CoreAlone<H>(s: State<H>)
    requires Inv(s) && s.phase == Running && IsCore(s.cb.funcs[0])
    ensures s.cb.funcs == [s.cb.funcs[0]]
  {
  }

  lemma AppendedCore<H>(hs: seq<Func<H>>, core: Func<H>)
    requires HandlersOnly(hs) && IsCore(core)
    ensures OneCore([] + (hs + [core]), core) && HandlersFirst(hs + [core], core)
  {
  }

  /** Handlers, if there are any, and then a core function. */
  ghost predicate HandlersFirst<H>(fs: seq<Func<H>>, core: Func<H>) {
    fs != [] && fs[|fs| - 1] == core && (fs[0].Handler? || fs == [core])
  }

  lemma AdvanceInv<H>(ev: Events<H>, s: State<H>)
    requires EventsOk(ev) && Inv(s) && Enabled(s, Invoke) && s.cb.funcs[0] == Advance
    ensures Inv(Called(ev, s))
  {
    hide OneCore;
    assert s.cb.funcs == [Advance] by { CoreAlone(s); }
    AppendedCore(ev.beforeRecv, BeforeRecv);
    AppendedCore(ev.beforeSend, Send);
    AppendedCore(ev.beforeClose, Close);
    assert s.cb.funcs[1..] == [];
  }

  /** Below the result of a read the connection is still at the bottom. */
  lemma ReadPopped(stack: seq<Item>)
    requires ReadResult(stack) && stack[0] == TheConn
    ensures var n := |stack|;
            stack[n - 1].Number? && if stack[n - 1].n > 0 then |stack[..n - 1]| > 0 && stack[..n - 1][0] == TheConn
                                    else n >= 3 && |stack[..n - 2]| > 0 && stack[..n - 2][0] == TheConn
  {
  }

  lemma RecvInv<H>(ev: Events<H>, s: State<H>)
    requires EventsOk(ev) && Inv(s) && Enabled(s, Invoke) && s.cb.funcs[0] == Recv
    ensures Inv(Called(ev, s))
  {
    hide OneCore, ReadResult;
    assert s.cb.funcs == [Recv] by { CoreAlone(s); }
    ReadPopped(s.cb.stack);
    var rest := s.cb.funcs[1..];
    AppendedCore(ev.afterRecv, Advance);
    AppendedCore(rest, Advance);
    assert rest == [] && rest + [Advance] == [Advance];
  }

  lemma SendInv<H>(ev: Events<H>, s: State<H>)
    requires EventsOk(ev) && Inv(s) && Enabled(s, Invoke) && s.cb.funcs[0] == Send
    ensures Inv(Called(ev, s))
  {
    assert s.cb.funcs == [Send] by { CoreAlone(s); }
    assert s.cb.funcs[1..] == [];
  }

  lemma CloseInv<H>(ev: Events<H>, s: State<H>)
    requires EventsOk(ev) && Inv(s) && Enabled(s, Invoke) && s.cb.funcs[0] == Close
    ensures Inv(Called(ev, s))
  {
    hide OneCore;
    assert s.cb.funcs == [Close] by { CoreAlone(s); }
    AppendedCore(ev.afterClose, AfterClose);
    assert s.cb.funcs[1..] == [];
  }

  lemma CalledInv<H>(ev: Events<H>, s: State<H>)
    requires EventsOk(ev) && Inv(s) && Enabled(s, Invoke)
    ensures Inv(Called(ev, s))
  {
    match s.cb.funcs[0] {
      case Advance => AdvanceInv(ev, s);
      case Recv => RecvInv(ev, s);
      case Send => SendInv(ev, s);
      case Close => CloseInv(ev, s);
      case AfterClose => CoreAlone(s);
      case AfterSend => assert |s.cb.funcs| > 1 && s.cb.funcs[1..] + [] == s.cb.funcs[1..];
      case _ =>
    }
  }

  lemma {:induction false} AsksNeverIdle(current: Pending, requests: seq<Pending>)
    requires current != Idle && forall i :: 0 <= i < |requests| ==> IsRequest(requests[i])
    ensures AskAll(current, requests) != Idle
    decreases |requests|
  {
    if requests != [] {
      AsksNeverIdle(Ask(current, requests[0]), requests[1..]);
    }
  }

  lemma HandlerInv<H>(ev: Events<H>, s: State<H>, a: Step<H>)
    requires EventsOk(ev) && Inv(s) && a.InvokeHandler? && Enabled(s, a)
    ensures Inv(Next(ev, s, a))
  {
    AsksNeverIdle(s.pending, a.requests);
    var fs := a.first + s.cb.funcs[1..];
    assert fs[|fs| - 1] == s.cb.funcs[|s.cb.funcs| - 1];
    assert forall i :: 0 <= i < |fs| - 1 ==> fs[i] == if i < |a.first| then a.first[i] else s.cb.funcs[i - |a.first| + 1];
  }

  lemma StepInv<H>(ev: Events<H>, s: State<H>, a: Step<H>)
    requires EventsOk(ev) && Inv(s) && Enabled(s, a)
    ensures Inv(Next(ev, s, a))
  {
    match a {
      case Invoke => CalledInv(ev, s);
      case InvokeRead(_, _) => assert s.cb.funcs == [BeforeRecv];
      case InvokeHandler(_, _, _) => HandlerInv(ev, s, a);
      case Decide =>
      case Outside(_) =>
    }
  }

  ghost predicate IsRun<H>(ev: Events<H>, states: seq<State<H>>, steps: seq<Step<H>>) {
    && |states| == |steps| + 1
    && states[0] == Opened(ev)
    && forall i :: 0 <= i < |steps| ==> Enabled(states[i], steps[i]) && states[i + 1] == Next(ev, states[i], steps[i])
  }

  lemma {:induction false} EveryState<H>(ev: Events<H>, states: seq<State<H>>, steps: seq<Step<H>>, i: nat)
    requires EventsOk(ev) && IsRun(ev, states, steps) && i < |states|
    ensures Inv(states[i])
  {
    if i > 0 {
      EveryState(ev, states, steps, i - 1);
      StepInv(ev, states[i - 1], steps[i - 1]);
    }
  }

  /**
   In every state of every run, until the connection goes idle or is destroyed, exactly one core
   continuation is pending (or advance itself is between its two accesses); the connection's own
   functions find the connection at the bottom of the stack; close and destroy each happen at most
   once, in this order; and nothing runs once the connection is idle or destroyed.
   */
  lemma OneDriver<H>(ev: Events<H>, states: seq<State<H>>, steps: seq<Step<H>>, i: nat)
    requires EventsOk(ev) && IsRun(ev, states, steps) && i < |states|
    ensures var s := states[i];
            && (s.phase == Running ==> CoreCount(s.cb.funcs) == 1)
            && (s.phase == Running && !s.cb.funcs[0].Handler? ==> s.cb.stack != [] && s.cb.stack[0] == TheConn)
            && (s.phase != Running ==> s.cb.funcs == [])
            && s.destroys <= s.closes <= 1
            && (s.destroys == 1 <==> s.phase == Destroyed)
            && (s.phase == GoneIdle || s.phase == Destroyed ==> i == |steps|)
  {
    EveryState(ev, states, steps, i);
    var s := states[i];
    if s.phase == Running {
      OneCoreCounts(s.cb.funcs, s.cb.funcs[|s.cb.funcs| - 1]);
    }
    if i < |steps| {
      assert Enabled(states[i], steps[i]);
    }
  }

  /** A request made before advance runs decides what advance starts. */
  lemma AdvanceObeys<H>(ev: Events<H>, s: State<H>, requests: seq<Pending>)
    requires Inv(s) && s.phase == Running && s.cb.funcs[0] == Advance && requests != []
    requires forall i :: 0 <= i < |requests| ==> IsRequest(requests[i])
    requires s.pending == AskAll(Nothing, requests)
    ensures var t := Called(ev, s);
            t.pending == Nothing && t.cb.funcs ==
              match requests[0]
              case NextRecv => ev.beforeRecv + [BeforeRecv]
              case NextSend => ev.beforeSend + [Send]
              case _ => ev.beforeClose + [Close]
  {
    FirstRequestWins(requests);
    assert s.cb.funcs[1..] == [];
  }
}
