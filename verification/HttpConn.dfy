/**
 The HTTP server's functions on a TCP connection. They exchange the connection on the stack for the HTTP
 connection while HTTP functions run, and back before the connection's own functions run. Every run in
 which they do what the code does is a run of the connection machine.
 */
module HttpConn {
  import C = TcpConn

  /** The event handlers of the server, the flow's functions, and the functions that the handlers put in front. */
  datatype Hook =
    | OnOpen
    | OnRecv
    | OnBeforeSend
    | OnSent
    | OnBeforeClose
    | OnClosed
    | AskRecv
    | AskSend
    | PassBack
    | WriteResponse
    | ResetMessages
    | DisposeHttp
    | ProcessHandlers
    | User(id: int)

  type Func = C.Func<Hook>

  const HTTP: C.Item := C.Object(0)

  /** uo_http_server_create: its handlers come first, then those of the receive-send-repeat flow. */
  const EVENTS: C.Events<Hook> := C.Events(
    [C.Handler(OnOpen), C.Handler(AskRecv)], [], [C.Handler(OnRecv), C.Handler(AskSend)], [C.Handler(OnBeforeSend)],
    [C.Handler(OnSent), C.Handler(AskRecv)], [C.Handler(OnBeforeClose)], [C.Handler(OnClosed)])

  /** The user's functions for the events of the HTTP server. */
  datatype UserEvents = UserEvents(
    afterOpen: seq<Func>, afterRecvHeaders: seq<Func>, afterRecvMsg: seq<Func>, beforeSend: seq<Func>,
    afterSend: seq<Func>, beforeClose: seq<Func>, afterClose: seq<Func>)

  ghost predicate UsersOnly(fs: seq<Func>) {
    forall i :: 0 <= i < |fs| ==> fs[i].Handler? && fs[i].hook.User?
  }

  ghost predicate UserEventsOk(u: UserEvents) {
    && UsersOnly(u.afterOpen) && UsersOnly(u.afterRecvHeaders) && UsersOnly(u.afterRecvMsg)
    && UsersOnly(u.beforeSend) && UsersOnly(u.afterSend) && UsersOnly(u.beforeClose) && UsersOnly(u.afterClose)
  }

  /** How far a request is after a receive. */
  datatype Parsed = Incomplete | HeadersOnly | WithHeaders | BodyAtLast

  /** Pop what is on top and push another. */
  function Swapped(stack: seq<C.Item>, item: C.Item): seq<C.Item>
    requires stack != []
  {
    stack[..|stack| - 1] + [item]
  }

  /** What a function of the server puts in front of the list; any outcome of parsing may occur. */
  ghost function Front(u: UserEvents, h: Hook, parsed: Parsed): seq<Func> {
    match h
    case OnOpen => u.afterOpen + [C.Handler(PassBack)]
    case OnRecv =>
      (match parsed
       case Incomplete => []
       case HeadersOnly => u.afterRecvHeaders + [C.Handler(PassBack)]
       case WithHeaders => u.afterRecvHeaders + (u.afterRecvMsg + [C.Handler(ProcessHandlers), C.Handler(PassBack)])
       case BodyAtLast => u.afterRecvMsg + [C.Handler(ProcessHandlers), C.Handler(PassBack)])
    case OnBeforeSend => u.beforeSend + [C.Handler(WriteResponse), C.Handler(PassBack)]
    case OnSent => u.afterSend + [C.Handler(ResetMessages), C.Handler(PassBack)]
    case OnBeforeClose => u.beforeClose + [C.Handler(PassBack)]
    case OnClosed => u.afterClose + [C.Handler(DisposeHttp)]
    case _ => []
  }

  /** The stack after a function of the server. */
  function Exchanged(h: Hook, parsed: Parsed, stack: seq<C.Item>): seq<C.Item>
    requires stack != []
  {
    match h
    case OnRecv => if parsed == Incomplete then stack else Swapped(stack, HTTP)
    case OnOpen | OnBeforeSend | OnSent | OnBeforeClose | OnClosed => Swapped(stack, HTTP)
    case PassBack | DisposeHttp => Swapped(stack, C.TheConn)
    case _ => stack
  }

  /** What a function of the server asks of the connection. */
  ghost predicate Asks(h: Hook, parsed: Parsed, requests: seq<C.Pending>) {
    match h
    case OnRecv => requests == if parsed == Incomplete || parsed == HeadersOnly then [C.NextRecv] else []
    case OnSent => requests == [C.NextClose] || requests == [C.NextRecv]
    case AskRecv => requests == [C.NextRecv]
    case AskSend => requests == [C.NextSend]
    case _ => requests == []
  }

  /**
   One invocation. Process puts a request handler's functions and itself in front, or nothing. A user
   function may ask for anything and put user functions in front, and leaves the stack as it found it.
   */
  ghost predicate Does(u: UserEvents, h: Hook, parsed: Parsed, stack: seq<C.Item>, a: C.Step<Hook>)
    requires stack != [] && a.InvokeHandler?
  {
    match h
    case User(_) =>
      (forall i :: 0 <= i < |a.requests| ==> C.IsRequest(a.requests[i])) && UsersOnly(a.first) && a.stack == stack
    case ProcessHandlers =>
      && a.requests == [] && a.stack == stack
      && (a.first == [] || exists us :: UsersOnly(us) && a.first == us + [C.Handler(ProcessHandlers)])
    case _ => Asks(h, parsed, a.requests) && a.first == Front(u, h, parsed) && a.stack == Exchanged(h, parsed, stack)
  }

  /** The steps of a connection with these functions. Nothing is asked of what they leave on the stack. */
  ghost predicate Enabled(u: UserEvents, s: C.State<Hook>, a: C.Step<Hook>) {
    if a.InvokeHandler? then
      && s.phase == C.Running && s.cb.funcs != [] && s.cb.funcs[0].Handler? && s.cb.stack != []
      && exists parsed :: Does(u, s.cb.funcs[0].hook, parsed, s.cb.stack, a)
    else C.Enabled(s, a)
  }

  /** A read whose registration fails leaves its event on the stack. */
  predicate Forgets<H>(a: C.Step<H>) {
    a.InvokeRead? && a.length == 0 && a.leftover
  }

  // ----- which object a function finds

  function Needs(f: Func): C.Item {
    if f.Handler? && f.hook in {PassBack, WriteResponse, ResetMessages, DisposeHttp, ProcessHandlers} then HTTP
    else if f.Handler? && f.hook.User? then HTTP
    else C.TheConn
  }

  function Leaves(f: Func): C.Item {
    if f == C.Handler(PassBack) || f == C.Handler(DisposeHttp) then C.TheConn else Needs(f)
  }

  /** What the functions leave on top, if each finds what the one before it leaves. */
  ghost function LeftBy(fs: seq<Func>, top: C.Item): C.Item {
    if fs == [] then top else LeftBy(fs[1..], Leaves(fs[0]))
  }

  ghost predicate Fits(fs: seq<Func>, top: C.Item) {
    fs == [] || (Needs(fs[0]) == top && Fits(fs[1..], Leaves(fs[0])))
  }

  lemma {:induction false} FitsAppend(a: seq<Func>, b: seq<Func>, top: C.Item)
    requires Fits(a, top) && Fits(b, LeftBy(a, top))
    ensures Fits(a + b, top) && LeftBy(a + b, top) == LeftBy(b, LeftBy(a, top))
  {
    if a == [] {
      assert a + b == b;
    } else {
      assert (a + b)[1..] == a[1..] + b;
      FitsAppend(a[1..], b, Leaves(a[0]));
    }
  }

  lemma {:induction false} UsersFit(us: seq<Func>)
    requires UsersOnly(us)
    ensures Fits(us, HTTP) && LeftBy(us, HTTP) == HTTP && C.HandlersOnly(us)
  {
    if us != [] {
      UsersFit(us[1..]);
    }
  }

  lemma FitsOne(f: Func)
    ensures Fits([f], Needs(f)) && LeftBy([f], Needs(f)) == Leaves(f)
  {
    assert [f][1..] == [];
  }

  lemma FitsTwo(f: Func, g: Func)
    requires Leaves(f) == Needs(g)
    ensures Fits([f, g], Needs(f)) && LeftBy([f, g], Needs(f)) == Leaves(g)
  {
    assert [f, g][1..] == [g];
    FitsOne(g);
  }

  /** User functions, and then functions that go on from the HTTP connection. */
  lemma UsersThen(us: seq<Func>, fs: seq<Func>, left: C.Item)
    requires UsersOnly(us) && Fits(fs, HTTP) && LeftBy(fs, HTTP) == left
    ensures Fits(us + fs, HTTP) && LeftBy(us + fs, HTTP) == left
    ensures C.HandlersOnly(fs) ==> C.HandlersOnly(us + fs)
  {
    UsersFit(us);
    FitsAppend(us, fs, HTTP);
  }

  /** Whatever a function puts in front ends with the object that the function after it finds. */
  lemma DoesFits(u: UserEvents, h: Hook, parsed: Parsed, a: C.Step<Hook>)
    requires UserEventsOk(u) && a.InvokeHandler? && Does(u, h, parsed, [Needs(C.Handler(h))], a)
    ensures |a.stack| == 1 && Fits(a.first, a.stack[0]) && LeftBy(a.first, a.stack[0]) == Leaves(C.Handler(h))
    ensures C.HandlersOnly(a.first) && forall i :: 0 <= i < |a.requests| ==> C.IsRequest(a.requests[i])
  {
    hide Fits, LeftBy, UsersOnly, Front;
    match h {
      case ProcessHandlers =>
        NothingFits(HTTP);
        FitsOne(C.Handler(ProcessHandlers));
        if a.first != [] {
          var us :| UsersOnly(us) && a.first == us + [C.Handler(ProcessHandlers)];
          UsersThen(us, [C.Handler(ProcessHandlers)], HTTP);
        }
      case User(_) => UsersFit(a.first);
      case _ =>
        FrontFits(u, h, parsed);
        assert |[Needs(C.Handler(h))]| == 1;
    }
  }

  /** What the server's own functions put in front takes the stack from what they leave to the connection. */
  lemma FrontFits(u: UserEvents, h: Hook, parsed: Parsed)
    requires UserEventsOk(u) && !h.ProcessHandlers? && !h.User?
    ensures var stack, first := Exchanged(h, parsed, [Needs(C.Handler(h))]), Front(u, h, parsed);
            |stack| == 1 && Fits(first, stack[0]) && LeftBy(first, stack[0]) == Leaves(C.Handler(h)) && C.HandlersOnly(first)
  {
    hide Fits, LeftBy, UsersOnly;
    var back := [C.Handler(PassBack)];
    FitsOne(C.Handler(PassBack));
    match h {
      case OnOpen => UsersThen(u.afterOpen, back, C.TheConn);
      case OnRecv =>
        var rest := [C.Handler(ProcessHandlers), C.Handler(PassBack)];
        FitsTwo(C.Handler(ProcessHandlers), C.Handler(PassBack));
        UsersThen(u.afterRecvHeaders, back, C.TheConn);
        UsersThen(u.afterRecvMsg, rest, C.TheConn);
        UsersThen(u.afterRecvHeaders, u.afterRecvMsg + rest, C.TheConn);
        NothingFits(C.TheConn);
      case OnBeforeSend =>
        FitsTwo(C.Handler(WriteResponse), C.Handler(PassBack));
        UsersThen(u.beforeSend, [C.Handler(WriteResponse), C.Handler(PassBack)], C.TheConn);
      case OnSent =>
        FitsTwo(C.Handler(ResetMessages), C.Handler(PassBack));
        UsersThen(u.afterSend, [C.Handler(ResetMessages), C.Handler(PassBack)], C.TheConn);
      case OnBeforeClose => UsersThen(u.beforeClose, back, C.TheConn);
      case OnClosed =>
        FitsOne(C.Handler(DisposeHttp));
        UsersThen(u.afterClose, [C.Handler(DisposeHttp)], C.TheConn);
      case _ =>
        NothingFits(C.TheConn);
        NothingFits(HTTP);
    }
  }

  lemma NothingFits(top: C.Item)
    ensures Fits([], top) && LeftBy([], top) == top
  {
  }

  // ----- every run

  /** A finished read: its length, or an error code and zero. */
  ghost predicate ReadDone(stack: seq<C.Item>) {
    || (|stack| == 2 && stack[0] == C.TheConn && stack[1].Number? && stack[1].n > 0)
    || stack == [C.TheConn, C.Number(1), C.Number(0)]
  }

  /** One object on the stack, and it is the one that the next function finds; or a read has finished. */
  ghost predicate StackFits(s: C.State<Hook>) {
    match s.phase
    case Running =>
      if s.cb.funcs == [C.Recv] then ReadDone(s.cb.stack) else |s.cb.stack| == 1 && Fits(s.cb.funcs, s.cb.stack[0])
    case Deciding => s.cb.stack == [C.TheConn]
    case _ => true
  }

  ghost predicate OnConn(fs: seq<Func>) {
    forall i :: 0 <= i < |fs| ==> Needs(fs[i]) == C.TheConn && Leaves(fs[i]) == C.TheConn
  }

  lemma {:induction false} ConnFits(fs: seq<Func>)
    requires OnConn(fs)
    ensures Fits(fs, C.TheConn)
  {
    if fs != [] {
      ConnFits(fs[1..]);
    }
  }

  lemma EventsFit()
    ensures C.EventsOk(EVENTS)
    ensures OnConn(EVENTS.afterOpen + [C.Advance]) && OnConn(EVENTS.beforeRecv + [C.BeforeRecv])
    ensures OnConn(EVENTS.afterRecv + [C.Advance]) && OnConn(EVENTS.beforeSend + [C.Send])
    ensures OnConn(EVENTS.afterSend + [C.AfterSend, C.Advance])
    ensures OnConn(EVENTS.beforeClose + [C.Close]) && OnConn(EVENTS.afterClose + [C.AfterClose])
  {
  }

  /** The HTTP server's functions hand the connection back: their steps are steps of the connection machine. */
  lemma HookStep(u: UserEvents, s: C.State<Hook>, a: C.Step<Hook>)
    requires UserEventsOk(u) && C.Inv(s) && StackFits(s) && a.InvokeHandler? && Enabled(u, s, a)
    ensures C.Enabled(s, a) && StackFits(C.Next(EVENTS, s, a))
    ensures s.cb.stack == [Needs(s.cb.funcs[0])]
  {
    hide Does, Needs, Leaves;
    var h, rest := s.cb.funcs[0].hook, s.cb.funcs[1..];
    assert s.cb.stack == [Needs(s.cb.funcs[0])];
    var parsed :| Does(u, h, parsed, s.cb.stack, a);
    DoesFits(u, h, parsed, a);
    FitsAppend(a.first, rest, a.stack[0]);
    var fs := a.first + rest;
    assert rest != [] && fs != [];
    CoreOnConn(fs[0]);
  }

  lemma CoreOnConn(f: Func)
    ensures !f.Handler? ==> Needs(f) == C.TheConn && Leaves(f) == C.TheConn
  {
  }

  lemma AdvanceFits()
    ensures OnConn([C.Advance])
  {
  }

  /** What a core function, the only one of its list, leaves when it appends these. */
  lemma Appended(rest: seq<Func>, hs: seq<Func>, tail: seq<Func>)
    requires rest == [] && OnConn(hs + tail) && tail != [] && tail[|tail| - 1] != C.Recv
    ensures Fits(rest + (hs + tail), C.TheConn) && rest + (hs + tail) != [C.Recv]
  {
    ConnFits(hs + tail);
    assert rest + (hs + tail) == hs + tail;
    assert (hs + tail)[|hs + tail| - 1] == tail[|tail| - 1];
  }

  /** A core function that is not the end of a read finds the connection. */
  lemma CoreFinds(s: C.State<Hook>)
    requires C.Inv(s) && StackFits(s) && s.phase == C.Running && C.IsCore(s.cb.funcs[0]) && s.cb.funcs[0] != C.Recv
    ensures s.cb.funcs == [s.cb.funcs[0]] && s.cb.stack == [C.TheConn]
  {
    C.CoreAlone(s);
    CoreOnConn(s.cb.funcs[0]);
  }

  lemma AdvanceStep(s: C.State<Hook>)
    requires C.Inv(s) && StackFits(s) && C.Enabled(s, C.Invoke) && s.cb.funcs[0] == C.Advance
    ensures StackFits(C.Called(EVENTS, s))
  {
    hide OnConn, Fits, EVENTS;
    EventsFit();
    CoreFinds(s);
    var rest := s.cb.funcs[1..];
    Appended(rest, EVENTS.beforeRecv, [C.BeforeRecv]);
    Appended(rest, EVENTS.beforeSend, [C.Send]);
    Appended(rest, EVENTS.beforeClose, [C.Close]);
  }

  lemma RecvStep(s: C.State<Hook>)
    requires C.Inv(s) && StackFits(s) && C.Enabled(s, C.Invoke) && s.cb.funcs[0] == C.Recv
    ensures StackFits(C.Called(EVENTS, s))
  {
    hide OnConn, Fits, EVENTS;
    EventsFit();
    AdvanceFits();
    C.CoreAlone(s);
    var rest, n := s.cb.funcs[1..], |s.cb.stack|;
    Appended(rest, EVENTS.afterRecv, [C.Advance]);
    assert rest + [C.Advance] == [C.Advance];
    Appended(rest, rest, [C.Advance]);
    if s.cb.stack[n - 1].n > 0 {
      assert s.cb.stack[..n - 1] == [C.TheConn];
    } else {
      assert s.cb.stack[..n - 2] == [C.TheConn];
    }
  }

  lemma OtherStep(s: C.State<Hook>)
    requires C.Inv(s) && StackFits(s) && C.Enabled(s, C.Invoke)
    requires s.cb.funcs[0] == C.Send || s.cb.funcs[0] == C.Close || s.cb.funcs[0] == C.AfterClose
    ensures StackFits(C.Called(EVENTS, s))
  {
    hide OnConn, Fits, EVENTS;
    EventsFit();
    CoreFinds(s);
    var rest := s.cb.funcs[1..];
    Appended(rest, EVENTS.afterSend, [C.AfterSend, C.Advance]);
    Appended(rest, EVENTS.afterClose, [C.AfterClose]);
  }

  lemma AfterSendStep(s: C.State<Hook>)
    requires C.Inv(s) && StackFits(s) && C.Enabled(s, C.Invoke) && s.cb.funcs[0] == C.AfterSend
    ensures StackFits(C.Called(EVENTS, s))
  {
    hide Needs, Leaves, EVENTS;
    CoreOnConn(s.cb.funcs[0]);
    assert s.cb.funcs[1..] + [] == s.cb.funcs[1..];
    assert s.cb.funcs[|s.cb.funcs| - 1] != C.Recv;
  }

  lemma CoreStep(s: C.State<Hook>)
    requires C.Inv(s) && StackFits(s) && C.Enabled(s, C.Invoke)
    ensures StackFits(C.Called(EVENTS, s))
  {
    hide StackFits, C.Inv, EVENTS;
    match s.cb.funcs[0] {
      case Advance => AdvanceStep(s);
      case Recv => RecvStep(s);
      case AfterSend => AfterSendStep(s);
      case _ => OtherStep(s);
    }
  }

  lemma StackStep(u: UserEvents, s: C.State<Hook>, a: C.Step<Hook>)
    requires UserEventsOk(u) && C.Inv(s) && StackFits(s) && Enabled(u, s, a) && !Forgets(a)
    ensures C.Enabled(s, a) && StackFits(C.Next(EVENTS, s, a))
  {
    hide Needs, Leaves, EVENTS;
    match a {
      case InvokeHandler(_, _, _) => HookStep(u, s, a);
      case Invoke => CoreStep(s);
      case InvokeRead(_, _) =>
        CoreOnConn(s.cb.funcs[0]);
        assert s.cb.funcs == [C.BeforeRecv];
      case Decide =>
        AdvanceFits();
        ConnFits([C.Advance]);
        assert s.cb.funcs + [C.Advance] == [C.Advance];
      case Outside(_) =>
    }
  }

  ghost predicate IsRun(u: UserEvents, states: seq<C.State<Hook>>, steps: seq<C.Step<Hook>>) {
    && |states| == |steps| + 1
    && states[0] == C.Opened(EVENTS)
    && forall i :: 0 <= i < |steps| ==> Enabled(u, states[i], steps[i]) && states[i + 1] == C.Next(EVENTS, states[i], steps[i])
  }

  lemma {:induction false} EveryState(u: UserEvents, states: seq<C.State<Hook>>, steps: seq<C.Step<Hook>>, i: nat)
    requires UserEventsOk(u) && IsRun(u, states, steps) && i < |states|
    requires forall k :: 0 <= k < i ==> !Forgets(steps[k])
    ensures C.Inv(states[i]) && StackFits(states[i])
    ensures i < |steps| && !Forgets(steps[i]) ==> C.Enabled(states[i], steps[i])
  {
    hide C.Inv, StackFits, Enabled, C.Enabled, C.Next;
    if i == 0 {
      OpenedFits();
    } else {
      EveryState(u, states, steps, i - 1);
      StackStep(u, states[i - 1], steps[i - 1]);
      EventsFit();
      C.StepInv(EVENTS, states[i - 1], steps[i - 1]);
    }
    if i < |steps| && !Forgets(steps[i]) {
      StackStep(u, states[i], steps[i]);
    }
  }

  lemma OpenedFits()
    ensures C.Inv(C.Opened(EVENTS)) && StackFits(C.Opened(EVENTS))
  {
    EventsFit();
    ConnFits(EVENTS.afterOpen + [C.Advance]);
  }

  /** The next function, unless it is the end of a read, finds just the object it works on. */
  ghost predicate FindsObject(s: C.State<Hook>) {
    s.phase == C.Running && s.cb.funcs != [] && s.cb.funcs[0] != C.Recv ==> s.cb.stack == [Needs(s.cb.funcs[0])]
  }

  /**
   In every run of the HTTP server's functions, with user functions that leave the stack alone and reads whose
   registration succeeds: the run is one of the connection machine, whose handlers need no further
   assumption; and every function finds exactly the object it works on.
   */
  lemma HttpRuns(u: UserEvents, states: seq<C.State<Hook>>, steps: seq<C.Step<Hook>>)
    requires UserEventsOk(u) && IsRun(u, states, steps)
    requires forall k :: 0 <= k < |steps| ==> !Forgets(steps[k])
    ensures C.EventsOk(EVENTS) && C.IsRun(EVENTS, states, steps)
    ensures forall i :: 0 <= i < |states| ==> FindsObject(states[i])
  {
    hide C.Enabled, C.Next;
    EventsFit();
    forall i | 0 <= i < |states|
      ensures i < |steps| ==> C.Enabled(states[i], steps[i])
      ensures FindsObject(states[i])
    {
      EveryState(u, states, steps, i);
    }
  }

  // ----- a read that cannot be registered

  function Top(stack: seq<C.Item>): C.Item
    requires stack != []
  {
    stack[|stack| - 1]
  }

  /** The stack without the result of a read. */
  ghost function Unread(stack: seq<C.Item>): seq<C.Item>
    requires C.ReadResult(stack)
  {
    stack[..|stack| - if Top(stack).n > 0 then 1 else 2]
  }

  ghost predicate AtHook(s: C.State<Hook>) {
    s.phase == C.Running && s.cb.funcs != [] && s.cb.funcs[0].Handler?
  }

  /** Where a function looks for its object: those that exchange it pop the top, the others index the bottom. */
  function Looks(h: Hook, stack: seq<C.Item>): C.Item
    requires stack != []
  {
    if h in {OnOpen, OnBeforeSend, OnSent, OnBeforeClose, OnClosed, PassBack, DisposeHttp} then Top(stack) else stack[0]
  }

  /** The lists that lead from a read to the next function of the server. */
  ghost predicate OnTheWay(fs: seq<Func>) {
    || fs == [C.Recv] || fs == [C.Advance] || fs == [C.BeforeRecv]
    || fs == EVENTS.afterRecv + [C.Advance] || fs == EVENTS.beforeSend + [C.Send] || fs == EVENTS.beforeClose + [C.Close]
  }

  /** While the connection lives, a forgotten event lies on it, under the result of a read if there is one. */
  ghost predicate Forgotten(s: C.State<Hook>) {
    && (s.phase == C.Running ==> OnTheWay(s.cb.funcs))
    && (s.phase == C.Deciding ==> s.cb.funcs == [])
    && (s.phase == C.Running || s.phase == C.Deciding ==>
          && |s.cb.stack| >= 2 && s.cb.stack[0] == C.TheConn
          && if s.phase == C.Running && s.cb.funcs == [C.Recv] then
               C.ReadResult(s.cb.stack) && |Unread(s.cb.stack)| >= 2 && Top(Unread(s.cb.stack)) == C.Event
             else Top(s.cb.stack) == C.Event)
  }

  /** The first function of each such list, and what it finds. */
  lemma HooksOnTheWay(s: C.State<Hook>)
    requires Forgotten(s) && AtHook(s)
    ensures s.cb.stack != [] && s.cb.funcs[0].hook in {OnRecv, OnBeforeSend, OnBeforeClose}
    ensures Looks(s.cb.funcs[0].hook, s.cb.stack) == if s.cb.funcs[0].hook == OnRecv then C.TheConn else C.Event
  {
  }

  lemma ForgottenElse(s: C.State<Hook>, a: C.Step<Hook>)
    requires Forgotten(s) && C.Enabled(s, a) && (a.Decide? || a.Outside?)
    ensures Forgotten(C.Next(EVENTS, s, a))
  {
    hide EVENTS;
    if a.Decide? {
      assert s.cb.funcs + [C.Advance] == [C.Advance];
    }
  }

  lemma ForgottenRead(s: C.State<Hook>, a: C.Step<Hook>)
    requires C.Inv(s) && Forgotten(s) && C.Enabled(s, a) && a.InvokeRead?
    ensures Forgotten(C.Next(EVENTS, s, a))
  {
    hide EVENTS;
    assert s.cb.funcs == [C.BeforeRecv] && Top(s.cb.stack) == C.Event by { C.CoreAlone(s); }
    var junk := s.cb.stack + if a.length == 0 && a.leftover then [C.Event] else [];
    var t := C.Next(EVENTS, s, a);
    assert t.cb.funcs == [C.Recv];
    if a.length > 0 {
      assert t.cb.stack == junk + [C.Number(a.length)];
    } else {
      assert t.cb.stack == junk + [C.Number(1), C.Number(0)];
    }
    assert Unread(t.cb.stack) == junk;
  }

  /** None of the lists other than the one of a finished read is that one. */
  lemma WaysApart()
    ensures EVENTS.beforeRecv == [] && EVENTS.afterRecv + [C.Advance] != [C.Recv]
    ensures EVENTS.beforeSend + [C.Send] != [C.Recv] && EVENTS.beforeClose + [C.Close] != [C.Recv]
  {
  }

  lemma ForgottenCall(s: C.State<Hook>)
    requires C.Inv(s) && Forgotten(s) && C.Enabled(s, C.Invoke)
    ensures Forgotten(C.Called(EVENTS, s))
  {
    hide EVENTS, Forgotten;
    assert s.cb.funcs[0] == C.Advance || s.cb.funcs[0] == C.Recv by { WayHead(s); }
    if s.cb.funcs[0] == C.Advance {
      ForgottenAdvance(s);
    } else {
      ForgottenRecv(s);
    }
  }

  lemma WayHead(s: C.State<Hook>)
    requires Forgotten(s) && C.Enabled(s, C.Invoke)
    ensures s.cb.funcs[0] == C.Advance || s.cb.funcs[0] == C.Recv
  {
  }

  lemma ForgottenAdvance(s: C.State<Hook>)
    requires C.Inv(s) && Forgotten(s) && C.Enabled(s, C.Invoke) && s.cb.funcs[0] == C.Advance
    ensures Forgotten(C.Called(EVENTS, s))
  {
    hide EVENTS;
    WaysApart();
    C.CoreAlone(s);
    var rest := s.cb.funcs[1..];
    assert rest + (EVENTS.beforeRecv + [C.BeforeRecv]) == [C.BeforeRecv];
    assert rest + (EVENTS.beforeSend + [C.Send]) == EVENTS.beforeSend + [C.Send];
    assert rest + (EVENTS.beforeClose + [C.Close]) == EVENTS.beforeClose + [C.Close];
    assert rest + [] == [];
  }

  lemma ForgottenRecv(s: C.State<Hook>)
    requires C.Inv(s) && Forgotten(s) && C.Enabled(s, C.Invoke) && s.cb.funcs[0] == C.Recv
    ensures Forgotten(C.Called(EVENTS, s))
  {
    hide EVENTS;
    WaysApart();
    C.CoreAlone(s);
    var rest := s.cb.funcs[1..];
    assert rest + (EVENTS.afterRecv + [C.Advance]) == EVENTS.afterRecv + [C.Advance];
    assert rest + [C.Advance] == [C.Advance];
  }

  lemma ForgottenStep(s: C.State<Hook>, a: C.Step<Hook>)
    requires C.Inv(s) && Forgotten(s) && C.Enabled(s, a) && !AtHook(s)
    ensures Forgotten(C.Next(EVENTS, s, a))
  {
    hide EVENTS, Forgotten;
    if a.Invoke? {
      ForgottenCall(s);
    } else if a.InvokeRead? {
      ForgottenRead(s, a);
    } else {
      ForgottenElse(s, a);
    }
  }

  lemma EnabledAway(u: UserEvents, s: C.State<Hook>, a: C.Step<Hook>)
    requires Enabled(u, s, a) && (!AtHook(s) || a.InvokeRead?)
    ensures C.Enabled(s, a)
  {
  }

  lemma ForgetNow(s: C.State<Hook>, a: C.Step<Hook>)
    requires C.Inv(s) && StackFits(s) && Forgets(a) && C.Enabled(s, a)
    ensures Forgotten(C.Next(EVENTS, s, a))
  {
    hide EVENTS, Needs, Leaves;
    CoreOnConn(C.BeforeRecv);
    assert s.cb.funcs == [C.BeforeRecv] && s.cb.stack == [C.TheConn];
    assert C.Next(EVENTS, s, a).cb.stack == [C.TheConn, C.Event, C.Number(1), C.Number(0)];
  }

  /**
   If a read cannot be registered, the next function of the server or user to run is the server's for a
   finished receive, a send or a close, and it finds its object if and only if it is the first of these: the
   others pop the forgotten event instead.
   */
  lemma {:induction false} ForgottenEvent(u: UserEvents, states: seq<C.State<Hook>>, steps: seq<C.Step<Hook>>, i: nat, j: nat)
    requires UserEventsOk(u) && IsRun(u, states, steps) && i < j < |states|
    requires Forgets(steps[i]) && forall k :: 0 <= k < i ==> !Forgets(steps[k])
    requires forall k :: i < k < j ==> !AtHook(states[k])
    ensures C.Inv(states[j]) && Forgotten(states[j])
    ensures AtHook(states[j]) ==>
      var f, stack := states[j].cb.funcs[0], states[j].cb.stack;
      && f.hook in {OnRecv, OnBeforeSend, OnBeforeClose} && stack != []
      && (Looks(f.hook, stack) == Needs(f) <==> f.hook == OnRecv)
      && (f.hook != OnRecv ==> Looks(f.hook, stack) == C.Event)
    decreases j
  {
    hide Enabled, EVENTS, C.Next, C.Inv, C.Enabled, C.Possible, Forgotten, StackFits;
    EventsFit();
    var s, a := states[j - 1], steps[j - 1];
    assert Enabled(u, s, a);
    if j == i + 1 {
      EveryState(u, states, steps, i);
      EnabledAway(u, s, a);
      ForgetNow(s, a);
    } else {
      ForgottenEvent(u, states, steps, i, j - 1);
      EnabledAway(u, s, a);
      ForgottenStep(s, a);
    }
    C.StepInv(EVENTS, s, a);
    if AtHook(states[j]) {
      HooksOnTheWay(states[j]);
    }
  }

  /**
   And even then what comes next goes wrong: the server's function for a finished receive leaves the TCP connection at
   the bottom, where user functions and the search for handlers look for the HTTP connection.
   */
  lemma BottomStays(u: UserEvents, parsed: Parsed, stack: seq<C.Item>, a: C.Step<Hook>, f: Func)
    requires |stack| >= 2 && stack[0] == C.TheConn && a.InvokeHandler? && Does(u, OnRecv, parsed, stack, a)
    requires f.Handler? && (f.hook.User? || f.hook == ProcessHandlers)
    ensures a.stack != [] && Looks(f.hook, a.stack) == C.TheConn != Needs(f)
  {
  }

  // ----- a run in which it happens

  const NO_USERS: UserEvents := UserEvents([], [], [], [], [], [], [])

  ghost predicate Reachable(u: UserEvents, s: C.State<Hook>) {
    exists states, steps :: IsRun(u, states, steps) && states[|steps|] == s
  }

  lemma ReachableNext(u: UserEvents, s: C.State<Hook>, a: C.Step<Hook>)
    requires Reachable(u, s) && Enabled(u, s, a)
    ensures Reachable(u, C.Next(EVENTS, s, a))
  {
    hide EVENTS, Does, C.Next;
    var states, steps :| IsRun(u, states, steps) && states[|steps|] == s;
    var states', steps' := states + [C.Next(EVENTS, s, a)], steps + [a];
    assert IsRun(u, states', steps') && states'[|steps'|] == C.Next(EVENTS, s, a);
  }

  /** A server without user functions, whose first read cannot be registered, takes the event for the connection. */
  lemma SomeForgotten()
    ensures exists s :: Reachable(NO_USERS, s) && AtHook(s) && s.cb.funcs[0].hook == OnBeforeClose && s.cb.stack != []
                     && Looks(OnBeforeClose, s.cb.stack) == C.Event
  {
    hide Reachable;
    var s3 := FirstRead();
    ReachableNext(NO_USERS, s3, C.InvokeRead(0, true));
    var s4 := C.Next(EVENTS, s3, C.InvokeRead(0, true));
    ReachableNext(NO_USERS, s4, C.Invoke);
    var s5 := C.Next(EVENTS, s4, C.Invoke);
    ReachableNext(NO_USERS, s5, C.Invoke);
    assert Looks(OnBeforeClose, C.Next(EVENTS, s5, C.Invoke).cb.stack) == C.Event;
  }

  /** A step of one of the server's functions. */
  lemma HookRuns(s: C.State<Hook>, h: Hook, rest: seq<Func>, a: C.Step<Hook>) returns (s': C.State<Hook>)
    requires Reachable(NO_USERS, s) && s.phase == C.Running && s.cb.funcs == [C.Handler(h)] + rest && s.cb.stack != []
    requires a.InvokeHandler? && Does(NO_USERS, h, Incomplete, s.cb.stack, a)
    ensures Reachable(NO_USERS, s') && s'.phase == C.Running && s'.pending == C.AskAll(s.pending, a.requests)
    ensures s'.cb.funcs == a.first + rest && s'.cb.stack == a.stack
  {
    hide Reachable, Does, EVENTS;
    assert s.cb.funcs[0] == C.Handler(h) && s.cb.funcs[1..] == rest;
    ReachableNext(NO_USERS, s, a);
    s' := C.Next(EVENTS, s, a);
  }

  lemma FirstRead() returns (s: C.State<Hook>)
    ensures Reachable(NO_USERS, s) && s.phase == C.Running && s.pending == C.Nothing
    ensures s.cb.funcs == [C.BeforeRecv] && s.cb.stack == [C.TheConn]
  {
    hide Reachable;
    OpenedReachable();
    var ask: seq<Func>, go: seq<Func> := [C.Handler(AskRecv), C.Advance], [C.Advance];
    s := C.Opened(EVENTS);
    assert s.cb.funcs == [C.Handler(OnOpen)] + ask;
    s := HookRuns(s, OnOpen, ask, C.InvokeHandler([], [C.Handler(PassBack)], [HTTP]));
    s := HookRuns(s, PassBack, ask, C.InvokeHandler([], [], [C.TheConn]));
    assert ask == [C.Handler(AskRecv)] + go && [] + ask == ask;
    s := HookRuns(s, AskRecv, go, C.InvokeHandler([C.NextRecv], [], [C.TheConn]));
    assert s.cb.funcs == [C.Advance] && s.pending == C.NextRecv;
    ReachableNext(NO_USERS, s, C.Invoke);
    s := C.Next(EVENTS, s, C.Invoke);
  }

  lemma OpenedReachable()
    ensures Reachable(NO_USERS, C.Opened(EVENTS))
  {
    assert IsRun(NO_USERS, [C.Opened(EVENTS)], []);
  }
}
