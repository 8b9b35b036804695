/**
 Waking an idle connection: the two compare-exchanges of uo_tcp_conn_next_state, by any number of callers,
 interleaved with the accesses of the drivers that they start. A caller is one call of next_recv,
 next_send or next_close from outside; a driver makes any number of such calls itself, while it carries
 out an operation.
 */
module TcpWake {
  import opened Callback
  import opened TcpConn

  /** Before the first access, between the two, or returned. */
  datatype Caller = Asking(request: Pending) | SawIdle(request: Pending) | Returned

  /**
   About to run advance, between its two accesses, carrying out an operation, between the two accesses of a
   call that a handler makes, or gone.
   */
  datatype Driver = AtAdvance | AtDecide | Working | Calling(request: Pending) | Gone

  /**
   The shared state. The counters, which the code does not keep: waking calls that returned, from outside and
   by drivers; those of them that found the connection idle twice; drivers that made it idle; and drivers
   that found it idle.
   */
  datatype Wake = Wake(
    pending: Pending, callers: seq<Caller>, drivers: seq<Driver>,
    outer: nat, inner: nat, found: nat, idled: nat, swallowed: nat)

  datatype Move =
    | First(c: nat)
    | Second(c: nat)
    | Exchange(d: nat)
    | Settle(d: nat)
    | Call(d: nat, request: Pending)
    | CallAgain(d: nat)
    | Finish(d: nat)
    | Destroy(d: nat)

  /** An idle connection, and the calls that will be made on it from outside. */
  function Start(requests: seq<Pending>): Wake {
    Wake(Idle, seq(|requests|, i requires 0 <= i < |requests| => Asking(requests[i])), [], 0, 0, 0, 0, 0)
  }

  predicate Can(s: Wake, a: Move) {
    match a
    case First(c) => c < |s.callers| && s.callers[c].Asking?
    case Second(c) => c < |s.callers| && s.callers[c].SawIdle?
    case Exchange(d) => d < |s.drivers| && s.drivers[d] == AtAdvance
    case Settle(d) => d < |s.drivers| && s.drivers[d] == AtDecide
    case Call(d, request) => d < |s.drivers| && s.drivers[d] == Working && IsRequest(request)
    case CallAgain(d) => d < |s.drivers| && s.drivers[d].Calling?
    case Finish(d) => d < |s.drivers| && s.drivers[d] == Working
    case Destroy(d) => d < |s.drivers| && s.drivers[d] == Working
  }

  function Moved(s: Wake, a: Move): Wake
    requires Can(s, a)
  {
    match a
    case First(c) =>
      var request := s.callers[c].request;
      if s.pending == Nothing then s.(pending := request, callers := s.callers[c := Returned])
      else if s.pending == Idle then s.(callers := s.callers[c := SawIdle(request)])
      else s.(callers := s.callers[c := Returned])
    case Second(c) =>
      var t := s.(callers := s.callers[c := Returned], outer := s.outer + 1);
      if s.pending == Idle then t.(pending := s.callers[c].request, found := s.found + 1)
      else t.(drivers := s.drivers + [AtAdvance])
    case Exchange(d) =>
      var next := match s.pending case Nothing => AtDecide case Idle => Gone case _ => Working;
      s.(pending := Nothing, drivers := s.drivers[d := next],
         swallowed := s.swallowed + if s.pending == Idle then 1 else 0)
    case Settle(d) =>
      if s.pending == Nothing then s.(pending := Idle, drivers := s.drivers[d := Gone], idled := s.idled + 1)
      else s.(drivers := s.drivers[d := AtAdvance])
    case Call(d, request) =>
      if s.pending == Nothing then s.(pending := request)
      else if s.pending == Idle then s.(drivers := s.drivers[d := Calling(request)])
      else s
    case CallAgain(d) =>
      var t := s.(drivers := s.drivers[d := Working], inner := s.inner + 1);
      if s.pending == Idle then t.(pending := s.drivers[d].request, found := s.found + 1)
      else t.(drivers := t.drivers + [AtAdvance])
    case Finish(d) => s.(drivers := s.drivers[d := AtAdvance])
    case Destroy(d) => s.(drivers := s.drivers[d := Gone])
  }

  /** The two accesses of a driver are those of the connection machine. */
  lemma DriverIsConn<H>(ev: Events<H>, s: State<H>, w: Wake, d: nat)
    requires s.phase == Running && s.cb == Cb([Advance], [TheConn]) && s.pending == w.pending
    requires d < |w.drivers| && w.drivers[d] == AtAdvance
    ensures var t, v := Called(ev, s), Moved(w, Exchange(d));
            && t.pending == v.pending
            && (v.drivers[d] == Working <==> t.phase == Running)
            && (v.drivers[d] == AtDecide <==> t.phase == Deciding)
            && (v.drivers[d] == Gone <==> t.phase == GoneIdle)
            && (t.phase == Deciding ==>
                  var t', v' := Next(ev, t, Decide), Moved(v, Settle(d));
                  t'.pending == v'.pending && (v'.drivers[d] == AtAdvance <==> t'.cb.funcs == [Advance]))
  {
  }

  ghost predicate IsWakeRun(requests: seq<Pending>, states: seq<Wake>, moves: seq<Move>) {
    && |states| == |moves| + 1
    && states[0] == Start(requests)
    && forall i :: 0 <= i < |moves| ==> Can(states[i], moves[i]) && states[i + 1] == Moved(states[i], moves[i])
  }

  // ----- every interleaving

  /** The callers that have returned. */
  ghost function ReturnedIn(cs: seq<Caller>): nat {
    if cs == [] then 0 else ReturnedIn(cs[..|cs| - 1]) + if cs[|cs| - 1] == Returned then 1 else 0
  }

  lemma {:induction false} ReturnedUpdate(cs: seq<Caller>, c: nat, to: Caller)
    requires c < |cs| && cs[c] != Returned
    ensures ReturnedIn(cs[c := to]) == ReturnedIn(cs) + if to == Returned then 1 else 0
  {
    var n := |cs| - 1;
    if c < n {
      ReturnedUpdate(cs[..n], c, to);
      assert cs[c := to][..n] == cs[..n][c := to];
    } else {
      assert cs[c := to][..n] == cs[..n];
    }
  }

  lemma {:induction false} ReturnedNone(cs: seq<Caller>)
    ensures ReturnedIn(cs) <= |cs|
    ensures (forall i :: 0 <= i < |cs| ==> cs[i] != Returned) ==> ReturnedIn(cs) == 0
  {
    if cs != [] {
      ReturnedNone(cs[..|cs| - 1]);
    }
  }

  ghost predicate RequestsOk(cs: seq<Caller>) {
    forall c :: 0 <= c < |cs| && cs[c] != Returned ==> IsRequest(cs[c].request)
  }

  ghost predicate CallsOk(ds: seq<Driver>) {
    forall d :: 0 <= d < |ds| && ds[d].Calling? ==> IsRequest(ds[d].request)
  }

  ghost predicate WakeInv(s: Wake) {
    && RequestsOk(s.callers) && CallsOk(s.drivers)
    && s.outer <= ReturnedIn(s.callers)
    && s.outer + s.inner == s.found + |s.drivers|
    && 1 + s.idled == s.found + s.swallowed + (if s.pending == Idle then 1 else 0)
    && (s.drivers == [] ==> s.inner == 0 && s.found <= 1 && (s.found == 0 <==> s.pending == Idle) && s.pending != Nothing)
    && (s.drivers != [] ==> s.found >= 1)
  }

  lemma MoveInv(s: Wake, a: Move)
    requires WakeInv(s) && Can(s, a)
    ensures WakeInv(Moved(s, a))
  {
    hide ReturnedIn;
    if a.First? || a.Second? {
      ReturnedUpdate(s.callers, a.c, Moved(s, a).callers[a.c]);
    }
  }

  lemma {:induction false} WakeStates(requests: seq<Pending>, states: seq<Wake>, moves: seq<Move>, i: nat)
    requires IsWakeRun(requests, states, moves) && i < |states|
    requires forall k :: 0 <= k < |requests| ==> IsRequest(requests[k])
    ensures WakeInv(states[i]) && |states[i].callers| == |requests|
  {
    hide Moved, Can;
    if i > 0 {
      WakeStates(requests, states, moves, i - 1);
      MoveInv(states[i - 1], moves[i - 1]);
      SameCallers(states[i - 1], moves[i - 1]);
    } else {
      ReturnedNone(states[0].callers);
    }
  }

  lemma SameCallers(s: Wake, a: Move)
    requires Can(s, a)
    ensures |Moved(s, a).callers| == |s.callers|
  {
  }

  /**
   In every interleaving of any number of calls on an idle connection with the drivers they start, and the
   calls that these make: every waking call but those that found the connection idle starts a driver, and
   these are one more than the times that a driver made it idle, less the times that a driver found it
   idle, less one if it is idle now. So there are fewer drivers than waking calls; a lone one starts none,
   and its request stays pending; and two start exactly one.
   */
  lemma WakeUpDrivers(requests: seq<Pending>, states: seq<Wake>, moves: seq<Move>, i: nat)
    requires IsWakeRun(requests, states, moves) && i < |states|
    requires forall k :: 0 <= k < |requests| ==> IsRequest(requests[k])
    ensures var s := states[i];
            var wakers := s.outer + s.inner;
            && s.outer <= |requests|
            && |s.drivers| == wakers - (1 + s.idled - s.swallowed - (if s.pending == Idle then 1 else 0))
            && (wakers == 0 ==> s.drivers == [] && s.pending == Idle)
            && (wakers > 0 ==> |s.drivers| < wakers)
            && (wakers == 1 ==> s.drivers == [] && s.pending in requests)
            && (wakers == 2 ==> |s.drivers| == 1)
  {
    WakeStates(requests, states, moves, i);
    PendingIsAsked(requests, states, moves, i);
    ReturnedNone(states[i].callers);
  }

  // ----- whose request is pending

  /** A caller keeps its request until it returns. */
  ghost predicate OwnRequests(requests: seq<Pending>, cs: seq<Caller>) {
    |cs| == |requests| && forall c :: 0 <= c < |cs| && cs[c] != Returned ==> cs[c].request == requests[c]
  }

  lemma {:induction false} KeptRequests(requests: seq<Pending>, states: seq<Wake>, moves: seq<Move>, i: nat)
    requires IsWakeRun(requests, states, moves) && i < |states|
    ensures OwnRequests(requests, states[i].callers)
  {
    if i > 0 {
      KeptRequests(requests, states, moves, i - 1);
    }
  }

  /** The request of a call that reaches the shared state while it is not idle, or finds it idle for the second time. */
  ghost function Requests(requests: seq<Pending>, s: Wake, a: Move): seq<Pending>
    requires Can(s, a) && |s.callers| == |requests|
  {
    match a
    case First(c) => if s.pending == Idle then [] else [requests[c]]
    case Second(c) => if s.pending == Idle then [requests[c]] else []
    case Call(_, request) => if s.pending == Idle then [] else [request]
    case CallAgain(d) => if s.pending == Idle then [s.drivers[d].request] else []
    case _ => []
  }

  /**
   Calls from outside and by drivers alike: while the connection is not idle a call does what the connection machine's
   request does, and the second access stores the request exactly when the connection is still idle.
   */
  lemma PendingMoves(requests: seq<Pending>, states: seq<Wake>, moves: seq<Move>, i: nat)
    requires IsWakeRun(requests, states, moves) && i < |moves| && !moves[i].Exchange? && !moves[i].Settle?
    ensures Can(states[i], moves[i]) && |states[i].callers| == |requests|
    ensures var s, asked := states[i], Requests(requests, states[i], moves[i]);
            states[i + 1].pending == if asked != [] && s.pending == Idle then asked[0] else AskAll(s.pending, asked)
  {
    KeptRequests(requests, states, moves, i);
    AskedOnce(requests, states[i], moves[i]);
  }

  lemma AskedOnce(requests: seq<Pending>, s: Wake, a: Move)
    requires Can(s, a) && |s.callers| == |requests|
    ensures var asked := Requests(requests, s, a);
            AskAll(s.pending, asked) == if asked == [] then s.pending else Ask(s.pending, asked[0])
  {
  }

  /** Until there is a driver, what is pending is a request of one of the callers. */
  lemma {:induction false} PendingIsAsked(requests: seq<Pending>, states: seq<Wake>, moves: seq<Move>, i: nat)
    requires IsWakeRun(requests, states, moves) && i < |states|
    requires forall k :: 0 <= k < |requests| ==> IsRequest(requests[k])
    ensures states[i].drivers == [] && states[i].pending != Idle ==> states[i].pending in requests
  {
    hide Moved, WakeInv;
    if i > 0 {
      PendingIsAsked(requests, states, moves, i - 1);
      WakeStates(requests, states, moves, i - 1);
      KeptRequests(requests, states, moves, i - 1);
      PendingNext(requests, states[i - 1], moves[i - 1]);
    }
  }

  lemma PendingNext(requests: seq<Pending>, s: Wake, a: Move)
    requires WakeInv(s) && OwnRequests(requests, s.callers) && Can(s, a)
    requires s.drivers == [] && s.pending != Idle ==> s.pending in requests
    ensures var t := Moved(s, a); t.drivers == [] && t.pending != Idle ==> t.pending in requests
  {
  }

  // ----- nobody waits

  /** Whatever the others do, every call that has not returned and every driver that is not gone can go on. */
  lemma NeverStuck(requests: seq<Pending>, states: seq<Wake>, moves: seq<Move>, i: nat, request: Pending)
    requires IsWakeRun(requests, states, moves) && i < |states| && IsRequest(request)
    ensures var s := states[i];
            && (forall c :: 0 <= c < |s.callers| && s.callers[c] != Returned ==> Can(s, First(c)) || Can(s, Second(c)))
            && (forall d :: 0 <= d < |s.drivers| && s.drivers[d] != Gone ==>
                  if s.drivers[d] == Working then Can(s, Call(d, request)) && Can(s, Finish(d)) && Can(s, Destroy(d))
                  else Can(s, Exchange(d)) || Can(s, Settle(d)) || Can(s, CallAgain(d)))
  {
  }

  // ----- how many drivers are alive

  ghost function Alive(ds: seq<Driver>): nat {
    if ds == [] then 0 else Alive(ds[..|ds| - 1]) + if ds[|ds| - 1] == Gone then 0 else 1
  }

  lemma {:induction false} AliveFew(ds: seq<Driver>)
    ensures Alive(ds) <= |ds|
  {
    if ds != [] {
      AliveFew(ds[..|ds| - 1]);
    }
  }

  /** Whatever the callers and drivers do, no two drivers are alive. */
  ghost predicate AlwaysOneDriver(requests: seq<Pending>) {
    forall states: seq<Wake>, moves: seq<Move>, i | IsWakeRun(requests, states, moves) && 0 <= i < |states| ::
      Alive(states[i].drivers) <= 1
  }

  /**
   With at most two calls from outside: once there is a driver, both have returned, and while it is alive the
   connection is not idle, so that its own calls wake nothing.
   */
  ghost predicate OneInv(s: Wake) {
    && |s.drivers| <= 1
    && (s.drivers != [] ==>
          && s.inner == 0 && (forall c :: 0 <= c < |s.callers| ==> s.callers[c] == Returned)
          && (s.drivers[0] == Gone || (s.pending != Idle && !s.drivers[0].Calling?)))
  }

  lemma {:induction false} AllReturned(cs: seq<Caller>)
    requires ReturnedIn(cs) == |cs|
    ensures forall c :: 0 <= c < |cs| ==> cs[c] == Returned
  {
    if cs != [] {
      ReturnedNone(cs[..|cs| - 1]);
      AllReturned(cs[..|cs| - 1]);
    }
  }

  lemma OneMove(s: Wake, a: Move)
    requires WakeInv(s) && OneInv(s) && Can(s, a) && |s.callers| <= 2
    ensures OneInv(Moved(s, a))
  {
    hide ReturnedIn;
    var t := Moved(s, a);
    if s.drivers == [] && t.drivers != [] {
      MoveInv(s, a);
      ReturnedNone(t.callers);
      AllReturned(t.callers);
    }
  }

  lemma {:induction false} OneStates(requests: seq<Pending>, states: seq<Wake>, moves: seq<Move>, i: nat)
    requires IsWakeRun(requests, states, moves) && i < |states| && |requests| <= 2
    requires forall k :: 0 <= k < |requests| ==> IsRequest(requests[k])
    ensures OneInv(states[i])
  {
    hide Moved, Can;
    if i > 0 {
      OneStates(requests, states, moves, i - 1);
      WakeStates(requests, states, moves, i - 1);
      OneMove(states[i - 1], moves[i - 1]);
    }
  }

  /** Three callers that all saw the connection idle, and then return in turn, leave two drivers. */
  lemma ThreeCallers(requests: seq<Pending>) returns (states: seq<Wake>, moves: seq<Move>)
    requires |requests| >= 3 && forall k :: 0 <= k < |requests| ==> IsRequest(requests[k])
    ensures IsWakeRun(requests, states, moves) && |moves| == 6 && states[6].drivers == [AtAdvance, AtAdvance]
  {
    var s0 := Start(requests);
    var s1 := Moved(s0, First(0));
    var s2 := Moved(s1, First(1));
    var s3 := Moved(s2, First(2));
    var s4 := Moved(s3, Second(0));
    var s5 := Moved(s4, Second(1));
    var s6 := Moved(s5, Second(2));
    states, moves := [s0, s1, s2, s3, s4, s5, s6], [First(0), First(1), First(2), Second(0), Second(1), Second(2)];
  }

  /**
   However many calls the drivers make: no two drivers are ever alive exactly for at most two calls from outside
   on the idle connection.
   */
  lemma OneDriverIff(requests: seq<Pending>)
    requires forall k :: 0 <= k < |requests| ==> IsRequest(requests[k])
    ensures AlwaysOneDriver(requests) <==> |requests| <= 2
  {
    if |requests| <= 2 {
      forall states: seq<Wake>, moves: seq<Move>, i | IsWakeRun(requests, states, moves) && 0 <= i < |states|
        ensures Alive(states[i].drivers) <= 1
      {
        OneStates(requests, states, moves, i);
        AliveFew(states[i].drivers);
      }
    } else {
      var states, moves := ThreeCallers(requests);
      var ds := states[6].drivers;
      assert ds[..1] == [AtAdvance] && [AtAdvance][..0] == [];
      assert Alive([AtAdvance]) == 1 && Alive(ds) == 2;
    }
  }
}
