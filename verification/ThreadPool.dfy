/**
 uo_cb_thrdpool: the manager thread that spawns workers towards a target, and the workers that leave
 when there are too many, as a step system. Each step is one access to the shared state. The
 manager decides on its own copy of the thread count, which only its own fetch-add refreshes.
 */
module ThreadPool {

  const COUNT_INI: nat := 4
  const COUNT_MIN: nat := 2
  const COUNT_MAX: nat := 16

  datatype Slot = Uninitialized | Running | Exited

  /** Where a worker stands. It took the exit step when its compare-exchange on the count succeeded. */
  datatype Stage =
    | Looping
    | Executing
    | Loaded(count: nat)
    | Compared(count: nat, target: nat)
    | Quitting(exited: bool)
    | Done(exited: bool)

  datatype Worker = Worker(slot: nat, stage: Stage)

  datatype Manager =
    | Starting
    | TargetSet
    | Checking
    | Deciding
    | Comparing
    | Spawning
    | Scanning
    | Joining
    | Moving
    | Claiming
    | Creating
    | Sampling
    | Stopped

  /** The shared state and the manager's locals; exits, which the code does not keep, counts the exit steps since the last hire. */
  datatype State = State(
    target: nat, thrdCount: nat, slots: seq<Slot>, workers: seq<Worker>, quitting: bool,
    manager: Manager, count: nat, index: nat, exits: nat)

  /** What the manager's sample does to the target; the throughput arithmetic that chooses is not modelled. */
  datatype Adjust = Raise | Lower | Keep

  datatype Step =
    | Manage
    | Sample(adjust: Adjust)
    | Work(w: nat)
    | Quit

  /** uo_cb_thrdpool_init: zero-filled state and a manager about to start. */
  function Initial(): State {
    State(0, 0, seq(COUNT_MAX, _ => Uninitialized), [], false, Starting, 0, 0, 0)
  }

  predicate Enabled(s: State, a: Step) {
    match a
    case Manage => s.manager != Sampling && s.manager != Stopped && s.index < |s.slots|
    case Sample(_) => s.manager == Sampling
    case Work(w) => w < |s.workers| && !s.workers[w].stage.Done? && s.workers[w].slot < |s.slots|
    case Quit => true
  }

  function Next(s: State, a: Step): State
    requires Enabled(s, a)
  {
    match a
    case Manage => Managed(s)
    case Sample(adjust) => Adjusted(s, adjust).(manager := Checking)
    case Work(w) => Worked(s, w)
    case Quit => s.(quitting := true)
  }

  /** One step of uo_cb_manage_thrds. */
  function Managed(s: State): State
    requires Enabled(s, Manage)
  {
    match s.manager
    case Starting => s.(target := COUNT_INI, manager := TargetSet)
    case TargetSet => s.(index := 0, count := s.thrdCount, exits := 0, manager := Checking)
    case Checking => s.(manager := if s.quitting then Stopped else Deciding)
    case Deciding => s.(manager := if s.quitting then Sampling else Comparing)
    case Comparing => s.(manager := if s.count < s.target && s.count < COUNT_MAX then Spawning else Sampling)
    case Spawning => s.(thrdCount := s.thrdCount + 1, count := s.thrdCount + 1, exits := 0, manager := Scanning)
    case Scanning =>
      s.(manager := match s.slots[s.index]
                    case Uninitialized => Claiming
                    case Running => Moving
                    case Exited => Joining)
    case Joining => s.(slots := s.slots[s.index := Uninitialized], manager := Moving)
    case Moving => s.(index := (s.index + 1) % COUNT_MAX, manager := Scanning)
    case Claiming => s.(slots := s.slots[s.index := Running], manager := Creating)
    case Creating => s.(workers := s.workers + [Worker(s.index, Looping)], manager := Deciding)
  }

  function Adjusted(s: State, adjust: Adjust): State {
    match adjust
    case Raise => if s.target < COUNT_MAX then s.(target := s.target + 1) else s
    case Lower => if s.target > COUNT_MIN then s.(target := s.target - 1) else s
    case Keep => s
  }

  /** One step of uo_cb_execute; the callbacks it runs in between do not touch this state. */
  function Worked(s: State, w: nat): State
    requires Enabled(s, Work(w))
  {
    var me := s.workers[w];
    match me.stage
    case Looping => Put(s, w, if s.quitting then Quitting(false) else Executing)
    case Executing => Put(s, w, Loaded(s.thrdCount))
    case Loaded(count) => Put(s, w, Compared(count, s.target))
    case Compared(count, target) =>
      if count > target && s.thrdCount == count then Put(s.(thrdCount := count - 1, exits := s.exits + 1), w, Quitting(true))
      else Put(s, w, Looping)
    case Quitting(exited) => Put(s.(slots := s.slots[me.slot := Exited]), w, Done(exited))
    case Done(_) => s
  }

  function Put(s: State, w: nat, stage: Stage): State
    requires w < |s.workers|
  {
    s.(workers := s.workers[w := s.workers[w].(stage := stage)])
  }

  ghost predicate IsRun(states: seq<State>, steps: seq<Step>) {
    && |states| == |steps| + 1
    && states[0] == Initial()
    && forall i :: 0 <= i < |steps| ==> Enabled(states[i], steps[i]) && states[i + 1] == Next(states[i], steps[i])
  }

  // ----- counting

  predicate HasExited(g: Stage) {
    (g.Quitting? || g.Done?) && g.exited
  }

  /** The workers that have not taken the exit step. */
  ghost function Counted(ws: seq<Worker>): nat {
    if ws == [] then 0 else Counted(ws[..|ws| - 1]) + if HasExited(ws[|ws| - 1].stage) then 0 else 1
  }

  lemma {:induction false} CountedUpdate(ws: seq<Worker>, w: nat, me: Worker)
    requires w < |ws| && !HasExited(ws[w].stage)
    ensures Counted(ws[w := me]) == Counted(ws) - if HasExited(me.stage) then 1 else 0
  {
    var n := |ws| - 1;
    if w < n {
      CountedUpdate(ws[..n], w, me);
      assert ws[w := me][..n] == ws[..n][w := me];
    } else {
      assert ws[w := me][..n] == ws[..n];
    }
  }

  lemma {:induction false} CountedSame(ws: seq<Worker>, w: nat, me: Worker)
    requires w < |ws| && HasExited(ws[w].stage) == HasExited(me.stage)
    ensures Counted(ws[w := me]) == Counted(ws)
  {
    var n := |ws| - 1;
    if w < n {
      CountedSame(ws[..n], w, me);
      assert ws[w := me][..n] == ws[..n][w := me];
    } else {
      assert ws[w := me][..n] == ws[..n];
    }
  }

  /** The manager has counted a worker that it has not created yet. */
  predicate Hiring(m: Manager) {
    m in {Scanning, Joining, Moving, Claiming, Creating}
  }

  ghost predicate CountOk(s: State) {
    && s.thrdCount == Counted(s.workers) + (if Hiring(s.manager) then 1 else 0)
    && s.thrdCount <= COUNT_MAX
    && s.count <= COUNT_MAX
    && (!s.manager.Starting? && !s.manager.TargetSet? ==> s.count == s.thrdCount + s.exits)
    && (s.manager == Starting || s.manager == TargetSet ==> s.workers == [])
    && (s.manager == Spawning ==> s.count < COUNT_MAX)
  }

  ghost predicate TargetOk(s: State) {
    && (s.manager != Starting ==> COUNT_MIN <= s.target <= COUNT_MAX)
    && forall w :: 0 <= w < |s.workers| && s.workers[w].stage.Compared? ==> s.workers[w].stage.target >= COUNT_MIN
  }

  // ----- slots

  /** Worker w has not finished and holds slot i. */
  predicate Holds(ws: seq<Worker>, w: int, i: int) {
    0 <= w < |ws| && ws[w].slot == i && !ws[w].stage.Done?
  }

  ghost predicate Held(ws: seq<Worker>, i: int) {
    exists w :: Holds(ws, w, i)
  }

  /** No slot has two holders, and a slot is running exactly while it has one or is reserved for one. */
  ghost predicate Owned(slots: seq<Slot>, ws: seq<Worker>, reserved: int) {
    && |slots| == COUNT_MAX
    && (forall w :: 0 <= w < |ws| ==> ws[w].slot < COUNT_MAX)
    && (forall w, v :: 0 <= w < v < |ws| && !ws[w].stage.Done? && !ws[v].stage.Done? ==> ws[w].slot != ws[v].slot)
    && (forall i :: 0 <= i < COUNT_MAX ==> (slots[i] == Running <==> i == reserved || Held(ws, i)))
    && !Held(ws, reserved)
  }

  function Reserved(s: State): int {
    if s.manager == Creating then s.index else -1
  }

  ghost predicate SlotsOk(s: State) {
    && s.index < COUNT_MAX
    && Owned(s.slots, s.workers, Reserved(s))
    && (s.manager == Claiming ==> s.slots[s.index] == Uninitialized)
    && (s.manager == Joining ==> s.slots[s.index] == Exited)
  }

  ghost predicate Inv(s: State) {
    CountOk(s) && TargetOk(s) && SlotsOk(s)
  }

  // ----- what each step keeps

  lemma HeldSame(ws: seq<Worker>, w: nat, stage: Stage, i: int)
    requires w < |ws| && !ws[w].stage.Done? && (ws[w].slot != i || !stage.Done?)
    ensures Held(ws[w := ws[w].(stage := stage)], i) <==> Held(ws, i)
  {
    var ws' := ws[w := ws[w].(stage := stage)];
    if v :| Holds(ws, v, i) {
      assert Holds(ws', v, i);
    }
    if v :| Holds(ws', v, i) {
      assert Holds(ws, v, i);
    }
  }

  lemma OwnedKept(slots: seq<Slot>, ws: seq<Worker>, reserved: int, w: nat, stage: Stage)
    requires Owned(slots, ws, reserved) && w < |ws| && !ws[w].stage.Done? && !stage.Done?
    ensures Owned(slots, ws[w := ws[w].(stage := stage)], reserved)
  {
    hide Held;
    forall i
      ensures Held(ws[w := ws[w].(stage := stage)], i) <==> Held(ws, i)
    {
      HeldSame(ws, w, stage, i);
    }
  }

  lemma HeldByOne(slots: seq<Slot>, ws: seq<Worker>, reserved: int, w: nat, stage: Stage)
    requires Owned(slots, ws, reserved) && w < |ws| && !ws[w].stage.Done? && stage.Done?
    ensures Held(ws, ws[w].slot) && !Held(ws[w := ws[w].(stage := stage)], ws[w].slot)
  {
    assert Holds(ws, w, ws[w].slot);
    var ws' := ws[w := ws[w].(stage := stage)];
    if v :| Holds(ws', v, ws[w].slot) {
      assert Holds(ws, v, ws[w].slot);
    }
  }

  /** Only its holder gives a slot up, and then nobody holds it. */
  lemma OwnedReleased(slots: seq<Slot>, ws: seq<Worker>, reserved: int, w: nat, stage: Stage)
    requires Owned(slots, ws, reserved) && w < |ws| && !ws[w].stage.Done? && stage.Done?
    ensures ws[w].slot < COUNT_MAX && slots[ws[w].slot] == Running && ws[w].slot != reserved
    ensures Owned(slots[ws[w].slot := Exited], ws[w := ws[w].(stage := stage)], reserved)
  {
    hide Held;
    HeldByOne(slots, ws, reserved, w, stage);
    forall i | i != ws[w].slot
      ensures Held(ws[w := ws[w].(stage := stage)], i) <==> Held(ws, i)
    {
      HeldSame(ws, w, stage, i);
    }
  }

  lemma OwnedCreated(slots: seq<Slot>, ws: seq<Worker>, reserved: nat)
    requires Owned(slots, ws, reserved) && reserved < COUNT_MAX
    ensures Owned(slots, ws + [Worker(reserved, Looping)], -1)
  {
    var ws' := ws + [Worker(reserved, Looping)];
    assert forall w :: 0 <= w < |ws| && !ws[w].stage.Done? ==> Holds(ws, w, ws[w].slot);
    forall i
      ensures Held(ws', i) <==> Held(ws, i) || i == reserved
    {
      assert Holds(ws', |ws|, reserved);
      if v :| Holds(ws, v, i) {
        assert Holds(ws', v, i);
      }
      if v :| Holds(ws', v, i) {
        assert v == |ws| || Holds(ws, v, i);
      }
    }
  }

  lemma CountWorked(s: State, w: nat)
    requires CountOk(s) && Enabled(s, Work(w))
    ensures CountOk(Worked(s, w))
  {
    hide Counted;
    var s' := Worked(s, w);
    var me := s'.workers[w];
    assert s'.workers == s.workers[w := me];
    if HasExited(s.workers[w].stage) {
      CountedSame(s.workers, w, me);
    } else {
      CountedUpdate(s.workers, w, me);
    }
  }

  lemma CountManaged(s: State)
    requires CountOk(s) && Enabled(s, Manage)
    ensures CountOk(Managed(s))
  {
    if s.manager == Creating {
      assert Managed(s).workers[..|s.workers|] == s.workers;
    }
  }

  lemma SlotsManaged(s: State)
    requires SlotsOk(s) && Enabled(s, Manage)
    ensures SlotsOk(Managed(s))
  {
    hide Held;
    if s.manager == Creating {
      hide Owned;
      OwnedCreated(s.slots, s.workers, s.index);
    }
  }

  lemma SlotsWorked(s: State, w: nat)
    requires SlotsOk(s) && Enabled(s, Work(w))
    ensures SlotsOk(Worked(s, w))
  {
    assert |s.slots| == COUNT_MAX;
    hide Owned;
    var s' := Worked(s, w);
    var stage := s'.workers[w].stage;
    if s.workers[w].stage.Quitting? {
      OwnedReleased(s.slots, s.workers, Reserved(s), w, stage);
    } else {
      OwnedKept(s.slots, s.workers, Reserved(s), w, stage);
    }
  }

  lemma TargetStep(s: State, a: Step)
    requires CountOk(s) && TargetOk(s) && Enabled(s, a)
    ensures TargetOk(Next(s, a))
  {
    hide Counted;
  }

  lemma StepInv(s: State, a: Step)
    requires Inv(s) && Enabled(s, a)
    ensures Inv(Next(s, a))
  {
    hide TargetOk, Managed, Worked, Counted, Owned;
    TargetStep(s, a);
    match a {
      case Manage =>
        CountManaged(s);
        SlotsManaged(s);
      case Work(w) =>
        CountWorked(s, w);
        SlotsWorked(s, w);
      case _ =>
    }
  }

  lemma {:induction false} EveryState(states: seq<State>, steps: seq<Step>, i: nat)
    requires IsRun(states, steps) && i < |states|
    ensures Inv(states[i])
  {
    hide Next, Enabled;
    if i > 0 {
      EveryState(states, steps, i - 1);
      StepInv(states[i - 1], steps[i - 1]);
    } else {
      InitialInv();
    }
  }

  lemma InitialInv()
    ensures Inv(Initial())
  {
  }

  // ----- what holds in every run

  /**
   In every interleaving of the manager and the workers: the target is between 2 and 16 once it is set; the
   thread count is the number of workers that have not taken the exit step, plus the one being hired, and
   never exceeds 16; and workers that have not finished hold different slots, each marked running.
   */
  lemma EveryRun(states: seq<State>, steps: seq<Step>, i: nat)
    requires IsRun(states, steps) && i < |states|
    ensures var s := states[i];
            && (s.manager != Starting ==> 2 <= s.target <= 16)
            && s.thrdCount == Counted(s.workers) + (if Hiring(s.manager) then 1 else 0)
            && s.thrdCount <= 16 && |s.slots| == 16
            && (forall w, v, k :: Holds(s.workers, w, k) && Holds(s.workers, v, k) ==> w == v)
            && (forall w, k :: Holds(s.workers, w, k) ==> 0 <= k < |s.slots| && s.slots[k] == Running)
  {
    hide IsRun, Counted;
    EveryState(states, steps, i);
    var s := states[i];
    assert forall w, k :: Holds(s.workers, w, k) ==> Held(s.workers, k);
  }

  /** No step of any run takes the thread count from the minimum to below it; only exit steps lower it. */
  lemma ExitKeepsMinimum(states: seq<State>, steps: seq<Step>, i: nat)
    requires IsRun(states, steps) && i < |steps| && states[i + 1].thrdCount < states[i].thrdCount
    ensures 2 <= states[i + 1].thrdCount == states[i].thrdCount - 1
    ensures steps[i].Work? && steps[i].w < |states[i + 1].workers| && states[i + 1].workers[steps[i].w].stage == Quitting(true)
  {
    hide Counted, Owned;
    EveryState(states, steps, i);
  }

  /** How the target moves: to four at the start, and then by one, within two and sixteen, when the manager samples. */
  lemma TargetMoves(states: seq<State>, steps: seq<Step>, i: nat)
    requires IsRun(states, steps) && i < |steps|
    ensures var s, t, a := states[i], states[i + 1], steps[i];
            t.target == if a == Manage && s.manager == Starting then 4
                        else if a == Sample(Raise) && s.target != 16 then s.target + 1
                        else if a == Sample(Lower) && s.target != 2 then s.target - 1
                        else s.target
  {
    hide Counted, Owned;
    EveryState(states, steps, i);
  }

  /** The count that worker w has loaded exceeds the target it has loaded, and is still the thread count. */
  predicate Leaves(s: State, a: Step) {
    && a.Work? && a.w < |s.workers| && s.workers[a.w].stage.Compared?
    && s.workers[a.w].stage.count > s.workers[a.w].stage.target && s.thrdCount == s.workers[a.w].stage.count
  }

  /** How the thread count moves: up by one when the manager hires, and down by one exactly in an exit step. */
  lemma CountMoves(states: seq<State>, steps: seq<Step>, i: nat)
    requires IsRun(states, steps) && i < |steps|
    ensures var s, t, a := states[i], states[i + 1], steps[i];
            && t.thrdCount == s.thrdCount + (if a == Manage && s.manager == Spawning then 1 else 0) - (if Leaves(s, a) then 1 else 0)
            && (a.Work? ==> a.w < |t.workers| && (t.workers[a.w].stage == Quitting(true) <==> Leaves(s, a)))
  {
    assert Enabled(states[i], steps[i]);
  }

  /** A worker loads the count, and then the target, as they are at that time. */
  lemma LoadsCurrent(states: seq<State>, steps: seq<Step>, i: nat, w: nat)
    requires IsRun(states, steps) && i < |steps| && steps[i] == Work(w)
    ensures w < |states[i].workers| && w < |states[i + 1].workers|
    ensures var s, g, g' := states[i], states[i].workers[w].stage, states[i + 1].workers[w].stage;
            && (g'.Loaded? <==> g == Executing) && (g'.Loaded? ==> g'.count == s.thrdCount)
            && (g'.Compared? <==> g.Loaded?) && (g'.Compared? ==> g'.count == g.count && g'.target == s.target)
  {
    assert Enabled(states[i], steps[i]);
  }

  // ----- going on, and coming to an end

  /** In every run the manager goes on until it has stopped, every worker until it is done, and quitting is always possible. */
  lemma NeverStuck(states: seq<State>, steps: seq<Step>, i: nat, adjust: Adjust)
    requires IsRun(states, steps) && i < |states|
    ensures var s := states[i];
            && Enabled(s, Quit)
            && (if s.manager == Sampling then Enabled(s, Sample(adjust)) else Enabled(s, Manage) <==> s.manager != Stopped)
            && forall w :: 0 <= w < |s.workers| ==> (Enabled(s, Work(w)) <==> !s.workers[w].stage.Done?)
  {
    hide IsRun, Counted, Held;
    EveryState(states, steps, i);
  }

  /** How many steps a worker has left, once the pool is quitting. */
  function StepsLeft(g: Stage): nat {
    match g
    case Executing => 5
    case Loaded(_) => 4
    case Compared(_, _) => 3
    case Looping => 2
    case Quitting(_) => 1
    case Done(_) => 0
  }

  /** In every run, once the pool is quitting: it stays so, and each worker is done after at most five steps of its own. */
  lemma QuitEnds(states: seq<State>, steps: seq<Step>, i: nat, w: nat)
    requires IsRun(states, steps) && i < |steps| && states[i].quitting && w < |states[i].workers|
    ensures states[i + 1].quitting && w < |states[i + 1].workers|
    ensures var before, after := StepsLeft(states[i].workers[w].stage), StepsLeft(states[i + 1].workers[w].stage);
            if steps[i] == Work(w) then after < before else after == before
  {
    assert Enabled(states[i], steps[i]);
  }

  // ----- the scan for a free slot

  /** While the manager looks for a slot it goes round all sixteen, one after the other, and stays at one that it finds free. */
  lemma ScanMoves(states: seq<State>, steps: seq<Step>, i: nat)
    requires IsRun(states, steps) && i < |steps| && Hiring(states[i].manager)
    ensures states[i].index < 16 == |states[i].slots|
    ensures var s, t := states[i], states[i + 1];
            && t.index == (if steps[i] == Manage && s.manager == Moving then (if s.index == 15 then 0 else s.index + 1) else s.index)
            && (steps[i] == Manage && s.manager == Scanning ==>
                  && (t.manager == Claiming <==> s.slots[s.index] == Uninitialized)
                  && (t.manager == Joining <==> s.slots[s.index] == Exited))
  {
    hide Counted, Owned;
    EveryState(states, steps, i);
    assert Enabled(states[i], steps[i]);
    SlotCount(states[i]);
  }

  lemma SlotCount(s: State)
    requires Inv(s)
    ensures |s.slots| == 16
  {
  }

  /** The slots of unfinished workers that are still counted. */
  ghost function CountedSlots(ws: seq<Worker>): set<nat> {
    if ws == [] then {}
    else
      var last := ws[|ws| - 1];
      CountedSlots(ws[..|ws| - 1]) + if HasExited(last.stage) || last.stage.Done? then {} else {last.slot}
  }

  lemma {:induction false} CountedSlotsFew(ws: seq<Worker>)
    ensures |CountedSlots(ws)| <= Counted(ws)
  {
    if ws != [] {
      CountedSlotsFew(ws[..|ws| - 1]);
    }
  }

  lemma {:induction false} CountedSlotsAll(ws: seq<Worker>, w: nat)
    requires w < |ws| && !HasExited(ws[w].stage) && !ws[w].stage.Done?
    ensures ws[w].slot in CountedSlots(ws)
  {
    if w < |ws| - 1 {
      CountedSlotsAll(ws[..|ws| - 1], w);
    }
  }

  lemma {:induction false} Missing(taken: set<nat>, n: nat) returns (k: nat)
    requires |taken| < n
    ensures k < n && k !in taken
  {
    if n - 1 !in taken {
      return n - 1;
    }
    k := Missing(taken - {n - 1}, n - 1);
  }

  /**
   Whenever the manager looks for a slot there is one to find: free already, or held by a worker that has
   taken the exit step and whose next step frees it. The scan never waits for a worker that stays.
   */
  lemma ScanCanEnd(states: seq<State>, steps: seq<Step>, i: nat)
    requires IsRun(states, steps) && i < |states| && Hiring(states[i].manager) && states[i].manager != Creating
    ensures var s := states[i];
            exists k :: 0 <= k < |s.slots|
              && (s.slots[k] != Running || exists w :: Holds(s.workers, w, k) && s.workers[w].stage == Quitting(true))
  {
    hide IsRun, Counted;
    EveryState(states, steps, i);
    var s := states[i];
    CountedSlotsFew(s.workers);
    var k := Missing(CountedSlots(s.workers), COUNT_MAX);
    if s.slots[k] == Running {
      assert Held(s.workers, k);
      var w :| Holds(s.workers, w, k);
      if !HasExited(s.workers[w].stage) {
        CountedSlotsAll(s.workers, w);
      }
    }
  }

  // ----- what the manager does not see

  /**
   The manager hires exactly when the target exceeds the thread count by more than the exits since it last
   hired: every worker that has left since then is still on its books.
   */
  lemma HiresIff(states: seq<State>, steps: seq<Step>, i: nat)
    requires IsRun(states, steps) && i < |steps| && states[i].manager == Comparing && steps[i] == Manage
    ensures states[i + 1].manager == Spawning <==> states[i].thrdCount + states[i].exits < states[i].target
  {
    hide Counted, Owned;
    EveryState(states, steps, i);
  }

  ghost predicate Reachable(s: State) {
    exists states, steps :: IsRun(states, steps) && states[|steps|] == s
  }

  lemma ReachableNext(s: State, a: Step)
    requires Reachable(s) && Enabled(s, a)
    ensures Reachable(Next(s, a))
  {
    hide Next, Enabled;
    var states, steps :| IsRun(states, steps) && states[|steps|] == s;
    var states', steps' := states + [Next(s, a)], steps + [a];
    assert IsRun(states', steps') && states'[|steps'|] == Next(s, a);
  }

  /** A state in which the first n slots have running workers. */
  function Staffed(n: nat): State
    requires n <= COUNT_INI
  {
    State(COUNT_INI, n, seq(COUNT_MAX, i => if i < n then Running else Uninitialized),
          seq(n, i requires 0 <= i => Worker(i, Looping)), false, Deciding, n, if n == 0 then 0 else n - 1, 0)
  }

  /** The scan moves on from the slot that was claimed last to the next, which is free. */
  lemma FindsSlot(s: State, n: nat)
    requires Reachable(s) && s.manager == Scanning && |s.slots| == COUNT_MAX && n < COUNT_INI
    requires s.index == if n == 0 then 0 else n - 1
    requires n > 0 ==> s.slots[n - 1] == Running
    ensures Reachable(s.(index := n))
  {
    hide Reachable;
    if n > 0 {
      ReachableNext(s, Manage);
      ReachableNext(Managed(s), Manage);
    }
  }

  lemma Hire(n: nat)
    requires n < COUNT_INI && Reachable(Staffed(n))
    ensures Reachable(Staffed(n + 1))
  {
    hide Reachable;
    var s := Staffed(n);
    ReachableNext(s, Manage);
    ReachableNext(Managed(s), Manage);
    var s1 := Managed(Managed(s));
    ReachableNext(s1, Manage);
    var s2 := Managed(s1);
    FindsSlot(s2, n);
    var s3 := s2.(index := n);
    ReachableNext(s3, Manage);
    var s4 := Managed(s3);
    ReachableNext(s4, Manage);
    var s5 := Managed(s4);
    ReachableNext(s5, Manage);
    assert Managed(s5).slots == Staffed(n + 1).slots;
    assert Managed(s5).workers == Staffed(n + 1).workers;
  }

  lemma {:induction false} AllStaffed(n: nat)
    requires n <= COUNT_INI
    ensures Reachable(Staffed(n))
  {
    if n == 0 {
      assert IsRun([Initial()], []) && [Initial()][0] == Initial();
      ReachableNext(Initial(), Manage);
      ReachableNext(Managed(Initial()), Manage);
      ReachableNext(Managed(Managed(Initial())), Manage);
      assert Managed(Managed(Managed(Initial()))).slots == Staffed(0).slots;
    } else {
      AllStaffed(n - 1);
      Hire(n - 1);
    }
  }

  /** A pool can be below its target with a manager that does not hire. */
  lemma BelowTarget()
    ensures exists s :: Reachable(s) && s.manager == Comparing && Enabled(s, Manage)
                     && !s.quitting && s.thrdCount < s.target && Managed(s).manager != Spawning
  {
    hide Reachable;
    AllStaffed(4);
    var s := Staffed(4);
    ReachableNext(s, Manage);
    ReachableNext(Managed(s), Manage);
    var s1 := Managed(Managed(s));
    ReachableNext(s1, Sample(Lower));
    var s2 := Next(s1, Sample(Lower));
    ReachableNext(s2, Manage);
    var s3 := Managed(s2);
    ReachableNext(s3, Work(0));
    var s4 := Worked(s3, 0);
    ReachableNext(s4, Work(0));
    var s5 := Worked(s4, 0);
    ReachableNext(s5, Work(0));
    var s6 := Worked(s5, 0);
    ReachableNext(s6, Work(0));
    Understaffed(Worked(s6, 0));
  }

  lemma Understaffed(s: State)
    requires Reachable(s) && s.manager == Deciding && s.target == 3 && s.count == 4 && s.thrdCount == 3
    requires !s.quitting && s.index < |s.slots|
    ensures exists s :: Reachable(s) && s.manager == Comparing && Enabled(s, Manage)
                     && !s.quitting && s.thrdCount < s.target && Managed(s).manager != Spawning
  {
    hide Reachable;
    ReachableNext(s, Manage);
    ReachableNext(Managed(s), Manage);
    var s1 := Managed(Managed(s));
    ReachableNext(s1, Sample(Raise));
    var s2 := Next(s1, Sample(Raise));
    ReachableNext(s2, Manage);
    ReachableNext(Managed(s2), Manage);
    var s3 := Managed(Managed(s2));
    assert s3.target == 4 && s3.manager == Comparing && Managed(s3).manager == Sampling;
  }
}
