/**
 uo_queue (and its fixed-capacity twin uo_cb_queue): a ring buffer guarded by two counting
 semaphores and two ticket counters, as a step system over any number of threads. Each step is one
 atomic action of uo_queue_enqueue or uo_queue_dequeue.
 */
module Queue {
  import opened Bits

  /** Where a thread stands inside an operation. */
  datatype Thread<V> =
    | Outside
    | EnqueuePermit(item: V)
    | EnqueueTicket(item: V, ticket: nat)
    | EnqueueWritten(ticket: nat)
    | DequeuePermit
    | DequeueTicket(ticket: nat)
    | DequeueRead(ticket: nat)

  /**
   The shared state. The histories record the items in the order of the producers' tickets and the
   items in the order in which consumers read them; the code never looks at them.
   */
  datatype State<V> = State(
    free: nat, ready: nat, head: nat, tail: nat, items: seq<V>, threads: seq<Thread<V>>,
    enqueued: seq<V>, dequeued: seq<V>)

  /** One atomic action by thread t. A failing non-blocking call changes nothing and is not a step. */
  datatype Step<V> =
    | WaitFree(t: nat, item: V)
    | TakeHead(t: nat)
    | Write(t: nat)
    | PostReady(t: nat)
    | WaitReady(t: nat)
    | TakeTail(t: nat)
    | Read(t: nat)
    | PostFree(t: nat)

  function Initial<V>(items: seq<V>, threads: nat): State<V> {
    State(|items|, 0, 0, 0, items, seq(threads, _ => Outside), [], [])
  }

  predicate Enabled<V>(s: State<V>, a: Step<V>) {
    && a.t < |s.threads|
    && match a
       case WaitFree(t, _) => s.threads[t].Outside? && s.free > 0
       case TakeHead(t) => s.threads[t].EnqueuePermit?
       case Write(t) => s.threads[t].EnqueueTicket? && s.items != []
       case PostReady(t) => s.threads[t].EnqueueWritten?
       case WaitReady(t) => s.threads[t].Outside? && s.ready > 0
       case TakeTail(t) => s.threads[t].DequeuePermit?
       case Read(t) => s.threads[t].DequeueTicket? && s.items != []
       case PostFree(t) => s.threads[t].DequeueRead?
  }

  function Next<V>(s: State<V>, a: Step<V>): State<V>
    requires Enabled(s, a)
  {
    var cap := |s.items|;
    var th := s.threads[a.t];
    match a
    case WaitFree(t, item) => s.(free := s.free - 1, threads := s.threads[t := EnqueuePermit(item)])
    case TakeHead(t) =>
      s.(head := s.head + 1, enqueued := s.enqueued + [th.item],
         threads := s.threads[t := EnqueueTicket(th.item, s.head)])
    case Write(t) =>
      s.(items := s.items[th.ticket % cap := th.item], threads := s.threads[t := EnqueueWritten(th.ticket)])
    case PostReady(t) => s.(ready := s.ready + 1, threads := s.threads[t := Outside])
    case WaitReady(t) => s.(ready := s.ready - 1, threads := s.threads[t := DequeuePermit])
    case TakeTail(t) => s.(tail := s.tail + 1, threads := s.threads[t := DequeueTicket(s.tail)])
    case Read(t) =>
      s.(dequeued := s.dequeued + [s.items[th.ticket % cap]], threads := s.threads[t := DequeueRead(th.ticket)])
    case PostFree(t) => s.(free := s.free + 1, threads := s.threads[t := Outside])
  }

  /** A run: its states, and the steps between them. */
  ghost predicate IsRun<V>(states: seq<State<V>>, steps: seq<Step<V>>) {
    && |states| == |steps| + 1
    && forall i :: 0 <= i < |steps| ==> Enabled(states[i], steps[i]) && states[i + 1] == Next(states[i], steps[i])
  }

  // ----- counting threads

  /** The stages of an operation, without what the thread carries. */
  datatype Stage = Idle | Entering | Writing | Posting | Claiming | Reading | Leaving

  function StageOf<V>(th: Thread<V>): Stage {
    match th
    case Outside => Idle
    case EnqueuePermit(_) => Entering
    case EnqueueTicket(_, _) => Writing
    case EnqueueWritten(_) => Posting
    case DequeuePermit => Claiming
    case DequeueTicket(_) => Reading
    case DequeueRead(_) => Leaving
  }

  /** How many threads are at a stage. */
  ghost function At<V>(ths: seq<Thread<V>>, g: Stage): nat {
    if ths == [] then 0 else (if StageOf(ths[0]) == g then 1 else 0) + At(ths[1..], g)
  }

  lemma {:induction false} AtUpdate<V>(ths: seq<Thread<V>>, t: nat, th: Thread<V>, g: Stage)
    requires t < |ths|
    ensures At(ths[t := th], g)
         == At(ths, g) - (if StageOf(ths[t]) == g then 1 else 0) + (if StageOf(th) == g then 1 else 0)
  {
    if t > 0 {
      AtUpdate(ths[1..], t - 1, th, g);
      assert ths[t := th][1..] == ths[1..][t - 1 := th];
    } else {
      assert ths[t := th][1..] == ths[1..];
    }
  }

  lemma {:induction false} AtStart<V>(n: nat, g: Stage)
    requires g != Idle
    ensures At<V>(seq(n, _ => Outside), g) == 0
  {
    if n > 0 {
      var ths: seq<Thread<V>> := seq(n, _ => Outside);
      assert ths[1..] == seq(n - 1, _ => Outside);
      AtStart<V>(n - 1, g);
    }
  }

  lemma {:induction false} AtOne<V>(ths: seq<Thread<V>>, t: nat)
    requires t < |ths|
    ensures At(ths, StageOf(ths[t])) >= 1
  {
    if t > 0 {
      AtOne(ths[1..], t - 1);
    }
  }

  lemma {:induction false} AtTwo<V>(ths: seq<Thread<V>>, t: nat, u: nat)
    requires t < u < |ths| && StageOf(ths[t]) == StageOf(ths[u])
    ensures At(ths, StageOf(ths[t])) >= 2
    decreases |ths|
  {
    if t == 0 {
      AtOne(ths[1..], u - 1);
    } else {
      AtTwo(ths[1..], t - 1, u - 1);
    }
  }

  /** The numbers of threads inside each operation. */
  ghost function Enqueuing<V>(s: State<V>): nat {
    At(s.threads, Entering) + At(s.threads, Writing) + At(s.threads, Posting)
  }

  ghost function Dequeuing<V>(s: State<V>): nat {
    At(s.threads, Claiming) + At(s.threads, Reading) + At(s.threads, Leaving)
  }

  // ----- every interleaving

  /** Permits are conserved, and the counters differ by exactly the items that are not yet claimed. */
  ghost predicate Conserved<V>(s: State<V>) {
    && s.free + s.ready + Enqueuing(s) + Dequeuing(s) == |s.items|
    && s.head == s.tail + s.ready + At(s.threads, Writing) + At(s.threads, Posting) + At(s.threads, Claiming)
    && |s.enqueued| == s.head
    && |s.dequeued| + At(s.threads, Reading) == s.tail
  }

  /** The ticket a thread holds in an operation, or -1. */
  function EnqueueTicketOf<V>(th: Thread<V>): int {
    if th.EnqueueTicket? || th.EnqueueWritten? then th.ticket else -1
  }

  function DequeueTicketOf<V>(th: Thread<V>): int {
    if th.DequeueTicket? || th.DequeueRead? then th.ticket else -1
  }

  /** Tickets that are held lie below their counter and are held once. */
  ghost predicate TicketsUnique<V>(ths: seq<Thread<V>>, head: nat, tail: nat) {
    && (forall t :: 0 <= t < |ths| ==> EnqueueTicketOf(ths[t]) < head && DequeueTicketOf(ths[t]) < tail)
    && (forall t, u :: 0 <= t < u < |ths| ==>
          && (EnqueueTicketOf(ths[t]) == EnqueueTicketOf(ths[u]) ==> EnqueueTicketOf(ths[t]) == -1)
          && (DequeueTicketOf(ths[t]) == DequeueTicketOf(ths[u]) ==> DequeueTicketOf(ths[t]) == -1))
  }

  ghost predicate Inv<V>(s: State<V>) {
    Conserved(s) && TicketsUnique(s.threads, s.head, s.tail)
  }

  lemma StagesMove<V>(s: State<V>, a: Step<V>, g: Stage)
    requires Enabled(s, a)
    ensures At(Next(s, a).threads, g) == At(s.threads, g)
         - (if StageOf(s.threads[a.t]) == g then 1 else 0) + (if StageOf(Next(s, a).threads[a.t]) == g then 1 else 0)
  {
    var th := Next(s, a).threads[a.t];
    assert Next(s, a).threads == s.threads[a.t := th];
    AtUpdate(s.threads, a.t, th, g);
  }

  lemma InitialInv<V>(items: seq<V>, threads: nat)
    ensures Inv(Initial(items, threads)) && Fifo(Initial(items, threads))
  {
    forall g | g != Idle
      ensures At(Initial(items, threads).threads, g) == 0
    {
      AtStart<V>(threads, g);
    }
  }

  lemma StepConserves<V>(s: State<V>, a: Step<V>)
    requires Conserved(s) && Enabled(s, a)
    ensures Conserved(Next(s, a))
  {
    hide At;
    StagesMove(s, a, Entering);
    StagesMove(s, a, Writing);
    StagesMove(s, a, Posting);
    StagesMove(s, a, Claiming);
    StagesMove(s, a, Reading);
    StagesMove(s, a, Leaving);
    AtOne(s.threads, a.t);
  }

  /** A ticket is kept, given up, or taken from the counter. */
  predicate TicketMove(before: int, after: int, counter: nat, counter': nat) {
    (counter' == counter && (after == before || after == -1)) || (counter' == counter + 1 && after == counter)
  }

  lemma TicketsMove<V>(ths: seq<Thread<V>>, t: nat, th: Thread<V>, head: nat, tail: nat, head': nat, tail': nat)
    requires TicketsUnique(ths, head, tail) && t < |ths|
    requires TicketMove(EnqueueTicketOf(ths[t]), EnqueueTicketOf(th), head, head')
    requires TicketMove(DequeueTicketOf(ths[t]), DequeueTicketOf(th), tail, tail')
    ensures TicketsUnique(ths[t := th], head', tail')
  {
    hide EnqueueTicketOf, DequeueTicketOf;
  }

  lemma StepKeepsTickets<V>(s: State<V>, a: Step<V>)
    requires TicketsUnique(s.threads, s.head, s.tail) && Enabled(s, a)
    ensures TicketsUnique(Next(s, a).threads, Next(s, a).head, Next(s, a).tail)
  {
    hide TicketsUnique;
    var th := Next(s, a).threads[a.t];
    assert Next(s, a).threads == s.threads[a.t := th];
    TicketsMove(s.threads, a.t, th, s.head, s.tail, Next(s, a).head, Next(s, a).tail);
  }

  lemma StepInv<V>(s: State<V>, a: Step<V>)
    requires Inv(s) && Enabled(s, a)
    ensures Inv(Next(s, a))
  {
    hide Conserved, TicketsUnique;
    StepConserves(s, a);
    StepKeepsTickets(s, a);
  }

  /**
   In every interleaving of any number of threads: free permits, ready permits and operations in
   flight add up to the capacity; no ticket is held twice; and 0 <= head - tail <= capacity.
   */
  lemma {:induction false} EveryRun<V>(states: seq<State<V>>, steps: seq<Step<V>>, i: nat)
    requires IsRun(states, steps) && Inv(states[0]) && i < |states|
    ensures Inv(states[i]) && |states[i].items| == |states[0].items|
    ensures 0 <= states[i].head - states[i].tail <= |states[i].items|
  {
    hide Next, Enabled, TicketsUnique, At;
    if i > 0 {
      EveryRun(states, steps, i - 1);
      StepInv(states[i - 1], steps[i - 1]);
      SameCapacity(states[i - 1], steps[i - 1]);
    }
  }

  lemma SameCapacity<V>(s: State<V>, a: Step<V>)
    requires Enabled(s, a)
    ensures |Next(s, a).items| == |s.items|
  {
  }

  // ----- nobody waits for ever

  /** Thread t can make a step. */
  ghost predicate CanStep<V(!new)>(s: State<V>, t: nat) {
    exists a: Step<V> :: a.t == t && Enabled(s, a)
  }

  /** A thread inside an operation is never blocked. */
  lemma InsideCanStep<V(!new)>(s: State<V>, t: nat)
    requires Inv(s) && t < |s.threads| && !s.threads[t].Outside?
    ensures CanStep(s, t)
  {
    hide TicketsUnique, At;
    assert s.items != [] by { AtOne(s.threads, t); }
    var a := match s.threads[t]
      case EnqueuePermit(_) => TakeHead(t)
      case EnqueueTicket(_, _) => Write(t)
      case EnqueueWritten(_) => PostReady(t)
      case DequeuePermit => TakeTail(t)
      case DequeueTicket(_) => Read(t)
      case _ => PostFree(t);
    assert a.t == t && Enabled(s, a);
  }

  lemma {:induction false} NobodyInside<V>(ths: seq<Thread<V>>, g: Stage)
    requires g != Idle && forall t :: 0 <= t < |ths| ==> ths[t].Outside?
    ensures At(ths, g) == 0
  {
    if ths != [] {
      NobodyInside(ths[1..], g);
    }
  }

  /**
   In every run of a queue with room: a thread inside an operation can always go on; a thread outside can start to
   enqueue an item exactly when ready permits and operations in flight are fewer than the capacity, and to
   dequeue exactly when an item is ready; and so some thread can always make a step.
   */
  lemma NeverStuck<V(!new)>(states: seq<State<V>>, steps: seq<Step<V>>, i: nat, item: V)
    requires IsRun(states, steps) && Inv(states[0]) && i < |states| && states[0].items != [] && states[i].threads != []
    ensures var s := states[i];
            && (forall t :: 0 <= t < |s.threads| && !s.threads[t].Outside? ==> CanStep(s, t))
            && (forall t :: 0 <= t < |s.threads| && s.threads[t].Outside? ==>
                  && (Enabled(s, WaitFree(t, item)) <==> s.ready + Enqueuing(s) + Dequeuing(s) < |s.items|)
                  && (Enabled(s, WaitReady(t)) <==> s.ready > 0))
            && exists t :: 0 <= t < |s.threads| && CanStep(s, t)
  {
    hide TicketsUnique, At, Next;
    EveryRun(states, steps, i);
    var s := states[i];
    forall t | 0 <= t < |s.threads| && !s.threads[t].Outside?
      ensures CanStep(s, t)
    {
      InsideCanStep(s, t);
    }
    if forall t :: 0 <= t < |s.threads| ==> s.threads[t].Outside? {
      forall g | g != Idle
        ensures At(s.threads, g) == 0
      {
        NobodyInside(s.threads, g);
      }
      assert s.free > 0 || s.ready > 0;
      assert Enabled(s, WaitFree(0, item)) || Enabled(s, WaitReady(0));
      assert CanStep(s, 0);
    }
  }

  // ----- first in, first out

  /** At most one thread inside each operation. */
  ghost predicate Exclusive<V>(s: State<V>) {
    Enqueuing(s) <= 1 && Dequeuing(s) <= 1
  }

  /** How many tickets have been written; the holder of an unwritten ticket has the newest one. */
  ghost function Written<V>(s: State<V>): int {
    s.head - At(s.threads, Writing)
  }

  ghost predicate InSlot<V>(s: State<V>, i: int) {
    s.items != [] && 0 <= i < |s.enqueued| && s.items[i % |s.items|] == s.enqueued[i]
  }

  /** The items read are the first ones enqueued, and every item written but not read is in its slot. */
  ghost predicate Fifo<V>(s: State<V>) {
    && s.dequeued <= s.enqueued
    && |s.enqueued| == s.head
    && (forall i :: |s.dequeued| <= i < Written(s) ==> InSlot(s, i))
    && (forall t :: 0 <= t < |s.threads| && s.threads[t].EnqueueTicket? ==>
          s.head > 0 && s.threads[t] == EnqueueTicket(s.enqueued[s.head - 1], s.head - 1))
    && (forall t :: 0 <= t < |s.threads| && s.threads[t].DequeueTicket? ==> s.threads[t].ticket == |s.dequeued|)
  }

  lemma ModDistinct(i: nat, j: nat, c: nat)
    requires i < j < i + c
    ensures i % c != j % c
  {
    var a, b := i / c, j / c;
    assert i == a * c + i % c && j == b * c + j % c;
    if a < b {
      MulAtLeast(b - a, c);
    } else if b < a {
      MulAtLeast(a - b, c);
    }
  }

  /** What exclusion means: the thread that acts is alone in its operation. */
  lemma Alone<V>(s: State<V>, t: nat)
    requires Exclusive(s) && t < |s.threads|
    ensures StageOf(s.threads[t]) in {Entering, Writing, Posting} ==>
      forall u :: 0 <= u < |s.threads| && u != t ==> StageOf(s.threads[u]) !in {Entering, Writing, Posting}
    ensures StageOf(s.threads[t]) in {Claiming, Reading, Leaving} ==>
      forall u :: 0 <= u < |s.threads| && u != t ==> StageOf(s.threads[u]) !in {Claiming, Reading, Leaving}
  {
    hide At;
    forall u | 0 <= u < |s.threads| && u != t
      ensures At(s.threads, StageOf(s.threads[u])) >= 1 && At(s.threads, StageOf(s.threads[t])) >= 1
      ensures StageOf(s.threads[u]) == StageOf(s.threads[t]) ==> At(s.threads, StageOf(s.threads[t])) >= 2
    {
      AtOne(s.threads, t);
      AtOne(s.threads, u);
      if StageOf(s.threads[u]) == StageOf(s.threads[t]) {
        AtTwo(s.threads, if t < u then t else u, if t < u then u else t);
      }
    }
  }

  lemma FifoStep<V>(s: State<V>, a: Step<V>)
    requires Inv(s) && Fifo(s) && Exclusive(s) && Enabled(s, a)
    ensures Fifo(Next(s, a))
  {
    hide At, TicketsUnique;
    StagesMove(s, a, Writing);
    StagesMove(s, a, Reading);
    AtOne(s.threads, a.t);
    Alone(s, a.t);
    assert a.Read? ==> InSlot(s, |s.dequeued|);
    SlotsKept(s, a);
  }

  /** Every item written but not read stays in its slot, and the one written now is put there. */
  lemma SlotsKept<V>(s: State<V>, a: Step<V>)
    requires Inv(s) && Fifo(s) && Exclusive(s) && Enabled(s, a)
    ensures forall i :: |Next(s, a).dequeued| <= i < Written(Next(s, a)) ==> InSlot(Next(s, a), i)
  {
    hide At, TicketsUnique;
    StagesMove(s, a, Writing);
    StagesMove(s, a, Reading);
    AtOne(s.threads, a.t);
    var s' := Next(s, a);
    forall i | |s'.dequeued| <= i < Written(s')
      ensures InSlot(s', i)
    {
      if i < Written(s) {
        assert InSlot(s, i);
        if a.Write? {
          ModDistinct(i, s.head - 1, |s.items|);
        }
      }
    }
  }

  /**
   When enqueue sections do not overlap each other and dequeue sections do not overlap each other,
   every interleaving of the two sides is first in, first out: the items read are the first ones
   enqueued, in order, and none is lost, repeated or overwritten before it is read.
   */
  lemma {:induction false} ExclusiveRunIsFifo<V>(states: seq<State<V>>, steps: seq<Step<V>>, i: nat)
    requires IsRun(states, steps) && Inv(states[0]) && Fifo(states[0]) && i < |states|
    requires forall k :: 0 <= k < |states| ==> Exclusive(states[k])
    ensures Fifo(states[i])
  {
    if i > 0 {
      ExclusiveRunIsFifo(states, steps, i - 1);
      EveryRun(states, steps, i - 1);
      FifoStep(states[i - 1], steps[i - 1]);
    }
  }

  // ----- when the order is guaranteed for every caller

  ghost predicate Reachable(s0: State<int>, s: State<int>) {
    exists states: seq<State<int>>, steps ::
      IsRun(states, steps) && states[0] == s0 && states[|steps|] == s
  }

  lemma ReachStart(s0: State<int>)
    ensures Reachable(s0, s0)
  {
    assert IsRun([s0], []);
  }

  /** A run goes on with one more enabled step. */
  lemma ReachNext(s0: State<int>, s: State<int>, a: Step<int>) returns (s': State<int>)
    requires Reachable(s0, s) && Enabled(s, a)
    ensures s' == Next(s, a) && Reachable(s0, s')
  {
    s' := Next(s, a);
    var states: seq<State<int>>, steps :| IsRun(states, steps) && states[0] == s0 && states[|steps|] == s;
    assert IsRun(states + [s'], steps + [a]);
  }

  /** Two producers: the second ticket is posted, and the first slot is not written. */
  lemma SecondPosted(items: seq<int>) returns (s: State<int>)
    requires |items| >= 2
    ensures Reachable(Initial(items, 3), s) && |s.items| == |items| && s.items[0] == items[0]
    ensures s.ready == 1 && s.tail == 0 && |s.threads| == 3 && s.threads[2].Outside?
    ensures |s.enqueued| == 2 && s.enqueued[0] == items[0] + 1 && s.dequeued == []
  {
    hide Reachable;
    var s0, x := Initial(items, 3), items[0] + 1;
    ReachStart(s0);
    s := s0;
    s := ReachNext(s0, s, WaitFree(0, x));
    s := ReachNext(s0, s, TakeHead(0));
    s := ReachNext(s0, s, WaitFree(1, x));
    s := ReachNext(s0, s, TakeHead(1));
    s := ReachNext(s0, s, Write(1));
    s := ReachNext(s0, s, PostReady(1));
  }

  /** Two producers: the second ticket is posted first, and the consumer reads a slot never written. */
  lemma ProducersOverlap(items: seq<int>) returns (s: State<int>)
    requires |items| >= 2
    ensures Reachable(Initial(items, 3), s) && !(s.dequeued <= s.enqueued)
  {
    hide Reachable;
    var s0 := Initial(items, 3);
    s := SecondPosted(items);
    s := ReachNext(s0, s, WaitReady(2));
    s := ReachNext(s0, s, TakeTail(2));
    s := ReachNext(s0, s, Read(2));
    assert s.dequeued[0] == items[0];
  }

  /** One thread enqueues 1, and nothing else happens. */
  lemma OneEnqueued(items: seq<int>) returns (s: State<int>)
    requires |items| >= 2
    ensures Reachable(Initial(items, 3), s) && |s.items| == |items| && s.free == |items| - 1
    ensures s.ready == 1 && s.head == 1 && s.tail == 0 && s.threads == [Outside, Outside, Outside]
    ensures s.enqueued == [1] && s.dequeued == []
  {
    hide Reachable;
    var s0 := Initial(items, 3);
    ReachStart(s0);
    s := ReachNext(s0, s0, WaitFree(0, 1));
    s := ReachNext(s0, s, TakeHead(0));
    s := ReachNext(s0, s, Write(0));
    s := ReachNext(s0, s, PostReady(0));
  }

  /** One thread enqueues 1 and then 2, and nothing else happens. */
  lemma TwoEnqueued(items: seq<int>) returns (s: State<int>)
    requires |items| >= 2
    ensures Reachable(Initial(items, 3), s) && |s.items| == |items| && s.items[1] == 2
    ensures s.ready == 2 && s.tail == 0 && s.threads == [Outside, Outside, Outside]
    ensures s.enqueued == [1, 2] && s.dequeued == []
  {
    hide Reachable;
    var s0 := Initial(items, 3);
    s := OneEnqueued(items);
    s := ReachNext(s0, s, WaitFree(0, 2));
    s := ReachNext(s0, s, TakeHead(0));
    s := ReachNext(s0, s, Write(0));
    s := ReachNext(s0, s, PostReady(0));
  }

  /** Two consumers: the second ticket is read first, although the producers take turns. */
  lemma ConsumersOverlap(items: seq<int>) returns (s: State<int>)
    requires |items| >= 2
    ensures Reachable(Initial(items, 3), s) && !(s.dequeued <= s.enqueued)
  {
    hide Reachable;
    var s0 := Initial(items, 3);
    s := TwoEnqueued(items);
    s := ReachNext(s0, s, WaitReady(1));
    s := ReachNext(s0, s, TakeTail(1));
    s := ReachNext(s0, s, WaitReady(2));
    s := ReachNext(s0, s, TakeTail(2));
    s := ReachNext(s0, s, Read(2));
    assert s.dequeued[0] == 2 && s.enqueued[0] == 1;
  }

  /** Whatever the threads do, the items read are the first ones enqueued, in order. */
  ghost predicate AlwaysInOrder(items: seq<int>) {
    forall n: nat, s | Reachable(Initial(items, n), s) :: s.dequeued <= s.enqueued
  }

  /** Without any discipline among the callers, the order is guaranteed exactly for capacities up to one. */
  lemma InOrderForAllCallers(items: seq<int>)
    ensures AlwaysInOrder(items) <==> |items| <= 1
  {
    if |items| >= 2 {
      var s := ProducersOverlap(items);
    } else {
      forall n: nat, s | Reachable(Initial(items, n), s)
        ensures s.dequeued <= s.enqueued
      {
        var states: seq<State<int>>, steps :| IsRun(states, steps) && states[0] == Initial(items, n) && states[|steps|] == s;
        InitialInv(items, n);
        forall k | 0 <= k < |states|
          ensures Exclusive(states[k])
        {
          EveryRun(states, steps, k);
        }
        ExclusiveRunIsFifo(states, steps, |steps|);
      }
    }
  }
}
