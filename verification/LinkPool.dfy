/**
 uo_linkpool: a per-thread pool of list nodes. Blocks of nodes are allocated and put on a free list; renting
 takes a node off the list and returning puts it back.
 */
module LinkPool {
  import opened LinkList

  const DEFAULT_GROW: nat := 0x20

  /** What happens to a node between the pool and its users. */
  datatype Event<T> = Handed(node: Link<T>) | Returned(node: Link<T>)

  /** The nodes that users hold after the events. */
  ghost function Out<T>(events: seq<Event<T>>): set<Link<T>> {
    if events == [] then {}
    else
      var before := Out(events[..|events| - 1]);
      match events[|events| - 1]
      case Handed(x) => before + {x}
      case Returned(x) => before - {x}
  }

  /** No node is handed out while a user holds it, and only held nodes come back. */
  ghost predicate Alternates<T>(events: seq<Event<T>>) {
    forall i :: 0 <= i < |events| ==>
      (events[i].Handed? <==> events[i].node !in Out(events[..i]))
  }

  /** The nodes of all allocated blocks. */
  ghost function Nodes<T>(blocks: seq<seq<Link<T>>>): seq<Link<T>> {
    if blocks == [] then [] else Nodes(blocks[..|blocks| - 1]) + blocks[|blocks| - 1]
  }

  lemma {:induction false} NodeInBlock<T>(blocks: seq<seq<Link<T>>>, i: nat) returns (k: nat, j: nat)
    requires i < |Nodes(blocks)|
    ensures k < |blocks| && j < |blocks[k]| && blocks[k][j] == Nodes(blocks)[i]
  {
    var n := |Nodes(blocks[..|blocks| - 1])|;
    if i < n {
      k, j := NodeInBlock(blocks[..|blocks| - 1], i);
    } else {
      k, j := |blocks| - 1, i - n;
    }
  }

  ghost function Set<T>(s: seq<T>): set<T> {
    set x | x in s
  }

  /** Free and held nodes are different, and together they are all nodes, each allocated once. */
  ghost predicate Partition<T>(all: seq<Link<T>>, free: seq<Link<T>>, held: set<Link<T>>) {
    && Distinct(all) && Distinct(free)
    && Set(all) == Set(free) + held
    && Set(free) !! held
  }

  class Pool<T> {
    const zero: T
    const head: Link<T>
    var blocks: seq<seq<Link<T>>>
    ghost var free: seq<Link<T>>
    ghost var events: seq<Event<T>>

    ghost predicate Valid()
      reads this, head, free`next, free`prev
    {
      && Ring(head, free)
      && Partition(Nodes(blocks), free, Out(events))
      && head !in Nodes(blocks)
      && Alternates(events)
    }

    /** uo_linkpool_thrd_init with no block stack left over by another thread. */
    constructor (zero: T)
      ensures Valid() && fresh(head) && this.zero == zero
      ensures blocks == [] && free == [] && events == []
    {
      this.zero := zero;
      head := new Link(zero);
      blocks, free, events := [], [], [];
      new;
      SelfLink(head);
    }

    /** Allocate a block and put its nodes at the end of the free list. */
    method Grow(count: nat)
      requires Valid()
      modifies this`blocks, this`free, head`next, head`prev, free`next, free`prev
      ensures Valid()
      ensures |blocks| == |old(blocks)| + 1 && blocks[..|old(blocks)|] == old(blocks)
      ensures |blocks[|old(blocks)|]| == count && fresh(blocks[|old(blocks)|])
      ensures free == old(free) + blocks[|old(blocks)|]
    {
      hide Partition, Alternates, Out, Nodes;
      ghost var all := Nodes(blocks);
      forall i | 0 <= i < |all|
        ensures allocated(all[i])
      {
        ghost var k, j := NodeInBlock(blocks, i);
      }
      var items := Calloc(zero, count);
      blocks := blocks + [items];
      LinkAll(head, free, items);
      assert forall i :: 0 <= i < |items| ==> items[i] !in all;
      PartitionGrown(old(blocks), free, Out(events), items);
      free := free + items;
    }

    /** uo_linkpool_rent: it tests the name of is_empty, not its result, and so always allocates. */
    method Rent() returns (link: Link<T>)
      requires Valid()
      modifies this`blocks, this`free, this`events, head`next, head`prev, free`next, free`prev
      ensures Valid()
      ensures events == old(events) + [Handed(link)] && fresh(link)
      ensures link.next == null
      ensures |blocks| == |old(blocks)| + 1 && blocks[..|old(blocks)|] == old(blocks)
      ensures |blocks[|old(blocks)|]| == 32 && fresh(blocks[|old(blocks)|])
      ensures free == old(free) + blocks[|old(blocks)|][..31]
    {
      hide Ring, Partition, Alternates, Out, Nodes;
      Grow(DEFAULT_GROW);
      ghost var n := |free| - 1;
      LastInRing(head, free);
      NotHeld(Nodes(blocks), free, Out(events), n);
      link := head.prev;
      Remove(head, free, n, link);
      PartitionTaken(Nodes(blocks), free, Out(events), n);
      free := free[..n] + free[n + 1..];
      OutNext(events, Handed(link));
      events := events + [Handed(link)];
    }

    /** uo_linkpool_return, of an unlinked node that came from this pool. */
    method Return(link: Link<T>)
      requires Valid() && link in Out(events) && link.next == null
      modifies this`free, this`events, {head, link}`next, {head, link}`prev, free`next, free`prev
      ensures Valid()
      ensures events == old(events) + [Returned(link)]
      ensures free == old(free) + [link]
    {
      InsertBefore(head, free, head, |free|, link);
      PartitionReturned(Nodes(blocks), free, Out(events), link);
      free := free[..|free|] + [link] + free[|free|..];
      OutNext(events, Returned(link));
      events := events + [Returned(link)];
    }
  }

  /** The loop of grow: put each node before the head. */
  method LinkAll<T>(head: Link<T>, ghost free: seq<Link<T>>, items: seq<Link<T>>)
    requires Ring(head, free) && Distinct(items) && head !in items
    requires forall i {:trigger items[i].next} :: 0 <= i < |items| ==> items[i].next == null
    requires forall i :: 0 <= i < |items| ==> items[i] !in free
    modifies head`next, head`prev, free`next, free`prev, items`next, items`prev
    ensures Ring(head, free + items)
  {
    ghost var nodes := free;
    for i := 0 to |items|
      invariant Ring(head, nodes) && nodes == free + items[..i]
      invariant forall k {:trigger items[k].next} :: i <= k < |items| ==> items[k].next == null
    {
      assert items[i].next == null;
      Unlisted(free, items, i);
      InsertBefore(head, nodes, head, |nodes|, items[i]);
      assert nodes[..|nodes|] + [items[i]] + nodes[|nodes|..] == free + items[..i + 1];
      nodes := free + items[..i + 1];
    }
    assert items[..|items|] == items;
  }

  lemma Unlisted<T>(free: seq<Link<T>>, items: seq<Link<T>>, i: nat)
    requires Distinct(items) && i < |items| && forall k :: 0 <= k < |items| ==> items[k] !in free
    ensures forall k :: i <= k < |items| ==> items[k] !in free + items[..i]
  {
  }

  lemma DistinctConcat<T>(a: seq<T>, b: seq<T>)
    requires Distinct(a) && Distinct(b) && forall x :: x in b ==> x !in a
    ensures Distinct(a + b)
  {
    forall i, j | 0 <= i < j < |a + b|
      ensures (a + b)[i] != (a + b)[j]
    {
      if i < |a| <= j {
        assert b[j - |a|] in b;
      }
    }
  }

  lemma PartitionGrown<T>(blocks: seq<seq<Link<T>>>, free: seq<Link<T>>, held: set<Link<T>>, items: seq<Link<T>>)
    requires Partition(Nodes(blocks), free, held) && Distinct(items)
    requires forall x :: x in items ==> x !in Nodes(blocks)
    ensures Partition(Nodes(blocks + [items]), free + items, held)
    ensures Nodes(blocks + [items]) == Nodes(blocks) + items
  {
    assert (blocks + [items])[..|blocks|] == blocks;
    var all := Nodes(blocks);
    assert Set(all + items) == Set(all) + Set(items) && Set(free + items) == Set(free) + Set(items);
    assert forall x :: x in items ==> x !in Set(all);
    assert forall x :: x in free ==> x in Set(free);
    DistinctConcat(all, items);
    DistinctConcat(free, items);
  }

  lemma LastInRing<T>(head: Link<T>, nodes: seq<Link<T>>)
    requires Ring(head, nodes) && nodes != []
    ensures head.prev == nodes[|nodes| - 1]
  {
  }

  lemma NotHeld<T>(all: seq<Link<T>>, free: seq<Link<T>>, held: set<Link<T>>, n: nat)
    requires Partition(all, free, held) && n < |free|
    ensures free[n] !in held
  {
    assert free[n] in Set(free);
  }

  lemma PartitionTaken<T>(all: seq<Link<T>>, free: seq<Link<T>>, held: set<Link<T>>, n: nat)
    requires Partition(all, free, held) && n < |free|
    ensures Partition(all, free[..n] + free[n + 1..], held + {free[n]})
  {
    DistinctRemove(free, n);
    assert free == free[..n] + [free[n]] + free[n + 1..];
  }

  lemma PartitionReturned<T>(all: seq<Link<T>>, free: seq<Link<T>>, held: set<Link<T>>, link: Link<T>)
    requires Partition(all, free, held) && link in held
    ensures Partition(all, free[..|free|] + [link] + free[|free|..], held - {link})
  {
    DistinctInsert(free, |free|, link);
  }

  lemma OutIs<T>(events: seq<Event<T>>, e: Event<T>)
    ensures Out(events + [e]) == if e.Handed? then Out(events) + {e.node} else Out(events) - {e.node}
  {
    assert (events + [e])[..|events|] == events;
  }

  lemma OutNext<T>(events: seq<Event<T>>, e: Event<T>)
    requires Alternates(events) && (e.Handed? <==> e.node !in Out(events))
    ensures Alternates(events + [e])
    ensures Out(events + [e]) == if e.Handed? then Out(events) + {e.node} else Out(events) - {e.node}
  {
    var events' := events + [e];
    assert events'[..|events|] == events;
    assert forall i :: 0 <= i < |events| ==> events'[..i] == events[..i] && events'[i] == events[i];
  }

  /** Between two times that a node is handed out it is returned. */
  lemma {:induction false} ReturnedBetween<T>(events: seq<Event<T>>, i: nat, j: nat)
    requires Alternates(events) && i < j < |events| && events[i].Handed? && events[j] == events[i]
    ensures exists k :: i < k < j && events[k] == Returned(events[i].node)
  {
    if forall k :: i < k < j ==> events[k] != Returned(events[i].node) {
      StaysOut(events, i, j);
      assert false;
    }
  }

  lemma {:induction false} StaysOut<T>(events: seq<Event<T>>, i: nat, j: nat)
    requires i < j <= |events| && events[i].Handed?
    requires forall k :: i < k < j ==> events[k] != Returned(events[i].node)
    ensures events[i].node in Out(events[..j])
    decreases j
  {
    assert events[..j][..j - 1] == events[..j - 1];
    if i < j - 1 {
      StaysOut(events, i, j - 1);
    }
  }

  lemma {:induction false} SetSize<T>(s: seq<T>)
    requires Distinct(s)
    ensures |Set(s)| == |s|
  {
    if s != [] {
      var rest := s[..|s| - 1];
      SetSize(rest);
      assert s == rest + [s[|s| - 1]];
      assert Set(s) == Set(rest) + {s[|s| - 1]};
    }
  }

  /** Every allocated node is free or held, and none is both. */
  lemma NodesConserved<T>(all: seq<Link<T>>, free: seq<Link<T>>, held: set<Link<T>>)
    requires Partition(all, free, held)
    ensures |all| == |free| + |held|
  {
    SetSize(all);
    SetSize(free);
  }

  // ----- whole runs

  /** An operation of a user, who gives back one of the nodes held by its position. */
  datatype Op = GrowBy(count: nat) | RentOne | GiveBack(which: nat)

  /** The nodes that a sequence of operations allocates. */
  ghost function Allocated(ops: seq<Op>): nat {
    if ops == [] then 0
    else
      var last := ops[|ops| - 1];
      Allocated(ops[..|ops| - 1])
      + match last
        case GrowBy(n) => n
        case RentOne => 32
        case GiveBack(_) => 0
  }

  ghost predicate HandedOnce<T>(events: seq<Event<T>>) {
    forall i, j :: 0 <= i < j < |events| && events[i].Handed? && events[j].Handed? ==> events[i].node != events[j].node
  }

  /** A user who holds exactly the nodes handed to it, unlinked. */
  ghost predicate Client<T>(pool: Pool<T>, held: seq<Link<T>>)
    reads pool, pool.head, pool.free`next, pool.free`prev, held`next
  {
    && pool.Valid() && HandedOnce(pool.events)
    && Distinct(held) && Set(held) == Out(pool.events)
    && forall i {:trigger held[i].next} :: 0 <= i < |held| ==> held[i].next == null
  }

  lemma NewClient<T>(pool: Pool<T>)
    requires pool.Valid() && pool.events == []
    ensures Client(pool, [])
  {
  }

  /** Held nodes are neither free nor the head. */
  lemma HeldApart<T>(pool: Pool<T>, held: seq<Link<T>>)
    requires Client(pool, held)
    ensures forall i :: 0 <= i < |held| ==> held[i] !in pool.free && held[i] != pool.head
  {
    forall i | 0 <= i < |held|
      ensures held[i] !in pool.free && held[i] != pool.head
    {
      assert held[i] in Set(held);
      assert held[i] in Set(Nodes(pool.blocks));
      assert held[i] !in Set(pool.free);
    }
  }

  method Grown<T>(pool: Pool<T>, held: seq<Link<T>>, count: nat)
    requires Client(pool, held)
    modifies pool`blocks, pool`free, pool.head, pool.free`next, pool.free`prev
    ensures Client(pool, held) && fresh(Set(pool.free) - old(Set(pool.free)))
    ensures |pool.free| == |old(pool.free)| + count
  {
    HeldApart(pool, held);
    pool.Grow(count);
  }

  method Rented<T>(pool: Pool<T>, held: seq<Link<T>>) returns (held': seq<Link<T>>)
    requires Client(pool, held)
    modifies pool`blocks, pool`free, pool`events, pool.head, pool.free`next, pool.free`prev
    ensures Client(pool, held') && |held'| == |held| + 1 && held <= held' && fresh(held'[|held|])
    ensures fresh(Set(pool.free) - old(Set(pool.free)))
    ensures |pool.free| == |old(pool.free)| + 31
  {
    hide Partition;
    HeldApart(pool, held);
    ghost var events := pool.events;
    var link := pool.Rent();
    held' := held + [link];
    OutIs(events, Handed(link));
    assert Set(held') == Set(held) + {link};
  }

  lemma SetRemoved<T>(held: seq<Link<T>>, k: nat)
    requires Distinct(held) && k < |held|
    ensures var rest := held[..k] + held[k + 1..];
            held[k] in Set(held) && Distinct(rest) && held[k] !in rest && Set(rest) == Set(held) - {held[k]}
    ensures forall i :: 0 <= i < |held| && i != k ==> held[i] != held[k]
  {
    var rest := held[..k] + held[k + 1..];
    DistinctRemove(held, k);
    assert held == held[..k] + [held[k]] + held[k + 1..];
    assert Set(held) == Set(rest) + {held[k]};
  }

  method GivenBack<T>(pool: Pool<T>, held: seq<Link<T>>, k: nat) returns (held': seq<Link<T>>)
    requires Client(pool, held) && k < |held|
    modifies pool`free, pool`events, pool.head, pool.free`next, pool.free`prev, held`next, held`prev
    ensures Client(pool, held') && held' == held[..k] + held[k + 1..]
    ensures pool.free == old(pool.free) + [held[k]]
  {
    hide Partition, Ring, Alternates, Out, Distinct, Set;
    HeldApart(pool, held);
    ghost var events := pool.events;
    var link := held[k];
    SetRemoved(held, k);
    pool.Return(link);
    held' := held[..k] + held[k + 1..];
    OutIs(events, Returned(link));
    assert forall i :: 0 <= i < |held'| ==> held'[i] == held[if i < k then i else i + 1];
  }

  /**
   Every run: the pool stays well formed, so free and held nodes partition the allocated ones and no node is
   handed out while held; the user holds exactly the nodes the events say; and, because renting always
   allocates, no node is ever handed out a second time, not even after it was returned.
   */
  method Run<T>(zero: T, ops: seq<Op>) returns (pool: Pool<T>, held: seq<Link<T>>)
    ensures fresh(pool) && Client(pool, held)
    ensures |pool.free| + |held| == Allocated(ops)
  {
    hide Client;
    pool := new Pool(zero);
    held := [];
    NewClient(pool);
    for n := 0 to |ops|
      invariant fresh(pool) && fresh(pool.head) && fresh(pool.free) && fresh(held)
      invariant Client(pool, held)
      invariant |pool.free| + |held| == Allocated(ops[..n])
    {
      assert ops[..n + 1][..n] == ops[..n];
      match ops[n] {
        case GrowBy(count) => Grown(pool, held, count);
        case RentOne => held := Rented(pool, held);
        case GiveBack(k) => if k < |held| { held := GivenBack(pool, held, k); }
      }
    }
    assert ops[..|ops|] == ops;
  }
}
