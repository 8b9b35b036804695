/**
 uo_hashtbl: an open-addressing hash table that keeps its entries on a circular doubly linked
 list in insertion order, threaded through the slots.
 */
module HashTable {
  import opened Bits
  import opened OrderedMap
  import opened LinkList
  import opened ProbeTable

  const MIN_CAPACITY: Word := 0x10

  type Slot<K> = Link<Item<K, Word>>

  /** The keys and values held by the slots. */
  ghost function SlotsOf<K>(links: seq<Slot<K>>): (s: seq<Item<K, Word>>)
    reads links`item
    ensures |s| == |links| && forall i :: 0 <= i < |links| ==> s[i] == links[i].item
  {
    if links == [] then [] else SlotsOf(links[..|links| - 1]) + [links[|links| - 1].item]
  }

  /** The links of the listed slots. */
  ghost function NodesOf<K>(links: seq<Slot<K>>, order: seq<nat>): (s: seq<Slot<K>>)
    requires forall p :: 0 <= p < |order| ==> order[p] < |links|
    ensures |s| == |order| && forall p :: 0 <= p < |order| ==> s[p] == links[order[p]]
  {
    seq(|order|, p requires 0 <= p < |order| => links[order[p]])
  }

  /** The list from the head is exactly the slots in order, and every other slot is unlinked. */
  ghost predicate Threaded<K>(head: Slot<K>, links: seq<Slot<K>>, order: seq<nat>)
    reads head`next, head`prev, links`next, links`prev
  {
    && Distinct(links)
    && head !in links
    && (forall p :: 0 <= p < |order| ==> order[p] < |links|)
    && Ring(head, NodesOf(links, order))
    && forall i {:trigger links[i].next} :: 0 <= i < |links| && i !in order ==> links[i].next == null
  }

  /** The probe loop. It ends because some slot is vacant and the masked counter visits every slot. */
  method FindLink<K(==)>(kg: Keying<K>, links: seq<Slot<K>>, capacity: nat, key: K) returns (i: nat)
    requires |links| == capacity && IsPow2(capacity)
    requires Filled(kg, SlotsOf(links)) < capacity
    ensures i < capacity && Found(kg, SlotsOf(links), key, i)
  {
    hide SlotsOf, Filled;
    ghost var slots := SlotsOf(links);
    ghost var e := VacantExists(kg, slots);
    ghost var home := Home(kg, key, capacity);
    var mask := capacity - 1;
    Masked(kg.hash(key), capacity);
    var h := And(kg.hash(key), mask);
    i := h;
    while (links[i].item.key != kg.nil && !kg.equals(links[i].item.key, key)) || links[i].item.value == REMOVED
      invariant home <= h <= home + Dist(home, e, capacity)
      invariant i == Wrap(home, h - home, capacity)
      invariant forall j :: 0 <= j < h - home ==> !Stops(kg, slots[Wrap(home, j, capacity)], key)
      decreases home + capacity - h
    {
      assert !Stops(kg, slots[i], key);
      assert i != e && Wrap(home, Dist(home, e, capacity), capacity) == e;
      h := h + 1;
      Masked(h, capacity);
      MaskedRound(home, h, capacity);
      i := And(h, mask);
    }
    assert Dist(home, i, capacity) == h - home;
  }

  lemma DoublePow2(n: nat)
    requires IsPow2(n)
    ensures IsPow2(n * 2)
  {
    var k: nat :| n == Pow2(k);
    assert n * 2 == Pow2(k + 1);
  }

  lemma Masked(x: nat, capacity: nat)
    requires IsPow2(capacity)
    ensures And(x, capacity - 1) == x % capacity
  {
    var k: nat :| capacity == Pow2(k);
    MaskIsMod(x, k);
  }

  lemma MaskedRound(home: nat, h: nat, capacity: nat)
    requires home < capacity && home <= h < home + capacity
    ensures h % capacity == Wrap(home, h - home, capacity)
  {
    if h < capacity {
      ModUnique(h, 0, capacity, h);
    } else {
      ModUnique(h, 1, capacity, h - capacity);
    }
  }

  /** Put slot i at the end of the list. */
  method Append<K>(head: Slot<K>, links: seq<Slot<K>>, ghost order: seq<nat>, i: nat)
    requires Threaded(head, links, order)
    requires i < |links| && i !in order
    modifies head`next, head`prev, links`next, links`prev
    ensures Threaded(head, links, order + [i])
  {
    ghost var nodes := NodesOf(links, order);
    assert links[i] !in nodes by {
      assert forall p :: 0 <= p < |order| ==> nodes[p] == links[order[p]] && order[p] != i;
    }
    assert forall x :: x in nodes ==> x in links;
    InsertBefore(head, nodes, head, |nodes|, links[i]);
    assert nodes[..|nodes|] + [links[i]] + nodes[|nodes|..] == NodesOf(links, order + [i]);
  }

  /** Take the slot at position p of the list off it. */
  method Detach<K>(head: Slot<K>, links: seq<Slot<K>>, ghost order: seq<nat>, ghost p: nat, link: Slot<K>)
    requires Threaded(head, links, order)
    requires p < |order| && link == links[order[p]]
    modifies head`next, head`prev, links`next, links`prev
    ensures Threaded(head, links, order[..p] + order[p + 1..])
  {
    hide Ring;
    ghost var nodes := NodesOf(links, order);
    ghost var order' := order[..p] + order[p + 1..];
    assert forall x :: x in nodes ==> x in links;
    LinkList.Remove(head, nodes, p, link);
    RemoveMembers(order, p);
    assert nodes[..p] + nodes[p + 1..] == NodesOf(links, order');
    forall i {:trigger links[i].next} | 0 <= i < |links| && i !in order'
      ensures links[i].next == null
    {
      if i != order[p] {
        assert i !in order;
        assert links[i] !in nodes;
      }
    }
  }

  /** Overwrite the key and value of slot i; the list does not change. */
  method WriteItem<K>(ghost head: Slot<K>, links: seq<Slot<K>>, ghost order: seq<nat>, i: nat, it: Item<K, Word>)
    requires Threaded(head, links, order) && i < |links|
    modifies links`item
    ensures SlotsOf(links) == old(SlotsOf(links))[i := it]
  {
    links[i].item := it;
  }

  /** One round of the rehash: the next entry, whose key is new to the fresh slots. */
  method MoveEntry<K(==, !new)>(kg: Keying<K>, head: Slot<K>, links: seq<Slot<K>>, ghost order: seq<nat>,
      capacity: nat, it: Item<K, Word>, ghost es: seq<Item<K, Word>>, ghost i: nat) returns (ghost order': seq<nat>)
    requires Lawful(kg) && Unique(kg, es) && i < |es| && es[i] == it && Live(kg, it)
    requires |links| == capacity && IsPow2(capacity) && i < capacity
    requires Inv(kg, SlotsOf(links), order) && Threaded(head, links, order)
    requires Entries(SlotsOf(links), order) == es[..i]
    requires Filled(kg, SlotsOf(links)) == i == |order|
    modifies head, links
    ensures Inv(kg, SlotsOf(links), order') && Threaded(head, links, order')
    ensures Entries(SlotsOf(links), order') == es[..i + 1]
    ensures Filled(kg, SlotsOf(links)) == i + 1 == |order'|
  {
    hide SlotsOf, NodesOf, Entries, Inv, Found, Threaded, Filled, IsPow2, Lawful;
    ghost var slots := SlotsOf(links);
    var j := FindLink(kg, links, capacity, it.key);
    ghost var p := Locate(kg, slots, order, it.key, j);
    InsertSlot(kg, slots, order, it.key, it.value, j);
    FilledUpdate(kg, slots, j, it);
    WriteItem(head, links, order, j, it);
    Append(head, links, order, j);
    order' := order + [j];
  }

  lemma NothingThreaded<K>(head: Slot<K>, links: seq<Slot<K>>)
    requires Ring(head, []) && Distinct(links) && head !in links
    requires forall i {:trigger links[i].next} :: 0 <= i < |links| ==> links[i].next == null
    ensures Threaded(head, links, [])
  {
    assert NodesOf(links, []) == [];
  }

  /** Fresh empty slots for a head whose old nodes are still reached from the returned copy of it. */
  method StartOver<K>(kg: Keying<K>, head: Slot<K>, ghost nodes: seq<Slot<K>>, capacity: nat)
      returns (links: seq<Slot<K>>, copy: Slot<K>)
    requires Ring(head, nodes)
    modifies head`next, head`prev, nodes`next, nodes`prev
    ensures |links| == capacity && fresh(links) && fresh(copy) && copy !in links
    ensures Inv(kg, SlotsOf(links), []) && Threaded(head, links, []) && Filled(kg, SlotsOf(links)) == 0
    ensures nodes != [] ==> copy.next == nodes[0]
    ensures forall p {:trigger nodes[p].next} :: 0 <= p < |nodes| - 1 ==> nodes[p].next == nodes[p + 1]
  {
    hide Ring, Distinct, Inv, Filled, SlotsOf;
    links := Calloc(Item(kg.nil, NULL), capacity);
    copy := TakeNodes(head, nodes);
    FilledNone(kg, SlotsOf(links));
    NothingThreaded(head, links);
  }

  /** Walk the old nodes from the copied head and re-insert each entry into the fresh slots. */
  method Rehash<K(==, !new)>(kg: Keying<K>, head: Slot<K>, start: Slot<K>, ghost nodes: seq<Slot<K>>, ghost es: seq<Item<K, Word>>,
      links: seq<Slot<K>>, capacity: nat, count: nat) returns (ghost order: seq<nat>, ghost moves: nat)
    requires Lawful(kg) && Unique(kg, es) && count == |es| == |nodes| < capacity
    requires |links| == capacity && IsPow2(capacity)
    requires Inv(kg, SlotsOf(links), []) && Threaded(head, links, []) && Filled(kg, SlotsOf(links)) == 0
    requires count > 0 ==> start.next == nodes[0]
    requires forall p {:trigger nodes[p].next} :: 0 <= p < count - 1 ==> nodes[p].next == nodes[p + 1]
    requires forall p :: 0 <= p < count ==> nodes[p].item == es[p] && Live(kg, es[p])
    requires start !in links && start != head && (forall p :: 0 <= p < count ==> nodes[p] !in links && nodes[p] != head)
    modifies head, links
    ensures Inv(kg, SlotsOf(links), order) && Threaded(head, links, order)
    ensures Entries(SlotsOf(links), order) == es && |order| == count
    ensures Filled(kg, SlotsOf(links)) == count
    ensures moves == count
  {
    hide SlotsOf, NodesOf, Entries, Inv, Ring, Distinct, Filled, IsPow2, Lawful, Unique, Live;
    var link: Slot<K> := start;
    order, moves := [], 0;
    for i := 0 to count
      invariant i < count ==> link.next == nodes[i]
      invariant i > 0 ==> link == nodes[i - 1]
      invariant i == 0 ==> link == start
      invariant forall p {:trigger nodes[p].next} :: 0 <= p < count - 1 ==> nodes[p].next == nodes[p + 1]
      invariant forall p :: 0 <= p < count ==> nodes[p].item == es[p] && Live(kg, es[p])
      invariant Inv(kg, SlotsOf(links), order) && Threaded(head, links, order)
      invariant Entries(SlotsOf(links), order) == es[..i]
      invariant Filled(kg, SlotsOf(links)) == i == |order| == moves
    {
      link := link.next;
      order := MoveEntry(kg, head, links, order, capacity, link.item, es, i);
      moves := moves + 1;
    }
    assert es[..count] == es;
  }

  /** The links on the list hold the entries, in order, and next leads from each to the following one. */
  lemma ListedItems<K>(head: Slot<K>, links: seq<Slot<K>>, order: seq<nat>)
    requires Threaded(head, links, order)
    ensures forall p :: 0 <= p < |order| ==> NodesOf(links, order)[p].item == Entries(SlotsOf(links), order)[p]
    ensures forall p :: 0 <= p < |order| ==> NodesOf(links, order)[p] in links && NodesOf(links, order)[p] != head
  {
  }

  /** Copy the head, then unlink it and make it an empty list; the copy still leads to the old nodes. */
  method TakeNodes<K>(head: Slot<K>, ghost nodes: seq<Slot<K>>) returns (copy: Slot<K>)
    requires Ring(head, nodes)
    modifies head`next, head`prev, nodes`next, nodes`prev
    ensures Ring(head, []) && fresh(copy)
    ensures nodes != [] ==> copy.next == nodes[0]
    ensures forall p {:trigger nodes[p].next} :: 0 <= p < |nodes| - 1 ==> nodes[p].next == nodes[p + 1]
  {
    copy := new Link(head.item);
    copy.next, copy.prev := head.next, head.prev;
    Unlink(head);
    SelfLink(head);
  }

  /** At least 16 and the next power of two; nothing is left of a capacity above 2^63. */
  method FirstCapacity(initialCapacity: Word) returns (cap: Word)
    ensures initialCapacity < 16 ==> cap == 16
    ensures 16 <= initialCapacity <= 0x8000_0000_0000_0000 ==> IsCeilPow2(initialCapacity, cap)
    ensures initialCapacity > 0x8000_0000_0000_0000 ==> cap == 0
    ensures initialCapacity <= HALF_WORD ==> IsPow2(cap)
  {
    cap := MIN_CAPACITY;
    assert IsPow2(16) by { assert Pow2(4) == 16; }
    if initialCapacity >= MIN_CAPACITY {
      cap := CeilPow2(initialCapacity);
    }
  }

  class HashTable<K(==, !new)> {
    const kg: Keying<K>
    const head: Slot<K>
    var links: seq<Slot<K>>
    var count: nat
    var removedCount: nat
    var capacity: nat
    /** The live slots in insertion order. */
    ghost var order: seq<nat>
    /** How many entries all resizes together have moved. */
    ghost var moved: nat

    /** The slots and the list agree; what a resize needs. */
    ghost predicate Core()
      reads this, head, links
    {
      && Lawful(kg)
      && |links| == capacity
      && Inv(kg, SlotsOf(links), order)
      && Threaded(head, links, order)
      && count == |order|
    }

    ghost predicate Valid()
      reads this, head, links
    {
      && Core()
      && IsPow2(capacity) && capacity >= MIN_CAPACITY
      && Filled(kg, SlotsOf(links)) == count + removedCount
      && count < capacity / 2
      && removedCount < capacity / 4
    }

    /** The abstract value: the entries from the head of the list. */
    ghost function Contents(): seq<Item<K, Word>>
      requires Core()
      reads this, head, links
    {
      Entries(SlotsOf(links), order)
    }

    /** Moves made plus moves prepaid. */
    ghost function Account(): nat
      reads this
    {
      moved + Potential(count, removedCount, capacity)
    }

    constructor (kg: Keying<K>, initialCapacity: Word)
      requires Lawful(kg)
      ensures Valid() <==> initialCapacity <= 0x8000_0000_0000_0000
      ensures Core() && Contents() == [] && Account() == 0
      ensures this.kg == kg && fresh(head) && fresh(links)
      ensures initialCapacity < 16 ==> capacity == 16
      ensures 16 <= initialCapacity <= 0x8000_0000_0000_0000 ==> IsCeilPow2(initialCapacity, capacity)
      ensures initialCapacity > 0x8000_0000_0000_0000 ==> capacity == 0
    {
      hide SlotsOf, Filled, Inv, Entries, Lawful, Distinct, Ring, IsPow2;
      this.kg := kg;
      var cap := FirstCapacity(initialCapacity);
      count, removedCount, moved, order := 0, 0, 0, [];
      capacity := cap;
      var h := new Link(Item(kg.nil, NULL));
      var ls := Calloc(Item(kg.nil, NULL), cap);
      SelfLink(h);
      head, links := h, ls;
      FilledNone(kg, SlotsOf(ls));
      NothingThreaded(h, ls);
    }

    /** The value stored under key, or NULL. */
    method Get(key: K) returns (value: Word)
      requires Valid()
      ensures value == if key == kg.nil then 0 else Lookup(kg, Contents(), key, 0)
    {
      if key == kg.nil {
        return NULL;
      }
      var i := FindLink(kg, links, capacity, key);
      ghost var p := Locate(kg, SlotsOf(links), order, key, i);
      value := links[i].item.value;
    }

    /** Store a value in the live slot at position p of the list. */
    method Overwrite(i: nat, ghost p: nat, value: Word)
      requires Valid() && value != REMOVED
      requires p < |order| && order[p] == i < |links|
      modifies links`item
      ensures Valid()
      ensures Contents() == old(Contents())[p := old(links[i].item).(value := value)]
    {
      hide SlotsOf, NodesOf, Entries, Inv, Threaded, Filled, IsPow2, Lawful;
      ghost var slots := SlotsOf(links);
      LiveAt(kg, slots, order, p);
      UpdateSlot(kg, slots, order, p, value);
      FilledUpdate(kg, slots, i, slots[i].(value := value));
      WriteItem(head, links, order, i, links[i].item.(value := value));
    }

    /** Fill the vacant slot i, at which the search for a new key stopped, and list it last. */
    method AddEntry(i: nat, key: K, value: Word)
      requires Valid() && key != kg.nil && value != REMOVED
      requires i < |links| && i !in order
      requires Found(kg, SlotsOf(links), key, i) && Vacant(kg, links[i].item)
      modifies this`order, this`count, head, links
      ensures Core() && Contents() == old(Contents()) + [Item(key, value)]
      ensures Filled(kg, SlotsOf(links)) == count + removedCount && count == old(count) + 1
    {
      hide SlotsOf, NodesOf, Entries, Inv, Found, Threaded, Filled, IsPow2, Lawful;
      ghost var slots := SlotsOf(links);
      InsertSlot(kg, slots, order, key, value, i);
      FilledUpdate(kg, slots, i, Item(key, value));
      WriteItem(head, links, order, i, Item(key, value));
      Append(head, links, order, i);
      order := order + [i];
      count := count + 1;
    }

    /** Turn the live slot i, at position p of the list, into a tombstone. */
    method DropEntry(i: nat, ghost p: nat)
      requires Valid() && p < |order| && order[p] == i < |links|
      modifies this`order, this`count, this`removedCount, head, links
      ensures Core() && Contents() == old(Contents())[..p] + old(Contents())[p + 1..]
      ensures Filled(kg, SlotsOf(links)) == count + removedCount
      ensures count == old(count) - 1 && removedCount == old(removedCount) + 1
    {
      hide SlotsOf, NodesOf, Entries, Inv, Threaded, Filled, IsPow2, Lawful;
      ghost var slots := SlotsOf(links);
      LiveAt(kg, slots, order, p);
      RemoveSlot(kg, slots, order, p);
      FilledUpdate(kg, slots, i, Item(kg.nil, REMOVED));
      WriteItem(head, links, order, i, Item(kg.nil, REMOVED));
      Detach(head, links, order, p, links[i]);
      order := order[..p] + order[p + 1..];
      removedCount := removedCount + 1;
      count := count - 1;
    }

    /** Doubling moves half a capacity of entries, which the entries above a quarter have prepaid. */
    method GrowIfHalfFull()
      requires Core() && IsPow2(capacity) && capacity >= MIN_CAPACITY
      requires Filled(kg, SlotsOf(links)) == count + removedCount
      requires count <= capacity / 2 && removedCount < capacity / 4
      modifies this, head, links
      ensures Valid() && (links == old(links) || fresh(links))
      ensures capacity == if old(count) == old(capacity) / 2 then 2 * old(capacity) else old(capacity)
      ensures Contents() == old(Contents()) && Account() <= old(Account())
    {
      hide SlotsOf, NodesOf, Entries, Inv, Threaded, Filled, IsPow2, Lawful;
      if count == capacity / 2 {
        DoublePow2(capacity);
        Resize(capacity * 2);
        removedCount := 0;
      }
    }

    /** Rehashing in place moves less than half a capacity of entries, which the tombstones have prepaid. */
    method CompactIfQuarterRemoved()
      requires Core() && IsPow2(capacity) && capacity >= MIN_CAPACITY
      requires Filled(kg, SlotsOf(links)) == count + removedCount
      requires count < capacity / 2 && removedCount <= capacity / 4
      modifies this, head, links
      ensures Valid() && (links == old(links) || fresh(links))
      ensures capacity == old(capacity) && (links == old(links) <==> old(removedCount) < old(capacity) / 4)
      ensures Contents() == old(Contents()) && Account() <= old(Account())
    {
      hide SlotsOf, NodesOf, Entries, Inv, Threaded, Filled, IsPow2, Lawful;
      if removedCount >= capacity / 4 {
        Resize(capacity);
        removedCount := 0;
      }
    }

    /** Insert or update. A resize, if any, happens inside and does not show in the contents. */
    method Set(key: K, value: Word)
      requires Valid() && value != 0xFFFF_FFFF_FFFF_FFFF
      modifies this, head, links
      ensures Valid() && (links == old(links) || fresh(links))
      ensures var n := |Contents()|;
              capacity == if n > |old(Contents())| && n == old(capacity) / 2 then 2 * old(capacity) else old(capacity)
      ensures Contents() == if key == kg.nil then old(Contents()) else Put(kg, old(Contents()), key, value)
      ensures Account() <= old(Account()) + 2
    {
      hide SlotsOf, NodesOf, Entries, Inv, Found, Threaded, Filled, IsPow2, Lawful, IndexOf;
      if key == kg.nil {
        return;
      }
      var i := FindLink(kg, links, capacity, key);
      ghost var p := Locate(kg, SlotsOf(links), order, key, i);
      if links[i].item.key != kg.nil {
        Overwrite(i, p, value);
        return;
      }
      AddEntry(i, key, value);
      GrowIfHalfFull();
    }

    /** Remove the entry for key and return its value, or NULL. */
    method Remove(key: K) returns (value: Word)
      requires Valid()
      modifies this, head, links
      ensures Valid() && (links == old(links) || fresh(links)) && capacity == old(capacity)
      ensures value == if key == kg.nil then 0 else Lookup(kg, old(Contents()), key, 0)
      ensures Contents() == if key == kg.nil then old(Contents()) else Delete(kg, old(Contents()), key)
      ensures Account() <= old(Account()) + 2
    {
      hide SlotsOf, NodesOf, Entries, Inv, Found, Threaded, Filled, IsPow2, Lawful, IndexOf;
      if key == kg.nil {
        return NULL;
      }
      var i := FindLink(kg, links, capacity, key);
      ghost var p := Locate(kg, SlotsOf(links), order, key, i);
      if links[i].item.key == kg.nil {
        return NULL;
      }
      value := links[i].item.value;
      DropEntry(i, p);
      CompactIfQuarterRemoved();
      // the guard compares the truth value of the equality with the minimum capacity
      if (if count == capacity / 8 then 1 else 0) >= MIN_CAPACITY {
        assert false; // so the halving below it is never reached
      }
    }

    /** Rehash every entry, in list order, into fresh slots. */
    method Resize(newCapacity: nat)
      requires Core() && IsPow2(newCapacity) && count < newCapacity
      modifies this, head, links
      ensures Core() && capacity == newCapacity && Contents() == old(Contents())
      ensures count == old(count) && removedCount == old(removedCount)
      ensures Filled(kg, SlotsOf(links)) == count
      ensures moved == old(moved) + count
      ensures fresh(links)
    {
      hide SlotsOf, NodesOf, Entries, Inv, Found, Filled, IsPow2, Lawful, Ring, Distinct, Unique, Live;
      ghost var es := Contents();
      ghost var nodes := NodesOf(links, order);
      ListedItems(head, links, order);
      EntriesUnique(kg, SlotsOf(links), order);
      EntriesLive(kg, SlotsOf(links), order);
      capacity := newCapacity;
      var newLinks, link := StartOver(kg, head, nodes, newCapacity);
      ghost var newOrder, moves := Rehash(kg, head, link, nodes, es, newLinks, newCapacity, count);
      moved := moved + moves;
      links := newLinks;
      order := newOrder;
    }

    /** One call of the interface. */
    method Call(op: Op<K>) returns (r: Word)
      requires Valid() && (op.SetOp? ==> op.value != 0xFFFF_FFFF_FFFF_FFFF)
      modifies this, head, links
      ensures Valid() && (links == old(links) || fresh(links))
      ensures (Contents(), r) == ApplyOp(kg, old(Contents()), op)
      ensures Account() <= old(Account()) + if op.GetOp? then 0 else 2
    {
      hide Lawful, Put, Delete, Lookup, Core, Contents, Inv, Threaded, Filled, IsPow2;
      r := NULL;
      match op {
        case SetOp(k, v) => Set(k, v);
        case GetOp(k) => r := Get(k);
        case RemoveOp(k) => r := Remove(k);
      }
    }

    /** Follow next from the head until it comes round: the entries, in insertion order. */
    method Walk() returns (es: seq<Item<K, Word>>)
      requires Valid()
      ensures es == Contents()
    {
      hide SlotsOf, NodesOf, Entries, Inv, Filled, IsPow2, Lawful, Distinct;
      ghost var nodes := NodesOf(links, order);
      ListedItems(head, links, order);
      es := [];
      var link := head.next;
      while link != head
        invariant |es| <= count && link == After(head, nodes, |es| - 1)
        invariant es == Contents()[..|es|]
        decreases count - |es|
      {
        assert link == nodes[|es|];
        assert Contents()[..|es| + 1] == Contents()[..|es|] + [Contents()[|es|]];
        es := es + [link.item];
        link := link.next;
      }
      assert Contents()[..count] == Contents();
    }
  }

  // ----- whole runs

  datatype Op<K> = SetOp(key: K, value: Word) | GetOp(key: K) | RemoveOp(key: K)

  /** What one call does to the ordered map, and what it returns. */
  function ApplyOp<K(==)>(kg: Keying<K>, es: seq<Item<K, Word>>, op: Op<K>): (seq<Item<K, Word>>, Word) {
    if op.key == kg.nil then (es, 0)
    else match op
      case SetOp(k, v) => (Put(kg, es, k, v), 0)
      case GetOp(k) => (es, Lookup(kg, es, k, 0))
      case RemoveOp(k) => (Delete(kg, es, k), Lookup(kg, es, k, 0))
  }

  /** The ordered map after a run from the empty one. */
  function Final<K(==)>(kg: Keying<K>, ops: seq<Op<K>>): seq<Item<K, Word>> {
    if ops == [] then [] else ApplyOp(kg, Final(kg, ops[..|ops| - 1]), ops[|ops| - 1]).0
  }

  /** The number of set and remove calls. */
  function Mutations<K>(ops: seq<Op<K>>): nat {
    if ops == [] then 0
    else Mutations(ops[..|ops| - 1]) + if ops[|ops| - 1].GetOp? then 0 else 1
  }

  /** The value most recently set under a key, if it was not removed since. */
  function LastWrite<K(==)>(kg: Keying<K>, ops: seq<Op<K>>, key: K): Word {
    if ops == [] then 0 else
      var op := ops[|ops| - 1];
      if op.key != kg.nil && !op.GetOp? && kg.equals(op.key, key)
      then (if op.SetOp? then op.value else 0)
      else LastWrite(kg, ops[..|ops| - 1], key)
  }

  /** After every run, a key reads as the last value written under it. */
  lemma {:induction false} ReadsLastWrite<K(!new)>(kg: Keying<K>, ops: seq<Op<K>>, key: K)
    requires Lawful(kg)
    ensures Unique(kg, Final(kg, ops))
    ensures Lookup(kg, Final(kg, ops), key, 0) == LastWrite(kg, ops, key)
  {
    hide Put, Delete, Lookup, Unique;
    if ops != [] {
      var prefix, op := ops[..|ops| - 1], ops[|ops| - 1];
      ReadsLastWrite(kg, prefix, key);
      var es := Final(kg, prefix);
      if op.SetOp? {
        UniqueKept(kg, es, op.key, op.value);
        LookupPut(kg, es, op.key, op.value, key, 0);
      } else if op.RemoveOp? {
        UniqueKept(kg, es, op.key, 0);
        LookupDelete(kg, es, op.key, key, 0);
      }
    } else {
      EmptyMap(kg, key);
    }
  }

  lemma EmptyMap<K(!new)>(kg: Keying<K>, key: K)
    ensures Unique<K, Word>(kg, []) && Lookup<K, Word>(kg, [], key, 0) == 0
  {
  }

  lemma FinalStart<K>(kg: Keying<K>, ops: seq<Op<K>>)
    ensures Final(kg, ops[..0]) == [] && Mutations(ops[..0]) == 0
  {
  }

  lemma FinalStep<K>(kg: Keying<K>, ops: seq<Op<K>>, i: nat)
    requires i < |ops|
    ensures Final(kg, ops[..i + 1]) == ApplyOp(kg, Final(kg, ops[..i]), ops[i]).0
    ensures Mutations(ops[..i + 1]) == Mutations(ops[..i]) + if ops[i].GetOp? then 0 else 1
  {
    assert ops[..i + 1][..i] == ops[..i] && ops[..i + 1][i] == ops[i];
  }

  /**
   Every run of set, get and remove on a new table, whatever resizes it goes through, computes what
   the ordered map computes, and all its resizes together move at most two entries per set or remove.
   */
  method Run<K(==, !new)>(kg: Keying<K>, initialCapacity: Word, ops: seq<Op<K>>)
      returns (t: HashTable<K>, results: seq<Word>)
    requires Lawful(kg) && initialCapacity <= 0x8000_0000_0000_0000
    requires forall i :: 0 <= i < |ops| && ops[i].SetOp? ==> ops[i].value != 0xFFFF_FFFF_FFFF_FFFF
    ensures t.Valid() && t.kg == kg && t.Contents() == Final(kg, ops)
    ensures |results| == |ops|
    ensures forall i :: 0 <= i < |ops| ==> results[i] == ApplyOp(kg, Final(kg, ops[..i]), ops[i]).1
    ensures t.moved <= 2 * Mutations(ops)
  {
    hide Lawful, ApplyOp, Final, Mutations, HashTable.Core, HashTable.Contents, Inv, Threaded, Filled, IsPow2;
    t := new HashTable(kg, initialCapacity);
    results := [];
    FinalStart(kg, ops);
    for i := 0 to |ops|
      invariant t.Valid() && t.kg == kg && fresh(t) && fresh(t.head) && fresh(t.links)
      invariant t.Contents() == Final(kg, ops[..i])
      invariant |results| == i
      invariant forall j :: 0 <= j < i ==> results[j] == ApplyOp(kg, Final(kg, ops[..j]), ops[j]).1
      invariant t.Account() <= 2 * Mutations(ops[..i])
    {
      FinalStep(kg, ops, i);
      var r := t.Call(ops[i]);
      results := results + [r];
    }
    assert ops[..|ops|] == ops;
  }
}
