/**
 The slot array of a uo_hashtbl as a value: linear probing over a power-of-two number of slots,
 with tombstones, and the insertion order as a sequence of slot numbers. The lemmas say what one
 write to a slot does to the ordered map that the slots represent.
 */
module ProbeTable {
  import opened Bits
  import opened OrderedMap
  import opened LinkList

  const NULL: Word := 0
  /** The value that marks a removed slot; callers never store it. */
  const REMOVED: Word := 0xFFFF_FFFF_FFFF_FFFF

  /** A slot that ends every search: zero-filled and never used since the last resize. */
  predicate Vacant<K(==)>(kg: Keying<K>, it: Item<K, Word>) {
    it.key == kg.nil && it.value != REMOVED
  }

  predicate Live<K(==)>(kg: Keying<K>, it: Item<K, Word>) {
    it.key != kg.nil && it.value != REMOVED
  }

  /** The negation of the guard of the probe loop. */
  predicate Stops<K(==)>(kg: Keying<K>, it: Item<K, Word>, key: K) {
    !((it.key != kg.nil && !kg.equals(it.key, key)) || it.value == REMOVED)
  }

  ghost function Home<K>(kg: Keying<K>, key: K, cap: nat): nat
    requires cap > 0
  {
    kg.hash(key) % cap
  }

  /** The slot j steps after h, going round. */
  ghost function Wrap(h: nat, j: nat, cap: nat): nat
    requires h < cap && j <= cap
  {
    if h + j < cap then h + j else h + j - cap
  }

  /** How many steps lead from h to i, going round. */
  ghost function Dist(h: nat, i: nat, cap: nat): nat
    requires h < cap && i < cap
  {
    if h <= i then i - h else cap - h + i
  }

  /** Slot i is where the search for key stops. */
  ghost predicate Found<K>(kg: Keying<K>, slots: seq<Item<K, Word>>, key: K, i: nat) {
    && i < |slots|
    && Stops(kg, slots[i], key)
    && forall j :: 0 <= j < Dist(Home(kg, key, |slots|), i, |slots|)
                   ==> !Stops(kg, slots[Wrap(Home(kg, key, |slots|), j, |slots|)], key)
  }

  ghost predicate WellFormed<K>(kg: Keying<K>, it: Item<K, Word>) {
    it == Item(kg.nil, NULL) || it == Item(kg.nil, REMOVED) || Live(kg, it)
  }

  /** Every live entry is found by a search for its own key. */
  ghost predicate Indexed<K>(kg: Keying<K>, slots: seq<Item<K, Word>>) {
    forall i :: 0 <= i < |slots| ==> WellFormed(kg, slots[i]) && (Live(kg, slots[i]) ==> Found(kg, slots, slots[i].key, i))
  }

  /** order lists the live slots, each once. */
  ghost predicate Ordered<K>(kg: Keying<K>, slots: seq<Item<K, Word>>, order: seq<nat>) {
    && Distinct(order)
    && (forall p :: 0 <= p < |order| ==> order[p] < |slots|)
    && (forall i :: 0 <= i < |slots| ==> (i in order <==> Live(kg, slots[i])))
  }

  ghost predicate Inv<K>(kg: Keying<K>, slots: seq<Item<K, Word>>, order: seq<nat>) {
    Indexed(kg, slots) && Ordered(kg, slots, order)
  }

  /** The ordered map that the slots represent. */
  ghost function Entries<K>(slots: seq<Item<K, Word>>, order: seq<nat>): (es: seq<Item<K, Word>>)
    requires forall p :: 0 <= p < |order| ==> order[p] < |slots|
    ensures |es| == |order| && forall p :: 0 <= p < |order| ==> es[p] == slots[order[p]]
  {
    seq(|order|, p requires 0 <= p < |order| => slots[order[p]])
  }

  // ----- searching

  lemma FoundUnique<K>(kg: Keying<K>, slots: seq<Item<K, Word>>, key: K, a: nat, b: nat)
    requires Found(kg, slots, key, a) && Found(kg, slots, key, b)
    ensures a == b
  {
    var cap := |slots|;
    var h := Home(kg, key, cap);
    var da, db := Dist(h, a, cap), Dist(h, b, cap);
    assert Wrap(h, da, cap) == a && Wrap(h, db, cap) == b;
  }

  lemma FoundCongruent<K(!new)>(kg: Keying<K>, slots: seq<Item<K, Word>>, k1: K, k2: K, i: nat)
    requires Lawful(kg) && kg.equals(k1, k2) && Found(kg, slots, k1, i)
    ensures Found(kg, slots, k2, i)
  {
    StopsCongruent(kg, k1, k2);
    var cap := |slots|;
    var h := Home(kg, k1, cap);
    forall j | 0 <= j < Dist(h, i, cap)
      ensures !Stops(kg, slots[Wrap(h, j, cap)], k2)
    {
      assert !Stops(kg, slots[Wrap(h, j, cap)], k1);
    }
  }

  lemma StopsCongruent<K(!new)>(kg: Keying<K>, k1: K, k2: K)
    requires Lawful(kg) && kg.equals(k1, k2)
    ensures kg.hash(k1) == kg.hash(k2)
    ensures forall it: Item<K, Word> :: Stops(kg, it, k1) <==> Stops(kg, it, k2)
  {
    assert kg.equals(k2, k1);
    forall it: Item<K, Word>
      ensures kg.equals(it.key, k1) <==> kg.equals(it.key, k2)
    {
    }
  }

  lemma EntriesUnique<K(!new)>(kg: Keying<K>, slots: seq<Item<K, Word>>, order: seq<nat>)
    requires Lawful(kg) && Inv(kg, slots, order)
    ensures Unique(kg, Entries(slots, order))
  {
    var es := Entries(slots, order);
    forall p, q | 0 <= p < q < |es|
      ensures !kg.equals(es[p].key, es[q].key)
    {
      var i, j := order[p], order[q];
      assert i in order && j in order;
      if kg.equals(slots[i].key, slots[j].key) {
        FoundCongruent(kg, slots, slots[i].key, slots[j].key, i);
        FoundUnique(kg, slots, slots[j].key, i, j);
      }
    }
  }

  /** A search ends at the entry with an equal key if there is one, and otherwise at a vacant slot. */
  lemma Locate<K(!new)>(kg: Keying<K>, slots: seq<Item<K, Word>>, order: seq<nat>, key: K, r: nat) returns (p: nat)
    requires Lawful(kg) && Inv(kg, slots, order) && Found(kg, slots, key, r)
    ensures p == IndexOf(kg, Entries(slots, order), key)
    ensures p < |order| ==> order[p] == r && Live(kg, slots[r])
    ensures p == |order| ==> slots[r] == Item(kg.nil, NULL) && r !in order
  {
    var es := Entries(slots, order);
    p := IndexOf(kg, es, key);
    if p < |order| {
      var i := order[p];
      assert i in order;
      FoundCongruent(kg, slots, slots[i].key, key, i);
      FoundUnique(kg, slots, key, i, r);
    } else {
      assert forall q :: 0 <= q < |order| ==> order[q] != r by {
        assert forall q :: 0 <= q < |order| ==> !kg.equals(es[q].key, key) && order[q] in order;
      }
      assert r !in order;
    }
  }

  lemma LiveAt<K(!new)>(kg: Keying<K>, slots: seq<Item<K, Word>>, order: seq<nat>, p: nat)
    requires Inv(kg, slots, order) && p < |order|
    ensures order[p] < |slots| && Live(kg, slots[order[p]])
  {
    assert order[p] in order;
  }

  lemma EntriesLive<K(!new)>(kg: Keying<K>, slots: seq<Item<K, Word>>, order: seq<nat>)
    requires Inv(kg, slots, order)
    ensures forall p :: 0 <= p < |order| ==> Live(kg, Entries(slots, order)[p])
  {
    forall p | 0 <= p < |order|
      ensures Live(kg, Entries(slots, order)[p])
    {
      LiveAt(kg, slots, order, p);
    }
  }

  // ----- writing one slot

  /** Overwriting the value of a live slot. */
  lemma UpdateSlot<K(!new)>(kg: Keying<K>, slots: seq<Item<K, Word>>, order: seq<nat>, p: nat, value: Word)
    requires Inv(kg, slots, order) && p < |order| && value != REMOVED
    ensures order[p] < |slots|
    ensures Inv(kg, slots[order[p] := slots[order[p]].(value := value)], order)
    ensures Entries(slots[order[p] := slots[order[p]].(value := value)], order)
         == Entries(slots, order)[p := slots[order[p]].(value := value)]
  {
    var r := order[p];
    assert r in order;
    var slots' := slots[r := slots[r].(value := value)];
    assert forall i, k :: 0 <= i < |slots| ==> (Stops(kg, slots'[i], k) <==> Stops(kg, slots[i], k));
    forall i | 0 <= i < |slots'| && Live(kg, slots'[i])
      ensures Found(kg, slots', slots'[i].key, i)
    {
      assert Found(kg, slots, slots[i].key, i);
    }
  }

  /** Filling the vacant slot at which the search for a new key stopped. */
  lemma InsertSlot<K(!new)>(kg: Keying<K>, slots: seq<Item<K, Word>>, order: seq<nat>, key: K, value: Word, r: nat)
    requires Lawful(kg) && Inv(kg, slots, order) && Found(kg, slots, key, r)
    requires Vacant(kg, slots[r]) && key != kg.nil && value != REMOVED
    ensures Inv(kg, slots[r := Item(key, value)], order + [r])
    ensures Entries(slots[r := Item(key, value)], order + [r]) == Entries(slots, order) + [Item(key, value)]
  {
    var slots' := slots[r := Item(key, value)];
    assert r !in order;
    forall i | 0 <= i < |slots'| && Live(kg, slots'[i])
      ensures Found(kg, slots', slots'[i].key, i)
    {
      FoundAvoids(kg, slots, slots'[i].key, i, r, Item(key, value));
    }
    assert Distinct(order + [r]);
  }

  /** A vacant slot lies on no other search path, so changing it leaves the search as it was. */
  lemma FoundAvoids<K(!new)>(kg: Keying<K>, slots: seq<Item<K, Word>>, key: K, i: nat, r: nat, it: Item<K, Word>)
    requires Found(kg, slots, key, i) && r < |slots| && Vacant(kg, slots[r])
    requires i == r ==> Stops(kg, it, key)
    ensures Found(kg, slots[r := it], key, i)
  {
    var cap := |slots|;
    var h := Home(kg, key, cap);
    forall j | 0 <= j < Dist(h, i, cap)
      ensures !Stops(kg, slots[r := it][Wrap(h, j, cap)], key)
    {
      assert !Stops(kg, slots[Wrap(h, j, cap)], key);
    }
  }

  /** Turning a live slot into a tombstone. */
  lemma RemoveSlot<K(!new)>(kg: Keying<K>, slots: seq<Item<K, Word>>, order: seq<nat>, p: nat)
    requires Inv(kg, slots, order) && p < |order|
    ensures order[p] < |slots|
    ensures Inv(kg, slots[order[p] := Item(kg.nil, REMOVED)], order[..p] + order[p + 1..])
    ensures Entries(slots[order[p] := Item(kg.nil, REMOVED)], order[..p] + order[p + 1..])
         == Entries(slots, order)[..p] + Entries(slots, order)[p + 1..]
  {
    var r := order[p];
    var slots' := slots[r := Item(kg.nil, REMOVED)];
    var order' := order[..p] + order[p + 1..];
    DistinctRemove(order, p);
    forall i | 0 <= i < |slots'| && Live(kg, slots'[i])
      ensures Found(kg, slots', slots'[i].key, i)
    {
      assert Found(kg, slots, slots[i].key, i);
    }
    RemoveMembers(order, p);
    assert forall q :: 0 <= q < |order'| ==> order'[q] == if q < p then order[q] else order[q + 1];
  }

  lemma RemoveMembers(order: seq<nat>, p: nat)
    requires p < |order|
    ensures forall i :: i in order && i != order[p] ==> i in order[..p] + order[p + 1..]
    ensures forall i :: i in order[..p] + order[p + 1..] ==> i in order
  {
    assert order == order[..p] + [order[p]] + order[p + 1..];
  }

  // ----- counting slots

  /** The number of slots that are not vacant: live entries and tombstones. */
  ghost function Filled<K>(kg: Keying<K>, slots: seq<Item<K, Word>>): (n: nat)
    ensures n <= |slots|
  {
    if slots == [] then 0
    else Filled(kg, slots[1..]) + if Vacant(kg, slots[0]) then 0 else 1
  }

  lemma {:induction false} FilledUpdate<K>(kg: Keying<K>, slots: seq<Item<K, Word>>, i: nat, it: Item<K, Word>)
    requires i < |slots|
    ensures Filled(kg, slots[i := it])
         == Filled(kg, slots) - (if Vacant(kg, slots[i]) then 0 else 1) + (if Vacant(kg, it) then 0 else 1)
  {
    if i > 0 {
      FilledUpdate(kg, slots[1..], i - 1, it);
      assert slots[i := it][1..] == slots[1..][i - 1 := it];
    } else {
      assert slots[i := it][1..] == slots[1..];
    }
  }

  /** While some slot is not filled there is a vacant one to end every search. */
  lemma {:induction false} VacantExists<K>(kg: Keying<K>, slots: seq<Item<K, Word>>) returns (e: nat)
    requires Filled(kg, slots) < |slots|
    ensures e < |slots| && Vacant(kg, slots[e])
  {
    if Vacant(kg, slots[0]) {
      e := 0;
    } else {
      e := VacantExists(kg, slots[1..]);
      e := e + 1;
    }
  }

  lemma {:induction false} FilledNone<K>(kg: Keying<K>, slots: seq<Item<K, Word>>)
    requires forall i :: 0 <= i < |slots| ==> slots[i] == Item(kg.nil, NULL)
    ensures Filled(kg, slots) == 0 && Inv(kg, slots, []) && Entries(slots, []) == []
  {
    if slots != [] {
      FilledNone(kg, slots[1..]);
    }
  }

  // ----- the cost of resizing

  /** Prepaid moves: two for each entry above a quarter of the capacity and two for each tombstone. */
  ghost function Potential(count: nat, removed: nat, capacity: nat): nat {
    (if count > capacity / 4 then 2 * (count - capacity / 4) else 0) + 2 * removed
  }
}
