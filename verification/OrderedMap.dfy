/**
 The abstract value of a uo_hashtbl: key-value pairs in insertion order, no two of them with
 equal keys. Key equality and hashing are the macro parameters of uo_impl_hashtbl.
 */
module OrderedMap {
  datatype Item<K, V> = Item(key: K, value: V)

  /** What uo_impl_hashtbl is instantiated with: the null key, the hash and the equality test. */
  datatype Keying<!K> = Keying(nil: K, hash: K -> nat, equals: (K, K) -> bool)

  ghost predicate Lawful<K(!new)>(kg: Keying<K>) {
    && (forall a :: kg.equals(a, a))
    && (forall a, b :: kg.equals(a, b) ==> kg.equals(b, a) && kg.hash(a) == kg.hash(b))
    && (forall a, b, c :: kg.equals(a, b) && kg.equals(b, c) ==> kg.equals(a, c))
  }

  /** The position of the entry for key, or the number of entries. */
  function IndexOf<K, V>(kg: Keying<K>, es: seq<Item<K, V>>, key: K): (i: nat)
    ensures i <= |es|
    ensures i < |es| ==> kg.equals(es[i].key, key)
    ensures forall j :: 0 <= j < i ==> !kg.equals(es[j].key, key)
  {
    if es == [] then 0
    else if kg.equals(es[0].key, key) then 0
    else 1 + IndexOf(kg, es[1..], key)
  }

  function Lookup<K, V>(kg: Keying<K>, es: seq<Item<K, V>>, key: K, default: V): V {
    var i := IndexOf(kg, es, key);
    if i < |es| then es[i].value else default
  }

  function Put<K, V>(kg: Keying<K>, es: seq<Item<K, V>>, key: K, value: V): seq<Item<K, V>> {
    var i := IndexOf(kg, es, key);
    if i < |es| then es[i := es[i].(value := value)] else es + [Item(key, value)]
  }

  function Delete<K, V>(kg: Keying<K>, es: seq<Item<K, V>>, key: K): seq<Item<K, V>> {
    var i := IndexOf(kg, es, key);
    if i < |es| then es[..i] + es[i + 1..] else es
  }

  /** No two entries have equal keys. */
  ghost predicate Unique<K(!new), V>(kg: Keying<K>, es: seq<Item<K, V>>) {
    forall i, j :: 0 <= i < j < |es| ==> !kg.equals(es[i].key, es[j].key)
  }

  lemma IndexOfFirst<K, V>(kg: Keying<K>, es: seq<Item<K, V>>, key: K, i: nat)
    requires i <= |es| && (i < |es| ==> kg.equals(es[i].key, key))
    requires forall j :: 0 <= j < i ==> !kg.equals(es[j].key, key)
    ensures IndexOf(kg, es, key) == i
  {
  }

  lemma IndexOfIs<K(!new), V>(kg: Keying<K>, es: seq<Item<K, V>>, key: K, p: nat)
    requires Lawful(kg) && Unique(kg, es)
    requires p < |es| && kg.equals(es[p].key, key)
    ensures IndexOf(kg, es, key) == p
  {
    var i := IndexOf(kg, es, key);
    assert kg.equals(key, es[p].key);
  }

  lemma UniqueKept<K(!new), V>(kg: Keying<K>, es: seq<Item<K, V>>, key: K, value: V)
    requires Lawful(kg) && Unique(kg, es)
    ensures Unique(kg, Put(kg, es, key, value)) && Unique(kg, Delete(kg, es, key))
  {
  }

  /** A stored value is read back under every equal key, and other keys are unaffected. */
  lemma LookupPut<K(!new), V>(kg: Keying<K>, es: seq<Item<K, V>>, key: K, value: V, other: K, default: V)
    requires Lawful(kg) && Unique(kg, es)
    ensures Lookup(kg, Put(kg, es, key, value), other, default)
         == if kg.equals(key, other) then value else Lookup(kg, es, other, default)
  {
    UniqueKept(kg, es, key, value);
    var i := IndexOf(kg, es, key);
    var es' := Put(kg, es, key, value);
    var o := IndexOf(kg, es, other);
    if kg.equals(key, other) {
      IndexOfIs(kg, es', other, i);
    } else if o < |es| {
      IndexOfIs(kg, es', other, o);
    }
  }

  /** A deleted key reads as absent, and other keys are unaffected. */
  lemma LookupDelete<K(!new), V>(kg: Keying<K>, es: seq<Item<K, V>>, key: K, other: K, default: V)
    requires Lawful(kg) && Unique(kg, es)
    ensures Lookup(kg, Delete(kg, es, key), other, default)
         == if kg.equals(key, other) then default else Lookup(kg, es, other, default)
  {
    UniqueKept(kg, es, key, default);
    var i := IndexOf(kg, es, key);
    var es' := Delete(kg, es, key);
    var o, o' := IndexOf(kg, es, other), IndexOf(kg, es', other);
    assert forall q :: 0 <= q < |es'| ==> es'[q] == if i < |es| && q >= i then es[q + 1] else es[q];
    if !kg.equals(key, other) && o < |es| {
      IndexOfIs(kg, es', other, if i < |es| && o > i then o - 1 else o);
    }
  }

  /** Updating keeps every key in its place; a new key goes last. */
  lemma PutKeepsOrder<K(!new), V>(kg: Keying<K>, es: seq<Item<K, V>>, key: K, value: V, p: nat)
    requires p < |es|
    ensures p < |Put(kg, es, key, value)| && Put(kg, es, key, value)[p].key == es[p].key
    ensures |Put(kg, es, key, value)| == |es| + (if IndexOf(kg, es, key) < |es| then 0 else 1)
  {
  }
}
