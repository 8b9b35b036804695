/**
 uo_linklist: circular doubly linked lists whose links are embedded in the listed items.
 A list is a head together with the ghost sequence of the links that follow it.
 */
module LinkList {

  class Link<T> {
    var next: Link?<T>
    var prev: Link?<T>
    var item: T

    /** A zero-filled link. */
    constructor (item: T)
      ensures next == null && prev == null && this.item == item
    {
      this.item := item;
      next, prev := null, null;
    }
  }

  ghost predicate Distinct<T>(s: seq<T>) {
    forall i, j :: 0 <= i < j < |s| ==> s[i] != s[j]
  }

  ghost function After<T>(head: Link<T>, nodes: seq<Link<T>>, i: int): Link<T>
    requires -1 <= i < |nodes|
  {
    if i + 1 < |nodes| then nodes[i + 1] else head
  }

  ghost function Before<T>(head: Link<T>, nodes: seq<Link<T>>, i: int): Link<T>
    requires 0 <= i <= |nodes|
  {
    if i > 0 then nodes[i - 1] else head
  }

  /**
   The head and the nodes form one cycle in both directions: following next from the head
   visits exactly the nodes, in order, and returns to the head, and prev undoes next.
   */
  ghost predicate Ring<T>(head: Link<T>, nodes: seq<Link<T>>)
    reads head`next, head`prev, nodes`next, nodes`prev
  {
    && Distinct(nodes)
    && head !in nodes
    && head.next == After(head, nodes, -1)
    && head.prev == Before(head, nodes, |nodes|)
    && (forall i {:trigger nodes[i].next} :: 0 <= i < |nodes| ==> nodes[i].next == After(head, nodes, i))
    && (forall i {:trigger nodes[i].prev} :: 0 <= i < |nodes| ==> nodes[i].prev == Before(head, nodes, i))
  }

  /** In every list, next and prev are mutually inverse and never null, as the header promises. */
  lemma RingLaws<T>(head: Link<T>, nodes: seq<Link<T>>, x: Link<T>)
    requires Ring(head, nodes) && x in [head] + nodes
    ensures x.next != null && x.prev != null
    ensures x.next.prev == x && x.prev.next == x
  {
    if x != head {
      var i :| 0 <= i < |nodes| && nodes[i] == x;
    }
  }

  /** A ring determines its own contents: the same pointers cannot list two different sequences. */
  lemma {:induction false} RingUnique<T>(head: Link<T>, a: seq<Link<T>>, b: seq<Link<T>>)
    requires Ring(head, a) && Ring(head, b)
    ensures a == b
  {
    RingPrefix(head, a, b, |a|);
    RingPrefix(head, b, a, |b|);
  }

  lemma {:induction false} RingPrefix<T>(head: Link<T>, a: seq<Link<T>>, b: seq<Link<T>>, n: nat)
    requires Ring(head, a) && Ring(head, b) && n <= |a|
    ensures n <= |b| && a[..n] == b[..n]
  {
    if n > 0 {
      RingPrefix(head, a, b, n - 1);
      if n == 1 {
        assert head.next == a[0];
      } else {
        assert a[n - 2].next == a[n - 1] && b[n - 2] == a[..n - 1][n - 2];
      }
      assert n <= |b| && b[n - 1] == a[n - 1];
      assert a[..n] == a[..n - 1] + [a[n - 1]];
      assert b[..n] == b[..n - 1] + [b[n - 1]];
    }
  }

  lemma DistinctInsert<T>(s: seq<T>, k: nat, x: T)
    requires Distinct(s) && k <= |s| && x !in s
    ensures Distinct(s[..k] + [x] + s[k..])
  {
  }

  lemma DistinctRemove<T>(s: seq<T>, k: nat)
    requires Distinct(s) && k < |s|
    ensures Distinct(s[..k] + s[k + 1..]) && s[k] !in s[..k] + s[k + 1..]
  {
  }

  /** n zero-filled links, all unlinked. */
  method Calloc<T>(zero: T, n: nat) returns (links: seq<Link<T>>)
    ensures |links| == n && fresh(links) && Distinct(links)
    ensures forall i {:trigger links[i].next} :: 0 <= i < n ==> links[i].next == null
    ensures forall i :: 0 <= i < n ==> links[i].item == zero
  {
    links := [];
    while |links| < n
      invariant |links| <= n && fresh(links) && Distinct(links)
      invariant forall i {:trigger links[i].next} :: 0 <= i < |links| ==> links[i].next == null
      invariant forall i :: 0 <= i < |links| ==> links[i].item == zero
    {
      var link := new Link(zero);
      links := links + [link];
    }
  }

  method SelfLink<T>(head: Link<T>)
    modifies head`next, head`prev
    ensures Ring(head, [])
  {
    head.next, head.prev := head, head;
  }

  method IsEmpty<T>(head: Link<T>, ghost nodes: seq<Link<T>>) returns (empty: bool)
    requires Ring(head, nodes)
    ensures empty <==> nodes == []
  {
    empty := head == head.next;
  }

  /** Insert an unlinked link before pos, which stands at index k of the list (k == |nodes| is the head). */
  method InsertBefore<T>(head: Link<T>, ghost nodes: seq<Link<T>>, pos: Link<T>, ghost k: nat, link: Link<T>)
    requires Ring(head, nodes)
    requires k <= |nodes| && pos == After(head, nodes, k - 1)
    requires link != head && link !in nodes && link.next == null
    modifies {head, link}`next, {head, link}`prev, nodes`next, nodes`prev
    ensures Ring(head, nodes[..k] + [link] + nodes[k..])
  {
    link.prev := pos.prev;
    link.prev.next := link;
    link.next := pos;
    pos.prev := link;
    ghost var all := nodes[..k] + [link] + nodes[k..];
    DistinctInsert(nodes, k, link);
    assert head.next == After(head, all, -1) && head.prev == Before(head, all, |all|);
    assert forall i {:trigger all[i].next} :: 0 <= i < |all| ==> all[i].next == After(head, all, i);
    assert forall i {:trigger all[i].prev} :: 0 <= i < |all| ==> all[i].prev == Before(head, all, i);
  }

  /** Detach a link from its neighbours and zero-fill it. */
  method Unlink<T>(link: Link<T>)
    requires link.next != null && link.prev != null
    modifies link`next, link`prev, link.next`prev, link.prev`next
    ensures link.next == null && link.prev == null
    ensures old(link.next) != link ==> old(link.next).prev == old(link.prev)
    ensures old(link.prev) != link ==> old(link.prev).next == old(link.next)
  {
    link.next.prev := link.prev;
    link.prev.next := link.next;
    link.next, link.prev := null, null;
  }

  /** Remove the link at index k of the list. */
  method Remove<T>(head: Link<T>, ghost nodes: seq<Link<T>>, ghost k: nat, link: Link<T>)
    requires Ring(head, nodes)
    requires k < |nodes| && link == nodes[k]
    modifies head`next, head`prev, nodes`next, nodes`prev
    ensures Ring(head, nodes[..k] + nodes[k + 1..])
    ensures link.next == null && link.prev == null
  {
    assert link.prev == Before(head, nodes, k) && link.next == After(head, nodes, k);
    Unlink(link);
    ghost var rest := nodes[..k] + nodes[k + 1..];
    DistinctRemove(nodes, k);
    assert head.next == After(head, rest, -1) && head.prev == Before(head, rest, |rest|);
    assert forall i {:trigger rest[i].next} :: 0 <= i < |rest| ==> rest[i].next == After(head, rest, i);
    assert forall i {:trigger rest[i].prev} :: 0 <= i < |rest| ==> rest[i].prev == Before(head, rest, i);
  }
}
