/** The circular doubly linked list with a head that carries no entry. */
module LinkedList {

  /** list_t; what the enclosing structure holds is the value, absent in a list head. */
  class Link<T> {
    var next: Link?<T>
    var prev: Link?<T>
    const value: T

    constructor (value: T)
      ensures this.value == value && next == null && prev == null
    {
      this.value, next, prev := value, null, null;
    }
  }

  /** Going round: the entries have indices from 0 on, any other index is the head. */
  function At<T>(head: Link<T>, nodes: seq<Link<T>>, i: int): Link<T> {
    if 0 <= i < |nodes| then nodes[i] else head
  }

  /** The element at i and the one after it point at each other. */
  ghost predicate Joint<T>(head: Link<T>, nodes: seq<Link<T>>, i: int)
    reads head, nodes
  {
    && At(head, nodes, i).next == At(head, nodes, i + 1)
    && At(head, nodes, i + 1).prev == At(head, nodes, i)
  }

  ghost predicate Distinct<T>(head: Link<T>, nodes: seq<Link<T>>) {
    && (forall i :: 0 <= i < |nodes| ==> nodes[i] != head)
    && forall i, j :: 0 <= i < j < |nodes| ==> nodes[i] != nodes[j]
  }

  /** A well-formed circular list with these entries. */
  ghost predicate Ring<T>(head: Link<T>, nodes: seq<Link<T>>)
    reads head, nodes
  {
    && Distinct(head, nodes)
    && forall i :: -1 <= i < |nodes| ==> Joint(head, nodes, i)
  }

  /** list_init. */
  method ListInit<T>(head: Link<T>)
    modifies head
    ensures Ring(head, [])
  {
    head.next := head;
    head.prev := head;
  }

  /** list_add_actual. */
  method ListAddActual<T>(link: Link<T>, prev: Link<T>, next: Link<T>)
    requires link != prev && link != next
    modifies link`next, link`prev, next`prev, prev`next
    ensures link.next == next && link.prev == prev && prev.next == link && next.prev == link
  {
    next.prev := link;
    link.next := next;
    link.prev := prev;
    prev.next := link;
  }

  /** list_add: a new first entry. */
  method ListAdd<T>(link: Link<T>, head: Link<T>, ghost nodes: seq<Link<T>>)
    requires Ring(head, nodes) && link != head && link !in nodes
    modifies link, head, nodes
    ensures Ring(head, [link] + nodes)
  {
    ghost var after := [link] + nodes;
    assert Joint(head, nodes, -1);
    ListAddActual(link, head, head.next);
    forall i | -1 <= i < |after|
      ensures Joint(head, after, i)
    {
      if i > 0 {
        assert old(Joint(head, nodes, i - 1));
      }
    }
  }

  /** list_del_actual. */
  method ListDelActual<T>(prev: Link<T>, next: Link<T>)
    modifies next`prev, prev`next
    ensures next.prev == prev && prev.next == next
  {
    next.prev := prev;
    prev.next := next;
  }

  /** list_del, of the entry with index k. */
  method ListDel<T>(entry: Link<T>, ghost head: Link<T>, ghost nodes: seq<Link<T>>, ghost k: nat)
    requires Ring(head, nodes) && k < |nodes| && nodes[k] == entry
    modifies head, nodes
    ensures Ring(head, nodes[..k] + nodes[k + 1..]) && entry.next == entry.prev == null
  {
    ghost var after := nodes[..k] + nodes[k + 1..];
    assert Joint(head, nodes, k - 1) && Joint(head, nodes, k);
    ListDelActual(entry.prev, entry.next);
    entry.next := null;
    entry.prev := null;
    forall i | -1 <= i < |after|
      ensures Joint(head, after, i)
    {
      var was := if i < k then i else i + 1;
      assert old(Joint(head, nodes, was));
      if i == k - 1 {
        assert old(Joint(head, nodes, k));
      }
    }
  }

  /** list_count. */
  method ListCount<T>(head: Link<T>, ghost nodes: seq<Link<T>>) returns (count: nat)
    requires Ring(head, nodes)
    ensures count == |nodes|
  {
    count := 0;
    assert Joint(head, nodes, -1);
    var entry := head.next;
    while entry != head
      invariant count <= |nodes| && entry == At(head, nodes, count)
      decreases |nodes| - count
    {
      assert Joint(head, nodes, count);
      count := count + 1;
      entry := entry.next;
    }
  }
}
