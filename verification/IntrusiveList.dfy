/** The circular doubly linked lists of include/zjunix/list.h.

    A node is embedded in a larger structure; item stands for what container_of reaches. */
module IntrusiveList {

  class ListHead<T> {
    var prev: ListHead<T>
    var next: ListHead<T>
    const item: T

    /** INIT_LIST_HEAD */
    constructor (item: T)
      ensures this.item == item && Alone()
    {
      prev := this;
      next := this;
      this.item := item;
    }

    ghost predicate Alone()
      reads this
    {
      prev == this && next == this
    }
  }

  ghost predicate Distinct<T>(s: seq<ListHead<T>>)
  {
    forall i, j :: 0 <= i < j < |s| ==> s[i] != s[j]
  }

  /** Position i of the circle head, s[0], ..., s[|s| - 1], head. */
  ghost function At<T>(head: ListHead<T>, s: seq<ListHead<T>>, i: int): ListHead<T>
    requires 0 <= i <= |s| + 1
  {
    if i == 0 || i == |s| + 1 then head else s[i - 1]
  }

  /** head is the anchor of a circle whose other nodes are s, in order. */
  ghost predicate Ring<T>(head: ListHead<T>, s: seq<ListHead<T>>)
    reads {head}, s
  {
    && head !in s && Distinct(s)
    && forall i {:trigger At(head, s, i)} :: 0 <= i <= |s| ==>
         At(head, s, i).next == At(head, s, i + 1) && At(head, s, i + 1).prev == At(head, s, i)
  }

  method ListAdd<T>(node: ListHead<T>, head: ListHead<T>, ghost s: seq<ListHead<T>>)
    requires Ring(head, s) && node != head && node !in s
    modifies node, head, head.next
    ensures Ring(head, [node] + s)
  {
    var first := head.next;
    assert At(head, s, 0).next == At(head, s, 1);
    LinkBetween(node, head, first);
    ghost var t := [node] + s;
    forall i | 0 <= i <= |t|
      ensures At(head, t, i).next == At(head, t, i + 1) && At(head, t, i + 1).prev == At(head, t, i)
    {
      if i >= 2 {
        assert At(head, s, i - 1) == At(head, t, i) && At(head, s, i) == At(head, t, i + 1);
      }
    }
  }

  /** __list_add */
  method LinkBetween<T>(node: ListHead<T>, before: ListHead<T>, after: ListHead<T>)
    modifies node, before, after
    ensures node.prev == before && node.next == after
    ensures before.next == node && after.prev == node
    ensures before != after && before != node ==> before.prev == old(before.prev)
    ensures before != after && after != node ==> after.next == old(after.next)
    requires node != before && node != after
  {
    node.next := after;
    node.prev := before;
    before.next := node;
    after.prev := node;
  }

  lemma Neighbours<T>(head: ListHead<T>, s: seq<ListHead<T>>, i: nat)
    requires Ring(head, s) && i < |s|
    ensures s[i].prev == At(head, s, i) && s[i].next == At(head, s, i + 2)
    ensures !s[i].Alone()
    ensures s[i].prev == head || s[i].prev in s
    ensures s[i].next == head || s[i].next in s
  {
    assert At(head, s, i + 1) == s[i];
    assert At(head, s, i).next == At(head, s, i + 1) && At(head, s, i + 2).prev == At(head, s, i + 1);
  }

  /** list_del_init: a node at position i of a ring leaves it; on a node that is already on its
      own nothing changes. */
  method ListDelInit<T>(node: ListHead<T>, ghost head: ListHead<T>, ghost s: seq<ListHead<T>>, ghost i: nat)
    requires node.Alone() || (Ring(head, s) && i < |s| && s[i] == node)
    modifies node, node.prev, node.next
    ensures node.Alone()
    ensures old(!node.Alone()) ==> Ring(head, s[..i] + s[i + 1..])
  {
    ghost var alone := node.Alone();
    assert !alone ==> At(head, s, i + 1) == node && At(head, s, i).next == node && At(head, s, i + 2).prev == node;
    node.prev.next := node.next;
    node.next.prev := node.prev;
    node.prev := node;
    node.next := node;
    if !alone { RingWithout(head, s, i); }
  }

  /** Skipping one node of a ring leaves a ring. */
  lemma RingWithout<T>(head: ListHead<T>, s: seq<ListHead<T>>, i: nat)
    requires head !in s && Distinct(s) && i < |s|
    requires forall j {:trigger At(head, s, j)} :: 0 <= j <= |s| && j != i && j != i + 1 ==>
               At(head, s, j).next == At(head, s, j + 1) && At(head, s, j + 1).prev == At(head, s, j)
    requires At(head, s, i).next == At(head, s, i + 2) && At(head, s, i + 2).prev == At(head, s, i)
    ensures Ring(head, s[..i] + s[i + 1..])
  {
    var t := s[..i] + s[i + 1..];
    forall j | 0 <= j <= |t|
      ensures At(head, t, j).next == At(head, t, j + 1) && At(head, t, j + 1).prev == At(head, t, j)
    {
      if j < i {
        assert At(head, t, j) == At(head, s, j) && At(head, t, j + 1) == At(head, s, j + 1);
      } else if j > i {
        assert At(head, t, j) == At(head, s, j + 1) && At(head, t, j + 1) == At(head, s, j + 2);
      } else {
        assert At(head, t, j) == At(head, s, j) && At(head, t, j + 1) == At(head, s, j + 2);
      }
    }
  }

  method ListEmpty<T>(head: ListHead<T>, ghost s: seq<ListHead<T>>) returns (empty: bool)
    requires Ring(head, s)
    ensures empty <==> s == []
  {
    assert At(head, s, 0).next == At(head, s, 1);
    empty := head.next == head;
  }
}
