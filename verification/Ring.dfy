/**
 * The circular doubly linked list under jansson/hashtable.c and the queues of the driver
 * (dokan/list.h). A link carries its record, where C embeds the link and recovers the record.
 */
module Ring {
  import opened Basics

  class Link<T> {
    var next: Link<T>
    var prev: Link<T>
    var item: Option<T>

    /** list_init, InitializeListHead. */
    constructor (item: Option<T>)
      ensures next == this && prev == this && this.item == item
    {
      next := this;
      prev := this;
      this.item := item;
    }

    method Init()
      modifies `next, `prev
      ensures next == this && prev == this
    {
      next := this;
      prev := this;
    }
  }

  function All<T>(head: Link<T>, links: seq<Link<T>>): (s: set<Link<T>>)
    ensures head in s && forall i :: 0 <= i < |links| ==> links[i] in s
    ensures forall l :: l in s ==> l == head || l in links
  {
    {head} + set l | l in links
  }

  ghost predicate Apart<T>(head: Link<T>, links: seq<Link<T>>) {
    && (forall i :: 0 <= i < |links| ==> links[i] != head)
    && (forall i, j :: 0 <= i < j < |links| ==> links[i] != links[j])
  }

  /** Each link points to the next one and back, and the ends meet at the head. */
  ghost predicate Linked<T>(head: Link<T>, links: seq<Link<T>>)
    reads head`next, head`prev, (set l | l in links)`next, (set l | l in links)`prev
  {
    && Apart(head, links)
    && (links == [] ==> head.next == head && head.prev == head)
    && (links != [] ==>
          && head.next == links[0] && links[0].prev == head
          && links[|links| - 1].next == head && head.prev == links[|links| - 1])
    && forall i, j :: 0 <= i < j < |links| && j == i + 1 ==> links[i].next == links[j] && links[j].prev == links[i]
  }

  /** The link at position k, or the head after the last one. */
  function At<T>(head: Link<T>, links: seq<Link<T>>, k: nat): Link<T> {
    if k < |links| then links[k] else head
  }

  /** list_insert: node goes in front of the link at k; in front of the head, it goes to the end (InsertTailList). */
  method Insert<T>(list: Link<T>, node: Link<T>, ghost head: Link<T>, ghost links: seq<Link<T>>, ghost k: nat)
    requires Linked(head, links) && k <= |links| && list == At(head, links, k)
    requires node != head && node !in links
    modifies (All(head, links) + {node})`next, (All(head, links) + {node})`prev
    ensures Linked(head, links[..k] + [node] + links[k..])
  {
    ghost var before := if k == 0 then head else links[k - 1];
    assert list.prev == before;
    node.next := list;
    node.prev := list.prev;
    list.prev.next := node;
    list.prev := node;
    ghost var r := links[..k] + [node] + links[k..];
    InsertedApart(head, links, node, k);
    assert k > 0 ==> before.next == node && node.prev == before;
    forall i, j | 0 <= i < j < |r| && j == i + 1 ensures r[i].next == r[j] && r[j].prev == r[i] {
      if j < k {
        assert r[i] == links[i] && r[j] == links[j] && old(links[i].next) == links[j];
      } else if i > k {
        assert r[i] == links[i - 1] && r[j] == links[j - 1] && old(links[i - 1].next) == links[j - 1];
      }
    }
    hide Apart;
  }

  lemma InsertedApart<T>(head: Link<T>, links: seq<Link<T>>, node: Link<T>, k: nat)
    requires Apart(head, links) && k <= |links| && node != head && node !in links
    ensures Apart(head, links[..k] + [node] + links[k..])
  {
    var r := links[..k] + [node] + links[k..];
    assert forall i :: 0 <= i < k ==> r[i] == links[i];
    assert forall i :: k < i < |r| ==> r[i] == links[i - 1];
  }

  /** list_remove, RemoveEntryList: the link itself keeps its pointers. */
  method Remove<T>(list: Link<T>, ghost head: Link<T>, ghost links: seq<Link<T>>, ghost k: nat)
    requires Linked(head, links) && k < |links| && list == links[k]
    modifies All(head, links)`next, All(head, links)`prev
    ensures Linked(head, links[..k] + links[k + 1..])
    ensures list.next == old(list.next) && list.prev == old(list.prev)
  {
    ghost var before := if k == 0 then head else links[k - 1];
    ghost var after := At(head, links, k + 1);
    assert list.prev == before && list.next == after;
    list.prev.next := list.next;
    list.next.prev := list.prev;
    ghost var r := links[..k] + links[k + 1..];
    RemovedApart(head, links, k);
    forall i, j | 0 <= i < j < |r| && j == i + 1 ensures r[i].next == r[j] && r[j].prev == r[i] {
      if j < k {
        assert r[i] == links[i] && r[j] == links[j] && old(links[i].next) == links[j];
      } else if i >= k {
        assert r[i] == links[i + 1] && r[j] == links[j + 1] && old(links[i + 1].next) == links[j + 1];
      }
    }
    hide Apart;
  }

  lemma RemovedApart<T>(head: Link<T>, links: seq<Link<T>>, k: nat)
    requires Apart(head, links) && k < |links|
    ensures Apart(head, links[..k] + links[k + 1..])
  {
    var r := links[..k] + links[k + 1..];
    assert forall i :: 0 <= i < k ==> r[i] == links[i];
    assert forall i :: k <= i < |r| ==> r[i] == links[i + 1];
  }

  /** Walking on from the link at k. */
  lemma Next<T>(head: Link<T>, links: seq<Link<T>>, k: nat)
    requires Linked(head, links) && k < |links|
    ensures links[k].next == At(head, links, k + 1)
    ensures links[k].prev == if k == 0 then head else links[k - 1]
  {
    if k + 1 < |links| {
      assert links[k].next == links[k + 1];
    }
    if k > 0 {
      assert links[k].prev == links[k - 1];
    }
  }

  lemma HeadApart<T>(head: Link<T>, links: seq<Link<T>>)
    requires Linked(head, links)
    ensures Apart(head, links)
  {
  }

  /** Both ends, seen from the head. */
  lemma Ends<T>(head: Link<T>, links: seq<Link<T>>)
    requires Linked(head, links)
    ensures head.next == At(head, links, 0)
    ensures head.prev == if links == [] then head else links[|links| - 1]
    ensures Apart(head, links)
  {
  }
}
