/** The list operations of dokanlib/dokan/list.h, on a ring that represents a sequence of links. */
module List {
  import opened Ring

  /** IsListEmpty */
  method IsListEmpty<T>(head: Link<T>, ghost links: seq<Link<T>>) returns (empty: bool)
    requires Linked(head, links)
    ensures empty <==> links == []
  {
    empty := head.next == head;
  }

  /** RemoveEntryList: the result says whether the list is empty now. */
  method RemoveEntryList<T>(entry: Link<T>, ghost head: Link<T>, ghost links: seq<Link<T>>, ghost k: nat)
    returns (empty: bool)
    requires Linked(head, links) && k < |links| && entry == links[k]
    modifies All(head, links)`next, All(head, links)`prev
    ensures Linked(head, links[..k] + links[k + 1..])
    ensures empty <==> |links| == 1
  {
    Next(head, links, k);
    var prev, next := entry.prev, entry.next;
    Remove(entry, head, links, k);
    empty := next == prev;
  }

  /** RemoveHeadList, on a list that is not empty. */
  method RemoveHeadList<T>(head: Link<T>, ghost links: seq<Link<T>>) returns (entry: Link<T>)
    requires Linked(head, links) && links != []
    modifies All(head, links)`next, All(head, links)`prev
    ensures entry == links[0] && Linked(head, links[1..])
  {
    hide Linked;
    Ends(head, links);
    entry := head.next;
    Remove(entry, head, links, 0);
    assert links[..0] + links[1..] == links[1..];
  }

  /** RemoveTailList, on a list that is not empty. */
  method RemoveTailList<T>(head: Link<T>, ghost links: seq<Link<T>>) returns (entry: Link<T>)
    requires Linked(head, links) && links != []
    modifies All(head, links)`next, All(head, links)`prev
    ensures entry == links[|links| - 1] && Linked(head, links[..|links| - 1])
  {
    hide Linked;
    Ends(head, links);
    entry := head.prev;
    Remove(entry, head, links, |links| - 1);
    assert links[..|links| - 1] + links[|links|..] == links[..|links| - 1];
  }

  /** InsertTailList */
  method InsertTailList<T>(head: Link<T>, entry: Link<T>, ghost links: seq<Link<T>>)
    requires Linked(head, links) && entry != head && entry !in links
    modifies (All(head, links) + {entry})`next, (All(head, links) + {entry})`prev
    ensures Linked(head, links + [entry])
  {
    Insert(head, entry, head, links, |links|);
    assert links[..|links|] + [entry] + links[|links|..] == links + [entry];
  }

  /** InsertHeadList */
  method InsertHeadList<T>(head: Link<T>, entry: Link<T>, ghost links: seq<Link<T>>)
    requires Linked(head, links) && entry != head && entry !in links
    modifies (All(head, links) + {entry})`next, (All(head, links) + {entry})`prev
    ensures Linked(head, [entry] + links)
  {
    if links != [] {
      Next(head, links, 0);
    }
    Insert(head.next, entry, head, links, 0);
    assert links[..0] + [entry] + links[0..] == [entry] + links;
  }

  /** The loop that empties a list from its head, as in ClearFindData: the links come out in order. */
  method TakeAll<T>(head: Link<T>, ghost links: seq<Link<T>>) returns (taken: seq<Link<T>>)
    requires Linked(head, links)
    modifies All(head, links)`next, All(head, links)`prev
    ensures taken == links && Linked(head, [])
  {
    hide Linked;
    taken := [];
    ghost var rest := links;
    assert taken + rest == links;
    var empty := IsListEmpty(head, rest);
    while !empty
      invariant Linked(head, rest) && taken + rest == links && (empty <==> rest == [])
      invariant All(head, rest) <= All(head, links)
      decreases |rest|
    {
      var entry := RemoveHeadList(head, rest);
      taken := taken + [entry];
      assert taken + rest[1..] == links;
      rest := rest[1..];
      empty := IsListEmpty(head, rest);
    }
  }

  /** A chain of links without a head of its own, closed to a ring: what AppendTailList takes. */
  ghost predicate Chain<T>(links: seq<Link<T>>)
    reads (set l | l in links)`next, (set l | l in links)`prev
  {
    && links != [] && (forall i, j :: 0 <= i < j < |links| ==> links[i] != links[j])
    && links[0].prev == links[|links| - 1] && links[|links| - 1].next == links[0]
    && forall i, j :: 0 <= i < j < |links| && j == i + 1 ==> links[i].next == links[j] && links[j].prev == links[i]
  }

  /** AppendTailList: the second list is given by its first entry, not by a head. */
  method AppendTailList<T>(head: Link<T>, more: Link<T>, ghost links: seq<Link<T>>, ghost others: seq<Link<T>>)
    requires Linked(head, links) && Chain(others) && more == others[0]
    requires head !in others && forall l :: l in others ==> l !in links
    modifies All(head, links + others)`next, All(head, links + others)`prev
    ensures Linked(head, links + others)
  {
    ghost var last := if links == [] then head else links[|links| - 1];
    ghost var end := others[|others| - 1];
    var listEnd := head.prev;
    assert listEnd == last;
    head.prev.next := more;
    head.prev := more.prev;
    more.prev.next := head;
    more.prev := listEnd;
    ghost var r := links + others;
    assert forall i :: 0 <= i < |links| ==> r[i] == links[i];
    assert forall i :: |links| <= i < |r| ==> r[i] == others[i - |links|];
  }
}
