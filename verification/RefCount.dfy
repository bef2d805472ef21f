/**
 * Reference counting (jansson/jansson.h and value.c) on the nodes that are alive: each one's count is the
 * number of references callers own plus the number of container slots that hold it.
 */
module RefCount {
  import opened JsonHeap

  /** What counting knows of a node: its count, and the nodes its slots hold. */
  datatype Cell = Cell(count: Count, held: seq<Node>)

  /** The nodes that are alive; freeing a node takes it out. */
  type Store = map<Node, Cell>

  // ----- slots -----

  /** How many slots hold each node, over the whole store. */
  ghost function Slots(h: Store): multiset<Node>
    decreases |h|
  {
    if h == map[] then multiset{}
    else
      var n :| n in h;
      assert |h - {n}| < |h| by { SmallerWithout(h, n); }
      multiset(h[n].held) + Slots(h - {n})
  }

  lemma SmallerWithout(h: Store, n: Node)
    requires n in h
    ensures |h - {n}| < |h|
  {
    assert (h - {n}).Keys == h.Keys - {n};
    assert |h.Keys| == |h| && |(h - {n}).Keys| == |h - {n}|;
  }

  /** Any node may be counted first. */
  lemma {:induction false} SlotsAt(h: Store, n: Node)
    requires n in h
    ensures Slots(h) == multiset(h[n].held) + Slots(h - {n})
    decreases |h|
  {
    var m :| m in h && Slots(h) == multiset(h[m].held) + Slots(h - {m});
    if m != n {
      SmallerWithout(h, m);
      SmallerWithout(h, n);
      SlotsAt(h - {m}, n);
      SlotsAt(h - {n}, m);
      assert h - {m} - {n} == h - {n} - {m};
    }
  }

  lemma SlotsUpdate(h: Store, n: Node, c: Cell)
    requires n in h
    ensures Slots(h[n := c]) + multiset(h[n].held) == Slots(h) + multiset(c.held)
  {
    SlotsAt(h, n);
    SlotsAt(h[n := c], n);
    assert h[n := c] - {n} == h - {n};
  }

  lemma SlotsSame(h: Store, n: Node, c: Cell)
    requires n in h && c.held == h[n].held
    ensures Slots(h[n := c]) == Slots(h)
  {
    SlotsAt(h, n);
    SlotsAt(h[n := c], n);
    assert h[n := c] - {n} == h - {n};
  }

  lemma SlotsAdd(h: Store, n: Node, c: Cell)
    requires n !in h
    ensures Slots(h[n := c]) == Slots(h) + multiset(c.held)
  {
    SlotsAt(h[n := c], n);
    assert h[n := c] - {n} == h;
  }

  /** What a slot holds is held by some node. */
  lemma {:induction false} HolderOf(h: Store, n: Node) returns (m: Node)
    requires Slots(h)[n] > 0
    ensures m in h && n in h[m].held
    decreases |h|
  {
    m :| m in h && Slots(h) == multiset(h[m].held) + Slots(h - {m});
    if n !in h[m].held {
      SmallerWithout(h, m);
      m := HolderOf(h - {m}, n);
    }
  }

  lemma HeldIsSlot(h: Store, m: Node, n: Node)
    requires m in h && n in h[m].held
    ensures Slots(h)[n] > 0
  {
    SlotsAt(h, m);
  }

  // ----- the invariant -----

  /** Every slot holds a live node, every owned node is alive, and every count is exact. */
  ghost predicate Inv(h: Store, owned: multiset<Node>) {
    HeldAlive(h) && (forall n :: n in owned ==> n in h) && Exact(h, owned)
  }

  ghost predicate HeldAlive(h: Store) {
    && (forall n, m :: n in h && m in h[n].held ==> m in h)
    && (forall n :: n in h && h[n].count == Shared ==> h[n].held == [])
  }

  ghost predicate Exact(h: Store, owned: multiset<Node>) {
    forall n :: n in h && h[n].count.Counted? ==> ExactAt(h[n].count.n, owned, Slots(h), n)
  }

  ghost predicate ExactAt(count: nat, owned: multiset<Node>, slots: multiset<Node>, n: Node) {
    count > 0 && count == owned[n] + slots[n]
  }

  function CellWith(c: Cell, n: nat): Cell { c.(count := Counted(n)) }

  /** json_incref */
  function Incref(h: Store, n: Node): Store
    requires n in h
  {
    if h[n].count == Shared then h else h[n := CellWith(h[n], h[n].count.n + 1)]
  }

  /** json_decref on each node of todo: a count that reaches zero frees the node and drops what its slots held. */
  ghost function Release(h: Store, todo: seq<Node>): Store
    decreases |h|, |todo|
  {
    if todo == [] then h
    else
      var n, rest := todo[0], todo[1..];
      if n !in h || h[n].count == Shared then Release(h, rest)
      else if h[n].count.n > 1 then
        var cell := CellWith(h[n], h[n].count.n - 1);
        assert |h[n := cell]| == |h| by { SameSize(h, n, cell); }
        Release(h[n := cell], rest)
      else
        assert |h - {n}| < |h| by { SmallerWithout(h, n); }
        Release(h - {n}, h[n].held + rest)
  }

  lemma SameSize(h: Store, n: Node, c: Cell)
    requires n in h
    ensures |h[n := c]| == |h|
  {
    assert h[n := c].Keys == h.Keys;
    assert |h.Keys| == |h| && |h[n := c].Keys| == |h[n := c]|;
  }

  // ----- conservation -----

  lemma RecountKeepsHeld(h: Store, n: Node, k: nat)
    requires HeldAlive(h) && n in h && h[n].count.Counted?
    ensures HeldAlive(h[n := CellWith(h[n], k)])
  {
  }

  /** Exactness, node by node, when one count changes with the references its owner has. */
  lemma RecountExact(h: Store, n: Node, k: nat, before: multiset<Node>, after: multiset<Node>)
    requires Exact(h, before) && n in h && h[n].count.Counted? && k > 0 && k + before[n] == h[n].count.n + after[n]
    requires forall m :: m != n ==> before[m] == after[m]
    ensures Exact(h[n := CellWith(h[n], k)], after)
  {
    var r := h[n := CellWith(h[n], k)];
    SlotsSame(h, n, CellWith(h[n], k));
    forall m | m in r && r[m].count.Counted? ensures ExactAt(r[m].count.n, after, Slots(r), m) {
      assert ExactAt(h[m].count.n, before, Slots(h), m);
    }
  }

  lemma IncrefConserves(h: Store, n: Node, owned: multiset<Node>)
    requires Inv(h, owned) && n in h
    ensures Inv(Incref(h, n), owned + multiset{n})
  {
    if h[n].count != Shared {
      RecountKeepsHeld(h, n, h[n].count.n + 1);
      RecountExact(h, n, h[n].count.n + 1, owned, owned + multiset{n});
    } else {
      SharedIsUncounted(h, n, owned, owned + multiset{n});
    }
    hide HeldAlive, Exact;
  }

  lemma SharedIsUncounted(h: Store, n: Node, before: multiset<Node>, after: multiset<Node>)
    requires Exact(h, before) && n in h && h[n].count == Shared && forall m :: m != n ==> before[m] == after[m]
    ensures Exact(h, after)
  {
    forall k | k in h && h[k].count.Counted? ensures ExactAt(h[k].count.n, after, Slots(h), k) {
      assert ExactAt(h[k].count.n, before, Slots(h), k);
    }
  }

  /** Dropping a reference that is not the last one. */
  lemma DropConserves(h: Store, n: Node, owned: multiset<Node>)
    requires Inv(h, owned + multiset{n}) && n in h && h[n].count.Counted? && h[n].count.n > 1
    ensures Inv(h[n := CellWith(h[n], h[n].count.n - 1)], owned)
  {
    RecountKeepsHeld(h, n, h[n].count.n - 1);
    RecountExact(h, n, h[n].count.n - 1, owned + multiset{n}, owned);
    hide HeldAlive, Exact;
    assert forall k :: k in owned ==> k in owned + multiset{n};
  }

  /** Freeing a node nobody else refers to: what its slots held is now to be released. */
  lemma FreeConserves(h: Store, n: Node, owned: multiset<Node>)
    requires Inv(h, owned + multiset{n}) && n in h && h[n].count == Counted(1)
    ensures Inv(h - {n}, owned + multiset(h[n].held)) && n !in owned
  {
    assert ExactAt(1, owned + multiset{n}, Slots(h), n);
    assert owned[n] == 0 && Slots(h)[n] == 0;
    FreedIsHeldByNone(h, n);
    FreeKeepsHeld(h, n);
    FreeExact(h, n, owned);
    forall k | k in owned + multiset(h[n].held) ensures k in h - {n} {
      assert k in owned ==> k in owned + multiset{n};
    }
    hide HeldAlive, Exact;
  }

  lemma FreeKeepsHeld(h: Store, n: Node)
    requires HeldAlive(h) && n in h && forall m :: m in h ==> n !in h[m].held
    ensures HeldAlive(h - {n})
  {
  }

  lemma FreeExact(h: Store, n: Node, owned: multiset<Node>)
    requires Exact(h, owned + multiset{n}) && n in h
    ensures Exact(h - {n}, owned + multiset(h[n].held))
  {
    var r := h - {n};
    SlotsAt(h, n);
    forall k | k in r && r[k].count.Counted? ensures ExactAt(r[k].count.n, owned + multiset(h[n].held), Slots(r), k) {
      assert ExactAt(h[k].count.n, owned + multiset{n}, Slots(h), k);
    }
  }

  lemma FreedIsHeldByNone(h: Store, n: Node)
    requires Slots(h)[n] == 0
    ensures forall m :: m in h ==> n !in h[m].held
  {
    forall m | m in h ensures n !in h[m].held {
      if n in h[m].held {
        HeldIsSlot(h, m, n);
      }
    }
  }

  /** Releasing keeps every count exact; in particular no node is freed while something refers to it. */
  lemma {:induction false} ReleaseConserves(h: Store, todo: seq<Node>, owned: multiset<Node>)
    requires Inv(h, owned + multiset(todo))
    ensures Inv(Release(h, todo), owned)
    decreases |h|, |todo|
  {
    hide Inv;
    if todo == [] {
      assert owned + multiset(todo) == owned;
    } else {
      var n, rest := todo[0], todo[1..];
      assert todo == [n] + rest;
      assert owned + multiset(todo) == owned + multiset(rest) + multiset{n};
      OwnedIsAlive(h, owned + multiset(todo), n);
      if h[n].count == Shared {
        ForgetShared(h, n, owned + multiset(rest));
        ReleaseConserves(h, rest, owned);
      } else if h[n].count.n > 1 {
        DropConserves(h, n, owned + multiset(rest));
        SameSize(h, n, CellWith(h[n], h[n].count.n - 1));
        ReleaseConserves(h[n := CellWith(h[n], h[n].count.n - 1)], rest, owned);
      } else {
        FreeConserves(h, n, owned + multiset(rest));
        SmallerWithout(h, n);
        assert owned + multiset(rest) + multiset(h[n].held) == owned + multiset(h[n].held + rest);
        ReleaseConserves(h - {n}, h[n].held + rest, owned);
      }
    }
  }

  lemma OwnedIsAlive(h: Store, owned: multiset<Node>, n: Node)
    requires Inv(h, owned) && n in owned
    ensures n in h && (h[n].count.Counted? ==> h[n].count.n > 0)
  {
    assert h[n].count.Counted? ==> ExactAt(h[n].count.n, owned, Slots(h), n);
  }

  lemma ForgetShared(h: Store, n: Node, owned: multiset<Node>)
    requires Inv(h, owned + multiset{n}) && n in h && h[n].count == Shared
    ensures Inv(h, owned)
  {
    SharedIsUncounted(h, n, owned + multiset{n}, owned);
    hide HeldAlive, Exact;
    assert forall k :: k in owned ==> k in owned + multiset{n};
  }

  /** A setter moves references between its caller and the slots of one node, and releases what it drops. */
  ghost function Setter(h: Store, n: Node, held: seq<Node>, dropped: seq<Node>): Store
    requires n in h
  {
    Release(h[n := h[n].(held := held)], dropped)
  }

  lemma {:induction false} SetterConserves(h: Store, n: Node, held: seq<Node>, added: seq<Node>, dropped: seq<Node>,
      owned: multiset<Node>)
    requires Inv(h, owned + multiset(added)) && n in h && h[n].count != Shared
    requires multiset(held) + multiset(dropped) == multiset(h[n].held) + multiset(added)
    ensures Inv(Setter(h, n, held, dropped), owned)
  {
    MoveConserves(h, n, held, added, dropped, owned);
    ReleaseConserves(h[n := h[n].(held := held)], dropped, owned);
  }

  lemma MoveConserves(h: Store, n: Node, held: seq<Node>, added: seq<Node>, dropped: seq<Node>, owned: multiset<Node>)
    requires Inv(h, owned + multiset(added)) && n in h && h[n].count != Shared
    requires multiset(held) + multiset(dropped) == multiset(h[n].held) + multiset(added)
    ensures Inv(h[n := h[n].(held := held)], owned + multiset(dropped))
  {
    MovedAreAlive(h, n, held, added, dropped, owned);
    MoveExact(h, n, held, added, dropped, owned);
    MoveKeepsHeld(h, n, held);
    forall k | k in owned + multiset(dropped) ensures k in h {
      assert k in owned ==> k in owned + multiset(added);
    }
    hide HeldAlive, Exact;
  }

  lemma MoveKeepsHeld(h: Store, n: Node, held: seq<Node>)
    requires HeldAlive(h) && n in h && h[n].count != Shared && forall k :: k in held ==> k in h
    ensures HeldAlive(h[n := h[n].(held := held)])
  {
  }

  lemma MoveExact(h: Store, n: Node, held: seq<Node>, added: seq<Node>, dropped: seq<Node>, owned: multiset<Node>)
    requires Exact(h, owned + multiset(added)) && n in h
    requires multiset(held) + multiset(dropped) == multiset(h[n].held) + multiset(added)
    ensures Exact(h[n := h[n].(held := held)], owned + multiset(dropped))
  {
    var r := h[n := h[n].(held := held)];
    var total := multiset(held) + multiset(dropped);
    SlotsUpdate(h, n, h[n].(held := held));
    forall k | k in r && r[k].count.Counted? ensures ExactAt(r[k].count.n, owned + multiset(dropped), Slots(r), k) {
      assert ExactAt(h[k].count.n, owned + multiset(added), Slots(h), k);
      assert total[k] == multiset(held)[k] + multiset(dropped)[k] == multiset(h[n].held)[k] + multiset(added)[k];
      assert (Slots(r) + multiset(h[n].held))[k] == (Slots(h) + multiset(held))[k];
    }
  }

  lemma MovedAreAlive(h: Store, n: Node, held: seq<Node>, added: seq<Node>, dropped: seq<Node>, owned: multiset<Node>)
    requires Inv(h, owned + multiset(added)) && n in h
    requires multiset(held) + multiset(dropped) == multiset(h[n].held) + multiset(added)
    ensures forall k :: k in held || k in dropped ==> k in h
  {
    forall k | k in held || k in dropped ensures k in h {
      assert (multiset(held) + multiset(dropped))[k] > 0;
      assert multiset(h[n].held)[k] > 0 || multiset(added)[k] > 0;
    }
  }

  // ----- releasing several references, one after the other -----

  lemma {:induction false} ReleaseShrinks(h: Store, todo: seq<Node>)
    ensures Release(h, todo).Keys <= h.Keys && |Release(h, todo)| <= |h|
    decreases |h|, |todo|
  {
    if todo != [] {
      var n, rest := todo[0], todo[1..];
      if n !in h || h[n].count == Shared {
        ReleaseShrinks(h, rest);
      } else if h[n].count.n > 1 {
        SameSize(h, n, CellWith(h[n], h[n].count.n - 1));
        ReleaseShrinks(h[n := CellWith(h[n], h[n].count.n - 1)], rest);
      } else {
        SmallerWithout(h, n);
        ReleaseShrinks(h - {n}, h[n].held + rest);
      }
    }
  }

  lemma {:induction false} ReleaseAppend(h: Store, a: seq<Node>, b: seq<Node>)
    ensures Release(h, a + b) == Release(Release(h, a), b)
    decreases |h|, |a|
  {
    if a == [] {
      assert a + b == b;
    } else {
      var n, rest := a[0], a[1..];
      assert (a + b)[1..] == rest + b;
      if n !in h || h[n].count == Shared {
        ReleaseAppend(h, rest, b);
      } else if h[n].count.n > 1 {
        SameSize(h, n, CellWith(h[n], h[n].count.n - 1));
        ReleaseAppend(h[n := CellWith(h[n], h[n].count.n - 1)], rest, b);
      } else {
        SmallerWithout(h, n);
        assert h[n].held + rest + b == h[n].held + (rest + b);
        ReleaseAppend(h - {n}, h[n].held + rest, b);
      }
    }
  }

  lemma ReleaseOne(h: Store, n: Node)
    requires n in h
    ensures Release(h, [n]) ==
      if h[n].count == Shared then h
      else if h[n].count.n > 1 then h[n := CellWith(h[n], h[n].count.n - 1)]
      else Release(h - {n}, h[n].held)
  {
    assert [n][1..] == [];
    assert h[n].held + [] == h[n].held;
  }

  // ----- what a release cannot reach -----

  /** Each node of the chain is held by the one before it. */
  ghost predicate IsChain(older p: seq<Node>, h: Store) {
    && p != [] && (forall i :: 0 <= i < |p| ==> p[i] in h)
    && forall i :: 0 <= i < |p| - 1 ==> p[i + 1] in h[p[i]].held
  }

  /** Following slots from a reference that is owned leads to n. */
  ghost predicate Reached(n: Node, h: Store, owned: multiset<Node>) {
    exists p: seq<Node> :: IsChain(p, h) && p[0] in owned && p[|p| - 1] == n
  }

  lemma OwnedIsReached(n: Node, h: Store, owned: multiset<Node>)
    requires n in owned && n in h
    ensures Reached(n, h, owned)
  {
    assert IsChain([n], h);
  }

  /** Nodes that are owned, or held by one another. */
  ghost predicate Supported(s: set<Node>, h: Store, owned: multiset<Node>) {
    forall n :: n in s ==> n in h && (n in owned || exists m :: m in s && m in h && n in h[m].held)
  }

  /** Releasing other references leaves such nodes alive, even those that only hold each other in a circle. */
  lemma {:induction false} ReleaseKeepsSupported(h: Store, todo: seq<Node>, owned: multiset<Node>, s: set<Node>)
    requires Inv(h, owned + multiset(todo)) && Supported(s, h, owned)
    ensures s <= Release(h, todo).Keys
    decreases |h|, |todo|
  {
    hide Inv;
    if todo != [] {
      var n, rest := todo[0], todo[1..];
      assert todo == [n] + rest;
      assert owned + multiset(todo) == owned + multiset(rest) + multiset{n};
      OwnedIsAlive(h, owned + multiset(todo), n);
      if h[n].count == Shared {
        ForgetShared(h, n, owned + multiset(rest));
        ReleaseKeepsSupported(h, rest, owned, s);
      } else if h[n].count.n > 1 {
        DropConserves(h, n, owned + multiset(rest));
        SameSize(h, n, CellWith(h[n], h[n].count.n - 1));
        ReleaseKeepsSupported(h[n := CellWith(h[n], h[n].count.n - 1)], rest, owned, s);
      } else {
        FreeConserves(h, n, owned + multiset(rest));
        FreedIsUnsupported(h, n, owned + multiset(rest));
        SmallerWithout(h, n);
        assert owned + multiset(rest) + multiset(h[n].held) == owned + multiset(h[n].held + rest);
        ReleaseKeepsSupported(h - {n}, h[n].held + rest, owned, s);
      }
    }
  }

  lemma FreedIsUnsupported(h: Store, n: Node, owned: multiset<Node>)
    requires Inv(h, owned + multiset{n}) && n in h && h[n].count == Counted(1)
    ensures n !in owned && forall m :: m in h ==> n !in h[m].held
  {
    assert ExactAt(1, owned + multiset{n}, Slots(h), n);
    FreedIsHeldByNone(h, n);
  }

  /** A container that can be reached stays alive while its slots change, whatever they release. */
  lemma ReachedSurvives(
    json: Node, h: Store, held: seq<Node>, added: seq<Node>, dropped: seq<Node>, owned: multiset<Node>)
    requires json in h && Reached(json, h, owned + multiset(added)) && forall n :: n in added ==> n in held
    requires Inv(h[json := h[json].(held := held)], owned + multiset(dropped))
    ensures json in Setter(h, json, held, dropped)
  {
    hide Inv;
    var p: seq<Node> :| IsChain(p, h) && p[0] in owned + multiset(added) && p[|p| - 1] == json;
    var k := FirstAt(p, json);
    var r := h[json := h[json].(held := held)];
    var s := SetOf(p[..k + 1]);
    assert p[..k + 1][k] == json;
    forall n | n in s ensures n in r && (n in owned || exists m :: m in s && m in r && n in r[m].held) {
      var i :| 0 <= i < k + 1 && p[..k + 1][i] == n;
      assert p[i] == n && n in h;
      if i > 0 {
        var m := p[i - 1];
        assert p[..k + 1][i - 1] == m && m != json && p[i - 1 + 1] in h[m].held;
        assert m in s && m in r && n in r[m].held;
      } else if n !in owned {
        assert n in owned + multiset(added);
        assert n in added;
        assert json in s && json in r && n in r[json].held;
      }
    }
    ReleaseKeepsSupported(r, dropped, owned, s);
  }

  lemma FirstAt(p: seq<Node>, n: Node) returns (k: nat)
    requires n in p
    ensures k < |p| && p[k] == n && forall i :: 0 <= i < k ==> p[i] != n
  {
    k := 0;
    while p[k] != n
      invariant k < |p| && forall i :: 0 <= i < k ==> p[i] != n
      decreases |p| - k
    {
      k := k + 1;
    }
  }

  /** A new node, whose only reference the caller owns. */
  lemma NewConserves(h: Store, n: Node, owned: multiset<Node>)
    requires Inv(h, owned) && n !in h
    ensures Inv(h[n := Cell(Counted(1), [])], owned + multiset{n})
  {
    NewExact(h, n, owned);
    hide Exact;
  }

  lemma NewExact(h: Store, n: Node, owned: multiset<Node>)
    requires Inv(h, owned) && n !in h
    ensures Exact(h[n := Cell(Counted(1), [])], owned + multiset{n})
  {
    var r := h[n := Cell(Counted(1), [])];
    SlotsAdd(h, n, Cell(Counted(1), []));
    if Slots(h)[n] > 0 {
      var m := HolderOf(h, n);
    }
    forall k | k in r && r[k].count.Counted? ensures ExactAt(r[k].count.n, owned + multiset{n}, Slots(r), k) {
      assert k in h ==> ExactAt(h[k].count.n, owned, Slots(h), k);
    }
  }

  // ----- no garbage -----

  /** No node holds itself, directly or through others: each one lies deeper than those that hold it. */
  ghost predicate Layered(h: Store, depth: map<Node, nat>) {
    && h.Keys <= depth.Keys
    && forall n, m :: n in h && m in h[n].held && m in depth ==> depth[n] < depth[m]
  }

  /** Acyclic garbage is fully freed: what is alive can be reached from a reference some caller owns. */
  lemma {:induction false} NoGarbage(h: Store, owned: multiset<Node>, depth: map<Node, nat>, n: Node)
    returns (p: seq<Node>)
    requires Inv(h, owned) && Layered(h, depth) && n in h && h[n].count.Counted?
    ensures IsChain(p, h) && p[0] in owned && p[|p| - 1] == n
    decreases depth[n]
  {
    assert ExactAt(h[n].count.n, owned, Slots(h), n);
    if n in owned {
      p := [n];
    } else {
      var m := HolderOf(h, n);
      var q := NoGarbage(h, owned, depth, m);
      p := q + [n];
      assert forall i :: 0 <= i < |q| ==> p[i] == q[i];
    }
  }

  /** When the callers own nothing any more, nothing but the singletons is alive. */
  lemma {:induction false} AllFreed(h: Store, depth: map<Node, nat>)
    requires Inv(h, multiset{}) && Layered(h, depth)
    ensures forall n :: n in h ==> h[n].count == Shared
  {
    forall n | n in h ensures h[n].count == Shared {
      if h[n].count.Counted? {
        var p := NoGarbage(h, multiset{}, depth, n);
      }
    }
  }
}
