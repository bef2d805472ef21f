/** json_copy and json_deep_copy on the nodes themselves (jansson/value.c), reference counts included. */
module CopyCode {
  import opened Basics
  import opened JsonHeap
  import opened RefCount
  import opened RefCountCode
  import opened TableMap
  import A = Accepts
  import C = CopySpec
  import G = Grammar
  import J = Json
  import R = Reload
  import T = Table

  /** true, false and null, of which there is one node each. */
  predicate IsSingleton(c: Content) { c.Leaf? && (c.j.Null? || c.j.True? || c.j.False?) }

  ghost predicate SingletonsAreShared(heap: Memory, h: Store) {
    forall n :: n in heap && IsSingleton(heap[n]) ==> n in h && h[n].count == Shared
  }

  /** Nothing that was alive is freed, and no count of it has changed. */
  ghost predicate Extends(h: Store, r: Store) {
    h.Keys <= r.Keys && forall n :: n in h ==> r[n] == h[n]
  }

  /** m shares nothing with the nodes that were alive, but for singletons. */
  ghost predicate Apart(m: Memory, heap: Memory, h: Store) {
    forall n :: n in m ==> n !in h || (n in heap && IsSingleton(heap[n]))
  }

  /** n stands for the given tree, in a memory that holds all it refers to. */
  ghost predicate StandsFor(n: Node, m: Memory, tree: J.Json) {
    Closed(m) && n in m && Unfold(n, {}, m) == Some(tree)
  }

  /** What json_deep_copy is called on; without cycles, for on a cycle it would not return. */
  ghost predicate Source(node: Node, open: set<Node>, heap: Memory, h: Store) {
    Acyclic(node, open, heap) && heap.Keys <= h.Keys && SingletonsAreShared(heap, h)
  }

  // ----- unfolding inside a larger memory -----

  ghost predicate Within(a: Memory, oa: set<Node>, b: Memory, ob: set<Node>) {
    && a.Keys <= b.Keys
    && forall n :: n in a ==> b[n] == a[n] && (n in oa <==> n in ob)
  }

  lemma {:induction false} UnfoldWithin(n: Node, a: Memory, oa: set<Node>, b: Memory, ob: set<Node>)
    requires Closed(a) && Closed(b) && Within(a, oa, b, ob) && n in a
    ensures Unfold(n, oa, a) == Unfold(n, ob, b)
    decreases |a.Keys - oa|, 0
  {
    if !a[n].Leaf? && n !in oa {
      assert a.Keys - (oa + {n}) < a.Keys - oa by { assert n in a.Keys - oa; }
      Smaller(a.Keys - (oa + {n}), a.Keys - oa);
      UnfoldAllWithin(Held(a[n]), a, oa + {n}, b, ob + {n});
    }
  }

  lemma {:induction false} UnfoldAllWithin(ns: seq<Node>, a: Memory, oa: set<Node>, b: Memory, ob: set<Node>)
    requires Closed(a) && Closed(b) && Within(a, oa, b, ob) && forall n :: n in ns ==> n in a
    ensures UnfoldAll(ns, oa, a) == UnfoldAll(ns, ob, b)
    decreases |a.Keys - oa|, |ns| + 1
  {
    if ns != [] {
      UnfoldWithin(ns[0], a, oa, b, ob);
      UnfoldAllWithin(ns[1..], a, oa, b, ob);
    }
  }

  // ----- leaves -----

  method CopyLeaf(node: Node, ghost heap: Memory, ghost h: Store, ghost owned: multiset<Node>)
    returns (copy: Node, ghost m: Memory, ghost r: Store)
    requires Source(node, {}, heap, h) && Stored(heap) && heap[node].Leaf? && Kept(h) && Inv(h, owned)
    ensures StandsFor(copy, m, heap[node].j) && Stored(m) && Apart(m, heap, h)
    ensures Extends(h, r) && fresh(r.Keys - h.Keys) && r.Keys == h.Keys + m.Keys
    ensures Kept(r) && Inv(r, owned + multiset{copy})
  {
    hide Inv;
    var content := node.content;
    m := map[];
    if content.j.Null? || content.j.True? || content.j.False? {
      copy := node;
      r := h;
      IncrefConserves(h, node, owned);
    } else {
      copy := new Node(content);
      NewConserves(h, copy, owned);
      r := h[copy := Cell(Counted(1), [])];
    }
    m := m[copy := content];
  }

  // ----- containers -----

  /** What has been copied so far: one node for each tree, in a memory of its own. */
  ghost predicate AllStandFor(nodes: seq<Node>, m: Memory, trees: seq<J.Json>) {
    && Closed(m) && |nodes| == |trees|
    && forall k :: 0 <= k < |nodes| ==> nodes[k] in m && Unfold(nodes[k], {}, m) == Some(trees[k])
  }

  lemma NoneYet(nodes: seq<Node>, trees: seq<J.Json>)
    requires nodes == [] && trees == []
    ensures AllStandFor(nodes, map[], trees) && Stored(map[])
  {
  }

  ghost predicate Agree(a: Memory, b: Memory) { forall n :: n in a && n in b ==> a[n] == b[n] }

  lemma UnionIsClosed(a: Memory, b: Memory)
    requires Closed(a) && Closed(b) && Agree(a, b)
    ensures Closed(a + b) && Within(a, {}, a + b, {}) && Within(b, {}, a + b, {})
  {
    var u := a + b;
    forall n | n in u ensures WfContent(u[n]) && forall c :: c in Held(u[n]) ==> c in u {
      if n in b { assert u[n] == b[n]; } else { assert u[n] == a[n]; }
    }
  }

  lemma OneMore(nodes: seq<Node>, a: Memory, trees: seq<J.Json>, n: Node, b: Memory, tree: J.Json)
    requires AllStandFor(nodes, a, trees) && StandsFor(n, b, tree) && Agree(a, b)
    ensures AllStandFor(nodes + [n], a + b, trees + [tree]) && n in a + b
  {
    hide Closed, Unfold, Agree;
    UnionIsClosed(a, b);
    forall k | 0 <= k < |nodes| ensures Unfold(nodes[k], {}, a + b) == Some(trees[k]) {
      UnfoldWithin(nodes[k], a, {}, a + b, {});
    }
    UnfoldWithin(n, b, {}, a + b, {});
  }

  /** A new container around nodes that stand for trees. */
  lemma Enclosed(nodes: seq<Node>, m: Memory, trees: seq<J.Json>, result: Node, content: Content)
    requires AllStandFor(nodes, m, trees) && result !in m && WfContent(content) && !content.Leaf?
      && Held(content) == nodes
    ensures StandsFor(result, m[result := content], Rebuild(content, trees))
  {
    hide Unfold, WfContent, Held;
    var all := m[result := content];
    AddingIsClosed(m, result, content);
    forall k | 0 <= k < |nodes| ensures Unfold(nodes[k], {result}, all) == Some(trees[k]) {
      UnfoldWithin(nodes[k], m, {}, all, {result});
    }
    UnfoldEach(nodes, {result}, all);
    assert UnfoldAll(nodes, {result}, all).value == trees;
    assert {} + {result} == {result};
    UnfoldContainer(result, {}, all);
  }

  lemma AddingIsClosed(m: Memory, result: Node, content: Content)
    requires Closed(m) && WfContent(content) && result !in m && forall c :: c in Held(content) ==> c in m
    ensures Closed(m[result := content]) && Within(m, {}, m[result := content], {result})
  {
  }

  lemma UnfoldContainer(n: Node, open: set<Node>, heap: Memory)
    requires Closed(heap) && n in heap && !heap[n].Leaf? && n !in open
    ensures forall c :: c in Held(heap[n]) ==> c in heap
    ensures Unfold(n, open, heap) ==
      match UnfoldAll(Held(heap[n]), open + {n}, heap)
      case None => None
      case Some(values) => Some(Rebuild(heap[n], values))
  {
  }

  /** What each held node of a source stands for. */
  lemma Parts(node: Node, open: set<Node>, heap: Memory, h: Store) returns (values: seq<J.Json>)
    requires Source(node, open, heap, h) && !heap[node].Leaf?
    ensures |values| == |Held(heap[node])| && Unfold(node, open, heap).value == Rebuild(heap[node], values)
    ensures forall k :: 0 <= k < |values| ==>
      Source(Held(heap[node])[k], open + {node}, heap, h)
        && Unfold(Held(heap[node])[k], open + {node}, heap).value == values[k]
    ensures |heap.Keys - (open + {node})| < |heap.Keys - open|
  {
    values := Children(node, open, heap);
  }

  lemma StoredUnion(a: Memory, b: Memory)
    requires Stored(a) && Stored(b)
    ensures Stored(a + b) && Agree(a, b)
  {
  }

  lemma SetterExtends(h: Store, q: Store, result: Node, held: seq<Node>)
    requires Extends(h, q) && result in q && result !in h
    ensures var r := Setter(q, result, held, []);
      Extends(h, r) && r.Keys == q.Keys && r[result].count == q[result].count
  {
    NothingToRelease(q[result := q[result].(held := held)], []);
  }

  /** While a container is being copied: the copy is alive, its one reference is in the copier's hands. */
  ghost predicate Making(result: Node, m: Memory, heap: Memory, h: Store, r: Store) {
    && Apart(m, heap, h) && Extends(h, r) && r.Keys == h.Keys + m.Keys + {result} && heap.Keys <= h.Keys
    && result in r && result !in h && result !in m && r[result].count == Counted(1)
  }

  lemma StillMaking(
    result: Node, m: Memory, n: Memory, heap: Memory, h: Store, r: Store, q: Store, held: seq<Node>)
    requires Making(result, m, heap, h, r) && Apart(n, heap, r) && Extends(r, q) && q.Keys == r.Keys + n.Keys
    ensures result in q && result !in m + n && q[result].count == Counted(1)
    ensures Making(result, m + n, heap, h, Setter(q, result, held, [])) && Setter(q, result, held, []).Keys == q.Keys
  {
    SetterExtends(h, q, result, held);
  }

  lemma PartStill(
    part: Node, inside: set<Node>, result: Node, m: Memory, heap: Memory, h: Store, r: Store)
    requires Source(part, inside, heap, h) && Making(result, m, heap, h, r)
    ensures Source(part, inside, heap, r)
  {
  }

  lemma Made(result: Node, m: Memory, heap: Memory, h: Store, r: Store)
    requires Making(result, m, heap, h, r) && Stored(m)
    ensures Stored(m[result := result.content]) && Apart(m[result := result.content], heap, h)
    ensures Extends(h, r) && r.Keys == h.Keys + m[result := result.content].Keys && result !in m
  {
  }

  /** json_array or json_object: an empty container. */
  method NewContainer(content: Content, ghost heap: Memory, ghost h: Store, ghost owned: multiset<Node>)
    returns (result: Node, ghost r: Store)
    requires !content.Leaf? && Held(content) == [] && Kept(h) && Inv(h, owned) && heap.Keys <= h.Keys
    ensures fresh(result) && result.content == content && r.Keys == h.Keys + {result}
    ensures Making(result, map[], heap, h, r) && Kept(r) && Inv(r, owned + multiset{result})
    ensures Sound(h) && WfContent(content) ==> Sound(r)
  {
    hide Inv, WfContent;
    result := new Node(content);
    NewConserves(h, result, owned);
    r := h[result := Cell(Counted(1), [])];
  }

  // ----- objects -----

  /** What each node of m stands for. */
  ghost function TreeIn(m: Memory): Node -> J.Json {
    (n: Node) => if Closed(m) && n in m && Unfold(n, {}, m).Some? then Unfold(n, {}, m).value else J.Null
  }

  /** The copied object after the bindings bs: its nodes stand for the object that setting bs builds. */
  ghost predicate ObjectSoFar(t: T.Table<Node>, m: Memory, bs: G.Bindings) {
    && T.Valid(t) && Closed(m)
    && (forall k :: 0 <= k < |t.pairs| ==> t.pairs[k].value in m && Unfold(t.pairs[k].value, {}, m).Some?)
    && J.Obj(MapTable(t, TreeIn(m)), |bs|) == R.Build(bs)
  }

  lemma NothingSet(bs: G.Bindings)
    requires bs == []
    ensures ObjectSoFar(T.New(), map[], bs) && Stored(map[])
  {
  }

  lemma SetMembers(t: T.Table<Node>, key: bytes, serial: nat, value: Node, k: nat)
    requires T.Valid(t) && k < |T.Set(t, key, serial, value).pairs|
    ensures var n := T.Set(t, key, serial, value).pairs[k].value; n == value || n in Values(t.pairs)
  {
    hide T.Set, T.Valid;
    SetMoves(t, key, serial, value);
    var s := T.Set(t, key, serial, value);
    assert Values(s.pairs)[k] == s.pairs[k].value;
    assert s.pairs[k].value in multiset(Values(s.pairs)) + multiset(Displaced(t, key));
    assert s.pairs[k].value in multiset(Values(t.pairs)) + multiset([value]);
  }

  /** Adding memory does not change what nodes stand for. */
  lemma TreeStays(x: Node, a: Memory, b: Memory)
    requires Closed(a) && Closed(b) && Within(a, {}, b, {}) && x in a && Unfold(x, {}, a).Some?
    ensures x in b && Unfold(x, {}, b).Some? && TreeIn(b)(x) == TreeIn(a)(x)
  {
    UnfoldWithin(x, a, {}, b, {});
  }

  lemma OneMoreSet(t: T.Table<Node>, m: Memory, bs: G.Bindings, i: nat, c: Node, n: Memory)
    requires i < |bs| && R.DistinctKeys(bs) && ObjectSoFar(t, m, bs[..i]) && StandsFor(c, n, bs[i].1) && Agree(m, n)
    ensures Displaced(t, bs[i].0) == []
    ensures T.Valid(t) && ObjectSoFar(T.Set(t, bs[i].0, i, c), m + n, bs[..i + 1]) && c in m + n
  {
    hide Closed, Unfold, Agree, T.Set, T.Valid, R.Build, MapTable, R.DistinctKeys, TreeIn;
    var all, s, key := m + n, T.Set(t, bs[i].0, i, c), bs[i].0;
    UnionIsClosed(m, n);
    TreeStays(c, n, all);
    TreeOf(c, n, bs[i].1);
    forall k | 0 <= k < |t.pairs| ensures t.pairs[k].value in all && Unfold(t.pairs[k].value, {}, all).Some?
      && TreeIn(all)(t.pairs[k].value) == TreeIn(m)(t.pairs[k].value)
    {
      TreeStays(t.pairs[k].value, m, all);
    }
    MapAgreesTable(t, TreeIn(all), TreeIn(m));
    MapSet(t, TreeIn(all), key, i, c);
    NextPrefix(bs, i);
    BuildOneMore(bs, i);
    NotSetYet(t, m, bs, i);
    T.SetIsMapUpdate(t, key, i, c);
    forall k | 0 <= k < |s.pairs| ensures s.pairs[k].value in all && Unfold(s.pairs[k].value, {}, all).Some? {
      SetMembers(t, key, i, c, k);
    }
  }

  lemma TreeOf(c: Node, n: Memory, tree: J.Json)
    requires StandsFor(c, n, tree)
    ensures Closed(n) && c in n && Unfold(c, {}, n).Some? && TreeIn(n)(c) == tree
  {
  }

  lemma MapAgreesTable(t: T.Table<Node>, f: Node -> J.Json, g: Node -> J.Json)
    requires forall k :: 0 <= k < |t.pairs| ==> f(t.pairs[k].value) == g(t.pairs[k].value)
    ensures MapTable(t, f) == MapTable(t, g)
  {
    MapAgrees(t.pairs, f, g);
  }

  lemma BuildOneMore(bs: G.Bindings, i: nat)
    requires i < |bs|
    ensures R.Build(bs[..i]).Obj?
    ensures R.Build(bs[..i] + [bs[i]]) == J.ObjectSet(R.Build(bs[..i]), bs[i].0, bs[i].1)
  {
    A.BuildAppend(J.EMPTY_OBJECT, bs[..i], bs[i], false);
  }

  lemma NotSetYet(t: T.Table<Node>, m: Memory, bs: G.Bindings, i: nat)
    requires i < |bs| && R.DistinctKeys(bs) && ObjectSoFar(t, m, bs[..i])
    ensures Displaced(t, bs[i].0) == []
  {
    hide R.Build;
    R.BuildLists(bs[..i]);
    R.AbsentFromListing(R.Build(bs[..i]), bs[..i], bs[i].0);
    SameIndex(t.pairs, TreeIn(m), bs[i].0);
  }

  /** The bindings of a copied object are those its source is unfolded to. */
  lemma BindingsOf(node: Node, open: set<Node>, heap: Memory, h: Store, values: seq<J.Json>)
    requires Source(node, open, heap, h) && heap[node].Object? && |values| == |Held(heap[node])|
    requires Unfold(node, open, heap).value == Rebuild(heap[node], values)
    ensures var pairs := heap[node].table.pairs;
      var bs := R.Rebind(Zip(pairs, values), C.PLAIN);
      && |bs| == |pairs| && R.DistinctKeys(bs) && J.Wf(R.Build(bs))
      && C.Copied(Unfold(node, open, heap).value) == R.Build(bs)
      && forall k :: 0 <= k < |bs| ==> bs[k] == (pairs[k].key, C.Copied(values[k]))
  {
    var tree := Unfold(node, open, heap).value;
    UnfoldIsWf(node, open, heap);
    C.CopyIsWf(tree);
    var zipped := Zip(heap[node].table.pairs, values);
    C.WfPairs(tree.table, tree.serial);
    R.RebindKeepsDistinct(zipped, C.PLAIN);
    forall k | 0 <= k < |zipped|
      ensures R.Rebind(zipped, C.PLAIN)[k] == (heap[node].table.pairs[k].key, C.Copied(values[k]))
    {
      R.RebindAt(zipped, C.PLAIN, k);
    }
  }

  lemma WfFromTree(t: T.Table<Node>, f: Node -> J.Json, serial: nat)
    requires J.Wf(J.Obj(MapTable(t, f), serial))
    ensures WfContent(Object(t, serial))
  {
    MapKeepsValid(t, f);
    var r := MapTable(t, f).pairs;
    forall i | 0 <= i < |t.pairs| ensures J.ValidText(t.pairs[i].key) && t.pairs[i].serial < serial {
      assert r[i] in r && J.ValidText(r[i].key);
    }
    forall i, j | 0 <= i < j < |t.pairs| ensures t.pairs[i].serial != t.pairs[j].serial {
      assert r[i] in r && r[j] in r;
    }
  }

  lemma ObjectMade(t: T.Table<Node>, m: Memory, bs: G.Bindings, result: Node)
    requires ObjectSoFar(t, m, bs) && result !in m && J.Wf(R.Build(bs))
    ensures StandsFor(result, m[result := Object(t, |bs|)], R.Build(bs))
  {
    hide J.Wf, R.Build, T.Valid, Closed, Unfold, StandsFor;
    var content := Object(t, |bs|);
    WfFromTree(t, TreeIn(m), |bs|);
    var nodes := Held(content);
    var trees := seq(|nodes|, k requires 0 <= k < |nodes| => TreeIn(m)(nodes[k]));
    forall k | 0 <= k < |nodes| ensures nodes[k] in m && Unfold(nodes[k], {}, m) == Some(trees[k]) {
      assert nodes[k] == t.pairs[k].value;
    }
    Enclosed(nodes, m, trees, result, content);
    assert Zip(t.pairs, trees) == MapPairs(t.pairs, TreeIn(m));
  }

  lemma NextPrefix<X>(s: seq<X>, i: nat)
    requires i < |s|
    ensures s[..i + 1] == s[..i] + [s[i]]
  {
  }

  lemma WholePrefix<X>(s: seq<X>, i: nat)
    requires i == |s|
    ensures s[..i] == s
  {
  }

  lemma CopiedAt(values: seq<J.Json>, i: nat)
    requires i < |values|
    ensures var trees := R.ReloadAll(values, C.PLAIN);
      trees[..i + 1] == trees[..i] + [C.Copied(values[i])]
  {
    hide R.ReloadAll, R.Reload;
    R.ReloadAt(values, C.PLAIN, i);
    NextPrefix(R.ReloadAll(values, C.PLAIN), i);
  }

  lemma CopiedArray(values: seq<J.Json>)
    ensures C.Copied(J.Arr(values)) == J.Arr(R.ReloadAll(values, C.PLAIN))
  {
  }

  lemma ArrayMade(nodes: seq<Node>, m: Memory, values: seq<J.Json>, result: Node)
    requires AllStandFor(nodes, m, R.ReloadAll(values, C.PLAIN)[..|values|]) && result !in m
    ensures StandsFor(result, m[result := Array(nodes)], C.Copied(J.Arr(values)))
  {
    hide AllStandFor, StandsFor, R.ReloadAll;
    WholePrefix(R.ReloadAll(values, C.PLAIN), |values|);
    CopiedArray(values);
    Enclosed(nodes, m, R.ReloadAll(values, C.PLAIN), result, Array(nodes));
  }

  lemma ContentOf(node: Node, heap: Memory)
    requires Stored(heap) && node in heap
    ensures node.content == heap[node]
  {
  }

  method CopyNode(node: Node, ghost open: set<Node>, ghost heap: Memory, ghost h: Store, ghost owned: multiset<Node>)
    returns (copy: Node, ghost m: Memory, ghost r: Store)
    requires Source(node, open, heap, h) && Stored(heap) && Kept(h) && Inv(h, owned)
    modifies h.Keys`refcount
    ensures StandsFor(copy, m, C.Copied(Unfold(node, open, heap).value)) && Stored(m) && Apart(m, heap, h)
    ensures Extends(h, r) && fresh(r.Keys - h.Keys) && r.Keys == h.Keys + m.Keys
    ensures Kept(r) && Inv(r, owned + multiset{copy})
    decreases |heap.Keys - open|, 2
  {
    hide Inv, Kept, StandsFor, Apart, Extends;
    assert node.content == heap[node];
    match node.content {
      case Leaf(_) => copy, m, r := CopyLeaf(node, heap, h, owned);
      case Array(_) => copy, m, r := CopyArray(node, open, heap, h, owned);
      case Object(_, _) => copy, m, r := CopyObject(node, open, heap, h, owned);
    }
  }

  /** One round of the loop of json_array_deep_copy. */
  method CopyElement(copy: Node, part: Node, ghost inside: set<Node>, ghost heap: Memory, ghost h: Store,
      ghost m: Memory, ghost r: Store, ghost trees: seq<J.Json>, ghost owned: multiset<Node>)
    returns (ghost all: Memory, ghost s: Store)
    requires Source(part, inside, heap, h) && Stored(heap)
    requires copy.content.Array? && AllStandFor(copy.content.elems, m, trees) && Stored(m)
    requires Making(copy, m, heap, h, r) && Kept(r) && Inv(r, owned) && copy in owned
    modifies copy`content, r.Keys`refcount
    ensures copy.content.Array? && Stored(all)
    ensures AllStandFor(copy.content.elems, all, trees + [C.Copied(Unfold(part, inside, heap).value)])
    ensures Making(copy, all, heap, h, s) && Kept(s) && Inv(s, owned)
    ensures forall n :: n in s && n !in r ==> fresh(n)
    decreases |heap.Keys - inside|, 3
  {
    hide Inv, StandsFor, AllStandFor, C.Copied, Making, Extends, Kept, Setter, Stored;
    PartStill(part, inside, copy, m, heap, h, r);
    var c;
    ghost var n, q;
    c, n, q := CopyNode(part, inside, heap, r, owned);
    StoredUnion(m, n);
    StillMaking(copy, m, n, heap, h, r, q, copy.content.elems + [c]);
    OneMore(copy.content.elems, m, trees, c, n, C.Copied(Unfold(part, inside, heap).value));
    all := m + n;
    assert owned + multiset(Given(c)) == owned + multiset{c};
    OwnedIsReached(copy, q, owned + multiset(Given(c)));
    var _, after := ArrayAppendNew(copy, c, q, owned);
    s := after;
  }

  method CopyArray(node: Node, ghost open: set<Node>, ghost heap: Memory, ghost h: Store, ghost owned: multiset<Node>)
    returns (copy: Node, ghost m: Memory, ghost r: Store)
    requires Source(node, open, heap, h) && Stored(heap) && heap[node].Array? && Kept(h) && Inv(h, owned)
    modifies h.Keys`refcount
    ensures StandsFor(copy, m, C.Copied(Unfold(node, open, heap).value)) && Stored(m) && Apart(m, heap, h)
    ensures Extends(h, r) && fresh(r.Keys - h.Keys) && r.Keys == h.Keys + m.Keys
    ensures Kept(r) && Inv(r, owned + multiset{copy})
    decreases |heap.Keys - open|, 1
  {
    hide Inv, R.ReloadAll, StandsFor, AllStandFor, C.Copied, Making, Extends, Kept, Apart, Unfold, WfContent;
    hide Stored, Closed, SingletonsAreShared;
    ContentOf(node, heap);
    var elems := node.content.elems;
    ghost var values := Parts(node, open, heap, h);
    ghost var trees := R.ReloadAll(values, C.PLAIN);
    copy, r := NewContainer(Array([]), heap, h, owned);
    m := map[];
    NoneYet(copy.content.elems, trees[..0]);
    ghost var mine := owned + multiset{copy};
    for i := 0 to |elems|
      invariant copy.content.Array? && AllStandFor(copy.content.elems, m, trees[..i]) && Stored(m)
      invariant Making(copy, m, heap, h, r) && Kept(r) && Inv(r, mine)
      invariant forall n :: n in r && n !in h ==> fresh(n)
    {
      m, r := CopyElement(copy, elems[i], open + {node}, heap, h, m, r, trees[..i], mine);
      CopiedAt(values, i);
    }
    Made(copy, m, heap, h, r);
    ArrayMade(copy.content.elems, m, values, copy);
    m := m[copy := copy.content];
  }

  /** One round of the loop of json_object_deep_copy. */
  method CopyMember(copy: Node, key: bytes, part: Node, ghost inside: set<Node>, ghost heap: Memory, ghost h: Store,
      ghost m: Memory, ghost r: Store, ghost bs: G.Bindings, i: nat, ghost owned: multiset<Node>)
    returns (ghost all: Memory, ghost s: Store)
    requires Source(part, inside, heap, h) && Stored(heap)
    requires i < |bs| && R.DistinctKeys(bs) && bs[i] == (key, C.Copied(Unfold(part, inside, heap).value))
    requires copy.content.Object? && copy.content.serial == i && ObjectSoFar(copy.content.table, m, bs[..i])
      && Stored(m)
    requires Making(copy, m, heap, h, r) && Kept(r) && Inv(r, owned) && copy in owned
    modifies copy`content, r.Keys`refcount
    ensures copy.content.Object? && copy.content.serial == i + 1 && Stored(all)
    ensures ObjectSoFar(copy.content.table, all, bs[..i + 1])
    ensures Making(copy, all, heap, h, s) && Kept(s) && Inv(s, owned)
    ensures forall n :: n in s && n !in r ==> fresh(n)
    decreases |heap.Keys - inside|, 3
  {
    hide Inv, Source, StandsFor, ObjectSoFar, C.Copied, Making, Extends, Kept, Setter, Stored, R.DistinctKeys, T.Set,
      T.Valid;
    PartStill(part, inside, copy, m, heap, h, r);
    var c;
    ghost var n, q;
    c, n, q := CopyNode(part, inside, heap, r, owned);
    StoredUnion(m, n);
    var table := copy.content.table;
    OneMoreSet(table, m, bs, i, c, n);
    StillMaking(copy, m, n, heap, h, r, q, Held(Object(T.Set(table, key, i, c), i + 1)));
    all := m + n;
    assert owned + multiset(Given(c)) == owned + multiset{c};
    OwnedIsReached(copy, q, owned + multiset(Given(c)));
    var _, after := ObjectSetNewNocheck(copy, Some(key), c, q, owned);
    s := after;
  }

  method CopyObject(node: Node, ghost open: set<Node>, ghost heap: Memory, ghost h: Store, ghost owned: multiset<Node>)
    returns (copy: Node, ghost m: Memory, ghost r: Store)
    requires Source(node, open, heap, h) && Stored(heap) && heap[node].Object? && Kept(h) && Inv(h, owned)
    modifies h.Keys`refcount
    ensures StandsFor(copy, m, C.Copied(Unfold(node, open, heap).value)) && Stored(m) && Apart(m, heap, h)
    ensures Extends(h, r) && fresh(r.Keys - h.Keys) && r.Keys == h.Keys + m.Keys
    ensures Kept(r) && Inv(r, owned + multiset{copy})
    decreases |heap.Keys - open|, 1
  {
    hide Inv, StandsFor, ObjectSoFar, C.Copied, Making, Extends, Kept, R.Rebind, R.DistinctKeys, R.Build, J.Wf, Zip,
      Unfold, Apart;
    hide Stored, Closed, SingletonsAreShared;
    ContentOf(node, heap);
    var pairs := node.content.table.pairs;
    ghost var values := Parts(node, open, heap, h);
    ghost var bs := R.Rebind(Zip(pairs, values), C.PLAIN);
    BindingsOf(node, open, heap, h, values);
    copy, r := NewContainer(Object(T.New(), 0), heap, h, owned);
    m := map[];
    NothingSet(bs[..0]);
    ghost var mine := owned + multiset{copy};
    for i := 0 to |pairs|
      invariant copy.content.Object? && copy.content.serial == i && ObjectSoFar(copy.content.table, m, bs[..i])
        && Stored(m)
      invariant Making(copy, m, heap, h, r) && Kept(r) && Inv(r, mine)
      invariant forall n :: n in r && n !in h ==> fresh(n)
    {
      m, r := CopyMember(copy, pairs[i].key, pairs[i].value, open + {node}, heap, h, m, r, bs, i, mine);
    }
    WholePrefix(bs, |pairs|);
    Made(copy, m, heap, h, r);
    ObjectMade(copy.content.table, m, bs, copy);
    m := m[copy := copy.content];
  }

  /**
   * json_deep_copy of a value without cycles: the copy is json_equal to its source, shares no node with it
   * but the singletons, belongs to the caller, and leaves every count of the source as it was.
   */
  method JsonDeepCopy(json: Node?, ghost heap: Memory, ghost h: Store, ghost owned: multiset<Node>)
    returns (copy: Node?, ghost m: Memory, ghost r: Store)
    requires Closed(heap) && Stored(heap) && heap.Keys <= h.Keys && SingletonsAreShared(heap, h) && Kept(h)
      && Inv(h, owned)
    requires json != null ==> json in heap && !Cyclic(json, heap)
    modifies h.Keys`refcount
    ensures copy == null <==> json == null
    ensures json != null ==>
      && Closed(m) && Stored(m) && copy in m && Apart(m, heap, h)
      && Unfold(json, {}, heap).Some? && Unfold(copy, {}, m).Some?
      && J.Equal(Unfold(json, {}, heap).value, Unfold(copy, {}, m).value)
    ensures Extends(h, r) && Kept(r) && Inv(r, owned + multiset(Given(copy)))
    ensures old(Sound(h)) ==> Sound(r)
  {
    hide Closed, Stored, Inv, Kept, Apart, Extends, C.Copied, J.Equal, J.Wf, SingletonsAreShared, Cyclic, Unfold;
    m := map[];
    if json == null {
      assert owned + multiset(Given(null)) == owned;
      ExtendsItself(h);
      return null, m, h;
    }
    var node: Node := json;
    NoTreeIffCycle(node, heap);
    UnfoldIsWf(node, {}, heap);
    C.CopyIsEqual(Unfold(node, {}, heap).value);
    var c;
    c, m, r := CopyNode(node, {}, heap, h, owned);
    SoundTogether(h, m, r);
    assert owned + multiset(Given(c)) == owned + multiset{c};
    copy := c;
  }

  lemma SoundTogether(h: Store, m: Memory, r: Store)
    requires Closed(m) && Stored(m) && r.Keys == h.Keys + m.Keys
    ensures Sound(h) ==> Sound(r)
  {
  }

  lemma ExtendsItself(h: Store)
    ensures Extends(h, h)
  {
  }

  // ----- shallow copies -----

  /** The table that setting the pairs in order, in an empty object, builds. */
  function Refill<V>(pairs: seq<T.Pair<V>>): T.Table<V>
    decreases |pairs|
  {
    if pairs == [] then T.New()
    else
      var n := |pairs| - 1;
      T.Set(Refill(pairs[..n]), pairs[n].key, n, pairs[n].value)
  }

  /** It finds under each key what the source finds, and holds nothing else. */
  lemma {:induction false} RefillLooksUp<V>(t: T.Table<V>, key: bytes)
    requires T.Distinct(t.pairs)
    ensures T.Valid(Refill(t.pairs)) && |Refill(t.pairs).pairs| == |t.pairs|
    ensures T.Get(Refill(t.pairs), key) == T.Get(t, key)
    decreases |t.pairs|
  {
    if t.pairs != [] {
      var n := |t.pairs| - 1;
      var last := t.pairs[n];
      var init := t.(pairs := t.pairs[..n]);
      RefillLooksUp(init, key);
      RefillLooksUp(init, last.key);
      LookupInit(t, key);
      LookupInit(t, last.key);
      var s := Refill(init.pairs);
      hide T.Set, T.Get, T.Valid, T.Distinct, Refill;
      T.SetIsMapUpdate(s, last.key, n, last.value);
      T.GetIsLookup(s, last.key);
      T.GetIsLookup(s, key);
      T.GetIsLookup(T.Set(s, last.key, n, last.value), key);
      RefillStep(t);
    }
  }

  /** Its serials count the pairs in list order: that is the order a shallow copy remembers. */
  lemma {:induction false} RefillSerials<V>(pairs: seq<T.Pair<V>>, i: nat)
    requires T.Distinct(pairs) && i < |pairs|
    ensures T.Valid(Refill(pairs)) && pairs[i].key in T.Map(Refill(pairs).pairs)
    ensures T.Map(Refill(pairs).pairs)[pairs[i].key] == T.Pair(pairs[i].key, i, pairs[i].value)
    decreases |pairs|
  {
    hide T.Set, T.Valid, T.Get, T.Map, Refill;
    var n := |pairs| - 1;
    RefillLast(pairs);
    if i < n {
      RefillSerials(pairs[..n], i);
      LastIsApart(pairs, i);
    }
  }

  lemma LastIsApart<V>(pairs: seq<T.Pair<V>>, i: nat)
    requires T.Distinct(pairs) && i < |pairs| - 1
    ensures pairs[i].key != pairs[|pairs| - 1].key && pairs[..|pairs| - 1][i] == pairs[i]
  {
  }

  /** The last pair is the one set last, under a key that was not there. */
  lemma RefillLast<V>(pairs: seq<T.Pair<V>>)
    requires T.Distinct(pairs) && pairs != []
    ensures var n := |pairs| - 1; var last := pairs[n];
      && T.Distinct(pairs[..n]) && T.Valid(Refill(pairs))
      && T.Map(Refill(pairs).pairs) == T.Map(Refill(pairs[..n]).pairs)[last.key := T.Pair(last.key, n, last.value)]
  {
    var n := |pairs| - 1;
    var init, last := T.Table(0, 5, pairs[..n]), pairs[n];
    LookupInit(T.Table(0, 5, pairs), last.key);
    RefillLooksUp(init, last.key);
    RefillStep(T.Table(0, 5, pairs));
    hide T.Set, T.Valid, T.Map, Refill, T.Distinct, T.Get;
    T.SetIsMapUpdate(Refill(pairs[..n]), last.key, n, last.value);
    T.GetIsLookup(Refill(pairs[..n]), last.key);
  }

  lemma MapGet<V, W>(t: T.Table<V>, f: V -> W, key: bytes)
    ensures T.Get(MapTable(t, f), key) == match T.Get(t, key) case None => None case Some(v) => Some(f(v))
  {
    SameIndex(t.pairs, f, key);
  }

  /** Whatever trees the shared nodes stand for, a shallow copy of an object is json_equal to its source. */
  lemma ShallowIsEqual(table: T.Table<Node>, tree: Node -> J.Json, serial: nat)
    requires T.Distinct(table.pairs)
    requires forall i :: 0 <= i < |table.pairs| ==> J.Wf(tree(table.pairs[i].value))
    ensures J.Equal(J.Obj(MapTable(table, tree), serial), J.Obj(MapTable(Refill(table.pairs), tree), |table.pairs|))
  {
    hide Refill, J.Wf, T.Get;
    var source, copy := MapTable(table, tree), MapTable(Refill(table.pairs), tree);
    RefillLooksUp(table, []);
    forall i | 0 <= i < |source.pairs| ensures J.FindsEqual(source.pairs[i], copy) {
      var p := table.pairs[i];
      RefillLooksUp(table, p.key);
      GetAt(table, i);
      MapGet(Refill(table.pairs), tree, p.key);
      J.EqualIsEquivalence(tree(p.value), tree(p.value), tree(p.value));
    }
  }

  lemma GetAt<V>(t: T.Table<V>, i: nat)
    requires T.Distinct(t.pairs) && i < |t.pairs|
    ensures T.Get(t, t.pairs[i].key) == Some(t.pairs[i].value)
  {
    T.KeyOfIndex(t.pairs, i);
  }

  lemma RefillStep<V>(t: T.Table<V>)
    requires t.pairs != []
    ensures var n := |t.pairs| - 1;
      Refill(t.pairs) == T.Set(Refill(t.pairs[..n]), t.pairs[n].key, n, t.pairs[n].value)
  {
  }

  lemma LookupInit<V>(t: T.Table<V>, key: bytes)
    requires T.Distinct(t.pairs) && t.pairs != []
    ensures var n := |t.pairs| - 1;
      var init := t.(pairs := t.pairs[..n]);
      && T.Distinct(init.pairs)
      && T.Get(t, key) == (if key == t.pairs[n].key then Some(t.pairs[n].value) else T.Get(init, key))
      && T.Get(init, t.pairs[n].key) == None
  {
    var n := |t.pairs| - 1;
    var init := t.pairs[..n];
    assert forall i :: 0 <= i < n ==> init[i] == t.pairs[i];
    var a, b := T.IndexOf(t.pairs, key), T.IndexOf(init, key);
    assert b < n ==> t.pairs[b].key == key;
    assert T.IndexOf(init, t.pairs[n].key) == n;
  }

  /** What a shallow copy holds: the same nodes. */
  function Shallow(c: Content): Content {
    match c
    case Leaf(_) => c
    case Array(_) => c
    case Object(table, _) => Object(Refill(table.pairs), |table.pairs|)
  }

  /** The container being filled: alive, counted, and not one of the nodes that were there. */
  ghost predicate Filling(copy: Node, h: Store, r: Store) {
    h.Keys <= r.Keys && copy in r && copy !in h && r[copy].count != Shared
  }

  lemma StillFilling(copy: Node, h: Store, r: Store, part: Node, held: seq<Node>)
    requires Filling(copy, h, r) && part in h
    ensures part in r && part != copy && Incref(r, part).Keys == r.Keys && copy in Incref(r, part)
      && Incref(r, part)[copy].count != Shared
    ensures var s := Setter(Incref(r, part), copy, held, []);
      Filling(copy, h, s) && s.Keys == r.Keys
  {
    var q := Incref(r, part);
    NothingToRelease(q[copy := q[copy].(held := held)], []);
  }

  /** json_array_append of the next element. */
  method ShareElement(copy: Node, elems: seq<Node>, i: nat, ghost h: Store, ghost r: Store,
      ghost owned: multiset<Node>)
    returns (ghost s: Store)
    requires i < |elems| && elems[i] in h && copy.content == Array(elems[..i])
    requires Filling(copy, h, r) && Kept(r) && Inv(r, owned) && copy in owned
    modifies copy`content, r.Keys`refcount
    ensures copy.content == Array(elems[..i + 1])
    ensures Filling(copy, h, s) && Kept(s) && Inv(s, owned) && s.Keys == r.Keys
  {
    hide Inv, Kept, Sound, WfContent, Incref, Setter;
    NextPrefix(elems, i);
    var part := elems[i];
    StillFilling(copy, h, r, part, copy.content.elems + [part]);
    ghost var q := JsonIncref(part, r, owned);
    assert owned + multiset(Given(part)) == owned + multiset{part};
    OwnedIsReached(copy, q, owned + multiset(Given(part)));
    var _, after := ArrayAppendNew(copy, part, q, owned);
    s := after;
  }

  /** json_object_set_nocheck of the next pair of the table, whose key is not there yet. */
  method ShareMember(copy: Node, table: T.Table<Node>, i: nat, ghost h: Store, ghost r: Store,
      ghost owned: multiset<Node>)
    returns (ghost s: Store)
    requires T.Valid(table) && i < |table.pairs| && table.pairs[i].value in h
    requires copy.content == Object(Refill(table.pairs[..i]), i)
    requires Filling(copy, h, r) && Kept(r) && Inv(r, owned) && copy in owned
    modifies copy`content, r.Keys`refcount
    ensures copy.content == Object(Refill(table.pairs[..i + 1]), i + 1)
    ensures Filling(copy, h, s) && Kept(s) && Inv(s, owned) && s.Keys == r.Keys
  {
    hide Inv, Kept, Sound, WfContent, Incref, Setter, Refill, T.Set, T.Valid;
    RefillNext(table, i);
    var key, part := table.pairs[i].key, table.pairs[i].value;
    StillFilling(copy, h, r, part, Held(WithSet(copy.content, key, part)));
    ghost var q := JsonIncref(part, r, owned);
    assert owned + multiset(Given(part)) == owned + multiset{part};
    OwnedIsReached(copy, q, owned + multiset(Given(part)));
    var _, after := ObjectSetNewNocheck(copy, Some(key), part, q, owned);
    s := after;
  }

  /** json_copy: a new container holding the same nodes, each with one reference more. */
  method JsonCopy(json: Node?, ghost h: Store, ghost owned: multiset<Node>) returns (copy: Node?, ghost r: Store)
    requires Kept(h) && Inv(h, owned)
    requires json != null ==>
      json in h && WfContent(json.content) && (IsSingleton(json.content) ==> h[json].count == Shared)
    modifies h.Keys`refcount
    ensures copy == null <==> json == null
    ensures json != null ==> copy.content == Shallow(json.content)
    ensures json != null ==> if IsSingleton(json.content) then copy == json else fresh(copy)
    ensures h.Keys <= r.Keys && Kept(r) && Inv(r, owned + multiset(Given(copy)))
    ensures old(Sound(h)) ==> Sound(r)
  {
    hide Inv, Kept, Shallow, WfContent;
    if json == null {
      assert owned + multiset(Given(null)) == owned;
      return null, h;
    }
    var node: Node := json;
    ShallowIsWf(node.content);
    var c;
    if IsSingleton(node.content) {
      IncrefConserves(h, node, owned);
      c, r := node, h;
    } else {
      match node.content {
        case Leaf(_) => c, r := NewNode(node.content, h, owned);
        case Array(elems) => c, r := CopyElements(node, elems, h, owned);
        case Object(table, _) => c, r := CopyMembers(node, table, h, owned);
      }
    }
    assert owned + multiset(Given(c)) == owned + multiset{c};
    ShallowOf(node.content);
    copy := c;
  }

  lemma {:induction false} RefillIsWf(pairs: seq<T.Pair<Node>>)
    requires forall i :: 0 <= i < |pairs| ==> J.ValidText(pairs[i].key)
    ensures WfContent(Object(Refill(pairs), |pairs|))
    decreases |pairs|
  {
    hide T.Set, J.ValidText;
    if pairs != [] {
      var n := |pairs| - 1;
      RefillIsWf(pairs[..n]);
      SetKeepsWf(Object(Refill(pairs[..n]), n), pairs[n].key, pairs[n].value);
    }
  }

  lemma ShallowIsWf(c: Content)
    requires WfContent(c)
    ensures WfContent(Shallow(c)) && (c.Object? ==> T.Valid(c.table))
  {
    hide Refill, J.ValidText;
    if c.Object? {
      RefillIsWf(c.table.pairs);
    }
  }

  lemma ShallowOf(c: Content)
    ensures !c.Object? ==> Shallow(c) == c
    ensures c.Object? ==> Shallow(c) == Object(Refill(c.table.pairs), |c.table.pairs|)
  {
  }

  method NewNode(content: Content, ghost h: Store, ghost owned: multiset<Node>) returns (node: Node, ghost r: Store)
    requires Held(content) == [] && Kept(h) && Inv(h, owned)
    ensures fresh(node) && node.content == content && Filling(node, h, r) && r.Keys == h.Keys + {node}
    ensures Kept(r) && Inv(r, owned + multiset{node}) && (Sound(h) && WfContent(content) ==> Sound(r))
  {
    hide Inv, WfContent;
    node := new Node(content);
    NewConserves(h, node, owned);
    r := h[node := Cell(Counted(1), [])];
  }

  /** The loop of json_array_copy. */
  method CopyElements(node: Node, elems: seq<Node>, ghost h: Store, ghost owned: multiset<Node>)
    returns (copy: Node, ghost r: Store)
    requires node in h && node.content == Array(elems) && Kept(h) && Inv(h, owned)
    modifies h.Keys`refcount
    ensures fresh(copy) && copy.content == Array(elems) && r.Keys == h.Keys + {copy}
    ensures Kept(r) && Inv(r, owned + multiset{copy})
  {
    hide Inv, Kept, Filling, Sound, WfContent;
    PartsAreAlive(node, h, owned);
    assert forall i :: 0 <= i < |elems| ==> elems[i] in h;
    copy, r := NewNode(Array([]), h, owned);
    for i := 0 to |elems|
      invariant copy.content == Array(elems[..i]) && Filling(copy, h, r) && r.Keys == h.Keys + {copy}
      invariant Kept(r) && Inv(r, owned + multiset{copy})
    {
      r := ShareElement(copy, elems, i, h, r, owned + multiset{copy});
    }
    WholePrefix(elems, |elems|);
  }

  lemma PartsAreAlive(node: Node, h: Store, owned: multiset<Node>)
    requires node in h && Kept(h) && Inv(h, owned)
    ensures forall c :: c in Held(node.content) ==> c in h
  {
  }

  lemma MembersAreAlive(node: Node, table: T.Table<Node>, h: Store, owned: multiset<Node>)
    requires node in h && node.content.Object? && node.content.table == table && Kept(h) && Inv(h, owned)
    ensures forall i :: 0 <= i < |table.pairs| ==> table.pairs[i].value in h
  {
    PartsAreAlive(node, h, owned);
    forall i | 0 <= i < |table.pairs| ensures table.pairs[i].value in h {
      assert Held(node.content)[i] == table.pairs[i].value;
    }
  }

  /** The loop of json_object_copy. */
  method CopyMembers(node: Node, table: T.Table<Node>, ghost h: Store, ghost owned: multiset<Node>)
    returns (copy: Node, ghost r: Store)
    requires node in h && node.content.Object? && node.content.table == table && T.Valid(table)
    requires Kept(h) && Inv(h, owned)
    modifies h.Keys`refcount
    ensures fresh(copy) && copy.content == Object(Refill(table.pairs), |table.pairs|)
    ensures r.Keys == h.Keys + {copy} && Kept(r) && Inv(r, owned + multiset{copy})
  {
    hide Inv, Kept, Refill, T.Valid, Filling, Sound, WfContent;
    var pairs := table.pairs;
    MembersAreAlive(node, table, h, owned);
    RefillNothing(pairs[..0]);
    copy, r := NewNode(Object(T.New(), 0), h, owned);
    for i := 0 to |pairs|
      invariant copy.content == Object(Refill(pairs[..i]), i) && Filling(copy, h, r) && r.Keys == h.Keys + {copy}
      invariant Kept(r) && Inv(r, owned + multiset{copy})
    {
      r := ShareMember(copy, table, i, h, r, owned + multiset{copy});
    }
    WholePrefix(pairs, |pairs|);
  }

  lemma RefillNothing<V>(pairs: seq<T.Pair<V>>)
    requires pairs == []
    ensures Refill(pairs) == T.New()
  {
  }

  lemma RefillNext<V>(table: T.Table<V>, i: nat)
    requires T.Valid(table) && i < |table.pairs|
    ensures var p, s := table.pairs[i], Refill(table.pairs[..i]);
      T.Valid(s) && T.Get(s, p.key) == None && Refill(table.pairs[..i + 1]) == T.Set(s, p.key, i, p.value)
  {
    var init, more := table.(pairs := table.pairs[..i]), table.(pairs := table.pairs[..i + 1]);
    assert more.pairs[..i] == init.pairs;
    RefillLooksUp(init, table.pairs[i].key);
    LookupInit(more, table.pairs[i].key);
    RefillStep(more);
  }
}
