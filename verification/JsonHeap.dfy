/**
 * json_t values as they live in memory (jansson/value.c): nodes that containers share, perhaps in a
 * cycle. Unfolding follows every reference and gives the tree a graph stands for, when it is a tree.
 */
module JsonHeap {
  import opened Basics
  import J = Json
  import T = Table

  datatype Content =
    | Leaf(j: J.Json)
    | Array(elems: seq<Node>)
    | Object(table: T.Table<Node>, serial: nat)

  /** A reference count; the true, false and null singletons carry (size_t)-1 and are never counted. */
  datatype Count = Shared | Counted(n: nat)

  /** json_t, with the visited mark of arrays and objects. */
  class Node {
    var content: Content
    var visited: bool
    var refcount: Count

    /** json_init: the caller owns the only reference. */
    constructor (content: Content)
      ensures this.content == content && !visited && refcount == Counted(1)
    {
      this.content := content;
      visited := false;
      refcount := Counted(1);
    }
  }

  function Held(c: Content): (s: seq<Node>)
    ensures c.Array? ==> s == c.elems
    ensures c.Object? ==> |s| == |c.table.pairs| && forall i :: 0 <= i < |s| ==> s[i] == c.table.pairs[i].value
    ensures c.Leaf? ==> s == []
  {
    match c
    case Leaf(_) => []
    case Array(elems) => elems
    case Object(table, _) => seq(|table.pairs|, i requires 0 <= i < |table.pairs| => table.pairs[i].value)
  }

  /** What the constructors and setters guarantee of one node. */
  ghost predicate WfContent(c: Content) {
    match c
    case Leaf(j) => !j.Arr? && !j.Obj? && J.Wf(j)
    case Array(_) => true
    case Object(table, serial) =>
      && T.Valid(table)
      && (forall i :: 0 <= i < |table.pairs| ==> J.ValidText(table.pairs[i].key) && table.pairs[i].serial < serial)
      && (forall i, j :: 0 <= i < j < |table.pairs| ==> table.pairs[i].serial != table.pairs[j].serial)
  }

  /** The contents of some nodes, at one moment. */
  type Memory = map<Node, Content>

  ghost predicate Stored(heap: Memory)
    reads heap.Keys`content
  {
    forall n :: n in heap ==> n.content == heap[n]
  }

  /** Everything the nodes refer to is among them. */
  ghost predicate Closed(heap: Memory) {
    forall n :: n in heap ==> WfContent(heap[n]) && forall c :: c in Held(heap[n]) ==> c in heap
  }

  // ----- unfolding -----

  function Rebuild(c: Content, values: seq<J.Json>): J.Json
    requires |values| == |Held(c)|
  {
    match c
    case Leaf(j) => j
    case Array(_) => J.Arr(values)
    case Object(table, serial) => J.Obj(T.Table(table.order, table.buckets, Zip(table.pairs, values)), serial)
  }

  function Zip(pairs: seq<T.Pair<Node>>, values: seq<J.Json>): (r: seq<J.Pair>)
    requires |values| == |pairs|
    ensures |r| == |pairs|
    ensures forall i :: 0 <= i < |r| ==> r[i] == T.Pair(pairs[i].key, pairs[i].serial, values[i])
  {
    seq(|pairs|, i requires 0 <= i < |pairs| => T.Pair(pairs[i].key, pairs[i].serial, values[i]))
  }

  /** The tree n stands for; None when following references from n leads back into a container that is open. */
  ghost function Unfold(n: Node, open: set<Node>, heap: Memory): (r: Option<J.Json>)
    requires Closed(heap) && n in heap
    decreases |heap.Keys - open|, 0
  {
    if heap[n].Leaf? then Some(heap[n].j)
    else if n in open then None
    else
      assert heap.Keys - (open + {n}) < heap.Keys - open by { assert n in heap.Keys - open; }
      Smaller(heap.Keys - (open + {n}), heap.Keys - open);
      match UnfoldAll(Held(heap[n]), open + {n}, heap)
      case None => None
      case Some(values) => Some(Rebuild(heap[n], values))
  }

  ghost function UnfoldAll(ns: seq<Node>, open: set<Node>, heap: Memory): (r: Option<seq<J.Json>>)
    requires Closed(heap) && forall c :: c in ns ==> c in heap
    ensures r.Some? ==> |r.value| == |ns|
    decreases |heap.Keys - open|, |ns| + 1
  {
    if ns == [] then Some([])
    else
      match Unfold(ns[0], open, heap)
      case None => None
      case Some(v) =>
        match UnfoldAll(ns[1..], open, heap)
        case None => None
        case Some(vs) => Some([v] + vs)
  }

  lemma Smaller<X>(a: set<X>, b: set<X>)
    requires a < b
    ensures |a| < |b|
  {
    assert b == a + (b - a) && |b - a| > 0;
  }

  lemma {:induction false} UnfoldEach(ns: seq<Node>, open: set<Node>, heap: Memory)
    requires Closed(heap) && forall c :: c in ns ==> c in heap
    ensures UnfoldAll(ns, open, heap).Some? <==> forall i :: 0 <= i < |ns| ==> Unfold(ns[i], open, heap).Some?
    ensures UnfoldAll(ns, open, heap).Some? ==>
      forall i :: 0 <= i < |ns| ==> Unfold(ns[i], open, heap) == Some(UnfoldAll(ns, open, heap).value[i])
    decreases |ns|
  {
    if ns != [] {
      UnfoldEach(ns[1..], open, heap);
      forall i | 1 <= i < |ns|
        ensures ns[i] == ns[1..][i - 1]
      {}
    }
  }

  /** A node that can be unfolded while other nodes are open. */
  ghost predicate Acyclic(node: Node, open: set<Node>, heap: Memory) {
    Closed(heap) && node in heap && Unfold(node, open, heap).Some?
  }

  ghost function Tree(node: Node, open: set<Node>, heap: Memory): J.Json
    requires Acyclic(node, open, heap)
  {
    Unfold(node, open, heap).value
  }

  /** What the nodes a container holds unfold to. */
  lemma Children(node: Node, open: set<Node>, heap: Memory) returns (values: seq<J.Json>)
    requires Acyclic(node, open, heap) && !heap[node].Leaf?
    ensures |values| == |Held(heap[node])| && Tree(node, open, heap) == Rebuild(heap[node], values)
    ensures forall k :: 0 <= k < |values| ==>
      var c := Held(heap[node])[k];
      Acyclic(c, open + {node}, heap) && Tree(c, open + {node}, heap) == values[k]
    ensures |heap.Keys - (open + {node})| < |heap.Keys - open|
  {
    var held, inside := Held(heap[node]), open + {node};
    assert heap.Keys - inside < heap.Keys - open by { assert node in heap.Keys - open; }
    Smaller(heap.Keys - inside, heap.Keys - open);
    UnfoldEach(held, inside, heap);
    values := UnfoldAll(held, inside, heap).value;
    forall k | 0 <= k < |held| ensures held[k] in heap { assert held[k] in held; }
  }

  lemma {:induction false} UnfoldIsWf(n: Node, open: set<Node>, heap: Memory)
    requires Closed(heap) && n in heap && Unfold(n, open, heap).Some?
    ensures J.Wf(Unfold(n, open, heap).value)
    decreases |heap.Keys - open|
  {
    if !heap[n].Leaf? {
      var held, inside := Held(heap[n]), open + {n};
      assert heap.Keys - inside < heap.Keys - open by { assert n in heap.Keys - open; }
      Smaller(heap.Keys - inside, heap.Keys - open);
      UnfoldEach(held, inside, heap);
      var values := UnfoldAll(held, inside, heap).value;
      forall i | 0 <= i < |held| ensures J.Wf(values[i]) {
        assert held[i] in held;
        UnfoldIsWf(held[i], inside, heap);
      }
      RebuildIsWf(heap[n], values);
    }
  }

  lemma RebuildIsWf(c: Content, values: seq<J.Json>)
    requires WfContent(c) && |values| == |Held(c)| && forall i :: 0 <= i < |values| ==> J.Wf(values[i])
    ensures J.Wf(Rebuild(c, values))
  {
    hide T.Valid, J.SerialsOk, J.ValidText;
    if c.Object? {
      ZipIsValid(c.table, values);
      ZipSerials(c.table.pairs, values, c.serial);
    }
  }

  lemma ZipIsValid(table: T.Table<Node>, values: seq<J.Json>)
    requires T.Valid(table) && |values| == |table.pairs|
    ensures T.Valid(T.Table(table.order, table.buckets, Zip(table.pairs, values)))
  {
  }

  lemma ZipSerials(pairs: seq<T.Pair<Node>>, values: seq<J.Json>, serial: nat)
    requires |values| == |pairs|
    requires forall i :: 0 <= i < |pairs| ==> pairs[i].serial < serial
    requires forall i, j :: 0 <= i < j < |pairs| ==> pairs[i].serial != pairs[j].serial
    ensures J.SerialsOk(Zip(pairs, values), serial)
  {
    var zipped := Zip(pairs, values);
    forall p, q | p in zipped && q in zipped && p.serial == q.serial ensures p == q {
      var i :| 0 <= i < |zipped| && zipped[i] == p;
      var j :| 0 <= j < |zipped| && zipped[j] == q;
    }
  }

  // ----- cycles -----

  function SetOf(p: seq<Node>): set<Node> { set m | m in p }

  /** Each node of the path is held by the one before it. */
  ghost predicate IsPath(older p: seq<Node>, heap: Memory) {
    && p != []
    && (forall i :: 0 <= i < |p| ==> p[i] in heap)
    && (forall i :: 0 <= i < |p| - 1 ==> p[i + 1] in Held(heap[p[i]]))
  }

  /** The path comes back to a node it has been through. */
  ghost predicate Loops(p: seq<Node>) {
    exists i, j :: 0 <= i < j < |p| && p[i] == p[j]
  }

  /** A failed unfolding shows a path that loops. */
  lemma {:induction false} FailureLoops(n: Node, before: seq<Node>, heap: Memory) returns (p: seq<Node>)
    requires Closed(heap) && n in heap && IsPath(before + [n], heap)
    requires Unfold(n, SetOf(before), heap) == None
    ensures IsPath(p, heap) && Loops(p) && p[0] == (before + [n])[0]
    decreases |heap.Keys - SetOf(before)|
  {
    var open := SetOf(before);
    p := before + [n];
    if n in open {
      var i :| 0 <= i < |before| && before[i] == n;
      assert p[i] == p[|before|] == n;
    } else {
      assert heap.Keys - (open + {n}) < heap.Keys - open by { assert n in heap.Keys - open; }
      Smaller(heap.Keys - (open + {n}), heap.Keys - open);
      assert SetOf(p) == open + {n};
      UnfoldEach(Held(heap[n]), open + {n}, heap);
      var i :| 0 <= i < |Held(heap[n])| && Unfold(Held(heap[n])[i], open + {n}, heap) == None;
      var c := Held(heap[n])[i];
      assert c in Held(heap[n]);
      PathGrows(p, c, heap);
      var q := FailureLoops(c, p, heap);
      assert (p + [c])[0] == p[0];
      p := q;
    }
  }

  lemma PathGrows(p: seq<Node>, c: Node, heap: Memory)
    requires Closed(heap) && IsPath(p, heap) && c in Held(heap[p[|p| - 1]])
    ensures IsPath(p + [c], heap)
  {
    var q := p + [c];
    forall i | 0 <= i < |q| - 1 ensures q[i + 1] in Held(heap[q[i]]) {
      if i < |p| - 1 {
        assert p[i + 1] in Held(heap[p[i]]);
      }
    }
  }

  lemma SuccessStep(n: Node, c: Node, open: set<Node>, heap: Memory)
    requires Closed(heap) && n in heap && Unfold(n, open, heap).Some? && c in Held(heap[n])
    ensures c in heap && Unfold(c, open + {n}, heap).Some?
  {
    UnfoldEach(Held(heap[n]), open + {n}, heap);
    var i :| 0 <= i < |Held(heap[n])| && Held(heap[n])[i] == c;
  }

  /** When unfolding succeeds, so does unfolding at every node of a path, with the nodes before it open. */
  lemma {:induction false} SuccessAlong(p: seq<Node>, open: set<Node>, heap: Memory, k: nat)
    requires Closed(heap) && IsPath(p, heap) && Unfold(p[0], open, heap).Some? && k < |p|
    ensures Unfold(p[k], open + SetOf(p[..k]), heap).Some?
    decreases k
  {
    hide Closed, Unfold, Held;
    if k == 0 {
      assert open + SetOf(p[..0]) == open;
    } else {
      SuccessAlong(p, open, heap, k - 1);
      SuccessStep(p[k - 1], p[k], open + SetOf(p[..k - 1]), heap);
      assert p[..k] == p[..k - 1] + [p[k - 1]];
      assert open + SetOf(p[..k]) == open + SetOf(p[..k - 1]) + {p[k - 1]};
    }
  }

  lemma LoopFails(p: seq<Node>, heap: Memory)
    requires Closed(heap) && IsPath(p, heap) && Loops(p) && p[0] in heap
    ensures Unfold(p[0], {}, heap) == None
  {
    var i, j :| 0 <= i < j < |p| && p[i] == p[j];
    assert p[..j][i] == p[i];
    assert p[i + 1] in Held(heap[p[i]]);
    if Unfold(p[0], {}, heap).Some? {
      SuccessAlong(p, {}, heap, j);
    }
  }

  /** Some container reachable from n holds itself, directly or through others. */
  ghost predicate Cyclic(n: Node, heap: Memory) {
    exists p: seq<Node> :: IsPath(p, heap) && p[0] == n && Loops(p)
  }

  /** A value has no tree exactly when a cycle can be reached from it. */
  lemma {:induction false} NoTreeIffCycle(n: Node, heap: Memory)
    requires Closed(heap) && n in heap
    ensures Unfold(n, {}, heap) == None <==> Cyclic(n, heap)
  {
    if Unfold(n, {}, heap) == None {
      assert SetOf([]) == {};
      var p := FailureLoops(n, [], heap);
    }
    forall p: seq<Node> | IsPath(p, heap) && p[0] == n && Loops(p) ensures Unfold(n, {}, heap) == None {
      LoopFails(p, heap);
    }
  }
}
