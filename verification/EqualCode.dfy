/** json_equal on the nodes (jansson/value.c): it stops early where both sides are the same node. */
module EqualCode {
  import opened Basics
  import opened JsonHeap
  import J = Json
  import T = Table

  datatype Kind = ObjectKind | ArrayKind | StringKind | IntegerKind | RealKind | TrueKind | FalseKind | NullKind

  /** json_typeof */
  function TypeOf(c: Content): Kind
    requires WfContent(c)
  {
    match c
    case Object(_, _) => ObjectKind
    case Array(_) => ArrayKind
    case Leaf(j) =>
      if j.Str? then StringKind else if j.Int? then IntegerKind else if j.Real? then RealKind
      else if j.True? then TrueKind else if j.False? then FalseKind else NullKind
  }

  /** What a node unfolds to does not depend on the nodes that are open. */
  lemma {:induction false} SameTree(node: Node, a: set<Node>, b: set<Node>, heap: Memory)
    requires Acyclic(node, a, heap) && Acyclic(node, b, heap)
    ensures Tree(node, a, heap) == Tree(node, b, heap)
    decreases |heap.Keys - a|
  {
    if !heap[node].Leaf? {
      var va := Children(node, a, heap);
      var vb := Children(node, b, heap);
      forall k | 0 <= k < |va| ensures va[k] == vb[k] {
        SameTree(Held(heap[node])[k], a + {node}, b + {node}, heap);
      }
      assert va == vb;
    }
  }

  lemma SameNode(node: Node, a: set<Node>, b: set<Node>, heap: Memory)
    requires Acyclic(node, a, heap) && Acyclic(node, b, heap)
    ensures J.Equal(Tree(node, a, heap), Tree(node, b, heap))
  {
    hide J.Equal, J.Wf, Unfold;
    SameTree(node, a, b, heap);
    UnfoldIsWf(node, a, heap);
    var j := Tree(node, a, heap);
    J.EqualIsEquivalence(j, j, j);
  }

  lemma OtherKind(x: Node, y: Node, a: set<Node>, b: set<Node>, heap: Memory)
    requires Acyclic(x, a, heap) && Acyclic(y, b, heap)
    ensures TypeOf(heap[x]) != TypeOf(heap[y]) ==> !J.Equal(Tree(x, a, heap), Tree(y, b, heap))
  {
    hide Closed, UnfoldAll, Zip;
    NodeIsWf(x, heap);
    NodeIsWf(y, heap);
  }

  lemma NodeIsWf(x: Node, heap: Memory)
    requires Closed(heap) && x in heap
    ensures WfContent(heap[x])
  {
  }

  method EqualNodes(x: Node, y: Node, ghost a: set<Node>, ghost b: set<Node>, ghost heap: Memory) returns (equal: bool)
    requires Acyclic(x, a, heap) && Acyclic(y, b, heap) && Stored(heap)
    ensures equal <==> J.Equal(Tree(x, a, heap), Tree(y, b, heap))
    decreases |heap.Keys - a|, 1
  {
    hide Acyclic, Unfold, J.Equal, WfContent, Tree;
    At(x, a, heap);
    At(y, b, heap);
    OtherKind(x, y, a, b, heap);
    if TypeOf(x.content) != TypeOf(y.content) {
      return false;
    }
    if x == y {
      SameNode(x, a, b, heap);
      return true;
    }
    SameKind(x.content, y.content);
    match x.content {
      case Object(_, _) => equal := EqualObjects(x, y, a, b, heap);
      case Array(_) => equal := EqualArrays(x, y, a, b, heap);
      case Leaf(j) =>
        LeafTree(x, a, heap);
        LeafTree(y, b, heap);
        LeavesEqual(j, y.content.j);
        equal := j == y.content.j;
    }
  }

  lemma At(x: Node, a: set<Node>, heap: Memory)
    requires Acyclic(x, a, heap) && Stored(heap)
    ensures x in heap && x.content == heap[x] && WfContent(x.content)
  {
  }

  lemma SameKind(c: Content, d: Content)
    requires WfContent(c) && WfContent(d) && TypeOf(c) == TypeOf(d)
    ensures (c.Object? <==> d.Object?) && (c.Array? <==> d.Array?) && (c.Leaf? <==> d.Leaf?)
    ensures c.Leaf? ==> !c.j.Arr? && !c.j.Obj? && !d.j.Arr? && !d.j.Obj?
  {
  }

  lemma LeafTree(x: Node, a: set<Node>, heap: Memory)
    requires Acyclic(x, a, heap) && heap[x].Leaf?
    ensures Tree(x, a, heap) == heap[x].j
  {
  }

  /** json_string_equal, json_integer_equal, json_real_equal; the singletons are the same node. */
  lemma LeavesEqual(i: J.Json, j: J.Json)
    requires !i.Arr? && !i.Obj?
    ensures J.Equal(i, j) <==> i == j
  {
  }

  /** json_array_equal */
  method EqualArrays(x: Node, y: Node, ghost a: set<Node>, ghost b: set<Node>, ghost heap: Memory) returns (equal: bool)
    requires Acyclic(x, a, heap) && Acyclic(y, b, heap) && Stored(heap) && heap[x].Array? && heap[y].Array?
    ensures equal <==> J.Equal(Tree(x, a, heap), Tree(y, b, heap))
    decreases |heap.Keys - a|, 0
  {
    hide Acyclic, J.Equal, Tree, Stored, Unfold, WfContent, Rebuild;
    At(x, a, heap);
    At(y, b, heap);
    var xs, ys := x.content.elems, y.content.elems;
    ghost var vx := Children(x, a, heap);
    ghost var vy := Children(y, b, heap);
    ArraysEqual(heap[x], vx, heap[y], vy);
    if |xs| != |ys| {
      return false;
    }
    for i := 0 to |xs|
      invariant forall k :: 0 <= k < i ==> J.Equal(vx[k], vy[k])
    {
      equal := EqualNodes(xs[i], ys[i], a + {x}, b + {y}, heap);
      if !equal {
        return;
      }
    }
    equal := true;
  }

  lemma ArraysEqual(c: Content, vs: seq<J.Json>, d: Content, ws: seq<J.Json>)
    requires c.Array? && d.Array? && |vs| == |Held(c)| && |ws| == |Held(d)|
    ensures J.Equal(Rebuild(c, vs), Rebuild(d, ws)) <==> |vs| == |ws| && forall k :: 0 <= k < |vs| ==>
      J.Equal(vs[k], ws[k])
  {
  }

  /** json_object_equal: sizes, then every member of the first looked up in the second. */
  method EqualObjects(x: Node, y: Node, ghost a: set<Node>, ghost b: set<Node>, ghost heap: Memory)
    returns (equal: bool)
    requires Acyclic(x, a, heap) && Acyclic(y, b, heap) && Stored(heap) && heap[x].Object? && heap[y].Object?
    ensures equal <==> J.Equal(Tree(x, a, heap), Tree(y, b, heap))
    decreases |heap.Keys - a|, 0
  {
    hide Acyclic, J.Equal, Tree, T.Get, Stored, Unfold, WfContent, Rebuild;
    At(x, a, heap);
    At(y, b, heap);
    var xs, other := x.content.table.pairs, y.content.table;
    ghost var vx := Children(x, a, heap);
    ghost var vy := Children(y, b, heap);
    ObjectsEqual(heap[x], vx, heap[y], vy);
    if |xs| != |other.pairs| {
      return false;
    }
    for i := 0 to |xs|
      invariant forall k :: 0 <= k < i ==> MemberEqual(xs[k].key, vx[k], other, vy)
    {
      ghost var k := Looked(other, xs[i].key);
      var found := T.Get(other, xs[i].key);
      if found == None {
        return false;
      }
      assert Held(heap[y])[k] == found.value;
      equal := EqualNodes(xs[i].value, found.value, a + {x}, b + {y}, heap);
      if !equal {
        return;
      }
    }
    equal := true;
  }

  /** The member with this key equals the given value. */
  ghost predicate MemberEqual(key: bytes, value: J.Json, table: T.Table<Node>, values: seq<J.Json>)
    requires |values| == |table.pairs|
  {
    var k := T.IndexOf(table.pairs, key);
    k < |values| && J.Equal(value, values[k])
  }

  lemma Looked(table: T.Table<Node>, key: bytes) returns (k: nat)
    ensures k == T.IndexOf(table.pairs, key) && (T.Get(table, key) == None <==> k == |table.pairs|)
    ensures T.Get(table, key).Some? ==> T.Get(table, key).value == table.pairs[k].value
  {
    k := T.IndexOf(table.pairs, key);
  }

  lemma ObjectsEqual(c: Content, vs: seq<J.Json>, d: Content, ws: seq<J.Json>)
    requires c.Object? && d.Object? && |vs| == |Held(c)| && |ws| == |Held(d)|
    ensures J.Equal(Rebuild(c, vs), Rebuild(d, ws)) <==>
      |vs| == |ws| && forall k :: 0 <= k < |vs| ==> MemberEqual(c.table.pairs[k].key, vs[k], d.table, ws)
  {
    var ps, other := Zip(c.table.pairs, vs), T.Table(d.table.order, d.table.buckets, Zip(d.table.pairs, ws));
    forall k | 0 <= k < |ps|
      ensures J.FindsEqual(ps[k], other) <==> MemberEqual(c.table.pairs[k].key, vs[k], d.table, ws)
    {
      ZipIndex(d.table.pairs, ws, ps[k].key);
    }
  }

  lemma ZipIndex(pairs: seq<T.Pair<Node>>, values: seq<J.Json>, key: bytes)
    requires |values| == |pairs|
    ensures T.IndexOf(Zip(pairs, values), key) == T.IndexOf(pairs, key)
  {
    var r := Zip(pairs, values);
    assert T.IndexOf(r, key) < |r| ==> r[T.IndexOf(r, key)].key == key;
    assert T.IndexOf(pairs, key) < |pairs| ==> r[T.IndexOf(pairs, key)].key == key;
  }

  /** json_equal: it decides equality of the trees, and a missing value equals nothing. */
  method JsonEqual(x: Node?, y: Node?, ghost heap: Memory) returns (equal: bool)
    requires Closed(heap) && Stored(heap)
    requires x != null ==> x in heap && !Cyclic(x, heap)
    requires y != null ==> y in heap && !Cyclic(y, heap)
    ensures x == null || y == null ==> !equal
    ensures x != null && y != null ==>
      && Unfold(x, {}, heap).Some? && Unfold(y, {}, heap).Some?
      && (equal <==> J.Denote(Unfold(x, {}, heap).value) == J.Denote(Unfold(y, {}, heap).value))
  {
    hide Closed, Stored, Unfold, Cyclic, J.Equal, J.Wf, J.Denote;
    if x == null || y == null {
      return false;
    }
    NoTreeIffCycle(x, heap);
    NoTreeIffCycle(y, heap);
    UnfoldIsWf(x, {}, heap);
    UnfoldIsWf(y, {}, heap);
    J.EqualIffSameDenotation(Unfold(x, {}, heap).value, Unfold(y, {}, heap).value);
    equal := EqualNodes(x, y, {}, {}, heap);
  }
}
