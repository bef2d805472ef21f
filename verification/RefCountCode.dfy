/**
 * The routines of jansson/value.c that move references, on the nodes themselves. Each takes the
 * references it is given, keeps every count exact, and frees what nobody refers to any more.
 */
module RefCountCode {
  import opened Basics
  import opened JsonHeap
  import opened RefCount
  import J = Json
  import T = Table
  import TableMap
  import Utf8
  import Utf8Code

  /** The nodes that are alive are as the store says. */
  ghost predicate Kept(h: Store)
    reads h.Keys`content, h.Keys`refcount
  {
    forall n :: n in h ==> n.refcount == h[n].count && Held(n.content) == h[n].held
  }

  /** Every node that is alive is as the interface promises. */
  ghost predicate Sound(h: Store)
    reads h.Keys`content
  {
    forall n :: n in h ==> WfContent(n.content)
  }

  /** What printing, comparing and copying ask of a graph holds of whatever is alive. */
  lemma SoundIsClosed(h: Store, owned: multiset<Node>)
    requires Kept(h) && Inv(h, owned) && Sound(h)
    ensures var heap: Memory := map n | n in h :: n.content; Closed(heap) && Stored(heap) && heap.Keys == h.Keys
  {
  }

  /** json_incref */
  method JsonIncref(node: Node, ghost h: Store, ghost owned: multiset<Node>) returns (ghost r: Store)
    requires Kept(h) && node in h && Inv(h, owned)
    modifies node`refcount
    ensures r == Incref(h, node) && Kept(r) && Inv(r, owned + multiset{node}) && (old(Sound(h)) ==> Sound(r))
  {
    IncrefConserves(h, node, owned);
    r := Incref(h, node);
    match node.refcount {
      case Shared =>
      case Counted(n) => node.refcount := Counted(n + 1);
    }
  }

  /** json_decref: the caller gives up a reference; the last one deletes the node. */
  method JsonDecref(node: Node, ghost h: Store, ghost owned: multiset<Node>) returns (ghost r: Store)
    requires Kept(h) && Inv(h, owned + multiset{node})
    modifies h.Keys`refcount
    ensures r == Release(h, [node]) && Kept(r) && Inv(r, owned) && (old(Sound(h)) ==> Sound(r))
    decreases |h|, 1
  {
    hide Inv, WfContent;
    ReleaseShrinks(h, [node]);
    OwnedIsAlive(h, owned + multiset{node}, node);
    assert owned + multiset{node} == owned + multiset([node]);
    ReleaseConserves(h, [node], owned);
    ReleaseOne(h, node);
    match node.refcount {
      case Shared => r := h;
      case Counted(n) =>
        node.refcount := Counted(n - 1);
        if n - 1 == 0 {
          FreeConserves(h, node, owned);
          r := JsonDelete(node, h, owned);
        } else {
          r := h[node := CellWith(h[node], n - 1)];
        }
    }
  }

  /** json_delete on a node that has no reference left: it gives up the references its slots hold. */
  method JsonDelete(node: Node, ghost h: Store, ghost owned: multiset<Node>) returns (ghost r: Store)
    requires node in h && Kept(h - {node}) && Held(node.content) == h[node].held
    requires Inv(h - {node}, owned + multiset(h[node].held))
    modifies h.Keys`refcount
    ensures r == Release(h - {node}, h[node].held) && Kept(r)
    decreases |h|, 0
  {
    SmallerWithout(h, node);
    r := ReleaseAll(Held(node.content), h - {node}, owned);
  }

  lemma ReleaseHead(h: Store, todo: seq<Node>, owned: multiset<Node>)
    requires todo != []
    ensures Release(h, todo) == Release(Release(h, [todo[0]]), todo[1..])
    ensures Release(h, [todo[0]]).Keys <= h.Keys && |Release(h, [todo[0]])| <= |h|
    ensures owned + multiset(todo) == owned + multiset(todo[1..]) + multiset{todo[0]}
  {
    assert todo == [todo[0]] + todo[1..];
    ReleaseAppend(h, [todo[0]], todo[1..]);
    ReleaseShrinks(h, [todo[0]]);
  }

  /** json_decref on several nodes. */
  method ReleaseAll(dropped: seq<Node>, ghost h: Store, ghost owned: multiset<Node>) returns (ghost r: Store)
    requires Kept(h) && Inv(h, owned + multiset(dropped))
    modifies h.Keys`refcount
    ensures r == Release(h, dropped) && Kept(r) && Inv(r, owned)
    decreases |h|, 2
  {
    hide Inv, Release, Kept;
    r := h;
    var i := 0;
    while i < |dropped|
      invariant i <= |dropped| && Kept(r) && r.Keys <= h.Keys && |r| <= |h|
      invariant Release(h, dropped) == Release(r, dropped[i..])
      invariant Inv(r, owned + multiset(dropped[i..]))
    {
      ReleaseHead(r, dropped[i..], owned);
      assert dropped[i..][1..] == dropped[i + 1..];
      r := JsonDecref(dropped[i], r, owned + multiset(dropped[i + 1..]));
      i := i + 1;
    }
    assert owned + multiset(dropped[|dropped|..]) == owned;
    NothingToRelease(r, dropped[|dropped|..]);
  }

  lemma NothingToRelease(h: Store, todo: seq<Node>)
    requires todo == []
    ensures Release(h, todo) == h
  {
  }

  /**
   * A setter on a container that can be reached from a reference some caller owns, or from one it is
   * given: the new content, and one reference in each direction. The code releases what a slot held before
   * it overwrites the slot; the container stays alive throughout.
   */
  method Put(json: Node, content: Content, dropped: seq<Node>, ghost added: seq<Node>, ghost h: Store,
      ghost owned: multiset<Node>)
    returns (ghost r: Store)
    requires Kept(h) && Inv(h, owned + multiset(added)) && json in h && h[json].count != Shared
    requires Reached(json, h, owned + multiset(added)) && forall n :: n in added ==> n in Held(content)
    requires multiset(Held(content)) + multiset(dropped) == multiset(Held(json.content)) + multiset(added)
    modifies json`content, h.Keys`refcount
    ensures r == Setter(h, json, Held(content), dropped) && json in r && Kept(r) && Inv(r, owned)
    ensures json.content == content && (old(Sound(h)) && WfContent(content) ==> Sound(r))
  {
    hide Inv, Reached, WfContent;
    var now := h[json].(held := Held(content));
    MoveConserves(h, json, Held(content), added, dropped, owned);
    ReachedSurvives(json, h, Held(content), added, dropped, owned);
    json.content := content;
    r := ReleaseAll(dropped, h[json := now], owned);
    ReleaseShrinks(h[json := now], dropped);
  }

  /** The reference a setter is given. */
  function Given(value: Node?): (s: seq<Node>)
    ensures s == if value == null then [] else [value]
  {
    if value == null then [] else [value]
  }

  /** How a setter fails: the reference it was given is dropped, and nothing else happens. */
  method Reject(value: Node?, ghost h: Store, ghost owned: multiset<Node>) returns (ghost r: Store)
    requires Kept(h) && Inv(h, owned + multiset(Given(value)))
    modifies h.Keys`refcount
    ensures r == Release(h, Given(value)) && Kept(r) && Inv(r, owned) && (old(Sound(h)) ==> Sound(r))
  {
    hide Inv, WfContent;
    ReleaseShrinks(h, Given(value));
    if value != null {
      assert owned + multiset(Given(value)) == owned + multiset{value};
      r := JsonDecref(value, h, owned);
    } else {
      assert owned + multiset(Given(value)) == owned;
      r := h;
    }
  }

  /**
   * What a setter may be called on: NULL, a value of any kind, or a container. A container may be one the
   * caller only borrows, as long as following slots from a reference somebody owns leads to it.
   */
  ghost predicate Ready(json: Node?, value: Node?, h: Store, owned: multiset<Node>)
    reads h.Keys`content, h.Keys`refcount
  {
    && Kept(h) && Inv(h, owned + multiset(Given(value)))
    && (json != null ==> json in h)
    && (json != null && !json.content.Leaf? ==>
          h[json].count != Shared && Reached(json, h, owned + multiset(Given(value))))
  }

  /** What WfContent says of the container a setter is called on is true afterwards if it was before. */
  twostate predicate StaysWf(json: Node?)
    reads if json == null then {} else {json}
  {
    json != null && old(WfContent(json.content)) ==> WfContent(json.content)
  }

  /** The node whose content a setter may change. */
  function Target(json: Node?): (s: set<Node>)
    ensures s == if json == null then {} else {json}
  {
    if json == null then {} else {json}
  }

  // ----- arrays -----

  /** json_array_append_new */
  method ArrayAppendNew(json: Node?, value: Node?, ghost h: Store, ghost owned: multiset<Node>)
    returns (ok: bool, ghost r: Store)
    requires Ready(json, value, h, owned)
    modifies Target(json)`content, h.Keys`refcount
    ensures ok <==> value != null && json != null && old(json.content).Array? && json != value
    ensures json != null ==> json.content == if ok then Array(old(json.content).elems + [value]) else old(json.content)
    ensures ok ==> r == Setter(h, json, Held(json.content), [])
    ensures Kept(r) && Inv(r, owned) && (ok ==> json in r)
    ensures StaysWf(json) && (old(Sound(h)) ==> Sound(r))
  {
    hide Inv, Reached;
    if value == null || json == null || !json.content.Array? || json == value {
      r := Reject(value, h, owned);
      return false, r;
    }
    r := Put(json, Array(json.content.elems + [value]), [], [value], h, owned);
    ok := true;
  }

  /** json_array_set_new: the element that goes is released. */
  method ArraySetNew(json: Node?, index: nat, value: Node?, ghost h: Store, ghost owned: multiset<Node>)
    returns (ok: bool, ghost r: Store)
    requires Ready(json, value, h, owned)
    modifies Target(json)`content, h.Keys`refcount
    ensures ok <==>
      value != null && json != null && old(json.content).Array? && json != value && index < |old(json.content).elems|
    ensures json != null ==>
      json.content == if ok then Array(old(json.content).elems[index := value]) else old(json.content)
    ensures Kept(r) && Inv(r, owned) && (ok ==> json in r)
    ensures StaysWf(json) && (old(Sound(h)) ==> Sound(r))
  {
    hide Inv, Reached;
    if value == null || json == null || !json.content.Array? || json == value || index >= |json.content.elems| {
      r := Reject(value, h, owned);
      return false, r;
    }
    var elems := json.content.elems;
    SwapOne(elems, index, value);
    assert elems[index := value][index] == value;
    r := Put(json, Array(elems[index := value]), [elems[index]], [value], h, owned);
    ok := true;
  }

  lemma SwapOne(s: seq<Node>, k: nat, x: Node)
    requires k < |s|
    ensures multiset(s[k := x]) + multiset([s[k]]) == multiset(s) + multiset([x])
  {
    assert s == s[..k] + [s[k]] + s[k + 1..];
    assert s[k := x] == s[..k] + [x] + s[k + 1..];
  }

  lemma InsertOne(s: seq<Node>, k: nat, x: Node)
    requires k <= |s|
    ensures multiset(s[..k] + [x] + s[k..]) + multiset([]) == multiset(s) + multiset([x])
  {
    assert s == s[..k] + s[k..];
  }

  lemma RemoveOne(s: seq<Node>, k: nat)
    requires k < |s|
    ensures multiset(s[..k] + s[k + 1..]) + multiset([s[k]]) == multiset(s) + multiset([])
  {
    assert s == s[..k] + [s[k]] + s[k + 1..];
  }

  /** json_array_insert_new */
  method ArrayInsertNew(json: Node?, index: nat, value: Node?, ghost h: Store, ghost owned: multiset<Node>)
    returns (ok: bool, ghost r: Store)
    requires Ready(json, value, h, owned)
    modifies Target(json)`content, h.Keys`refcount
    ensures ok <==>
      value != null && json != null && old(json.content).Array? && json != value && index <= |old(json.content).elems|
    ensures json != null ==>
      json.content == if ok then Array(old(json.content).elems[..index] + [value] + old(json.content).elems[index..])
        else old(json.content)
    ensures Kept(r) && Inv(r, owned) && (ok ==> json in r)
    ensures StaysWf(json) && (old(Sound(h)) ==> Sound(r))
  {
    hide Inv, Reached;
    if value == null || json == null || !json.content.Array? || json == value || index > |json.content.elems| {
      r := Reject(value, h, owned);
      return false, r;
    }
    var elems := json.content.elems;
    InsertOne(elems, index, value);
    r := Put(json, Array(elems[..index] + [value] + elems[index..]), [], [value], h, owned);
    ok := true;
  }

  /** json_array_remove */
  method ArrayRemove(json: Node?, index: nat, ghost h: Store, ghost owned: multiset<Node>)
    returns (ok: bool, ghost r: Store)
    requires Ready(json, null, h, owned)
    modifies Target(json)`content, h.Keys`refcount
    ensures ok <==> json != null && old(json.content).Array? && index < |old(json.content).elems|
    ensures json != null ==>
      json.content == if ok then Array(old(json.content).elems[..index] + old(json.content).elems[index + 1..])
        else old(json.content)
    ensures Kept(r) && Inv(r, owned) && (ok ==> json in r)
    ensures StaysWf(json) && (old(Sound(h)) ==> Sound(r))
  {
    hide Inv, Reached;
    if json == null || !json.content.Array? || index >= |json.content.elems| {
      r := Reject(null, h, owned);
      return false, r;
    }
    var elems := json.content.elems;
    RemoveOne(elems, index);
    r := Put(json, Array(elems[..index] + elems[index + 1..]), [elems[index]], [], h, owned);
    ok := true;
  }

  /** json_array_clear */
  method ArrayClear(json: Node?, ghost h: Store, ghost owned: multiset<Node>) returns (ok: bool, ghost r: Store)
    requires Ready(json, null, h, owned)
    modifies Target(json)`content, h.Keys`refcount
    ensures ok <==> json != null && old(json.content).Array?
    ensures json != null ==> json.content == if ok then Array([]) else old(json.content)
    ensures Kept(r) && Inv(r, owned) && (ok ==> json in r)
    ensures StaysWf(json) && (old(Sound(h)) ==> Sound(r))
  {
    hide Inv, Reached;
    if json == null || !json.content.Array? {
      r := Reject(null, h, owned);
      return false, r;
    }
    r := Put(json, Array([]), json.content.elems, [], h, owned);
    ok := true;
  }

  /** json_array_extend, also of an array by itself: the new slots get references of their own. */
  method ArrayExtend(json: Node?, other: Node?, ghost h: Store, ghost owned: multiset<Node>)
    returns (ok: bool, ghost r: Store)
    requires Ready(json, null, h, owned) && (other != null ==> other in h)
    modifies Target(json)`content, h.Keys`refcount
    ensures ok <==> json != null && old(json.content).Array? && other != null && old(other.content).Array?
    ensures json != null ==>
      json.content == if ok then Array(old(json.content).elems + old(other.content).elems) else old(json.content)
    ensures Kept(r) && Inv(r, owned) && (ok ==> json in r)
    ensures StaysWf(json) && (old(Sound(h)) ==> Sound(r))
  {
    hide Inv, Reached;
    assert owned + multiset(Given(null)) == owned;
    if json == null || !json.content.Array? || other == null || !other.content.Array? {
      return false, h;
    }
    var others := other.content.elems;
    SlotsAreAlive(h, owned, other);
    r := IncrefAll(others, h, owned);
    ReachedStill(json, h, r, owned, owned + multiset(others));
    r := Put(json, Array(json.content.elems + others), [], others, r, owned);
    ok := true;
  }

  lemma ReachedStill(n: Node, h: Store, r: Store, before: multiset<Node>, after: multiset<Node>)
    requires Reached(n, h, before) && r.Keys == h.Keys && forall m :: m in h ==> r[m].held == h[m].held
    requires forall m :: m in before ==> m in after
    ensures Reached(n, r, after)
  {
    var p: seq<Node> :| IsChain(p, h) && p[0] in before && p[|p| - 1] == n;
    assert IsChain(p, r);
  }

  lemma SlotsAreAlive(h: Store, owned: multiset<Node>, n: Node)
    requires Inv(h, owned) && n in h
    ensures forall m :: m in h[n].held ==> m in h
  {
  }

  /** Only counts of counted nodes differ. */
  ghost predicate Recounted(h: Store, r: Store) {
    r.Keys == h.Keys
    && forall n :: n in h ==> r[n].held == h[n].held && (r[n].count == Shared <==> h[n].count == Shared)
  }

  lemma RecountedMore(h: Store, r: Store, n: Node)
    requires Recounted(h, r) && n in h
    ensures Recounted(h, Incref(r, n))
  {
  }

  /** The loop of json_array_extend over the elements of the other array. */
  method IncrefAll(nodes: seq<Node>, ghost h: Store, ghost owned: multiset<Node>) returns (ghost r: Store)
    requires Kept(h) && Inv(h, owned) && forall n :: n in nodes ==> n in h
    modifies h.Keys`refcount
    ensures Kept(r) && Inv(r, owned + multiset(nodes)) && Recounted(h, r)
  {
    hide Inv, Kept, Incref;
    r := h;
    assert owned + multiset(nodes[..0]) == owned;
    for i := 0 to |nodes|
      invariant Kept(r) && Inv(r, owned + multiset(nodes[..i])) && Recounted(h, r)
    {
      assert nodes[..i + 1] == nodes[..i] + [nodes[i]];
      assert owned + multiset(nodes[..i + 1]) == owned + multiset(nodes[..i]) + multiset{nodes[i]};
      RecountedMore(h, r, nodes[i]);
      r := JsonIncref(nodes[i], r, owned + multiset(nodes[..i]));
    }
    assert nodes[..|nodes|] == nodes;
  }

  // ----- objects -----

  function Values(pairs: seq<T.Pair<Node>>): seq<Node> {
    seq(|pairs|, i requires 0 <= i < |pairs| => pairs[i].value)
  }

  lemma ValuesWithout(ps: seq<T.Pair<Node>>, k: nat)
    requires k < |ps|
    ensures multiset(Values(ps)) == multiset(Values(ps[..k] + ps[k + 1..])) + multiset{ps[k].value}
  {
    RemoveOne(Values(ps), k);
    assert Values(ps[..k] + ps[k + 1..]) == Values(ps)[..k] + Values(ps)[k + 1..];
  }

  lemma PairsWithout(ps: seq<T.Pair<Node>>, k: nat)
    requires k < |ps|
    ensures multiset(ps[..k] + ps[k + 1..]) == multiset(ps) - multiset{ps[k]}
  {
    assert ps == ps[..k] + [ps[k]] + ps[k + 1..];
  }

  /** The list without the pair at k. */
  lemma TakeOut(ps: seq<T.Pair<Node>>, k: nat) returns (rest: seq<T.Pair<Node>>)
    requires k < |ps|
    ensures |rest| == |ps| - 1 && multiset(rest) == multiset(ps) - multiset{ps[k]}
    ensures multiset(Values(ps)) == multiset(Values(rest)) + multiset{ps[k].value}
  {
    hide Values;
    rest := ps[..k] + ps[k + 1..];
    PairsWithout(ps, k);
    ValuesWithout(ps, k);
  }

  /** Rehashing permutes the values. */
  lemma {:induction false} ValuesPermute(a: seq<T.Pair<Node>>, b: seq<T.Pair<Node>>)
    requires multiset(a) == multiset(b)
    ensures multiset(Values(a)) == multiset(Values(b))
    decreases |a|
  {
    hide Values;
    if a == [] {
      NothingPermuted(a, b);
    } else {
      var k := FindPair(a[0], b);
      var c := TakeOut(a, 0);
      var d := TakeOut(b, k);
      ValuesPermute(c, d);
    }
  }

  lemma NothingPermuted(a: seq<T.Pair<Node>>, b: seq<T.Pair<Node>>)
    requires multiset(a) == multiset(b) && a == []
    ensures a == b
  {
    assert |multiset(b)| == |b| && multiset(a) == multiset{};
  }

  lemma FindPair(p: T.Pair<Node>, ps: seq<T.Pair<Node>>) returns (k: nat)
    requires p in multiset(ps)
    ensures k < |ps| && ps[k] == p
  {
    k :| 0 <= k < |ps| && ps[k] == p;
  }

  lemma HeldIsValues(table: T.Table<Node>, serial: nat)
    ensures Held(Object(table, serial)) == Values(table.pairs)
  {
  }

  /** hashtable_set takes one reference, and gives one back when the key was there. */
  lemma SetMoves(t: T.Table<Node>, key: bytes, serial: nat, value: Node)
    requires T.Valid(t)
    ensures multiset(Values(T.Set(t, key, serial, value).pairs)) + multiset(Displaced(t, key))
      == multiset(Values(t.pairs)) + multiset([value])
  {
    hide T.Valid;
    var g := T.Grow(t);
    T.GrowCorrect(t);
    ValuesPermute(g.pairs, t.pairs);
    T.SameLookup(t, key);
    PutMoves(g, key, serial, value);
  }

  lemma PutMoves(g: T.Table<Node>, key: bytes, serial: nat, value: Node)
    ensures multiset(Values(T.Put(g, key, serial, value).pairs)) + multiset(Displaced(g, key))
      == multiset(Values(g.pairs)) + multiset([value])
  {
    var k := T.IndexOf(g.pairs, key);
    if k < |g.pairs| {
      SwapOne(Values(g.pairs), k, value);
      assert Values(g.pairs[k := g.pairs[k].(value := value)]) == Values(g.pairs)[k := value];
    } else {
      var n := T.FirstOf(g.pairs, g.buckets, T.Bucket(key, g.buckets));
      InsertOne(Values(g.pairs), n, value);
      var p := T.Pair(key, serial, value);
      assert Values(g.pairs[..n] + [p] + g.pairs[n..]) == Values(g.pairs)[..n] + [value] + Values(g.pairs)[n..];
    }
  }

  lemma SetHolds(t: T.Table<Node>, key: bytes, serial: nat, value: Node)
    ensures value in Values(T.Set(t, key, serial, value).pairs)
  {
    hide T.Grow;
    var g := T.Grow(t);
    var s := T.Put(g, key, serial, value).pairs;
    var k := T.IndexOf(g.pairs, key);
    var n := if k < |g.pairs| then k else T.FirstOf(g.pairs, g.buckets, T.Bucket(key, g.buckets));
    assert Values(s)[n] == s[n].value == value;
  }

  /** The value a key is taken away from. */
  function Displaced(t: T.Table<Node>, key: bytes): seq<Node> {
    match T.Get(t, key) case None => [] case Some(v) => [v]
  }

  lemma DelMoves(t: T.Table<Node>, key: bytes)
    ensures multiset(Values(T.Del(t, key).pairs)) + multiset(Displaced(t, key))
      == multiset(Values(t.pairs)) + multiset([])
  {
    var k := T.IndexOf(t.pairs, key);
    if k < |t.pairs| {
      ValuesWithout(t.pairs, k);
    }
    hide Values;
  }

  function WithSet(c: Content, key: bytes, value: Node): Content
    requires c.Object?
  {
    Object(T.Set(c.table, key, c.serial, value), c.serial + 1)
  }

  function Unit(n: Node): () { () }

  /** Setting a key that is valid text keeps keys valid and serials distinct and below the counter. */
  lemma SetKeepsWf(c: Content, key: bytes, value: Node)
    requires c.Object? && WfContent(c) && J.ValidText(key)
    ensures WfContent(WithSet(c, key, value))
  {
    hide T.Set, T.Valid, T.Grouped, J.ValidText, J.SerialsOk;
    var t, u := TableMap.MapTable(c.table, Unit), T.Set(c.table, key, c.serial, value);
    TableMap.MapKeepsValid(c.table, Unit);
    TableMap.MapSet(c.table, Unit, key, c.serial, value);
    T.SetIsMapUpdate(c.table, key, c.serial, value);
    KeysAreSound(c.table, c.serial);
    J.SetKeepsSerials(t, c.serial, key, ());
    SoundByKeys(u, c.serial + 1, c.table, key);
  }

  /** The serials of a well-formed object, without its values. */
  lemma KeysAreSound(t: T.Table<Node>, counter: nat)
    requires WfContent(Object(t, counter))
    ensures J.SerialsOk(TableMap.MapTable(t, Unit).pairs, counter)
  {
    hide T.Valid, J.ValidText;
    var ps := TableMap.MapTable(t, Unit).pairs;
    forall p, q | p in ps && q in ps && p.serial == q.serial ensures p == q {
      var i :| 0 <= i < |ps| && ps[i] == p;
      var j :| 0 <= j < |ps| && ps[j] == q;
    }
  }

  lemma SoundByKeys(u: T.Table<Node>, counter: nat, t: T.Table<Node>, key: bytes)
    requires T.Valid(u) && J.SerialsOk(TableMap.MapTable(u, Unit).pairs, counter) && J.ValidText(key)
    requires forall i :: 0 <= i < |t.pairs| ==> J.ValidText(t.pairs[i].key)
    requires forall p :: p in TableMap.MapTable(u, Unit).pairs ==>
      p.key == key || p in TableMap.MapTable(t, Unit).pairs
    ensures WfContent(Object(u, counter))
  {
    hide J.ValidText;
    var ps, qs := TableMap.MapTable(u, Unit).pairs, TableMap.MapTable(t, Unit).pairs;
    forall i | 0 <= i < |u.pairs| ensures J.ValidText(u.pairs[i].key) && u.pairs[i].serial < counter {
      assert ps[i] in ps;
      if ps[i].key != key {
        var k :| 0 <= k < |qs| && qs[k] == ps[i];
        assert t.pairs[k].key == u.pairs[i].key;
      }
    }
    forall i, j | 0 <= i < j < |u.pairs| ensures u.pairs[i].serial != u.pairs[j].serial {
      assert ps[i] in ps && ps[j] in ps;
    }
  }

  lemma DelKeepsWf(c: Content, key: bytes)
    requires c.Object? && WfContent(c)
    ensures WfContent(c.(table := T.Del(c.table, key)))
  {
    hide J.ValidText, T.Valid;
    T.DelIsMapRemove(c.table, key);
  }

  /** json_object_set_new_nocheck: the serial is used up, also when the key was there and keeps its own. */
  method ObjectSetNewNocheck(json: Node?, key: Option<bytes>, value: Node?, ghost h: Store, ghost owned: multiset<Node>)
    returns (ok: bool, ghost r: Store)
    requires Ready(json, value, h, owned) && (json != null && json.content.Object? ==> T.Valid(json.content.table))
    modifies Target(json)`content, h.Keys`refcount
    ensures ok <==> value != null && key.Some? && json != null && old(json.content).Object? && json != value
    ensures ok ==> json.content == WithSet(old(json.content), key.value, value)
    ensures !ok && json != null ==> json.content == old(json.content)
    ensures ok ==> r == Setter(h, json, Held(json.content), Displaced(old(json.content).table, key.value))
    ensures Kept(r) && Inv(r, owned) && (ok ==> json in r)
    ensures (key.Some? ==> J.ValidText(key.value)) ==> StaysWf(json) && (old(Sound(h)) ==> Sound(r))
  {
    hide Inv, Reached, T.Set, T.Valid;
    if value == null || key == None || json == null || !json.content.Object? || json == value {
      r := Reject(value, h, owned);
      return false, r;
    }
    var v: Node := value;
    var o := json.content;
    SetMoves(o.table, key.value, o.serial, v);
    SetHolds(o.table, key.value, o.serial, v);
    if WfContent(o) && J.ValidText(key.value) {
      SetKeepsWf(o, key.value, v);
    }
    var table: T.Table<Node> := T.Set(o.table, key.value, o.serial, v);
    HeldIsValues(o.table, o.serial);
    HeldIsValues(table, o.serial + 1);
    r := Put(json, Object(table, o.serial + 1), Displaced(o.table, key.value), [v], h, owned);
    ok := true;
  }

  /** json_object_set_new: a key that is not UTF-8 is refused. */
  method ObjectSetNew(json: Node?, key: Option<bytes>, value: Node?, ghost h: Store, ghost owned: multiset<Node>)
    returns (ok: bool, ghost r: Store)
    requires Ready(json, value, h, owned) && (json != null && json.content.Object? ==> T.Valid(json.content.table))
    modifies Target(json)`content, h.Keys`refcount
    ensures ok <==>
      && value != null && key.Some? && Utf8.ValidUtf8(key.value)
      && json != null && old(json.content).Object? && json != value
    ensures ok ==> json.content == WithSet(old(json.content), key.value, value)
    ensures !ok && json != null ==> json.content == old(json.content)
    ensures Kept(r) && Inv(r, owned) && (ok ==> json in r)
    ensures (key.Some? ==> NulFree(key.value)) ==> StaysWf(json) && (old(Sound(h)) ==> Sound(r))
  {
    hide Inv, Reached, T.Valid, Utf8.ValidUtf8, WithSet, Kept;
    var valid := false;
    if key.Some? {
      valid := Utf8Code.CheckString(key.value);
    }
    if valid {
      ok, r := ObjectSetNewNocheck(json, key, value, h, owned);
    } else {
      r := Reject(value, h, owned);
      ok := false;
    }
  }

  /** json_object_del */
  method ObjectDel(json: Node?, key: bytes, ghost h: Store, ghost owned: multiset<Node>)
    returns (ok: bool, ghost r: Store)
    requires Ready(json, null, h, owned)
    modifies Target(json)`content, h.Keys`refcount
    ensures ok <==> json != null && old(json.content).Object? && T.Get(old(json.content).table, key).Some?
    ensures json != null ==>
      json.content == if ok then old(json.content).(table := T.Del(old(json.content).table, key))
        else old(json.content)
    ensures Kept(r) && Inv(r, owned) && (ok ==> json in r)
    ensures StaysWf(json) && (old(Sound(h)) ==> Sound(r))
  {
    hide Inv, Reached, T.Del, T.Get;
    if json == null || !json.content.Object? || T.Get(json.content.table, key) == None {
      r := Reject(null, h, owned);
      return false, r;
    }
    var o := json.content;
    DelMoves(o.table, key);
    if WfContent(o) {
      DelKeepsWf(o, key);
    }
    HeldIsValues(o.table, o.serial);
    HeldIsValues(T.Del(o.table, key), o.serial);
    r := Put(json, Object(T.Del(o.table, key), o.serial), Displaced(o.table, key), [], h, owned);
    ok := true;
  }

  /** json_object_clear: the serial numbers start again. */
  method ObjectClear(json: Node?, ghost h: Store, ghost owned: multiset<Node>) returns (ok: bool, ghost r: Store)
    requires Ready(json, null, h, owned)
    modifies Target(json)`content, h.Keys`refcount
    ensures ok <==> json != null && old(json.content).Object?
    ensures json != null ==>
      json.content == if ok then Object(T.Clear(old(json.content).table), 0) else old(json.content)
    ensures Kept(r) && Inv(r, owned) && (ok ==> json in r)
    ensures StaysWf(json) && (old(Sound(h)) ==> Sound(r))
  {
    hide Inv, Reached;
    if json == null || !json.content.Object? {
      r := Reject(null, h, owned);
      return false, r;
    }
    var o := json.content;
    HeldIsValues(o.table, o.serial);
    HeldIsValues(T.Clear(o.table), 0);
    r := Put(json, Object(T.Clear(o.table), 0), Values(o.table.pairs), [], h, owned);
    ok := true;
  }
}
