/** A hash table only looks at keys: putting other values in commutes with everything it does. */
module TableMap {
  import opened Basics
  import T = Table

  function MapPairs<V, W>(ps: seq<T.Pair<V>>, f: V -> W): (r: seq<T.Pair<W>>)
    ensures |r| == |ps|
    ensures forall i :: 0 <= i < |r| ==> r[i] == T.Pair(ps[i].key, ps[i].serial, f(ps[i].value))
  {
    seq(|ps|, i requires 0 <= i < |ps| => T.Pair(ps[i].key, ps[i].serial, f(ps[i].value)))
  }

  function MapTable<V, W>(t: T.Table<V>, f: V -> W): T.Table<W> {
    T.Table(t.order, t.buckets, MapPairs(t.pairs, f))
  }

  lemma SameIndex<V, W>(ps: seq<T.Pair<V>>, f: V -> W, key: bytes)
    ensures T.IndexOf(MapPairs(ps, f), key) == T.IndexOf(ps, key)
  {
    var r := MapPairs(ps, f);
    assert T.IndexOf(r, key) < |r| ==> r[T.IndexOf(r, key)].key == key;
    assert T.IndexOf(ps, key) < |ps| ==> r[T.IndexOf(ps, key)].key == key;
  }

  lemma SameFirst<V, W>(ps: seq<T.Pair<V>>, f: V -> W, n: nat, b: nat)
    requires n > 0
    ensures T.FirstOf(MapPairs(ps, f), n, b) == T.FirstOf(ps, n, b)
  {
    hide T.Bucket;
    var r := MapPairs(ps, f);
    assert T.FirstOf(r, n, b) < |r| ==> r[T.FirstOf(r, n, b)].key == ps[T.FirstOf(r, n, b)].key;
    assert T.FirstOf(ps, n, b) < |ps| ==> r[T.FirstOf(ps, n, b)].key == ps[T.FirstOf(ps, n, b)].key;
  }

  lemma MapInsert<V, W>(ps: seq<T.Pair<V>>, f: V -> W, n: nat, p: T.Pair<V>)
    requires n > 0
    ensures MapPairs(T.Insert(ps, n, p), f) == T.Insert(MapPairs(ps, f), n, T.Pair(p.key, p.serial, f(p.value)))
  {
    SameFirst(ps, f, n, T.Bucket(p.key, n));
  }

  lemma {:induction false} MapReinsert<V, W>(done: seq<T.Pair<V>>, todo: seq<T.Pair<V>>, f: V -> W, n: nat)
    requires n > 0
    ensures MapPairs(T.Reinsert(done, todo, n), f) == T.Reinsert(MapPairs(done, f), MapPairs(todo, f), n)
    decreases |todo|
  {
    hide T.Insert;
    if todo != [] {
      MapInsert(done, f, n, todo[0]);
      MapReinsert(T.Insert(done, n, todo[0]), todo[1..], f, n);
      assert MapPairs(todo, f)[1..] == MapPairs(todo[1..], f);
    }
  }

  lemma MapGrow<V, W>(t: T.Table<V>, f: V -> W)
    ensures MapTable(T.Grow(t), f) == T.Grow(MapTable(t, f))
  {
    hide T.Reinsert, T.NumBuckets;
    assert MapPairs<V, W>([], f) == [];
    MapReinsert([], t.pairs, f, T.NumBuckets(t.order + 1));
  }

  lemma MapPut<V, W>(g: T.Table<V>, f: V -> W, key: bytes, serial: nat, value: V)
    ensures MapTable(T.Put(g, key, serial, value), f) == T.Put(MapTable(g, f), key, serial, f(value))
  {
    hide T.Insert;
    SameIndex(g.pairs, f, key);
    var k := T.IndexOf(g.pairs, key);
    if k < |g.pairs| {
      assert MapPairs(g.pairs[k := g.pairs[k].(value := value)], f) ==
        MapPairs(g.pairs, f)[k := MapPairs(g.pairs, f)[k].(value := f(value))];
    } else {
      MapInsert(g.pairs, f, g.buckets, T.Pair(key, serial, value));
    }
  }

  /** hashtable_set commutes with a change of values. */
  lemma MapSet<V, W>(t: T.Table<V>, f: V -> W, key: bytes, serial: nat, value: V)
    ensures MapTable(T.Set(t, key, serial, value), f) == T.Set(MapTable(t, f), key, serial, f(value))
  {
    MapGrow(t, f);
    MapPut(T.Grow(t), f, key, serial, value);
  }

  lemma MapAgrees<V, W>(ps: seq<T.Pair<V>>, f: V -> W, g: V -> W)
    requires forall i :: 0 <= i < |ps| ==> f(ps[i].value) == g(ps[i].value)
    ensures MapPairs(ps, f) == MapPairs(ps, g)
  {
  }

  lemma MapKeepsValid<V, W>(t: T.Table<V>, f: V -> W)
    ensures T.Valid(MapTable(t, f)) <==> T.Valid(t)
  {
    hide T.Bucket;
    var r := MapPairs(t.pairs, f);
    assert forall i :: 0 <= i < |r| ==> r[i].key == t.pairs[i].key;
  }
}
