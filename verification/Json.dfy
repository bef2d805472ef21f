/** JSON values as trees (jansson/value.c), their well-formedness and json_equal. */
module Json {
  import opened Basics
  import Utf8
  import T = Table

  /**
   * An object holds its hash table in list order, and the counter its next key will get as serial.
   * A real is the value the conversion oracle gave; its digits are libc's affair.
   */
  datatype Json =
    | Null
    | True
    | False
    | Int(i: int)
    | Real(r: real)
    | Str(s: bytes)
    | Arr(elems: seq<Json>)
    | Obj(table: T.Table<Json>, serial: nat)

  type Pair = T.Pair<Json>

  /** jsonp_strtod: the value of the text of a real, None on overflow. */
  type Strtod = bytes -> Option<real>

  const INT_MIN: int := -0x8000_0000_0000_0000
  const INT_MAX: int := 0x7FFF_FFFF_FFFF_FFFF

  predicate InRange(i: int) { INT_MIN <= i <= INT_MAX }

  /** What every string constructor demands or json_string checks. */
  predicate ValidText(s: bytes) { NulFree(s) && Utf8.ValidUtf8(s) }

  /** Serials are distinct and below the object's counter. */
  ghost predicate SerialsOk<V(!new)>(pairs: seq<T.Pair<V>>, counter: nat) {
    && (forall p :: p in pairs ==> p.serial < counter)
    && (forall p, q :: p in pairs && q in pairs && p.serial == q.serial ==> p == q)
  }

  ghost predicate Wf(j: Json) {
    match j
    case Null => true
    case True => true
    case False => true
    case Int(i) => InRange(i)
    case Real(_) => true
    case Str(s) => ValidText(s)
    case Arr(elems) => forall i :: 0 <= i < |elems| ==> Wf(elems[i])
    case Obj(table, serial) => T.Valid(table) && SerialsOk(table.pairs, serial) && WfEntries(table.pairs)
  }

  ghost predicate WfEntries(pairs: seq<Pair>) {
    forall i :: 0 <= i < |pairs| ==> ValidText(pairs[i].key) && Wf(pairs[i].value)
  }

  const EMPTY_OBJECT: Json := Obj(T.New(), 0)

  /** json_object_set_new_nocheck on an object. */
  function ObjectSet(o: Json, key: bytes, value: Json): (r: Json)
    requires o.Obj?
    ensures r.Obj?
  {
    Obj(T.Set(o.table, key, o.serial, value), o.serial + 1)
  }

  function ObjectGet(o: Json, key: bytes): Option<Json>
    requires o.Obj?
  {
    T.Get(o.table, key)
  }

  // ----- serials -----

  lemma {:induction false} SetKeepsSerials<V(!new)>(t: T.Table<V>, counter: nat, key: bytes, value: V)
    requires T.Valid(t) && SerialsOk(t.pairs, counter)
    ensures SerialsOk(T.Set(t, key, counter, value).pairs, counter + 1)
    ensures forall p :: p in T.Set(t, key, counter, value).pairs ==>
      (p.key == key && p.value == value) || (p in t.pairs && p.key != key)
  {
    T.GrowCorrect(t);
    var g := T.Grow(t);
    var k := T.IndexOf(g.pairs, key);
    if k < |g.pairs| {
      UpdateKeepsSerials(g.pairs, counter, k, value);
    } else {
      InsertKeepsSerials(g.pairs, counter, g.buckets, T.Pair(key, counter, value));
    }
  }

  lemma UpdateKeepsSerials<V(!new)>(pairs: seq<T.Pair<V>>, counter: nat, k: nat, value: V)
    requires T.Distinct(pairs) && SerialsOk(pairs, counter) && k < |pairs|
    ensures var r := pairs[k := pairs[k].(value := value)];
      && SerialsOk(r, counter + 1)
      && forall q :: q in r ==> q == pairs[k].(value := value) || (q in pairs && q.key != pairs[k].key)
  {
    var p := pairs[k].(value := value);
    var r := pairs[k := p];
    assert pairs[k] in pairs;
    forall q | q in r ensures q == p || (q in pairs && q.key != p.key && q.serial != p.serial) {
      var i :| 0 <= i < |r| && r[i] == q;
      if i != k {
        assert q == pairs[i];
        assert q.key != pairs[k].key;
      }
    }
  }

  lemma InsertKeepsSerials<V(!new)>(pairs: seq<T.Pair<V>>, counter: nat, n: nat, p: T.Pair<V>)
    requires n > 0 && SerialsOk(pairs, counter) && p.serial == counter && T.IndexOf(pairs, p.key) == |pairs|
    ensures var r := T.Insert(pairs, n, p);
      && SerialsOk(r, counter + 1)
      && forall q :: q in r ==> q == p || (q in pairs && q.key != p.key)
  {
    T.InsertMembers(pairs, n, p);
    AbsentKey(pairs, p.key);
    OneMoreSerial(pairs, counter, p, T.Insert(pairs, n, p));
  }

  lemma AbsentKey<V>(pairs: seq<T.Pair<V>>, key: bytes)
    requires T.IndexOf(pairs, key) == |pairs|
    ensures forall q :: q in pairs ==> q.key != key
  {}

  lemma OneMoreSerial<V(!new)>(pairs: seq<T.Pair<V>>, counter: nat, p: T.Pair<V>, r: seq<T.Pair<V>>)
    requires SerialsOk(pairs, counter) && p.serial == counter
    requires forall q :: q in r ==> q == p || q in pairs
    ensures SerialsOk(r, counter + 1)
  {}

  /** Setting a key of a well-formed object to a well-formed value leaves it well-formed. */
  lemma {:induction false} ObjectSetKeepsWf(o: Json, key: bytes, value: Json)
    requires o.Obj? && Wf(o) && ValidText(key) && Wf(value)
    ensures Wf(ObjectSet(o, key, value))
  {
    T.SetIsMapUpdate(o.table, key, o.serial, value);
    SetKeepsSerials(o.table, o.serial, key, value);
    var pairs := T.Set(o.table, key, o.serial, value).pairs;
    forall i | 0 <= i < |pairs| ensures ValidText(pairs[i].key) && Wf(pairs[i].value) {
      assert pairs[i] in pairs;
      if pairs[i] in o.table.pairs {
        var k :| 0 <= k < |o.table.pairs| && o.table.pairs[k] == pairs[i];
      }
    }
  }

  // ----- equality -----

  /** json_equal: sizes first, then every entry of the first looked up in the second. */
  predicate Equal(a: Json, b: Json)
    decreases a
  {
    match a
    case Null => b.Null?
    case True => b.True?
    case False => b.False?
    case Int(i) => b.Int? && i == b.i
    case Real(r) => b.Real? && r == b.r
    case Str(s) => b.Str? && s == b.s
    case Arr(elems) =>
      b.Arr? && |elems| == |b.elems| && forall i :: 0 <= i < |elems| ==> Equal(elems[i], b.elems[i])
    case Obj(table, _) =>
      && b.Obj?
      && |table.pairs| == |b.table.pairs|
      && FindsAllEqual(table.pairs, b.table)
  }

  predicate FindsAllEqual(pairs: seq<Pair>, table: T.Table<Json>)
    decreases pairs
  {
    forall i :: 0 <= i < |pairs| ==> FindsEqual(pairs[i], table)
  }

  predicate FindsEqual(pair: Pair, table: T.Table<Json>)
    decreases pair
  {
    T.Get(table, pair.key).Some? && Equal(pair.value, T.Get(table, pair.key).value)
  }

  /** What a JSON text denotes: arrays are sequences, objects are finite maps. */
  datatype Value =
    | VNull
    | VTrue
    | VFalse
    | VInt(i: int)
    | VReal(r: real)
    | VStr(s: bytes)
    | VArr(elems: seq<Value>)
    | VObj(members: map<bytes, Value>)

  ghost function Denote(j: Json): Value {
    match j
    case Null => VNull
    case True => VTrue
    case False => VFalse
    case Int(i) => VInt(i)
    case Real(r) => VReal(r)
    case Str(s) => VStr(s)
    case Arr(elems) => VArr(seq(|elems|, i requires 0 <= i < |elems| => Denote(elems[i])))
    case Obj(table, _) => VObj(DenoteMembers(table.pairs))
  }

  ghost function DenoteMembers(pairs: seq<Pair>): map<bytes, Value> {
    map key | key in T.Keys(pairs) ::
      assert T.IndexOf(pairs, key) < |pairs| by { T.KeysByIndex(pairs, key); }
      Denote(pairs[T.IndexOf(pairs, key)].value)
  }

  lemma DistinctKeysCount<V>(pairs: seq<T.Pair<V>>)
    requires T.Distinct(pairs)
    ensures |T.Keys(pairs)| == |pairs|
  {
    if pairs == [] {
      assert T.Keys(pairs) == {};
    } else {
      var init := pairs[..|pairs| - 1];
      var last := pairs[|pairs| - 1];
      DistinctKeysCount(init);
      assert pairs == init + [last];
      KeysOfMore(init, last);
      assert last.key !in T.Keys(init);
    }
  }

  lemma KeysOfMore<V>(init: seq<T.Pair<V>>, last: T.Pair<V>)
    ensures T.Keys(init + [last]) == T.Keys(init) + {last.key}
  {
    var pairs := init + [last];
    forall key | key in T.Keys(pairs) ensures key in T.Keys(init) + {last.key} {
      var i :| 0 <= i < |pairs| && pairs[i].key == key;
      if i < |init| { assert init[i].key == key; }
    }
    forall key | key in T.Keys(init) ensures key in T.Keys(pairs) {
      var i :| 0 <= i < |init| && init[i].key == key;
      assert pairs[i].key == key;
    }
    assert pairs[|init|].key in T.Keys(pairs);
  }

  lemma SubsetSameSize<X>(a: set<X>, b: set<X>)
    requires a <= b && |a| == |b|
    ensures a == b
  {
    assert |b - a| == 0;
  }

  /** One-directional lookup with equal sizes decides equality of what the values denote. */
  lemma {:induction false} EqualIffSameDenotation(a: Json, b: Json)
    requires Wf(a) && Wf(b)
    ensures Equal(a, b) <==> Denote(a) == Denote(b)
    decreases a, 1
  {
    if a.Arr? && b.Arr? {
      ArraysEqualIffSameDenotation(a, b);
    } else if a.Obj? && b.Obj? {
      TablesEqualIffSameDenotation(a.table, b.table);
    }
  }

  lemma {:induction false} ArraysEqualIffSameDenotation(a: Json, b: Json)
    requires Wf(a) && Wf(b) && a.Arr? && b.Arr?
    ensures Equal(a, b) <==> Denote(a) == Denote(b)
    decreases a, 0
  {
    if |a.elems| == |b.elems| {
      forall i | 0 <= i < |a.elems|
        ensures Equal(a.elems[i], b.elems[i]) <==> Denote(a).elems[i] == Denote(b).elems[i]
      {
        EqualIffSameDenotation(a.elems[i], b.elems[i]);
      }
      if Equal(a, b) {
        assert Denote(a).elems == Denote(b).elems;
      }
    } else {
      assert |Denote(a).elems| == |a.elems| && |Denote(b).elems| == |b.elems|;
    }
  }

  lemma DenoteEntry(pairs: seq<Pair>, i: nat)
    requires T.Distinct(pairs) && i < |pairs|
    ensures pairs[i].key in DenoteMembers(pairs)
    ensures DenoteMembers(pairs)[pairs[i].key] == Denote(pairs[i].value)
  {
    T.KeyOfIndex(pairs, i);
    assert pairs[i].key in T.Keys(pairs);
  }

  lemma {:induction false} EntryEqualIffSameDenotation(pair: Pair, table: T.Table<Json>)
    requires Wf(pair.value) && T.Distinct(table.pairs) && WfEntries(table.pairs)
    ensures FindsEqual(pair, table) <==>
      pair.key in DenoteMembers(table.pairs) && Denote(pair.value) == DenoteMembers(table.pairs)[pair.key]
    decreases pair
  {
    T.KeysByIndex(table.pairs, pair.key);
    var k := T.IndexOf(table.pairs, pair.key);
    if k < |table.pairs| {
      DenoteEntry(table.pairs, k);
      EqualIffSameDenotation(pair.value, table.pairs[k].value);
    }
  }

  ghost predicate AgreeOn<W>(pairs: seq<Pair>, ma: map<bytes, W>, mb: map<bytes, W>)
    requires ma.Keys == T.Keys(pairs)
  {
    forall i :: 0 <= i < |pairs| ==>
      assert pairs[i].key in ma.Keys;
      pairs[i].key in mb && ma[pairs[i].key] == mb[pairs[i].key]
  }

  /** A map with as many keys as another, agreeing with it on every key of the first, is the other. */
  lemma AgreeingMapsAreEqual<W>(pairs: seq<Pair>, ma: map<bytes, W>, mb: map<bytes, W>)
    requires T.Distinct(pairs) && ma.Keys == T.Keys(pairs)
    ensures |pairs| == |mb| && AgreeOn(pairs, ma, mb) <==> ma == mb
  {
    DistinctKeysCount(pairs);
    assert |ma| == |ma.Keys| && |mb| == |mb.Keys|;
    if |pairs| == |mb| && AgreeOn(pairs, ma, mb) {
      forall key | key in ma ensures key in mb && ma[key] == mb[key] {
        var i :| 0 <= i < |pairs| && pairs[i].key == key;
      }
      SubsetSameSize(ma.Keys, mb.Keys);
    }
  }

  lemma DenoteSize(pairs: seq<Pair>)
    requires T.Distinct(pairs)
    ensures DenoteMembers(pairs).Keys == T.Keys(pairs) && |DenoteMembers(pairs)| == |pairs|
  {
    DistinctKeysCount(pairs);
    assert DenoteMembers(pairs).Keys == T.Keys(pairs);
    assert |DenoteMembers(pairs)| == |DenoteMembers(pairs).Keys|;
  }

  lemma {:induction false} TablesEqualIffSameDenotation(a: T.Table<Json>, b: T.Table<Json>)
    requires T.Distinct(a.pairs) && WfEntries(a.pairs) && T.Distinct(b.pairs) && WfEntries(b.pairs)
    ensures |a.pairs| == |b.pairs| && FindsAllEqual(a.pairs, b)
      <==> DenoteMembers(a.pairs) == DenoteMembers(b.pairs)
    decreases a
  {
    DenoteSize(b.pairs);
    EntriesEqualIffAgreeing(a.pairs, b);
    AgreeingMapsAreEqual(a.pairs, DenoteMembers(a.pairs), DenoteMembers(b.pairs));
  }

  lemma {:induction false} EntriesEqualIffAgreeing(pairs: seq<Pair>, table: T.Table<Json>)
    requires T.Distinct(pairs) && WfEntries(pairs) && T.Distinct(table.pairs) && WfEntries(table.pairs)
    ensures DenoteMembers(pairs).Keys == T.Keys(pairs)
    ensures FindsAllEqual(pairs, table) <==> AgreeOn(pairs, DenoteMembers(pairs), DenoteMembers(table.pairs))
    decreases pairs
  {
    DenoteSize(pairs);
    var ma, mb := DenoteMembers(pairs), DenoteMembers(table.pairs);
    forall i | 0 <= i < |pairs|
      ensures pairs[i].key in ma
      ensures FindsEqual(pairs[i], table) <==> pairs[i].key in mb && ma[pairs[i].key] == mb[pairs[i].key]
    {
      EntryEqualIffSameDenotation(pairs[i], table);
      DenoteEntry(pairs, i);
    }
  }

  /** json_equal is an equivalence on well-formed values. */
  lemma {:induction false} EqualIsEquivalence(a: Json, b: Json, c: Json)
    requires Wf(a) && Wf(b) && Wf(c)
    ensures Equal(a, a)
    ensures Equal(a, b) ==> Equal(b, a)
    ensures Equal(a, b) && Equal(b, c) ==> Equal(a, c)
  {
    EqualIffSameDenotation(a, a);
    EqualIffSameDenotation(a, b);
    EqualIffSameDenotation(b, a);
    EqualIffSameDenotation(b, c);
    EqualIffSameDenotation(a, c);
  }
}
