/**
 * What the hash table of jansson/hashtable.c computes: the pairs in the order of its linked list.
 * A new pair goes in front of its bucket's segment, or to the end of the list when the bucket is
 * empty; growing re-inserts every pair in list order. Module HashTable proves the linked code
 * against these functions; here they are proved to be a finite map.
 */
module Table {
  import opened Basics

  const PRIMES: seq<nat> := [
    5, 13, 23, 53, 97, 193, 389, 769, 1543, 3079, 6151, 12289, 24593,
    49157, 98317, 196613, 393241, 786433, 1572869, 3145739, 6291469,
    12582917, 25165843, 50331653, 100663319, 201326611, 402653189,
    805306457, 1610612741]

  const LAST_ORDER: nat := 28

  /** The bucket count at a given index into the primes; the table is kept below the last one. */
  function NumBuckets(order: nat): (n: nat)
    ensures n >= 5
  {
    if order < LAST_ORDER then PRIMES[order] else PRIMES[LAST_ORDER]
  }

  lemma BucketsGrow(order: nat)
    requires order < LAST_ORDER
    ensures NumBuckets(order) < NumBuckets(order + 1)
  {}

  /** hash_str, with a 32-bit size_t: hash * 33 + c, where c is a sign-extended char. */
  function HashFrom(hash: nat, key: bytes): nat
    decreases |key|
  {
    if key == [] then hash else HashFrom((hash * 33 + SignedChar(key[0])) % 0x1_0000_0000, key[1..])
  }

  function Hash(key: bytes): nat { HashFrom(5381, key) }

  function Bucket(key: bytes, n: nat): nat
    requires n > 0
  {
    Hash(key) % n
  }

  datatype Pair<+V> = Pair(key: bytes, serial: nat, value: V)

  type pos = n: int | n > 0 witness 1

  /** order indexes the primes, buckets is the prime there, pairs is the list. */
  datatype Table<+V> = Table(order: nat, buckets: pos, pairs: seq<Pair<V>>)

  /** The position of the first pair of bucket b, or the length when there is none. */
  function FirstOf<V>(pairs: seq<Pair<V>>, n: nat, b: nat): (k: nat)
    requires n > 0
    ensures k <= |pairs|
    ensures forall i :: 0 <= i < k ==> Bucket(pairs[i].key, n) != b
    ensures k < |pairs| ==> Bucket(pairs[k].key, n) == b
  {
    if pairs == [] then 0
    else if Bucket(pairs[0].key, n) == b then 0
    else 1 + FirstOf(pairs[1..], n, b)
  }

  function Insert<V>(pairs: seq<Pair<V>>, n: nat, p: Pair<V>): (r: seq<Pair<V>>)
    requires n > 0
  {
    var k := FirstOf(pairs, n, Bucket(p.key, n));
    pairs[..k] + [p] + pairs[k..]
  }

  /** The list after the pairs of todo have been inserted, one by one, into done. */
  function Reinsert<V>(done: seq<Pair<V>>, todo: seq<Pair<V>>, n: nat): seq<Pair<V>>
    requires n > 0
    decreases |todo|
  {
    if todo == [] then done else Reinsert(Insert(done, n, todo[0]), todo[1..], n)
  }

  /** The position of key, or the length when it is absent. */
  function IndexOf<V>(pairs: seq<Pair<V>>, key: bytes): (k: nat)
    ensures k <= |pairs|
    ensures forall i :: 0 <= i < k ==> pairs[i].key != key
    ensures k < |pairs| ==> pairs[k].key == key
  {
    if pairs == [] then 0
    else if pairs[0].key == key then 0
    else 1 + IndexOf(pairs[1..], key)
  }

  function Regrow<V>(t: Table<V>, n: pos): Table<V> {
    Table(t.order + 1, n, Reinsert([], t.pairs, n))
  }

  /** The table hashtable_set inserts into: rehashed first when it has a pair for every bucket. */
  function Grow<V>(t: Table<V>): Table<V> {
    if |t.pairs| >= t.buckets then Regrow(t, NumBuckets(t.order + 1)) else t
  }

  /** hashtable_set after the rehash: a key that is present keeps its serial and its place. */
  function Put<V>(g: Table<V>, key: bytes, serial: nat, value: V): Table<V> {
    var k := IndexOf(g.pairs, key);
    if k < |g.pairs|
    then g.(pairs := g.pairs[k := g.pairs[k].(value := value)])
    else g.(pairs := Insert(g.pairs, g.buckets, Pair(key, serial, value)))
  }

  /** hashtable_set. */
  function Set<V>(t: Table<V>, key: bytes, serial: nat, value: V): Table<V> {
    Put(Grow(t), key, serial, value)
  }

  function Get<V>(t: Table<V>, key: bytes): Option<V> {
    var k := IndexOf(t.pairs, key);
    if k < |t.pairs| then Some(t.pairs[k].value) else None
  }

  function Del<V>(t: Table<V>, key: bytes): Table<V> {
    var k := IndexOf(t.pairs, key);
    if k < |t.pairs| then t.(pairs := t.pairs[..k] + t.pairs[k + 1..]) else t
  }

  function New<V>(): Table<V> { Table(0, NumBuckets(0), []) }

  function Clear<V>(t: Table<V>): Table<V> { t.(pairs := []) }

  // ----- the invariants of a table -----

  ghost predicate Distinct<V>(pairs: seq<Pair<V>>) {
    forall i, j :: 0 <= i < j < |pairs| ==> pairs[i].key != pairs[j].key
  }

  /** Each bucket is one contiguous segment of the list. */
  ghost predicate Grouped<V>(pairs: seq<Pair<V>>, n: nat)
    requires n > 0
  {
    forall i, j, k :: 0 <= i < j < k < |pairs| && Bucket(pairs[i].key, n) == Bucket(pairs[k].key, n)
      ==> Bucket(pairs[j].key, n) == Bucket(pairs[i].key, n)
  }

  ghost predicate Valid<V>(t: Table<V>) {
    Distinct(t.pairs) && Grouped(t.pairs, t.buckets)
  }

  /** The bucket count is the prime at the table's order. */
  predicate Sized<V>(t: Table<V>) {
    t.buckets == NumBuckets(t.order)
  }

  /** The table has not run out of primes: growing it, if needed, finds a larger one. */
  predicate CanGrow<V>(t: Table<V>) {
    t.order < LAST_ORDER || (t.order == LAST_ORDER && |t.pairs| < t.buckets)
  }

  ghost function Keys<V>(pairs: seq<Pair<V>>): set<bytes> {
    set i | 0 <= i < |pairs| :: pairs[i].key
  }

  /** The finite map a list of pairs stands for. */
  ghost function Map<V>(pairs: seq<Pair<V>>): map<bytes, Pair<V>> {
    map key | key in Keys(pairs) :: pairs[IndexOf(pairs, key)]
  }

  lemma KeyOfIndex<V>(pairs: seq<Pair<V>>, i: nat)
    requires Distinct(pairs) && i < |pairs|
    ensures IndexOf(pairs, pairs[i].key) == i
    ensures pairs[i].key in Map(pairs) && Map(pairs)[pairs[i].key] == pairs[i]
  {}

  lemma KeysByIndex<V>(pairs: seq<Pair<V>>, key: bytes)
    ensures key in Map(pairs) <==> IndexOf(pairs, key) < |pairs|
  {
    if IndexOf(pairs, key) < |pairs| {
      assert pairs[IndexOf(pairs, key)].key == key;
    }
  }

  /** Two lists stand for the same map when each holds every pair of the other. */
  lemma SameMap<V>(a: seq<Pair<V>>, b: seq<Pair<V>>)
    requires Distinct(a) && Distinct(b)
    requires forall p :: p in a <==> p in b
    ensures Map(a) == Map(b)
  {
    forall key ensures key in Map(a) <==> key in Map(b)
      ensures key in Map(a) ==> Map(a)[key] == Map(b)[key]
    {
      KeysByIndex(a, key);
      KeysByIndex(b, key);
      var i, j := IndexOf(a, key), IndexOf(b, key);
      if i < |a| {
        assert a[i] in b;
        var k :| 0 <= k < |b| && b[k] == a[i];
        KeyOfIndex(b, k);
      }
      if j < |b| {
        assert b[j] in a;
        var k :| 0 <= k < |a| && a[k] == b[j];
        KeyOfIndex(a, k);
      }
    }
  }

  // ----- inserting one pair -----

  lemma InsertMembers<V>(pairs: seq<Pair<V>>, n: nat, p: Pair<V>)
    requires n > 0
    ensures |Insert(pairs, n, p)| == |pairs| + 1
    ensures forall q :: q in Insert(pairs, n, p) <==> q == p || q in pairs
  {
    var k := FirstOf(pairs, n, Bucket(p.key, n));
    assert pairs == pairs[..k] + pairs[k..];
  }

  lemma InsertMultiset<V>(pairs: seq<Pair<V>>, n: nat, p: Pair<V>)
    requires n > 0
    ensures multiset(Insert(pairs, n, p)) == multiset(pairs) + multiset{p}
  {
    var k := FirstOf(pairs, n, Bucket(p.key, n));
    assert pairs == pairs[..k] + pairs[k..];
  }

  lemma InsertKeepsDistinct<V>(pairs: seq<Pair<V>>, n: nat, p: Pair<V>, tail: seq<Pair<V>>)
    requires n > 0 && Distinct(pairs + [p] + tail)
    ensures Distinct(Insert(pairs, n, p) + tail)
  {
    var k := FirstOf(pairs, n, Bucket(p.key, n));
    var a, b := pairs + [p] + tail, Insert(pairs, n, p) + tail;
    assert forall i :: 0 <= i < k ==> b[i] == a[i];
    assert b[k] == p == a[|pairs|];
    assert forall i :: k < i <= |pairs| ==> b[i] == a[i - 1];
    assert forall i :: |pairs| < i < |b| ==> b[i] == a[i];
  }

  lemma InsertKeepsGrouped<V>(pairs: seq<Pair<V>>, n: nat, p: Pair<V>)
    requires n > 0 && Grouped(pairs, n)
    ensures Grouped(Insert(pairs, n, p), n)
  {
    var at := FirstOf(pairs, n, Bucket(p.key, n));
    var r := Insert(pairs, n, p);
    assert forall i :: 0 <= i < at ==> r[i] == pairs[i];
    assert forall i :: at < i < |r| ==> r[i] == pairs[i - 1];
    forall i, j, k | 0 <= i < j < k < |r| && Bucket(r[i].key, n) == Bucket(r[k].key, n)
      ensures Bucket(r[j].key, n) == Bucket(r[i].key, n)
    {
      var i', k' := if i < at then i else i - 1, if k < at then k else k - 1;
      if j == at {
      } else {
        var j' := if j < at then j else j - 1;
        if i == at {
          assert Bucket(pairs[at].key, n) == Bucket(p.key, n);
          if at < j' { assert Bucket(pairs[j'].key, n) == Bucket(pairs[at].key, n); }
        } else if k != at {
          assert Bucket(pairs[j'].key, n) == Bucket(pairs[i'].key, n);
        }
      }
    }
  }

  // ----- growing -----

  lemma {:induction false} ReinsertCorrect<V>(done: seq<Pair<V>>, todo: seq<Pair<V>>, n: nat)
    requires n > 0 && Grouped(done, n) && Distinct(done + todo)
    ensures var r := Reinsert(done, todo, n);
      && Grouped(r, n) && Distinct(r) && |r| == |done| + |todo|
      && multiset(r) == multiset(done) + multiset(todo)
      && forall q :: q in r <==> q in done || q in todo
    decreases |todo|
  {
    if todo == [] {
      assert done + todo == done;
    } else {
      assert todo == [todo[0]] + todo[1..];
      assert done + todo == done + [todo[0]] + todo[1..];
      InsertMembers(done, n, todo[0]);
      InsertMultiset(done, n, todo[0]);
      InsertKeepsGrouped(done, n, todo[0]);
      InsertKeepsDistinct(done, n, todo[0], todo[1..]);
      ReinsertCorrect(Insert(done, n, todo[0]), todo[1..], n);
    }
  }

  /** Rehashing loses and duplicates nothing, and makes every bucket contiguous again. */
  lemma {:induction false} GrowCorrect<V>(t: Table<V>)
    requires Valid(t)
    ensures Valid(Grow(t)) && multiset(Grow(t).pairs) == multiset(t.pairs)
    ensures |Grow(t).pairs| == |t.pairs|
    ensures forall q :: q in Grow(t).pairs <==> q in t.pairs
  {
    if |t.pairs| >= t.buckets {
      ReinsertAll(t.pairs, NumBuckets(t.order + 1));
    }
  }

  lemma ReinsertAll<V>(pairs: seq<Pair<V>>, n: nat)
    requires n > 0 && Distinct(pairs)
    ensures var r := Reinsert([], pairs, n);
      && Grouped(r, n) && Distinct(r) && |r| == |pairs| && multiset(r) == multiset(pairs)
      && forall q :: q in r <==> q in pairs
  {
    assert [] + pairs == pairs;
    ReinsertCorrect([], pairs, n);
  }

  lemma GrowMap<V>(t: Table<V>)
    requires Valid(t)
    ensures Valid(Grow(t)) && |Grow(t).pairs| == |t.pairs| && Map(Grow(t).pairs) == Map(t.pairs)
  {
    GrowCorrect(t);
    SameMap(t.pairs, Grow(t).pairs);
  }

  // ----- the table is a finite map -----

  lemma {:induction false} SetIsMapUpdate<V>(t: Table<V>, key: bytes, serial: nat, value: V)
    requires Valid(t)
    ensures var r := Set(t, key, serial, value);
      var kept := if key in Map(t.pairs) then Map(t.pairs)[key].serial else serial;
      && Valid(r)
      && Map(r.pairs) == Map(t.pairs)[key := Pair(key, kept, value)]
      && |r.pairs| == |t.pairs| + (if key in Map(t.pairs) then 0 else 1)
  {
    GrowMap(t);
    var g := Grow(t);
    KeysByIndex(g.pairs, key);
    var k := IndexOf(g.pairs, key);
    if k < |g.pairs| {
      UpdateKeepsValid(g.pairs, k, value, g.buckets);
      UpdateMap(g.pairs, k, value);
    } else {
      InsertNew(g.pairs, g.buckets, Pair(key, serial, value));
    }
  }

  /** Setting an absent key adds one pair and touches no other. */
  lemma SetNewMembers<V(!new)>(t: Table<V>, key: bytes, serial: nat, value: V)
    requires Valid(t) && IndexOf(t.pairs, key) == |t.pairs|
    ensures forall p :: p in Set(t, key, serial, value).pairs <==> p in t.pairs || p == Pair(key, serial, value)
  {
    GrowMap(t);
    GrowCorrect(t);
    var g := Grow(t);
    KeysByIndex(t.pairs, key);
    KeysByIndex(g.pairs, key);
    InsertMembers(g.pairs, g.buckets, Pair(key, serial, value));
  }

  lemma InsertKeepsUnique<V>(pairs: seq<Pair<V>>, n: nat, p: Pair<V>)
    requires n > 0 && Distinct(pairs) && IndexOf(pairs, p.key) == |pairs|
    ensures Distinct(Insert(pairs, n, p)) && |Insert(pairs, n, p)| == |pairs| + 1
  {
    assert pairs + [p] + [] == pairs + [p];
    InsertKeepsDistinct(pairs, n, p, []);
    assert Insert(pairs, n, p) + [] == Insert(pairs, n, p);
  }

  lemma InsertNew<V>(pairs: seq<Pair<V>>, n: nat, p: Pair<V>)
    requires n > 0 && Distinct(pairs) && Grouped(pairs, n) && IndexOf(pairs, p.key) == |pairs|
    ensures var r := Insert(pairs, n, p);
      Distinct(r) && Grouped(r, n) && Map(r) == Map(pairs)[p.key := p] && |r| == |pairs| + 1
  {
    InsertKeepsUnique(pairs, n, p);
    InsertMembers(pairs, n, p);
    InsertKeepsGrouped(pairs, n, p);
    InsertMap(pairs, n, p);
  }

  lemma UpdateKeepsValid<V>(pairs: seq<Pair<V>>, k: nat, value: V, n: nat)
    requires n > 0 && Distinct(pairs) && Grouped(pairs, n) && k < |pairs|
    ensures var r := pairs[k := pairs[k].(value := value)]; Distinct(r) && Grouped(r, n)
  {
    var r := pairs[k := pairs[k].(value := value)];
    assert forall i :: 0 <= i < |r| ==> r[i].key == pairs[i].key;
    SameGroups(r, pairs, n);
  }

  lemma UpdateMap<V>(pairs: seq<Pair<V>>, k: nat, value: V)
    requires Distinct(pairs) && k < |pairs| && Distinct(pairs[k := pairs[k].(value := value)])
    ensures var p := pairs[k].(value := value);
      Map(pairs[k := p]) == Map(pairs)[p.key := p]
  {
    var p := pairs[k].(value := value);
    var r := pairs[k := p];
    assert r[k] == p;
    forall q | q in pairs && q.key != p.key ensures q in r {
      var i :| 0 <= i < |pairs| && pairs[i] == q;
      assert r[i] == q;
    }
    forall q | q in r ensures q == p || (q in pairs && q.key != p.key) {
      var i :| 0 <= i < |r| && r[i] == q;
    }
    MapByMembers(pairs, r, p);
  }

  /** A list that holds p and the pairs of another list with different keys is that list's map, updated. */
  lemma MapByMembers<V>(pairs: seq<Pair<V>>, r: seq<Pair<V>>, p: Pair<V>)
    requires Distinct(pairs) && Distinct(r)
    requires forall q :: q in r <==> q == p || (q in pairs && q.key != p.key)
    ensures Map(r) == Map(pairs)[p.key := p]
  {
    forall key ensures key in Map(r) <==> key in Map(pairs)[p.key := p]
      ensures key in Map(r) ==> Map(r)[key] == Map(pairs)[p.key := p][key]
    {
      MapMember(r, key);
      MapMember(pairs, key);
      assert p in r;
    }
  }

  lemma SameGroups<V>(a: seq<Pair<V>>, b: seq<Pair<V>>, n: nat)
    requires n > 0 && |a| == |b| && forall i :: 0 <= i < |a| ==> a[i].key == b[i].key
    requires Grouped(b, n)
    ensures Grouped(a, n)
  {
    forall i, j, k | 0 <= i < j < k < |a| && Bucket(a[i].key, n) == Bucket(a[k].key, n)
      ensures Bucket(a[j].key, n) == Bucket(a[i].key, n)
    {
      assert Bucket(b[i].key, n) == Bucket(b[k].key, n);
    }
  }

  lemma InsertMap<V>(pairs: seq<Pair<V>>, n: nat, p: Pair<V>)
    requires n > 0 && Distinct(pairs) && Distinct(Insert(pairs, n, p)) && IndexOf(pairs, p.key) == |pairs|
    ensures Map(Insert(pairs, n, p)) == Map(pairs)[p.key := p]
  {
    InsertMembers(pairs, n, p);
    MapByMembers(pairs, Insert(pairs, n, p), p);
  }

  /** Membership in the map, in terms of the pairs of the list. */
  lemma MapMember<V>(pairs: seq<Pair<V>>, key: bytes)
    requires Distinct(pairs)
    ensures key in Map(pairs) ==> Map(pairs)[key] in pairs && Map(pairs)[key].key == key
    ensures forall p :: p in pairs && p.key == key ==> key in Map(pairs) && Map(pairs)[key] == p
  {
    KeysByIndex(pairs, key);
    forall p | p in pairs && p.key == key ensures key in Map(pairs) && Map(pairs)[key] == p {
      var i :| 0 <= i < |pairs| && pairs[i] == p;
      KeyOfIndex(pairs, i);
    }
  }

  lemma GetIsLookup<V>(t: Table<V>, key: bytes)
    requires Valid(t)
    ensures Get(t, key) == if key in Map(t.pairs) then Some(Map(t.pairs)[key].value) else None
  {
    KeysByIndex(t.pairs, key);
  }

  /** Growing finds the same value under every key. */
  lemma SameLookup<V>(t: Table<V>, key: bytes)
    requires Valid(t)
    ensures Get(Grow(t), key) == Get(t, key)
  {
    hide Valid, Grow;
    GrowMap(t);
    GetIsLookup(t, key);
    GetIsLookup(Grow(t), key);
  }

  lemma {:induction false} DelIsMapRemove<V>(t: Table<V>, key: bytes)
    requires Valid(t)
    ensures Valid(Del(t, key)) && Map(Del(t, key).pairs) == Map(t.pairs) - {key}
    ensures |Del(t, key).pairs| == |t.pairs| - (if key in Map(t.pairs) then 1 else 0)
  {
    hide Distinct, Grouped;
    KeysByIndex(t.pairs, key);
    var k := IndexOf(t.pairs, key);
    if k < |t.pairs| {
      RemoveKeepsValid(t.pairs, k, t.buckets);
      RemoveMap(t.pairs, k);
    } else {
      assert Map(t.pairs) - {key} == Map(t.pairs);
    }
  }

  lemma RemoveKeepsValid<V>(pairs: seq<Pair<V>>, k: nat, n: nat)
    requires n > 0 && Distinct(pairs) && Grouped(pairs, n) && k < |pairs|
    ensures var r := pairs[..k] + pairs[k + 1..]; Distinct(r) && Grouped(r, n)
  {
    var r := pairs[..k] + pairs[k + 1..];
    assert forall i :: 0 <= i < k ==> r[i] == pairs[i];
    assert forall i :: k <= i < |r| ==> r[i] == pairs[i + 1];
  }

  lemma RemoveMembers<V>(pairs: seq<Pair<V>>, k: nat)
    requires Distinct(pairs) && k < |pairs|
    ensures forall q :: q in pairs[..k] + pairs[k + 1..] <==> q in pairs && q.key != pairs[k].key
  {
    var r := pairs[..k] + pairs[k + 1..];
    forall q | q in pairs && q.key != pairs[k].key ensures q in r {
      var i :| 0 <= i < |pairs| && pairs[i] == q;
      assert r[if i < k then i else i - 1] == q;
    }
    RemainingMembers(pairs, k);
  }

  lemma RemainingMembers<V>(pairs: seq<Pair<V>>, k: nat)
    requires Distinct(pairs) && k < |pairs|
    ensures forall q :: q in pairs[..k] + pairs[k + 1..] ==> q in pairs && q.key != pairs[k].key
  {
    var r := pairs[..k] + pairs[k + 1..];
    forall q | q in r ensures q in pairs && q.key != pairs[k].key {
      var i :| 0 <= i < |r| && r[i] == q;
      assert pairs[if i < k then i else i + 1] == q;
    }
  }

  lemma RemoveMap<V>(pairs: seq<Pair<V>>, k: nat)
    requires Distinct(pairs) && k < |pairs|
    ensures Map(pairs[..k] + pairs[k + 1..]) == Map(pairs) - {pairs[k].key}
  {
    RemoveKeepsDistinct(pairs, k);
    RemoveMembers(pairs, k);
    MapWithout(pairs, pairs[..k] + pairs[k + 1..], pairs[k].key);
  }

  lemma MapWithout<V>(pairs: seq<Pair<V>>, r: seq<Pair<V>>, key: bytes)
    requires Distinct(pairs) && Distinct(r)
    requires forall q :: q in r <==> q in pairs && q.key != key
    ensures Map(r) == Map(pairs) - {key}
  {
    forall other ensures other in Map(r) <==> other in Map(pairs) && other != key
      ensures other in Map(r) ==> Map(r)[other] == Map(pairs)[other]
    {
      MapMember(r, other);
      MapMember(pairs, other);
    }
  }

  lemma RemoveKeepsDistinct<V>(pairs: seq<Pair<V>>, k: nat)
    requires Distinct(pairs) && k < |pairs|
    ensures Distinct(pairs[..k] + pairs[k + 1..])
  {}

  /** The load never exceeds one pair a bucket while there are primes left to grow to. */
  lemma SetKeepsLoad<V>(t: Table<V>, key: bytes, serial: nat, value: V)
    requires Valid(t) && Sized(t) && CanGrow(t) && |t.pairs| <= t.buckets
    ensures var r := Set(t, key, serial, value);
      Sized(r) && |r.pairs| <= r.buckets && r.order <= LAST_ORDER
  {
    hide Valid, Map, Reinsert, Insert, IndexOf;
    GrowCorrect(t);
    SetIsMapUpdate(t, key, serial, value);
    if t.order < LAST_ORDER { BucketsGrow(t.order); }
  }
}
