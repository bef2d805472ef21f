/** The linked hash table of jansson/hashtable.c, proved against the functions of module Table. */
module HashTable {
  import opened Basics
  import opened BucketRanges
  import T = Table
  import R = Ring

  /** hashtable_pair, without its link. */
  datatype Entry<V> = Entry(hash: nat, key: bytes, serial: nat, value: V)

  function EntryOf<V>(p: T.Pair<V>): Entry<V> { Entry(T.Hash(p.key), p.key, p.serial, p.value) }

  /** The links in list order, the pairs they carry, and where each bucket's segment lies. */
  datatype View<!V> = View(links: seq<R.Link<Entry<V>>>, pairs: seq<T.Pair<V>>, lo: seq<int>, hi: seq<int>)

  /** The buckets delimit exactly the pairs that hash to them. */
  ghost predicate Sound<V>(v: View<V>, head: R.Link<Entry<V>>, buckets: seq<Bucket<R.Link<Entry<V>>>>) {
    && |buckets| > 0 && |v.pairs| == |v.links|
    && Ends(buckets, head, v.links, v.lo, v.hi)
    && Ranges(Buckets(v.pairs, |buckets|), |buckets|, v.lo, v.hi)
  }

  ghost function Inserted<V>(v: View<V>, b: nat, k: nat, list: R.Link<Entry<V>>, p: T.Pair<V>): View<V>
    requires |v.pairs| == |v.links| && |v.lo| == |v.hi| && k <= |v.links|
  {
    View(v.links[..k] + [list] + v.links[k..], v.pairs[..k] + [p] + v.pairs[k..],
         LoInserted(v.lo, b, k), HiInserted(v.lo, v.hi, b, k))
  }

  lemma InsertedParts<V>(v: View<V>, b: nat, k: nat, list: R.Link<Entry<V>>, p: T.Pair<V>)
    requires |v.pairs| == |v.links| && |v.lo| == |v.hi| && k <= |v.links|
    ensures var r := Inserted(v, b, k, list, p);
      r.links == v.links[..k] + [list] + v.links[k..] && r.pairs == v.pairs[..k] + [p] + v.pairs[k..]
  {
  }

  lemma SoundInsert<V>(v: View<V>, head: R.Link<Entry<V>>, buckets: seq<Bucket<R.Link<Entry<V>>>>,
                       b: nat, list: R.Link<Entry<V>>, p: T.Pair<V>)
    returns (k: nat)
    requires Sound(v, head, buckets) && b == T.Bucket(p.key, |buckets|) && R.Apart(head, v.links)
    ensures b < |buckets| && k == T.FirstOf(v.pairs, |buckets|, b) && k <= |v.links| == |v.pairs| && |v.lo| == |v.hi|
    ensures var empty := buckets[b] == Bucket(head, head);
      && (empty ==> k == |v.links|)
      && (!empty ==> k < |v.links| && buckets[b].first == v.links[k] && buckets[b].first != head)
      && Sound(Inserted(v, b, k, list, p), head, buckets[b := Bucket(list, if empty then list else buckets[b].last)])
    ensures Inserted(v, b, k, list, p).pairs == T.Insert(v.pairs, |buckets|, p)
  {
    hide Ends, Ranges, LoInserted, HiInserted, T.Bucket;
    var n: T.pos := |buckets|;
    BucketBound(p.key, n);
    var bs := Buckets(v.pairs, n);
    k := T.FirstOf(v.pairs, n, b);
    EndsSized(buckets, head, v.links, v.lo, v.hi, b);
    RangesFirst(v.pairs, n, v.lo, v.hi, b);
    RangesInsert(bs, n, v.lo, v.hi, b, k);
    BucketsInsert(v.pairs, n, p);
    EndsInsert(buckets, head, v.links, bs, v.lo, v.hi, b, k, list);
  }

  /** A bucket without the link at k: its ends move inward when that link was one of them. */
  function Shrunk<X(==)>(bucket: Bucket<R.Link<X>>, head: R.Link<X>, links: seq<R.Link<X>>, k: nat): Bucket<R.Link<X>>
    requires k < |links|
  {
    if bucket.first == links[k] && bucket.last == links[k] then Bucket(head, head)
    else if bucket.first == links[k] then bucket.(first := R.At(head, links, k + 1))
    else if bucket.last == links[k] then bucket.(last := if k == 0 then head else links[k - 1])
    else bucket
  }

  ghost function Removed<V>(v: View<V>, k: nat, b: nat): View<V>
    requires |v.pairs| == |v.links| && |v.lo| == |v.hi| && k < |v.links|
  {
    View(v.links[..k] + v.links[k + 1..], v.pairs[..k] + v.pairs[k + 1..],
         LoRemoved(v.lo, k), HiRemoved(v.lo, v.hi, b, k))
  }

  lemma SoundRemove<V>(v: View<V>, head: R.Link<Entry<V>>, buckets: seq<Bucket<R.Link<Entry<V>>>>, k: nat, b: nat)
    requires Sound(v, head, buckets) && k < |v.pairs| && b == T.Bucket(v.pairs[k].key, |buckets|)
      && R.Apart(head, v.links)
    ensures b < |buckets| && |v.lo| == |v.hi| && |v.pairs| == |v.links|
    ensures Sound(Removed(v, k, b), head, buckets[b := Shrunk(buckets[b], head, v.links, k)])
    ensures Removed(v, k, b).links == v.links[..k] + v.links[k + 1..]
    ensures Removed(v, k, b).pairs == v.pairs[..k] + v.pairs[k + 1..]
  {
    hide Ranges, LoRemoved, HiRemoved, T.Bucket;
    var n: T.pos := |buckets|;
    BucketBound(v.pairs[k].key, n);
    var bs := Buckets(v.pairs, n);
    EndsSized(buckets, head, v.links, v.lo, v.hi, b);
    EndsRemove(buckets, head, v.links, bs, v.lo, v.hi, k);
    RangesRemove(bs, n, v.lo, v.hi, k);
    assert Buckets(v.pairs[..k] + v.pairs[k + 1..], n) == bs[..k] + bs[k + 1..];
  }

  /** Each link carries the pair at its position. */
  ghost predicate Carry<V>(links: seq<R.Link<Entry<V>>>, pairs: seq<T.Pair<V>>)
    reads (set l | l in links)`item
  {
    |pairs| == |links| && forall i :: 0 <= i < |links| ==> links[i].item == Some(EntryOf(pairs[i]))
  }

  lemma CarryInsert<V>(links: seq<R.Link<Entry<V>>>, pairs: seq<T.Pair<V>>, k: nat, list: R.Link<Entry<V>>,
      p: T.Pair<V>)
    requires Carry(links, pairs) && k <= |links| && list.item == Some(EntryOf(p))
    ensures Carry(links[..k] + [list] + links[k..], pairs[..k] + [p] + pairs[k..])
  {
  }

  lemma CarryRemove<V>(links: seq<R.Link<Entry<V>>>, pairs: seq<T.Pair<V>>, k: nat)
    requires Carry(links, pairs) && k < |links|
    ensures Carry(links[..k] + links[k + 1..], pairs[..k] + pairs[k + 1..])
  {
  }

  lemma CarriedAt<V>(links: seq<R.Link<Entry<V>>>, pairs: seq<T.Pair<V>>, i: nat)
    requires Carry(links, pairs) && i < |links|
    ensures i < |pairs| && links[i].item == Some(EntryOf(pairs[i]))
  {
  }

  lemma BucketOfHash(key: bytes, n: T.pos)
    ensures T.Hash(key) % n == T.Bucket(key, n)
  {
  }

  /** From position i on, each link still points to the next one, and the last one to the head. */
  ghost predicate Chained<X>(head: R.Link<X>, links: seq<R.Link<X>>, i: nat)
    reads (set l | l in links)`next
  {
    && (forall j, m :: i <= j < m < |links| && m == j + 1 ==> links[j].next == links[m])
    && (i < |links| ==> links[|links| - 1].next == head)
  }

  /** The links from position i on are none of those before it. */
  lemma Untouched<X>(head: R.Link<X>, todo: seq<R.Link<X>>, done: seq<R.Link<X>>, i: nat)
    requires R.Apart(head, todo) && i <= |todo| && forall l :: l in done ==> l in todo[..i]
    ensures forall j :: i <= j < |todo| ==> todo[j] !in done && todo[j] != head
  {
  }

  class HashTable<V> {
    var size: nat
    /** The bucket count is the prime at this index. */
    var order: nat
    var buckets: array<Bucket<R.Link<Entry<V>>>>
    const head: R.Link<Entry<V>>
    ghost var view: View<V>

    /** The ring is sound, and each bucket's ends delimit exactly the pairs that hash to it. */
    ghost predicate Indexed()
      reads `view, `buckets, buckets, head, view.links
    {
      R.Linked(head, view.links) && Carry(view.links, view.pairs) && Sound(view, head, buckets[..])
    }

    ghost predicate Valid()
      reads this, buckets, head, view.links
    {
      && Indexed() && T.Distinct(view.pairs) && size == |view.links|
      && order <= T.LAST_ORDER && buckets.Length == T.NumBuckets(order)
    }

    /** The table this object implements. */
    ghost function Contents(): T.Table<V>
      reads this
    {
      T.Table(order, T.NumBuckets(order), view.pairs)
    }

    /** The map it stands for, with the serial of each key. */
    ghost function Dict(): map<bytes, T.Pair<V>>
      reads `view
    {
      T.Map(view.pairs)
    }

    /** The theorems about tables apply. */
    lemma IsTable()
      requires Valid()
      ensures T.Valid(Contents())
    {
      RangesGrouped(view.pairs, buckets.Length, view.lo, view.hi);
    }

    lemma DictSet(key: bytes, serial: nat, value: V)
      requires Valid()
      ensures T.Map(T.Set(Contents(), key, serial, value).pairs) ==
        Dict()[key := T.Pair(key, if key in Dict() then Dict()[key].serial else serial, value)]
    {
      hide Valid, T.Valid, T.Map, T.Set;
      IsTable();
      T.SetIsMapUpdate(Contents(), key, serial, value);
    }

    lemma DictDel(key: bytes)
      requires Valid()
      ensures T.Map(T.Del(Contents(), key).pairs) == Dict() - {key}
      ensures T.Get(Contents(), key) == if key in Dict() then Some(Dict()[key].value) else None
    {
      hide Valid, T.Valid, T.Map, T.Del, T.Get;
      IsTable();
      T.DelIsMapRemove(Contents(), key);
      T.GetIsLookup(Contents(), key);
    }

    /** hashtable_init. */
    constructor ()
      ensures Valid() && Contents() == T.New() && fresh(buckets) && fresh(head)
    {
      size := 0;
      order := 0;
      var h := new R.Link<Entry<V>>(None);
      head := h;
      var n := T.NumBuckets(0);
      buckets := new Bucket<R.Link<Entry<V>>>[n](_ => Bucket(h, h));
      view := View([], [], seq(n, _ => 0), seq(n, _ => -1));
    }

    /** bucket_is_empty. */
    predicate BucketIsEmpty(bucket: Bucket<R.Link<Entry<V>>>) {
      bucket.first == head && bucket.first == bucket.last
    }

    /** The body of insert_to_bucket: links the pair in, and adjusts the ends of its bucket. */
    method Place(b: nat, list: R.Link<Entry<V>>, ghost links: seq<R.Link<Entry<V>>>, ghost k: nat)
      requires b < buckets.Length && R.Linked(head, links) && k <= |links| && list != head && list !in links
      requires BucketIsEmpty(buckets[b]) ==> k == |links|
      requires !BucketIsEmpty(buckets[b]) ==> k < |links| && buckets[b].first == links[k]
      modifies buckets, (R.All(head, links) + {list})`next, (R.All(head, links) + {list})`prev
      ensures R.Linked(head, links[..k] + [list] + links[k..])
      ensures buckets[..] ==
        old(buckets[..])[b := Bucket(list, if BucketIsEmpty(old(buckets[b])) then list else old(buckets[b]).last)]
    {
      hide R.Linked;
      if BucketIsEmpty(buckets[b]) {
        R.Insert(head, list, head, links, k);
        buckets[b] := Bucket(list, list);
      } else {
        R.Insert(buckets[b].first, list, head, links, k);
        buckets[b] := buckets[b].(first := list);
      }
    }

    /** insert_to_bucket: the pair goes where module Table puts it. */
    method InsertToBucket(b: nat, list: R.Link<Entry<V>>, ghost p: T.Pair<V>) returns (ghost k: nat)
      requires Indexed() && b == T.Bucket(p.key, buckets.Length)
      requires list.item == Some(EntryOf(p)) && list != head && list !in view.links
      modifies `view, buckets, (R.All(head, view.links) + {list})`next, (R.All(head, view.links) + {list})`prev
      ensures Indexed() && view.pairs == T.Insert(old(view.pairs), buckets.Length, p)
      ensures k <= |old(view.links)| && view.links == old(view.links)[..k] + [list] + old(view.links)[k..]
    {
      hide T.Insert, T.Bucket, Sound, R.Linked, Carry, Inserted;
      R.HeadApart(head, view.links);
      k := SoundInsert(view, head, buckets[..], b, list, p);
      CarryInsert(view.links, view.pairs, k, list, p);
      ghost var r := Inserted(view, b, k, list, p);
      InsertedParts(view, b, k, list, p);
      Place(b, list, view.links, k);
      view := r;
    }

    /** hashtable_find_pair: the link of the pair with this key, and its position. */
    method FindPair(b: nat, key: bytes, hash: nat) returns (r: Option<R.Link<Entry<V>>>, ghost k: nat)
      requires Indexed() && T.Distinct(view.pairs) && hash == T.Hash(key) && b == T.Bucket(key, buckets.Length)
      ensures k == T.IndexOf(view.pairs, key)
      ensures r == if k < |view.pairs| then Some(view.links[k]) else None
    {
      assert b < buckets.Length;
      hide T.Bucket, T.Hash, Ends;
      ghost var v := view;
      EndsSized(buckets[..], head, v.links, v.lo, v.hi, b);
      k := |v.pairs|;
      if BucketIsEmpty(buckets[b]) {
        NotInBucket(key, b);
        return None, |v.pairs|;
      }
      var list := buckets[b].first;
      k := v.lo[b];
      while true
        invariant v.lo[b] <= k <= v.hi[b] && k < |v.links| && list == v.links[k]
        invariant forall i :: v.lo[b] <= i < k ==> v.pairs[i].key != key
        decreases v.hi[b] - k
      {
        assert v.links[k].item == Some(EntryOf(v.pairs[k]));
        var pair := list.item.value;
        if pair.hash == hash && pair.key == key {
          T.KeyOfIndex(v.pairs, k);
          return Some(list), k;
        }
        if list == buckets[b].last {
          break;
        }
        R.Next(head, v.links, k);
        assert k < v.hi[b];
        list := list.next;
        k := k + 1;
      }
      NotInBucket(key, b);
      return None, |v.pairs|;
    }

    /** A key that is not among its bucket's pairs is nowhere. */
    lemma NotInBucket(key: bytes, b: nat)
      requires Indexed() && b == T.Bucket(key, buckets.Length) && b < buckets.Length
      requires forall i :: view.lo[b] <= i <= view.hi[b] ==> view.pairs[i].key != key
      ensures T.IndexOf(view.pairs, key) == |view.pairs|
    {
      var bs := Buckets(view.pairs, buckets.Length);
    }

    /** hashtable_get. */
    method Get(key: bytes) returns (r: Option<V>)
      requires Valid()
      ensures r == T.Get(Contents(), key)
      ensures r == if key in Dict() then Some(Dict()[key].value) else None
    {
      hide T.Hash, Dict;
      DictDel(key);
      var hash := T.Hash(key);
      var found, k := FindPair(hash % T.NumBuckets(order), key, hash);
      match found {
        case None => r := None;
        case Some(list) => r := Some(list.item.value.value);
      }
    }

    /** The part of hashtable_set that puts the value into a pair that exists. */
    method Replace(list: R.Link<Entry<V>>, value: V, ghost k: nat)
      requires Valid() && k < |view.links| && list == view.links[k]
      modifies `view, list`item
      ensures Valid() && view.pairs == old(view.pairs)[k := old(view.pairs)[k].(value := value)]
      ensures view.links == old(view.links)
    {
      assert list.item == Some(EntryOf(view.pairs[k]));
      list.item := Some(list.item.value.(value := value));
      view := view.(pairs := view.pairs[k := view.pairs[k].(value := value)]);
      assert Buckets(view.pairs, buckets.Length) == old(Buckets(view.pairs, buckets.Length));
    }

    /** While the list is relinked: the first i pairs are back, the other links still form the old chain. */
    ghost predicate Relinking(todo: seq<R.Link<Entry<V>>>, pairs: seq<T.Pair<V>>, i: nat)
      reads this, buckets, head, view.links, (set l | l in todo)`next, (set l | l in todo)`item
    {
      && Indexed() && i <= |todo| && R.Apart(head, todo) && Carry(todo, pairs) && Chained(head, todo, i)
      && (forall l :: l in view.links ==> l in todo[..i])
      && |pairs| == |todo| && buckets.Length > 0
      && T.Reinsert(view.pairs, pairs[i..], buckets.Length) == T.Reinsert([], pairs, buckets.Length)
    }

    /** A round of the loop of hashtable_do_rehash: the successor is taken before the link moves. */
    method RelinkOne(list: R.Link<Entry<V>>, ghost todo: seq<R.Link<Entry<V>>>, ghost pairs: seq<T.Pair<V>>,
        ghost i: nat)
      returns (next: R.Link<Entry<V>>)
      requires Relinking(todo, pairs, i) && i < |todo| && list == todo[i]
      modifies `view, buckets, R.All(head, todo)`next, R.All(head, todo)`prev
      ensures Relinking(todo, pairs, i + 1) && next == R.At(head, todo, i + 1)
    {
      hide T.Insert, T.Bucket, T.Hash, Sound, R.Linked, Carry;
      next := list.next;
      CarriedAt(todo, pairs, i);
      var index := list.item.value.hash % buckets.Length;
      BucketOfHash(pairs[i].key, buckets.Length);
      Untouched(head, todo, view.links, i);
      ghost var k := InsertToBucket(index, list, pairs[i]);
      assert pairs[i..][1..] == pairs[i + 1..];
    }

    /** The loop of hashtable_do_rehash, which relinks the list it walks. */
    method Relink(list: R.Link<Entry<V>>, ghost todo: seq<R.Link<Entry<V>>>, ghost pairs: seq<T.Pair<V>>)
      requires Relinking(todo, pairs, 0) && list == R.At(head, todo, 0)
      modifies `view, buckets, R.All(head, todo)`next, R.All(head, todo)`prev
      ensures Relinking(todo, pairs, |todo|)
    {
      hide Relinking;
      AtHead(todo, pairs);
      var link := list;
      ghost var i := 0;
      while link != head
        invariant i <= |todo| && link == R.At(head, todo, i) && Relinking(todo, pairs, i)
        decreases |todo| - i
      {
        link := RelinkOne(link, todo, pairs, i);
        i := i + 1;
      }
    }

    lemma AtHead(todo: seq<R.Link<Entry<V>>>, pairs: seq<T.Pair<V>>)
      requires Relinking(todo, pairs, 0)
      ensures R.Apart(head, todo)
    {
    }

    /** The start of hashtable_do_rehash: new, empty buckets, and an empty ring; the old chain is still there. */
    method StartOver(newSize: T.pos, ghost todo: seq<R.Link<Entry<V>>>, ghost pairs: seq<T.Pair<V>>)
      requires R.Apart(head, todo) && Carry(todo, pairs) && Chained(head, todo, 0)
      modifies `buckets, `view, head`next, head`prev
      ensures Relinking(todo, pairs, 0) && buckets.Length == newSize && fresh(buckets)
    {
      var h := head;
      buckets := new Bucket<R.Link<Entry<V>>>[newSize](_ => Bucket(h, h));
      head.Init();
      view := View([], [], seq(newSize, _ => 0), seq(newSize, _ => -1));
      assert pairs[0..] == pairs;
    }

    /** hashtable_do_rehash: nothing is lost, nothing is doubled, and the bucket array is new. */
    method Rehash()
      requires Valid() && order < T.LAST_ORDER
      modifies `order, `buckets, `view, R.All(head, view.links)`next, R.All(head, view.links)`prev
      ensures Valid() && fresh(buckets) && Contents() == T.Regrow(old(Contents()), T.NumBuckets(order))
      ensures forall l :: l in view.links ==> l in old(view.links)
    {
      hide T.NumBuckets, Relinking, Chained, Carry, Indexed, T.Distinct, R.Apart;
      ghost var todo, pairs := view.links, view.pairs;
      ChainNow();
      order := order + 1;
      var newSize := T.NumBuckets(order);
      var list := head.next;
      StartOver(newSize, todo, pairs);
      Relink(list, todo, pairs);
      Relinked(todo, pairs);
      T.ReinsertAll(pairs, newSize);
    }

    lemma Relinked(todo: seq<R.Link<Entry<V>>>, pairs: seq<T.Pair<V>>)
      requires Relinking(todo, pairs, |todo|)
      ensures Indexed() && |view.links| == |view.pairs|
      ensures buckets.Length > 0 && view.pairs == T.Reinsert([], pairs, buckets.Length)
      ensures forall l :: l in view.links ==> l in todo
    {
      assert pairs[|todo|..] == [];
    }

    lemma ChainNow()
      requires Valid()
      ensures Chained(head, view.links, 0) && head.next == R.At(head, view.links, 0)
      ensures R.Apart(head, view.links) && Carry(view.links, view.pairs)
    {
    }

    /** The part of hashtable_set that adds a pair. */
    method Add(key: bytes, hash: nat, serial: nat, value: V)
      requires Valid() && hash == T.Hash(key) && T.IndexOf(view.pairs, key) == |view.pairs|
      modifies `size, `view, buckets, R.All(head, view.links)`next, R.All(head, view.links)`prev
      ensures Valid() && view.pairs == T.Insert(old(view.pairs), buckets.Length, T.Pair(key, serial, value))
      ensures forall l :: l in view.links ==> l in old(view.links) || fresh(l)
    {
      hide T.NumBuckets, T.Hash, T.Bucket, Indexed, T.Distinct, T.Insert, R.Apart;
      var list := new R.Link<Entry<V>>(Some(Entry(hash, key, serial, value)));
      Premises();
      BucketOfHash(key, buckets.Length);
      T.InsertKeepsUnique(view.pairs, buckets.Length, T.Pair(key, serial, value));
      ghost var k := InsertToBucket(hash % buckets.Length, list, T.Pair(key, serial, value));
      size := size + 1;
    }

    lemma Premises()
      requires Valid()
      ensures buckets.Length > 0 && |view.links| == |view.pairs|
    {
    }

    /** hashtable_set after the rehash. */
    method Put(key: bytes, serial: nat, value: V)
      requires Valid()
      modifies `size, `view, buckets, R.All(head, view.links)
      ensures Valid() && Contents() == T.Put(old(Contents()), key, serial, value)
      ensures forall l :: l in view.links ==> l in old(view.links) || fresh(l)
    {
      hide T.NumBuckets, T.Hash, Indexed, T.Distinct, T.Insert, R.Apart;
      Premises();
      BucketOfHash(key, buckets.Length);
      var hash := T.Hash(key);
      var pair, k := FindPair(hash % buckets.Length, key, hash);
      match pair {
        case Some(list) => Replace(list, value, k);
        case None => Add(key, hash, serial, value);
      }
    }

    /** hashtable_set. */
    method Set(key: bytes, serial: nat, value: V)
      requires Valid() && T.CanGrow(Contents())
      modifies `size, `order, `buckets, `view, buckets, R.All(head, view.links)
      ensures Valid() && Contents() == T.Set(old(Contents()), key, serial, value)
      ensures
        var kept := if key in old(Dict()) then old(Dict())[key].serial else serial;
        Dict() == old(Dict())[key := T.Pair(key, kept, value)]
      ensures buckets == old(buckets) || fresh(buckets)
      ensures forall l :: l in view.links ==> l in old(view.links) || fresh(l)
    {
      hide T.Put, T.Reinsert, T.NumBuckets, Indexed, T.Distinct, R.Apart, T.Map;
      Premises();
      DictSet(key, serial, value);
      if size >= T.NumBuckets(order) {
        Rehash();
      }
      Put(key, serial, value);
    }

    /** The part of hashtable_do_del that takes a pair out. */
    method Remove(b: nat, list: R.Link<Entry<V>>, ghost k: nat)
      requires Valid() && k < |view.links| && list == view.links[k] && b == T.Bucket(view.pairs[k].key, buckets.Length)
      modifies `size, `view, buckets, R.All(head, view.links)`next, R.All(head, view.links)`prev
      ensures Valid() && view.pairs == old(view.pairs)[..k] + old(view.pairs)[k + 1..]
      ensures view.links == old(view.links)[..k] + old(view.links)[k + 1..]
    {
      hide T.Bucket, T.NumBuckets, Sound, R.Linked, Carry, Removed, T.Distinct;
      Premises();
      R.HeadApart(head, view.links);
      SoundRemove(view, head, buckets[..], k, b);
      T.RemoveKeepsDistinct(view.pairs, k);
      CarryRemove(view.links, view.pairs, k);
      ghost var r := Removed(view, k, b);
      Unplace(b, list, view.links, k);
      view := r;
      size := size - 1;
    }

    /** The pointer updates of hashtable_do_del. */
    method Unplace(b: nat, list: R.Link<Entry<V>>, ghost links: seq<R.Link<Entry<V>>>, ghost k: nat)
      requires b < buckets.Length && R.Linked(head, links) && k < |links| && list == links[k]
      modifies buckets, R.All(head, links)`next, R.All(head, links)`prev
      ensures R.Linked(head, links[..k] + links[k + 1..])
      ensures buckets[..] == old(buckets[..])[b := Shrunk(old(buckets[b]), head, links, k)]
    {
      R.Next(head, links, k);
      hide R.Linked;
      if list == buckets[b].first && list == buckets[b].last {
        buckets[b] := Bucket(head, head);
      } else if list == buckets[b].first {
        buckets[b] := buckets[b].(first := list.next);
      } else if list == buckets[b].last {
        buckets[b] := buckets[b].(last := list.prev);
      }
      R.Remove(list, head, links, k);
    }

    /** hashtable_del. */
    method Del(key: bytes) returns (found: bool)
      requires Valid()
      modifies `size, `view, buckets, R.All(head, view.links)
      ensures Valid() && Contents() == T.Del(old(Contents()), key)
      ensures Dict() == old(Dict()) - {key} && (found <==> key in old(Dict()))
      ensures forall l :: l in view.links ==> l in old(view.links)
    {
      hide T.NumBuckets, T.Hash, Indexed, T.Distinct, R.Apart, T.Map;
      Premises();
      DictDel(key);
      BucketOfHash(key, buckets.Length);
      var hash := T.Hash(key);
      var index := hash % buckets.Length;
      var pair, k := FindPair(index, key, hash);
      match pair {
        case None => found := false;
        case Some(list) =>
          Remove(index, list, k);
          found := true;
      }
    }

    /** hashtable_clear; hashtable_do_clear, which frees the pairs, changes no pointer that is read again. */
    method Clear()
      requires Valid()
      modifies `size, `view, buckets, head`next, head`prev
      ensures Valid() && Contents() == T.Clear(old(Contents())) && Dict() == map[]
    {
      hide T.NumBuckets;
      var i := 0;
      while i < buckets.Length
        invariant i <= buckets.Length && forall b :: 0 <= b < i ==> buckets[b] == Bucket(head, head)
        modifies buckets
      {
        buckets[i] := Bucket(head, head);
        i := i + 1;
      }
      head.Init();
      size := 0;
      view := View([], [], seq(buckets.Length, _ => 0), seq(buckets.Length, _ => -1));
    }

    /** hashtable_iter_next, from the head (hashtable_iter) or from the link at k - 1: the pairs come in list order. */
    method IterNext(list: R.Link<Entry<V>>, ghost k: nat) returns (r: Option<R.Link<Entry<V>>>)
      requires Valid() && k <= |view.links| && list == if k == 0 then head else view.links[k - 1]
      ensures r.Some? <==> k < |view.pairs|
      ensures r.Some? ==> r.value == view.links[k] && r.value.item == Some(EntryOf(view.pairs[k]))
    {
      if k > 0 {
        R.Next(head, view.links, k - 1);
      }
      if list.next == head {
        return None;
      }
      return Some(list.next);
    }

    /** hashtable_iter_set. */
    method IterSet(list: R.Link<Entry<V>>, value: V, ghost k: nat)
      requires Valid() && k < |view.links| && list == view.links[k]
      modifies `view, list`item
      ensures Valid() && view.links == old(view.links)
      ensures Contents() == T.Put(old(Contents()), old(view.pairs)[k].key, 0, value)
    {
      T.KeyOfIndex(view.pairs, k);
      Replace(list, value, k);
    }
  }
}
