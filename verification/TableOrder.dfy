/**
 * What can be seen of a hash table besides its map (jansson/hashtable.c): the hash itself, where a new pair goes
 * in the list, and when and how the table grows.
 */
module TableOrder {
  import opened Basics
  import opened Table

  // ----- the hash -----

  function Power33(n: nat): nat { if n == 0 then 1 else 33 * Power33(n - 1) }

  /** A byte of the key as the signed char that hash_str reads. */
  function Char(b: byte): int { if b < 0x80 then b else b - 0x100 }

  /** The characters of the key as the digits of a number to the base 33. */
  function Digits33(key: bytes): int {
    if key == [] then 0 else Char(key[0]) * Power33(|key| - 1) + Digits33(key[1..])
  }

  /** hash_str, all at once: 5381 times 33 to the length, plus the characters as digits, in 32 bits. */
  lemma {:induction false} HashIsPolynomial(key: bytes)
    ensures Hash(key) == (5381 * Power33(|key|) + Digits33(key)) % 0x1_0000_0000
  {
    HashFromIs(5381, key);
  }

  lemma {:induction false} HashFromIs(hash: nat, key: bytes)
    requires hash < 0x1_0000_0000
    ensures HashFrom(hash, key) == (hash * Power33(|key|) + Digits33(key)) % 0x1_0000_0000
    decreases |key|
  {
    if key != [] {
      var p, rest := Power33(|key| - 1), Digits33(key[1..]);
      var x := hash * 33 + Char(key[0]);
      assert SignedChar(key[0]) == Char(key[0]);
      HashFromIs(x % 0x1_0000_0000, key[1..]);
      ReduceFirst(x, p, rest);
      Distribute(hash, Char(key[0]), p, rest);
    }
  }

  lemma Distribute(hash: nat, c: int, p: nat, rest: int)
    ensures (hash * 33 + c) * p + rest == hash * (33 * p) + (c * p + rest)
  {
    assert (hash * 33 + c) * p == hash * 33 * p + c * p;
  }

  /** Reducing early does not change the remainder. */
  lemma ReduceFirst(x: int, p: nat, rest: int)
    ensures (x % 0x1_0000_0000 * p + rest) % 0x1_0000_0000 == (x * p + rest) % 0x1_0000_0000
  {
    var q := x / 0x1_0000_0000;
    assert x == q * 0x1_0000_0000 + x % 0x1_0000_0000;
    Expand(q, x % 0x1_0000_0000, p, rest);
    Whole(x % 0x1_0000_0000 * p + rest, q * p);
  }

  lemma Expand(q: int, r: int, p: nat, rest: int)
    ensures (q * 0x1_0000_0000 + r) * p + rest == (r * p + rest) + q * p * 0x1_0000_0000
  {
  }

  lemma Whole(a: int, k: int)
    ensures (a + k * 0x1_0000_0000) % 0x1_0000_0000 == a % 0x1_0000_0000
  {
  }

  // ----- growing -----

  /** The bucket counts start at 5, and each one is about twice the one before. */
  lemma PrimesDouble(order: nat)
    requires order < LAST_ORDER
    ensures NumBuckets(0) == 5
    ensures 3 * NumBuckets(order) < 2 * NumBuckets(order + 1) < 6 * NumBuckets(order)
  {
  }

  /** hashtable_set takes the next bucket count exactly when every bucket could have a pair already. */
  lemma GrowsIff<V>(t: Table<V>, key: bytes, serial: nat, value: V)
    ensures var r := Set(t, key, serial, value);
      if |t.pairs| < t.buckets then r.order == t.order && r.buckets == t.buckets
      else r.order == t.order + 1 && r.buckets == NumBuckets(t.order + 1)
  {
    hide Insert, Reinsert, IndexOf, NumBuckets;
  }

  // ----- the place of a pair -----

  /** A new pair goes in front of its bucket, or to the end of the list when its bucket is empty. */
  lemma NewPairAt<V>(g: Table<V>, key: bytes, serial: nat, value: V) returns (k: nat)
    requires forall i :: 0 <= i < |g.pairs| ==> g.pairs[i].key != key
    ensures k <= |g.pairs|
    ensures Put(g, key, serial, value).pairs == g.pairs[..k] + [Pair(key, serial, value)] + g.pairs[k..]
    ensures forall i :: 0 <= i < k ==> Hash(g.pairs[i].key) % g.buckets != Hash(key) % g.buckets
    ensures k < |g.pairs| ==> Hash(g.pairs[k].key) % g.buckets == Hash(key) % g.buckets
  {
    hide Hash;
    k := FirstOf(g.pairs, g.buckets, Bucket(key, g.buckets));
  }

  /** A pair that is there keeps its place, its serial, and everybody around it. */
  lemma OldPairAt<V>(g: Table<V>, serial: nat, value: V, k: nat)
    requires Distinct(g.pairs) && k < |g.pairs|
    ensures Put(g, g.pairs[k].key, serial, value).pairs == g.pairs[k := Pair(g.pairs[k].key, g.pairs[k].serial, value)]
  {
    KeyOfIndex(g.pairs, k);
  }

  /** Deleting closes the gap. */
  lemma DelAt<V>(t: Table<V>, k: nat)
    requires Distinct(t.pairs) && k < |t.pairs|
    ensures Del(t, t.pairs[k].key) == t.(pairs := t.pairs[..k] + t.pairs[k + 1..])
  {
    KeyOfIndex(t.pairs, k);
  }

  // ----- the order after a rehash -----

  /** Re-inserting one pair more. */
  lemma {:induction false} ReinsertMore<V>(done: seq<Pair<V>>, todo: seq<Pair<V>>, p: Pair<V>, n: pos)
    ensures Reinsert(done, todo + [p], n) == Insert(Reinsert(done, todo, n), n, p)
    decreases |todo|
  {
    hide Insert;
    if todo == [] {
      assert todo + [p] == [p] && [p][1..] == [];
      assert Reinsert(Insert(done, n, p), [], n) == Insert(done, n, p);
    } else {
      assert (todo + [p])[1..] == todo[1..] + [p] && (todo + [p])[0] == todo[0];
      ReinsertMore(Insert(done, n, todo[0]), todo[1..], p, n);
    }
  }

  /** Pairs of one bucket are the other way round; of two buckets, the one that came up first is first. */
  predicate Comes<V>(before: seq<Pair<V>>, p: Pair<V>, q: Pair<V>, n: pos) {
    var a, b := Bucket(p.key, n), Bucket(q.key, n);
    if a == b then IndexOf(before, p.key) > IndexOf(before, q.key) else FirstOf(before, n, a) < FirstOf(before, n, b)
  }

  /** The list after a rehash, against the list before. */
  ghost predicate Rehashed<V>(before: seq<Pair<V>>, after: seq<Pair<V>>, n: pos) {
    forall i, j :: 0 <= i < j < |after| ==> Comes(before, after[i], after[j], n)
  }

  lemma {:induction false} RehashOrder<V>(pairs: seq<Pair<V>>, n: pos)
    requires Distinct(pairs)
    ensures Rehashed(pairs, Reinsert([], pairs, n), n)
    decreases |pairs|
  {
    if pairs != [] {
      var init, p := pairs[..|pairs| - 1], pairs[|pairs| - 1];
      assert pairs == init + [p];
      RehashOrder(init, n);
      ReinsertMore([], init, p, n);
      ReinsertAll(init, n);
      OneMoreRehashed(init, Reinsert([], init, n), p, n);
    }
  }

  lemma IndexOfMore<V>(pairs: seq<Pair<V>>, p: Pair<V>, key: bytes)
    ensures IndexOf(pairs + [p], key) ==
      if IndexOf(pairs, key) < |pairs| then IndexOf(pairs, key) else if p.key == key then |pairs| else |pairs| + 1
  {
    var all := pairs + [p];
    var k, m := IndexOf(pairs, key), IndexOf(all, key);
    assert forall i :: 0 <= i < |pairs| ==> all[i] == pairs[i];
    assert k < |pairs| ==> all[k].key == key;
    assert all[|pairs|] == p;
  }

  lemma FirstOfMore<V>(pairs: seq<Pair<V>>, p: Pair<V>, n: pos, b: nat)
    ensures FirstOf(pairs + [p], n, b) ==
      if FirstOf(pairs, n, b) < |pairs| then FirstOf(pairs, n, b)
      else if Bucket(p.key, n) == b then |pairs| else |pairs| + 1
  {
    hide Bucket;
    var all := pairs + [p];
    var k, m := FirstOf(pairs, n, b), FirstOf(all, n, b);
    assert forall i :: 0 <= i < |pairs| ==> all[i] == pairs[i];
    assert k < |pairs| ==> Bucket(all[k].key, n) == b;
    assert all[|pairs|] == p;
  }

  lemma StillKnown<V>(init: seq<Pair<V>>, q: Pair<V>, p: Pair<V>, n: pos)
    requires q in init
    ensures IndexOf(init + [p], q.key) == IndexOf(init, q.key) < |init|
    ensures var b := Bucket(q.key, n); FirstOf(init + [p], n, b) == FirstOf(init, n, b) < |init|
  {
    hide Bucket;
    IndexOfMore(init, p, q.key);
    FirstOfMore(init, p, n, Bucket(q.key, n));
  }

  lemma ComesStill<V>(init: seq<Pair<V>>, a: Pair<V>, b: Pair<V>, p: Pair<V>, n: pos)
    requires a in init && b in init && Comes(init, a, b, n)
    ensures Comes(init + [p], a, b, n)
  {
    hide Bucket, IndexOf, FirstOf;
    StillKnown(init, a, p, n);
    StillKnown(init, b, p, n);
  }

  /** The new pair comes in front of one of its bucket, and so in front of all that come after that. */
  lemma ComesInFront<V>(init: seq<Pair<V>>, first: Pair<V>, b: Pair<V>, p: Pair<V>, n: pos)
    requires first in init && b in init && Bucket(first.key, n) == Bucket(p.key, n)
    requires IndexOf(init, p.key) == |init| && (b == first || Comes(init, first, b, n))
    ensures Comes(init + [p], p, b, n)
  {
    hide Bucket, IndexOf, FirstOf;
    StillKnown(init, first, p, n);
    StillKnown(init, b, p, n);
    IndexOfMore(init, p, p.key);
  }

  /** A pair of another bucket comes in front of the new one, if it comes in front of that bucket. */
  lemma ComesBehind<V>(init: seq<Pair<V>>, a: Pair<V>, p: Pair<V>, n: pos)
    requires a in init && Bucket(a.key, n) != Bucket(p.key, n)
    requires FirstOf(init, n, Bucket(p.key, n)) == |init| ||
      FirstOf(init, n, Bucket(a.key, n)) < FirstOf(init, n, Bucket(p.key, n))
    ensures Comes(init + [p], a, p, n)
  {
    hide Bucket, IndexOf, FirstOf;
    StillKnown(init, a, p, n);
    FirstOfMore(init, p, n, Bucket(p.key, n));
  }

  lemma OneMoreRehashed<V>(init: seq<Pair<V>>, r: seq<Pair<V>>, p: Pair<V>, n: pos)
    requires Rehashed(init, r, n) && IndexOf(init, p.key) == |init| && (forall q :: q in r <==> q in init)
    ensures Rehashed(init + [p], Insert(r, n, p), n)
  {
    hide Bucket, IndexOf, Comes;
    var k := FirstOf(r, n, Bucket(p.key, n));
    NoneOfBucket(init, r, n, Bucket(p.key, n));
    var t := Insert(r, n, p);
    assert t == r[..k] + [p] + r[k..];
    hide FirstOf, Insert;
    forall i, j | 0 <= i < j < |t| ensures Comes(init + [p], t[i], t[j], n) {
      InsertedComes(init, r, p, n, k, t, i, j);
    }
  }

  lemma InsertedComes<V>(init: seq<Pair<V>>, r: seq<Pair<V>>, p: Pair<V>, n: pos, k: nat, t: seq<Pair<V>>, i: nat,
      j: nat)
    requires k <= |r| && t == r[..k] + [p] + r[k..] && i < j < |t| && (forall q :: q in r <==> q in init)
    requires Rehashed(init, r, n) && IndexOf(init, p.key) == |init|
    requires forall m :: 0 <= m < k ==> Bucket(r[m].key, n) != Bucket(p.key, n)
    requires k < |r| ==> Bucket(r[k].key, n) == Bucket(p.key, n)
    requires k == |r| ==> FirstOf(init, n, Bucket(p.key, n)) == |init|
    ensures Comes(init + [p], t[i], t[j], n)
  {
    hide Bucket, IndexOf, FirstOf, Comes, Rehashed;
    Placed(r, p, k, i);
    Placed(r, p, k, j);
    if j < k {
      Both(init, r, p, n, i, j);
    } else if j == k {
      Behind(init, r, p, n, i, k);
    } else if i < k {
      Both(init, r, p, n, i, j - 1);
    } else if i > k {
      Both(init, r, p, n, i - 1, j - 1);
    } else {
      InFront(init, r, p, n, k, j - 1);
    }
  }

  lemma Placed<V>(r: seq<Pair<V>>, p: Pair<V>, k: nat, i: nat)
    requires k <= |r| && i <= |r|
    ensures var t := r[..k] + [p] + r[k..];
      |t| == |r| + 1 && t[i] == if i < k then r[i] else if i == k then p else r[i - 1]
  {
  }

  lemma Both<V>(init: seq<Pair<V>>, r: seq<Pair<V>>, p: Pair<V>, n: pos, i: nat, j: nat)
    requires i < j < |r| && Rehashed(init, r, n) && forall q :: q in r ==> q in init
    ensures Comes(init + [p], r[i], r[j], n)
  {
    hide Comes;
    assert r[i] in r && r[j] in r;
    ComesStill(init, r[i], r[j], p, n);
  }

  lemma Behind<V>(init: seq<Pair<V>>, r: seq<Pair<V>>, p: Pair<V>, n: pos, i: nat, k: nat)
    requires i < k <= |r| && Rehashed(init, r, n) && forall q :: q in r ==> q in init
    requires Bucket(r[i].key, n) != Bucket(p.key, n)
    requires k < |r| ==> Bucket(r[k].key, n) == Bucket(p.key, n)
    requires k == |r| ==> FirstOf(init, n, Bucket(p.key, n)) == |init|
    ensures Comes(init + [p], r[i], p, n)
  {
    hide Bucket, IndexOf, FirstOf;
    assert r[i] in r;
    assert k < |r| ==> Comes(init, r[i], r[k], n);
    ComesBehind(init, r[i], p, n);
  }

  lemma InFront<V>(init: seq<Pair<V>>, r: seq<Pair<V>>, p: Pair<V>, n: pos, k: nat, j: nat)
    requires k <= j < |r| && Rehashed(init, r, n) && (forall q :: q in r ==> q in init)
    requires Bucket(r[k].key, n) == Bucket(p.key, n) && IndexOf(init, p.key) == |init|
    ensures Comes(init + [p], p, r[j], n)
  {
    hide Bucket, IndexOf, FirstOf, Comes;
    assert r[k] in r && r[j] in r;
    ComesInFront(init, r[k], r[j], p, n);
  }

  lemma NoneOfBucket<V>(init: seq<Pair<V>>, r: seq<Pair<V>>, n: pos, b: nat)
    requires forall q :: q in r <==> q in init
    ensures FirstOf(r, n, b) == |r| <==> FirstOf(init, n, b) == |init|
  {
    hide Bucket;
    var i, j := FirstOf(r, n, b), FirstOf(init, n, b);
    assert i < |r| ==> r[i] in init;
    assert j < |init| ==> init[j] in r;
  }
}
