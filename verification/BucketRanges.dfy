/**
 * The bucket segments of the hash table (jansson/hashtable.c): on the list of the pairs' bucket
 * numbers, each bucket is one range of positions, and inserting or removing a pair keeps it so.
 */
module BucketRanges {
  import opened Basics
  import T = Table

  function Buckets<V>(pairs: seq<T.Pair<V>>, n: T.pos): (bs: seq<nat>)
    ensures |bs| == |pairs| && forall i :: 0 <= i < |bs| ==> bs[i] == T.Bucket(pairs[i].key, n) < n
  {
    seq(|pairs|, i requires 0 <= i < |pairs| => T.Bucket(pairs[i].key, n))
  }

  lemma BucketBound(key: bytes, n: T.pos)
    ensures T.Bucket(key, n) < n
  {
  }

  /** Bucket b is exactly the positions from lo[b] to hi[b]: disjoint segments that cover the list. */
  ghost predicate Ranges(bs: seq<nat>, n: nat, lo: seq<int>, hi: seq<int>) {
    && |lo| == n && |hi| == n
    && (forall b :: 0 <= b < n ==> 0 <= lo[b] && hi[b] < |bs|)
    && (forall b, i :: 0 <= b < n && 0 <= i < |bs| ==> (bs[i] == b <==> lo[b] <= i <= hi[b]))
  }

  function LoInserted(lo: seq<int>, b: nat, k: nat): (r: seq<int>)
    ensures |r| == |lo|
    ensures forall c :: 0 <= c < |r| ==> r[c] == if c == b then k else if lo[c] >= k then lo[c] + 1 else lo[c]
  {
    seq(|lo|, c requires 0 <= c < |lo| => if c == b then k else if lo[c] >= k then lo[c] + 1 else lo[c])
  }

  function HiInserted(lo: seq<int>, hi: seq<int>, b: nat, k: nat): (r: seq<int>)
    requires |lo| == |hi|
    ensures |r| == |hi|
    ensures forall c :: 0 <= c < |r| ==>
      r[c] == (if c == b then (if lo[c] <= hi[c] then hi[c] + 1 else k) else if lo[c] >= k then hi[c] + 1 else hi[c])
  {
    seq(|hi|, c requires 0 <= c < |hi| =>
      if c == b then (if lo[c] <= hi[c] then hi[c] + 1 else k) else if lo[c] >= k then hi[c] + 1 else hi[c])
  }

  /** Inserting at the start of a segment, or at the end of the list for a new one, keeps the segments apart. */
  lemma RangesInsert(bs: seq<nat>, n: nat, lo: seq<int>, hi: seq<int>, b: nat, k: nat)
    requires Ranges(bs, n, lo, hi) && b < n && k == if lo[b] <= hi[b] then lo[b] else |bs|
    ensures k <= |bs| && Ranges(bs[..k] + [b] + bs[k..], n, LoInserted(lo, b, k), HiInserted(lo, hi, b, k))
  {
    var r, lo', hi' := bs[..k] + [b] + bs[k..], LoInserted(lo, b, k), HiInserted(lo, hi, b, k);
    forall c, i | 0 <= c < n && 0 <= i < |r| ensures r[i] == c <==> lo'[c] <= i <= hi'[c] {
      if i < k {
        assert r[i] == bs[i];
      } else if i > k {
        assert r[i] == bs[i - 1];
      }
      if lo[b] <= hi[b] && lo[c] < k && c != b && lo[c] <= hi[c] {
        assert bs[k] == b;
      }
    }
  }

  function LoRemoved(lo: seq<int>, k: nat): (r: seq<int>)
    ensures |r| == |lo| && forall c :: 0 <= c < |r| ==> r[c] == if lo[c] > k then lo[c] - 1 else lo[c]
  {
    seq(|lo|, c requires 0 <= c < |lo| => if lo[c] > k then lo[c] - 1 else lo[c])
  }

  function HiRemoved(lo: seq<int>, hi: seq<int>, b: nat, k: nat): (r: seq<int>)
    requires |lo| == |hi|
    ensures |r| == |hi| && forall c :: 0 <= c < |r| ==> r[c] == if lo[c] > k || c == b then hi[c] - 1 else hi[c]
  {
    seq(|hi|, c requires 0 <= c < |hi| => if lo[c] > k || c == b then hi[c] - 1 else hi[c])
  }

  lemma RangesRemove(bs: seq<nat>, n: nat, lo: seq<int>, hi: seq<int>, k: nat)
    requires Ranges(bs, n, lo, hi) && k < |bs| && bs[k] < n
    ensures Ranges(bs[..k] + bs[k + 1..], n, LoRemoved(lo, k), HiRemoved(lo, hi, bs[k], k))
  {
    var b := bs[k];
    var r, lo', hi' := bs[..k] + bs[k + 1..], LoRemoved(lo, k), HiRemoved(lo, hi, b, k);
    assert lo[b] <= k <= hi[b];
    forall c | 0 <= c < n ensures 0 <= lo'[c] && hi'[c] < |r| {
      if c != b && lo[c] <= k && lo[c] <= hi[c] {
        assert bs[lo[c]] == c;
        assert !(lo[c] <= k <= hi[c]);
      }
    }
    forall c, i | 0 <= c < n && 0 <= i < |r| ensures r[i] == c <==> lo'[c] <= i <= hi'[c] {
      assert r[i] == if i < k then bs[i] else bs[i + 1];
      assert c != b ==> !(lo[c] <= k <= hi[c]);
    }
  }

  /** The segments say where module Table inserts. */
  lemma RangesFirst<V>(pairs: seq<T.Pair<V>>, n: T.pos, lo: seq<int>, hi: seq<int>, b: nat)
    requires Ranges(Buckets(pairs, n), n, lo, hi) && b < n
    ensures T.FirstOf(pairs, n, b) == if lo[b] <= hi[b] then lo[b] else |pairs|
  {
    var k, bs := T.FirstOf(pairs, n, b), Buckets(pairs, n);
    if lo[b] <= hi[b] {
      assert bs[lo[b]] == b;
    }
    if k < |pairs| {
      assert bs[k] == b;
    }
  }

  lemma RangesGrouped<V>(pairs: seq<T.Pair<V>>, n: T.pos, lo: seq<int>, hi: seq<int>)
    requires Ranges(Buckets(pairs, n), n, lo, hi)
    ensures T.Grouped(pairs, n)
  {
    var bs := Buckets(pairs, n);
    forall i, j, k | 0 <= i < j < k < |pairs| && T.Bucket(pairs[i].key, n) == T.Bucket(pairs[k].key, n)
      ensures T.Bucket(pairs[j].key, n) == T.Bucket(pairs[i].key, n)
    {
      var b := bs[i];
      assert bs[k] == b && bs[j] == T.Bucket(pairs[j].key, n);
      assert lo[b] <= i && k <= hi[b];
    }
  }

  lemma BucketsInsert<V>(pairs: seq<T.Pair<V>>, n: T.pos, p: T.Pair<V>)
    ensures var b := T.Bucket(p.key, n); var k := T.FirstOf(pairs, n, b); var bs := Buckets(pairs, n);
      Buckets(T.Insert(pairs, n, p), n) == bs[..k] + [b] + bs[k..]
  {
  }

  // ----- the ends of the buckets -----

  /** bucket_t: the first and the last link of a segment, or the head for an empty one. */
  datatype Bucket<X> = Bucket(first: X, last: X)

  ghost predicate Ends<X>(buckets: seq<Bucket<X>>, head: X, links: seq<X>, lo: seq<int>, hi: seq<int>) {
    && |buckets| == |lo| && |hi| == |lo|
    && forall b :: 0 <= b < |lo| ==>
         if lo[b] <= hi[b]
         then 0 <= lo[b] && hi[b] < |links| && buckets[b] == Bucket(links[lo[b]], links[hi[b]])
         else buckets[b] == Bucket(head, head)
  }

  lemma EndsInsert<X>(buckets: seq<Bucket<X>>, head: X, links: seq<X>, bs: seq<nat>, lo: seq<int>, hi: seq<int>,
                      b: nat, k: nat, x: X)
    requires Ends(buckets, head, links, lo, hi) && Ranges(bs, |lo|, lo, hi) && |bs| == |links|
    requires b < |lo| && k == if lo[b] <= hi[b] then lo[b] else |bs|
    ensures k <= |links|
    ensures Ends(buckets[b := Bucket(x, if lo[b] <= hi[b] then buckets[b].last else x)],
                 head, links[..k] + [x] + links[k..], LoInserted(lo, b, k), HiInserted(lo, hi, b, k))
  {
    var r := links[..k] + [x] + links[k..];
    assert forall i :: 0 <= i < k ==> r[i] == links[i];
    assert forall i :: k < i < |r| ==> r[i] == links[i - 1];
    forall c | 0 <= c < |lo| && c != b && lo[c] < k && lo[c] <= hi[c] ensures hi[c] < k {
      assert lo[b] <= hi[b] ==> bs[k] == b && !(lo[c] <= k <= hi[c]);
    }
  }

  lemma EndsRemove<X>(buckets: seq<Bucket<X>>, head: X, links: seq<X>, bs: seq<nat>, lo: seq<int>, hi: seq<int>, k: nat)
    requires Ends(buckets, head, links, lo, hi) && Ranges(bs, |lo|, lo, hi) && |bs| == |links|
    requires k < |links| && bs[k] < |lo|
    ensures var b := bs[k];
      && lo[b] <= k <= hi[b]
      && Ends(
        buckets[b :=
          if lo[b] == hi[b] then Bucket(head, head)
          else if k == lo[b] then Bucket(links[k + 1], buckets[b].last)
          else if k == hi[b] then Bucket(buckets[b].first, links[k - 1])
          else buckets[b]],
        head, links[..k] + links[k + 1..], LoRemoved(lo, k), HiRemoved(lo, hi, b, k))
  {
    var b, r := bs[k], links[..k] + links[k + 1..];
    assert lo[b] <= k <= hi[b];
    assert forall i :: 0 <= i < k ==> r[i] == links[i];
    assert forall i :: k <= i < |r| ==> r[i] == links[i + 1];
    forall c | 0 <= c < |lo| && c != b && lo[c] <= k && lo[c] <= hi[c] ensures hi[c] < k {
      assert !(lo[c] <= k <= hi[c]);
    }
  }

  /** What the ends tell about one bucket. */
  lemma EndsSized<X>(buckets: seq<Bucket<X>>, head: X, links: seq<X>, lo: seq<int>, hi: seq<int>, b: nat)
    requires Ends(buckets, head, links, lo, hi) && b < |buckets|
    ensures |lo| == |buckets| && |hi| == |buckets|
    ensures lo[b] <= hi[b] ==>
      0 <= lo[b] && hi[b] < |links| && buckets[b] == Bucket(links[lo[b]], links[hi[b]])
    ensures lo[b] > hi[b] ==> buckets[b] == Bucket(head, head)
  {
  }
}
