/** json_copy and json_deep_copy as functions on trees (jansson/value.c). */
module CopySpec {
  import opened Basics
  import opened DumpSpec
  import R = Reload
  import A = Accepts
  import G = Grammar
  import P = ParseSpec
  import RT = RoundTrip
  import J = Json
  import T = Table
  import Utf8

  /** Members in list order. */
  const PLAIN: DumpFlags := DumpFlags(0, false, false, false, false, false, false)

  /** json_deep_copy: members are set one by one, in the order json_object_foreach meets them. */
  function Copied(j: J.Json): J.Json { R.Reload(j, PLAIN) }

  lemma {:induction false} CopyIsWf(j: J.Json)
    requires J.Wf(j)
    ensures J.Wf(Copied(j))
    decreases Depth(j), 0
  {
    match j {
      case Arr(elems) =>
        forall i | 0 <= i < |elems| ensures J.Wf(R.ReloadAll(elems, PLAIN)[i]) {
          R.ReloadAt(elems, PLAIN, i);
          CopyIsWf(elems[i]);
        }
      case Obj(table, _) =>
        BindingsAreWf(table.pairs);
        A.EmptyObjectIsWf();
        A.BuildIsWf(J.EMPTY_OBJECT, R.Rebind(table.pairs, PLAIN), false);
      case _ =>
    }
  }

  lemma {:induction false} BindingsAreWf(pairs: seq<J.Pair>)
    requires J.WfEntries(pairs)
    ensures forall i :: 0 <= i < |pairs| ==>
      J.ValidText(R.Rebind(pairs, PLAIN)[i].0) && J.Wf(R.Rebind(pairs, PLAIN)[i].1)
    decreases PairsDepth(pairs), 1
  {
    hide J.ValidText;
    forall i | 0 <= i < |pairs| ensures J.ValidText(R.Rebind(pairs, PLAIN)[i].0) && J.Wf(R.Rebind(pairs, PLAIN)[i].1) {
      R.RebindAt(pairs, PLAIN, i);
      CopyIsWf(pairs[i].value);
    }
  }

  /** A deep copy is json_equal to its source. */
  lemma {:induction false} CopyIsEqual(j: J.Json)
    requires J.Wf(j)
    ensures J.Equal(j, Copied(j)) && J.Wf(Copied(j))
  {
    CopyIsWf(j);
    R.ReloadDenotesSame(j, PLAIN);
    J.EqualIffSameDenotation(j, Copied(j));
  }

  function KeyList<V>(ps: seq<T.Pair<V>>): (keys: seq<bytes>)
    ensures |keys| == |ps| && forall i :: 0 <= i < |keys| ==> keys[i] == ps[i].key
  {
    seq(|ps|, i requires 0 <= i < |ps| => ps[i].key)
  }

  /** A copied object holds one pair for each pair of its source, numbered in list order. */
  lemma CopiedPairs(table: T.Table<J.Json>, serial: nat)
    requires J.Wf(J.Obj(table, serial))
    ensures var bs := R.Rebind(table.pairs, PLAIN);
      && R.DistinctKeys(bs) && |R.Listing(bs)| == |table.pairs|
      && R.Build(bs).Obj? && Copied(J.Obj(table, serial)) == R.Build(bs)
      && Sort(R.Build(bs).table.pairs, false) == R.Listing(bs)
      && forall i :: 0 <= i < |bs| ==> bs[i].0 == table.pairs[i].key
  {
    var bs := R.Rebind(table.pairs, PLAIN);
    WfPairs(table, serial);
    assert PrintOrder(table.pairs, PLAIN) == table.pairs;
    hide J.Wf, R.Build, Sort, Sorted;
    R.RebindKeepsDistinct(table.pairs, PLAIN);
    R.BuildLists(bs);
    R.BuiltComparable(bs, false);
    var built := R.Build(bs).table.pairs;
    SortSorts(built, false);
    SortMembers(built, false);
    forall i | 0 <= i < |bs| ensures bs[i].0 == table.pairs[i].key { R.RebindAt(table.pairs, PLAIN, i); }
    R.ListingSorted(table.pairs, bs, false);
    SortedIsUnique(Sort(built, false), R.Listing(bs), false);
  }

  /** The insertion order a copied object remembers is the list order of its source. */
  lemma CopyOrder(table: T.Table<J.Json>, serial: nat)
    requires J.Wf(J.Obj(table, serial))
    ensures Copied(J.Obj(table, serial)).Obj?
    ensures KeyList(Sort(Copied(J.Obj(table, serial)).table.pairs, false)) == KeyList(table.pairs)
  {
    hide J.Wf, R.Build, R.Rebind, Sort, Copied;
    CopiedPairs(table, serial);
  }

  /**
   * An object prints its keys in the order they were first set (JSON_PRESERVE_ORDER); its copy does so too
   * exactly when the hash table's list happens to hold the pairs in that order.
   */
  lemma CopyKeepsOrderIff(table: T.Table<J.Json>, serial: nat)
    requires J.Wf(J.Obj(table, serial))
    ensures Copied(J.Obj(table, serial)).Obj?
    ensures KeyList(Sort(Copied(J.Obj(table, serial)).table.pairs, false)) == KeyList(Sort(table.pairs, false))
      <==> Sorted(table.pairs, false)
  {
    hide J.Wf, Copied, Sort, Sorted, T.Distinct, J.SerialsOk, KeyList;
    CopyOrder(table, serial);
    WfPairs(table, serial);
    var pairs := table.pairs;
    SerialsAreComparable(pairs, serial);
    SortSorts(pairs, false);
    SortMembers(pairs, false);
    if Sorted(pairs, false) {
      SortedIsUnique(Sort(pairs, false), pairs, false);
    }
    if KeyList(Sort(pairs, false)) == KeyList(pairs) {
      KeysDecide(pairs, Sort(pairs, false));
    }
  }

  lemma WfPairs(table: T.Table<J.Json>, serial: nat)
    requires J.Wf(J.Obj(table, serial))
    ensures T.Distinct(table.pairs) && J.SerialsOk(table.pairs, serial)
  {
  }

  lemma KeysDecide(pairs: seq<J.Pair>, others: seq<J.Pair>)
    requires T.Distinct(pairs) && KeyList(others) == KeyList(pairs) && forall p :: p in others ==> p in pairs
    ensures pairs == others
  {
    assert |others| == |KeyList(others)|;
    forall i | 0 <= i < |pairs| ensures pairs[i] == others[i] {
      assert KeyList(others)[i] == KeyList(pairs)[i];
      assert others[i] in others;
      var k :| 0 <= k < |pairs| && pairs[k] == others[i];
    }
  }

  lemma SerialsAreComparable(pairs: seq<J.Pair>, serial: nat)
    requires T.Distinct(pairs) && J.SerialsOk(pairs, serial)
    ensures Comparable(pairs, false)
  {
    forall i, j | 0 <= i < j < |pairs| ensures pairs[i].serial != pairs[j].serial {
      assert pairs[i] in pairs && pairs[j] in pairs;
    }
  }

  // ----- the whole text -----

  /** Every object in j, however deep, has its members in the order in which they were set. */
  ghost predicate InOrder(j: J.Json) {
    match j
    case Arr(elems) => forall i :: 0 <= i < |elems| ==> InOrder(elems[i])
    case Obj(table, _) => Sorted(table.pairs, false) && EntriesInOrder(table.pairs)
    case _ => true
  }

  ghost predicate EntriesInOrder(pairs: seq<J.Pair>) {
    forall i :: 0 <= i < |pairs| ==> InOrder(pairs[i].value)
  }

  /** An object remembers the bindings it was built from, in order. */
  lemma BuildIsInjective(a: G.Bindings, b: G.Bindings)
    requires R.DistinctKeys(a) && R.DistinctKeys(b)
    ensures R.Build(a) == R.Build(b) <==> a == b
  {
    R.BuildLists(a);
    R.BuildLists(b);
    hide R.Build;
    if R.Build(a) == R.Build(b) {
      var x, y := R.Listing(a), R.Listing(b);
      assert forall p :: p in x <==> p in y;
      SortedIsUnique(x, y, false);
      assert |a| == |x| == |y| == |b|;
      forall i | 0 <= i < |a| ensures a[i] == b[i] { assert x[i] == y[i]; }
    }
  }

  /** What a copied object is printed from, and then reloaded as. */
  lemma CopiedObject(table: T.Table<J.Json>, serial: nat, f: DumpFlags)
    requires J.Wf(J.Obj(table, serial)) && f.preserveOrder && !f.sortKeys
    ensures var bs := R.Rebind(table.pairs, PLAIN);
      && R.DistinctKeys(R.Rebind(R.Listing(bs), f)) && |R.Listing(bs)| == |table.pairs|
      && R.Reload(Copied(J.Obj(table, serial)), f) == R.Build(R.Rebind(R.Listing(bs), f))
  {
    CopiedPairs(table, serial);
    hide J.Wf, R.Build, R.Rebind, Sort, Copied;
    R.RebindKeepsDistinct(R.Listing(R.Rebind(table.pairs, PLAIN)), f);
  }

  lemma {:induction false} SameReloadIffInOrder(j: J.Json, f: DumpFlags)
    requires J.Wf(j) && f.preserveOrder && !f.sortKeys
    ensures R.Reload(Copied(j), f) == R.Reload(j, f) <==> InOrder(j)
    decreases Depth(j), 0
  {
    match j {
      case Arr(elems) =>
        forall i | 0 <= i < |elems|
          ensures R.ReloadAll(R.ReloadAll(elems, PLAIN), f)[i] == R.ReloadAll(elems, f)[i] <==> InOrder(elems[i])
        {
          R.ReloadAt(elems, PLAIN, i);
          R.ReloadAt(elems, f, i);
          R.ReloadAt(R.ReloadAll(elems, PLAIN), f, i);
          SameReloadIffInOrder(elems[i], f);
        }
      case Obj(table, serial) => SameObjectIffInOrder(table, serial, f);
      case _ =>
    }
  }

  /** The bindings a copied object and its source are reloaded from, one by one. */
  lemma BindingAt(pairs: seq<J.Pair>, ps: seq<J.Pair>, f: DumpFlags, i: nat)
    requires i < |pairs| == |ps| && |R.Listing(R.Rebind(pairs, PLAIN))| == |pairs|
    ensures R.Rebind(R.Listing(R.Rebind(pairs, PLAIN)), f)[i] == (pairs[i].key, R.Reload(Copied(pairs[i].value), f))
    ensures R.Rebind(ps, f)[i] == (ps[i].key, R.Reload(ps[i].value, f))
  {
    hide R.Rebind, R.Reload;
    R.RebindAt(R.Listing(R.Rebind(pairs, PLAIN)), f, i);
    R.RebindAt(pairs, PLAIN, i);
    R.RebindAt(ps, f, i);
  }

  lemma ReloadOfObject(table: T.Table<J.Json>, serial: nat, f: DumpFlags)
    requires T.Distinct(table.pairs) && f.preserveOrder && !f.sortKeys
    ensures var bs := R.Rebind(Sort(table.pairs, false), f);
      R.DistinctKeys(bs) && R.Reload(J.Obj(table, serial), f) == R.Build(bs)
  {
    R.OrderKeepsDistinct(table.pairs, f);
    R.RebindKeepsDistinct(Sort(table.pairs, false), f);
  }

  lemma SortedIffUnmoved(pairs: seq<J.Pair>, serial: nat)
    requires T.Distinct(pairs) && J.SerialsOk(pairs, serial)
    ensures |Sort(pairs, false)| == |pairs| && forall p :: p in Sort(pairs, false) <==> p in pairs
    ensures Sort(pairs, false) == pairs <==> Sorted(pairs, false)
  {
    SerialsAreComparable(pairs, serial);
    hide Sort;
    SortSorts(pairs, false);
    SortMembers(pairs, false);
    if Sorted(pairs, false) {
      SortedIsUnique(Sort(pairs, false), pairs, false);
    }
  }

  lemma {:induction false} SameObjectIffInOrder(table: T.Table<J.Json>, serial: nat, f: DumpFlags)
    requires J.Wf(J.Obj(table, serial)) && f.preserveOrder && !f.sortKeys
    ensures R.Reload(Copied(J.Obj(table, serial)), f) == R.Reload(J.Obj(table, serial), f)
      <==> InOrder(J.Obj(table, serial))
    decreases PairsDepth(table.pairs), 1
  {
    hide R.Build, R.Reload, R.Rebind, Copied, Sort, Sorted, T.Distinct, J.SerialsOk, R.DistinctKeys;
    var pairs, ps := table.pairs, Sort(table.pairs, false);
    var copied, plain := R.Rebind(R.Listing(R.Rebind(pairs, PLAIN)), f), R.Rebind(ps, f);
    CopiedObject(table, serial, f);
    WfPairs(table, serial);
    ReloadOfObject(table, serial, f);
    BuildIsInjective(copied, plain);
    SortedIffUnmoved(pairs, serial);
    forall i | 0 <= i < |pairs|
      ensures copied[i] == (pairs[i].key, R.Reload(Copied(pairs[i].value), f))
      ensures plain[i] == (ps[i].key, R.Reload(ps[i].value, f))
      ensures R.Reload(Copied(pairs[i].value), f) == R.Reload(pairs[i].value, f) <==> InOrder(pairs[i].value)
    {
      BindingAt(pairs, ps, f, i);
      SameReloadIffInOrder(pairs[i].value, f);
    }
    BindingsDecide(pairs, ps, copied, plain);
    if ps == pairs {
      assert copied == plain <==> forall i :: 0 <= i < |pairs| ==> copied[i] == plain[i];
    }
  }

  /** The same bindings list the same keys in the same order. */
  lemma BindingsDecide(pairs: seq<J.Pair>, ps: seq<J.Pair>, a: G.Bindings, b: G.Bindings)
    requires T.Distinct(pairs) && |a| == |b| == |pairs| == |ps| && forall p :: p in ps ==> p in pairs
    requires forall i :: 0 <= i < |pairs| ==> a[i].0 == pairs[i].key && b[i].0 == ps[i].key
    ensures a == b ==> pairs == ps
  {
    if a == b {
      assert KeyList(pairs) == KeyList(ps);
      KeysDecide(pairs, ps);
    }
  }

  lemma {:induction false} CopyReadsBack(j: J.Json, lib: RT.Lib)
    requires RT.Ok(j, lib)
    ensures RT.Ok(Copied(j), lib)
    decreases Depth(j), 0
  {
    CopyIsWf(j);
    match j {
      case Arr(elems) =>
        forall i | 0 <= i < |elems| ensures RT.RealsReadBack(R.ReloadAll(elems, PLAIN)[i], lib.fmt, lib.conv) {
          R.ReloadAt(elems, PLAIN, i);
          CopyReadsBack(elems[i], lib);
        }
      case Obj(table, serial) => ObjectReadsBack(table, serial, lib);
      case _ =>
    }
  }

  lemma {:induction false} ObjectReadsBack(table: T.Table<J.Json>, serial: nat, lib: RT.Lib)
    requires RT.Ok(J.Obj(table, serial), lib)
    ensures RT.RealsReadBack(Copied(J.Obj(table, serial)), lib.fmt, lib.conv)
    decreases PairsDepth(table.pairs), 1
  {
    var bs := R.Rebind(table.pairs, PLAIN);
    ValuesAreOk(table, serial, lib);
    CopiedPairs(table, serial);
    hide RT.Ok, J.Wf, J.WfEntries, RT.RealsReadBack, R.Build, R.Rebind;
    R.BuildLists(bs);
    forall i | 0 <= i < |bs| ensures RT.RealsReadBack(bs[i].1, lib.fmt, lib.conv) {
      R.RebindAt(table.pairs, PLAIN, i);
      CopyReadsBack(table.pairs[i].value, lib);
      OkReadsBack(bs[i].1, lib);
    }
    BuiltReadsBack(R.Build(bs), bs, lib);
  }

  lemma OkReadsBack(j: J.Json, lib: RT.Lib)
    requires RT.Ok(j, lib)
    ensures RT.RealsReadBack(j, lib.fmt, lib.conv)
  {
  }

  lemma ValuesAreOk(table: T.Table<J.Json>, serial: nat, lib: RT.Lib)
    requires RT.Ok(J.Obj(table, serial), lib)
    ensures forall i :: 0 <= i < |table.pairs| ==> RT.Ok(table.pairs[i].value, lib)
  {
    RT.EntriesOfOk(table, serial, lib);
    hide J.Wf, RT.RealsReadBack;
  }

  lemma BuiltReadsBack(o: J.Json, bs: G.Bindings, lib: RT.Lib)
    requires R.Lists(o, bs) && forall i :: 0 <= i < |bs| ==> RT.RealsReadBack(bs[i].1, lib.fmt, lib.conv)
    ensures RT.RealsReadBack(o, lib.fmt, lib.conv)
  {
    var built := o.table.pairs;
    forall k | 0 <= k < |built| ensures RT.RealsReadBack(built[k].value, lib.fmt, lib.conv) {
      assert built[k] in built;
      assert built[k] in R.Listing(bs);
      var i :| 0 <= i < |bs| && R.Listing(bs)[i] == built[k];
    }
  }

  /**
   * Under JSON_PRESERVE_ORDER a deep copy prints the very text of its source exactly when every object in
   * it, however deep, has its members in list order as they were set.
   */
  lemma {:induction false} CopyPrintsSameIff(j: J.Json, f: DumpFlags, lib: RT.Lib)
    requires RT.Ok(j, lib) && f.preserveOrder && !f.sortKeys
    ensures Text(Copied(j), f, lib.fmt, 0) == Text(j, f, lib.fmt, 0) <==> InOrder(j)
  {
    var c := Copied(j);
    CopyReadsBack(j, lib);
    SameReloadIffInOrder(j, f);
    var flags := P.LoadFlags(false, false, true);
    R.PrintedParses(j, f, lib, flags);
    R.PrintedParses(c, f, lib, flags);
    R.ReloadPrintsSame(j, f, lib.fmt, 0);
    R.ReloadPrintsSame(c, f, lib.fmt, 0);
    hide Copied, Text, P.Loads, R.Reload, InOrder;
  }

  /** {"a": null, "f": null}, set in that order: both keys hash to bucket 0, and f goes in front of a. */
  const REORDERED: J.Json := J.ObjectSet(J.ObjectSet(J.EMPTY_OBJECT, [97], J.Null), [102], J.Null)

  lemma KeyAIsInBucket0()
    ensures T.Bucket([97], 5) == 0
  {
    assert T.HashFrom(177670, []) == 177670;
    assert [97 as byte][1..] == [];
  }

  lemma KeyFIsInBucket0()
    ensures T.Bucket([102], 5) == 0
  {
    assert T.HashFrom(177675, []) == 177675;
    assert [102 as byte][1..] == [];
  }

  lemma ReorderedPairs()
    ensures REORDERED == J.Obj(T.Table(0, 5, [T.Pair([102], 1, J.Null), T.Pair([97], 0, J.Null)]), 2)
  {
    KeyAIsInBucket0();
    KeyFIsInBucket0();
    hide T.Bucket, T.Hash;
    var a, f := T.Pair([97], 0, J.Null), T.Pair([102], 1, J.Null);
    assert T.Insert([], 5, a) == [a];
    assert T.FirstOf([a], 5, 0) == 0;
    assert T.Insert([a], 5, f) == [f, a];
    assert [97 as byte] != [102];
    assert T.IndexOf([a], [102]) == 1;
  }

  /** Its deep copy remembers f as the first key that was set. */
  lemma CopyForgetsOrder()
    ensures J.Wf(REORDERED)
    ensures KeyList(Sort(REORDERED.table.pairs, false)) == [[97], [102]]
    ensures KeyList(Sort(Copied(REORDERED).table.pairs, false)) == [[102], [97]]
  {
    hide T.Set, T.Insert, Copied, J.ValidText, J.Wf, Sort, Utf8.Encoding, KeyList;
    ReorderedIsWf();
    ReorderedPairs();
    CopyOrder(REORDERED.table, REORDERED.serial);
    SortedPairs();
    KeyLists();
  }

  lemma ReorderedIsWf()
    ensures J.Wf(REORDERED)
  {
    A.EmptyObjectIsWf();
    A.EncodingIsText(97);
    A.EncodingIsText(102);
    assert Utf8.Encoding(97) == [97] && Utf8.Encoding(102) == [102];
    hide T.Set, J.ValidText, J.Wf;
    J.ObjectSetKeepsWf(J.EMPTY_OBJECT, [97], J.Null);
    J.ObjectSetKeepsWf(J.ObjectSet(J.EMPTY_OBJECT, [97], J.Null), [102], J.Null);
  }

  lemma SortedPairs()
    ensures var a, f := T.Pair([97], 0, J.Null), T.Pair([102], 1, J.Null); Sort([f, a], false) == [a, f]
  {
    var a, f := T.Pair([97], 0, J.Null), T.Pair([102], 1, J.Null);
    assert [a][1..] == [] && [f, a][1..] == [a];
    assert Sort([a], false) == InsertSorted(a, [], false) == [a];
    assert InsertSorted(f, [a], false) == [a] + InsertSorted(f, [], false) == [a, f];
  }

  lemma KeyLists()
    ensures var a, f := T.Pair([97], 0, J.Null), T.Pair([102], 1, J.Null);
      KeyList([f, a]) == [[102], [97]] && KeyList([a, f]) == [[97], [102]]
  {
  }
}
