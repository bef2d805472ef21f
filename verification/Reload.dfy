/** The value that comes back when a printed value is parsed, and the round-trip theorems. */
module Reload {
  import opened Basics
  import opened DumpSpec
  import opened RoundTrip
  import G = Grammar
  import A = Accepts
  import Utf8
  import J = Json
  import T = Table
  import P = ParseSpec

  /** The value parsed from the text of j: the same up to table order, serials and text of keys. */
  function Reload(j: J.Json, f: DumpFlags): J.Json
    decreases Depth(j), 0
  {
    match j
    case Arr(elems) => J.Arr(ReloadAll(elems, f))
    case Obj(table, _) =>
      var ps := PrintOrder(table.pairs, f);
      PrintOrderMembers(table.pairs, f);
      assert forall p :: p in ps ==> p in table.pairs;
      DepthOfMembers(ps, table.pairs);
      Build(Rebind(ps, f))
    case _ => j
  }

  function ReloadAll(js: seq<J.Json>, f: DumpFlags): (r: seq<J.Json>)
    ensures |r| == |js|
    decreases ElemsDepth(js), |js| + 1
  {
    if js == [] then [] else [Reload(js[0], f)] + ReloadAll(js[1..], f)
  }

  function Rebind(ps: seq<J.Pair>, f: DumpFlags): (r: G.Bindings)
    ensures |r| == |ps|
    decreases PairsDepth(ps), |ps| + 1
  {
    if ps == [] then [] else [(ps[0].key, Reload(ps[0].value, f))] + Rebind(ps[1..], f)
  }

  /** The object built by setting the bindings one by one. */
  function Build(bs: G.Bindings): J.Json { G.BuildOn(J.EMPTY_OBJECT, bs, false).value }

  lemma {:induction false} RebindAt(ps: seq<J.Pair>, f: DumpFlags, i: nat)
    requires i < |ps|
    ensures Rebind(ps, f)[i] == (ps[i].key, Reload(ps[i].value, f))
    decreases |ps|
  {
    if i > 0 {
      RebindAt(ps[1..], f, i - 1);
    }
  }

  lemma {:induction false} ReloadAt(js: seq<J.Json>, f: DumpFlags, i: nat)
    requires i < |js|
    ensures ReloadAll(js, f)[i] == Reload(js[i], f)
    decreases |js|
  {
    if i > 0 {
      ReloadAt(js[1..], f, i - 1);
    }
  }

  // ----- the printed text means the reloaded value -----

  ghost predicate DistinctKeys(bs: G.Bindings) {
    forall i, j :: 0 <= i < j < |bs| ==> bs[i].0 != bs[j].0
  }

  lemma {:induction false} RejectingBuildsTheSame(done: J.Json, bs: G.Bindings)
    requires done.Obj? && G.BuildOn(done, bs, true).Some?
    ensures G.BuildOn(done, bs, true) == G.BuildOn(done, bs, false)
    decreases |bs|
  {
    hide J.ObjectSet, J.ObjectGet;
    if bs != [] {
      RejectingBuildsTheSame(J.ObjectSet(done, bs[0].0, bs[0].1), bs[1..]);
    }
  }

  lemma DistinctKeysBuild(bs: G.Bindings, reject: bool)
    requires DistinctKeys(bs)
    ensures G.BuildOn(J.EMPTY_OBJECT, bs, reject) == Some(Build(bs))
  {
    hide G.BuildOn;
    A.DuplicateKeys(bs, reject);
    if reject { RejectingBuildsTheSame(J.EMPTY_OBJECT, bs); }
  }

  lemma OrderKeepsDistinct(pairs: seq<J.Pair>, f: DumpFlags)
    requires T.Distinct(pairs)
    ensures T.Distinct(PrintOrder(pairs, f))
  {
    SortKeepsDistinct(pairs, true);
    SortKeepsDistinct(pairs, false);
  }

  lemma {:induction false} InsertSortedKeepsDistinct<V(!new)>(p: T.Pair<V>, ps: seq<T.Pair<V>>, byKey: bool)
    requires T.Distinct(ps) && forall i :: 0 <= i < |ps| ==> ps[i].key != p.key
    ensures T.Distinct(InsertSorted(p, ps, byKey))
  {
    if ps != [] && !Before(p, ps[0], byKey) {
      var t := InsertSorted(p, ps[1..], byKey);
      InsertSortedKeepsDistinct(p, ps[1..], byKey);
      InsertSortedMembers(p, ps[1..], byKey);
      forall j | 0 <= j < |t| ensures t[j].key != ps[0].key {
        assert t[j] in t;
        if t[j] != p {
          assert t[j] in ps[1..];
          var k :| 0 <= k < |ps[1..]| && ps[1..][k] == t[j];
          assert ps[k + 1] == t[j];
        }
      }
    }
  }

  lemma {:induction false} SortKeepsDistinct<V(!new)>(ps: seq<T.Pair<V>>, byKey: bool)
    requires T.Distinct(ps)
    ensures T.Distinct(Sort(ps, byKey))
  {
    if ps != [] {
      SortKeepsDistinct(ps[1..], byKey);
      SortMembers(ps[1..], byKey);
      var t := Sort(ps[1..], byKey);
      forall i | 0 <= i < |t| ensures t[i].key != ps[0].key {
        assert t[i] in t;
        assert t[i] in ps[1..];
        var k :| 0 <= k < |ps[1..]| && ps[1..][k] == t[i];
        assert ps[k + 1] == t[i];
      }
      InsertSortedKeepsDistinct(ps[0], t, byKey);
    }
  }

  lemma RebindKeepsDistinct(ps: seq<J.Pair>, f: DumpFlags)
    requires T.Distinct(ps)
    ensures DistinctKeys(Rebind(ps, f))
  {
    hide Rebind;
    var bs := Rebind(ps, f);
    forall i, j | 0 <= i < j < |bs| ensures bs[i].0 != bs[j].0 {
      RebindAt(ps, f, i);
      RebindAt(ps, f, j);
    }
  }

  /** The derivation of the printed text means the reloaded value, duplicates rejected or not. */
  lemma {:induction false} TreeMeansReload(j: J.Json, f: DumpFlags, lib: Lib, depth: nat, reject: bool)
    requires Ok(j, lib)
    ensures G.Wf(PrintTree(j, f, lib, depth))
    ensures G.Mean(PrintTree(j, f, lib, depth), lib.conv, reject) == Some(Reload(j, f))
    decreases Depth(j), 0
  {
    TreeSpellsText(j, f, lib, depth, []);
    match j {
      case Null =>
      case True =>
      case False =>
      case Int(i) => IntRoundTrip(i, lib.conv);
      case Real(r) =>
      case Str(s) => PrintedStringMeans(s, f, []);
      case Arr(elems) => ArrayMeansReload(elems, f, lib, depth, reject);
      case Obj(table, serial) => ObjectMeansReload(table, serial, f, lib, depth, reject);
    }
  }

  lemma {:induction false} ArrayMeansReload(elems: seq<J.Json>, f: DumpFlags, lib: Lib, depth: nat, reject: bool)
    requires Ok(J.Arr(elems), lib) && G.Wf(PrintTree(J.Arr(elems), f, lib, depth))
    ensures G.Mean(PrintTree(J.Arr(elems), f, lib, depth), lib.conv, reject) == Some(Reload(J.Arr(elems), f))
    decreases ElemsDepth(elems), |elems| + 3
  {
    ElemsAreOk(elems, lib);
    hide Ok, Indent;
    if elems != [] {
      assert ElemsDepth(elems[1..]) <= ElemsDepth(elems);
      TreeMeansReload(elems[0], f, lib, depth + 1, reject);
      ElemsMeanReload(elems[1..], f, lib, depth, reject);
    }
  }

  lemma {:induction false} ElemsMeanReload(js: seq<J.Json>, f: DumpFlags, lib: Lib, depth: nat, reject: bool)
    requires AllOk(js, lib)
    ensures G.WfMoreElems(ElemsTree(js, f, lib, depth))
    ensures G.MeanMoreElems(ElemsTree(js, f, lib, depth), lib.conv, reject) == Some(ReloadAll(js, f))
    decreases ElemsDepth(js), |js| + 1
  {
    hide Ok, Indent;
    ElemsSpellRest(js, f, lib, depth, []);
    if js != [] {
      TreeMeansReload(js[0], f, lib, depth + 1, reject);
      ElemsMeanReload(js[1..], f, lib, depth, reject);
    }
  }

  lemma {:induction false} ObjectMeansReload(
    table: T.Table<J.Json>, serial: nat, f: DumpFlags, lib: Lib, depth: nat, reject: bool)
    requires Ok(J.Obj(table, serial), lib) && G.Wf(PrintTree(J.Obj(table, serial), f, lib, depth))
    ensures G.Mean(PrintTree(J.Obj(table, serial), f, lib, depth), lib.conv, reject)
      == Some(Reload(J.Obj(table, serial), f))
    decreases PairsDepth(table.pairs), |table.pairs| + 4
  {
    EntriesOfOk(table, serial, lib);
    OrderOk(table.pairs, f, lib);
    var ps := PrintOrder(table.pairs, f);
    assert T.Distinct(table.pairs);
    hide Ok, PrintOrder, MembersTree, EntriesOk, J.WfEntries, EntriesReadBack;
    OrderKeepsDistinct(table.pairs, f);
    RebindKeepsDistinct(ps, f);
    DistinctKeysBuild(Rebind(ps, f), reject);
    MembersMeanReload(ps, f, lib, depth, reject);
  }

  lemma {:induction false} MembersMeanReload(ps: seq<J.Pair>, f: DumpFlags, lib: Lib, depth: nat, reject: bool)
    requires EntriesOk(ps, lib)
    requires G.BuildOn(J.EMPTY_OBJECT, Rebind(ps, f), reject) == Some(Build(Rebind(ps, f)))
    ensures G.Wf(MembersTree(ps, f, lib, depth))
    ensures G.Mean(MembersTree(ps, f, lib, depth), lib.conv, reject) == Some(Build(Rebind(ps, f)))
    decreases PairsDepth(ps), |ps| + 3
  {
    hide G.Spell, MembersText, EntriesTree, StringText;
    hide Ok, Indent, J.ValidText, G.BuildOn, TextItems, Build;
    MembersSpellText(ps, f, lib, depth, []);
    if ps != [] {
      TailDepth(ps);
      PrintedStringMeans(ps[0].key, f, []);
      TreeMeansReload(ps[0].value, f, lib, depth + 1, reject);
      EntriesMeanReload(ps[1..], f, lib, depth, reject);
    }
  }

  lemma {:induction false} EntriesMeanReload(ps: seq<J.Pair>, f: DumpFlags, lib: Lib, depth: nat, reject: bool)
    requires EntriesOk(ps, lib)
    ensures G.WfMoreMembers(EntriesTree(ps, f, lib, depth))
    ensures G.MeanMoreMembers(EntriesTree(ps, f, lib, depth), lib.conv, reject) == Some(Rebind(ps, f))
    decreases PairsDepth(ps), |ps| + 2
  {
    hide Ok, Indent, J.ValidText, TextItems;
    EntriesSpellRest(ps, f, lib, depth, []);
    if ps != [] {
      TailDepth(ps);
      PrintedStringMeans(ps[0].key, f, []);
      TreeMeansReload(ps[0].value, f, lib, depth + 1, reject);
      EntriesMeanReload(ps[1..], f, lib, depth, reject);
    }
  }

  // ----- the reloaded value is json_equal to the printed one -----

  /** The pairs of a freshly built object: serials count the members. */
  function Listing(bs: G.Bindings): (ps: seq<J.Pair>) {
    seq(|bs|, i requires 0 <= i < |bs| => T.Pair(bs[i].0, i, bs[i].1))
  }

  ghost predicate Lists(o: J.Json, bs: G.Bindings) {
    && o.Obj? && T.Valid(o.table) && o.serial == |bs|
    && forall p :: p in o.table.pairs <==> p in Listing(bs)
  }

  lemma AbsentFromListing(o: J.Json, bs: G.Bindings, key: bytes)
    requires Lists(o, bs) && forall i :: 0 <= i < |bs| ==> bs[i].0 != key
    ensures T.IndexOf(o.table.pairs, key) == |o.table.pairs|
  {
    forall p | p in o.table.pairs ensures p.key != key {
      var i :| 0 <= i < |Listing(bs)| && Listing(bs)[i] == p;
    }
  }

  lemma ListingAppend(bs: G.Bindings, b: (bytes, J.Json))
    ensures Listing(bs + [b]) == Listing(bs) + [T.Pair(b.0, |bs|, b.1)]
  {}

  lemma OneMoreListed(o: J.Json, bs: G.Bindings, b: (bytes, J.Json))
    requires Lists(o, bs) && forall i :: 0 <= i < |bs| ==> bs[i].0 != b.0
    ensures Lists(J.ObjectSet(o, b.0, b.1), bs + [b])
  {
    hide T.Set, T.Valid;
    AbsentFromListing(o, bs, b.0);
    T.SetIsMapUpdate(o.table, b.0, o.serial, b.1);
    T.SetNewMembers(o.table, b.0, o.serial, b.1);
    ListingAppend(bs, b);
  }

  /** Building from distinct keys: every binding becomes one pair, numbered in order. */
  lemma {:induction false} BuildLists(bs: G.Bindings)
    requires DistinctKeys(bs)
    ensures Lists(Build(bs), bs)
    decreases |bs|
  {
    if bs == [] {
      assert Listing(bs) == [];
    } else {
      var init, b := bs[..|bs| - 1], bs[|bs| - 1];
      assert bs == init + [b];
      BuildLists(init);
      A.BuildAppend(J.EMPTY_OBJECT, init, b, false);
      hide G.BuildOn;
      OneMoreListed(Build(init), init, b);
    }
  }

  lemma DenoteMember(pairs: seq<J.Pair>, p: J.Pair)
    requires T.Distinct(pairs) && p in pairs
    ensures p.key in J.DenoteMembers(pairs) && J.DenoteMembers(pairs)[p.key] == J.Denote(p.value)
  {
    var i :| 0 <= i < |pairs| && pairs[i] == p;
    J.DenoteEntry(pairs, i);
  }

  ghost predicate Namesake(p: J.Pair, others: seq<J.Pair>) {
    exists q :: q in others && q.key == p.key && J.Denote(q.value) == J.Denote(p.value)
  }

  lemma NamesakeDenotes(p: J.Pair, others: seq<J.Pair>)
    requires T.Distinct(others) && Namesake(p, others)
    ensures p.key in J.DenoteMembers(others) && J.DenoteMembers(others)[p.key] == J.Denote(p.value)
  {
    hide J.Denote, J.DenoteMembers;
    var q :| q in others && q.key == p.key && J.Denote(q.value) == J.Denote(p.value);
    DenoteMember(others, q);
  }

  lemma KeysDenoted(a: seq<J.Pair>, key: bytes) returns (p: J.Pair)
    requires T.Distinct(a) && key in J.DenoteMembers(a)
    ensures p in a && p.key == key && J.DenoteMembers(a)[key] == J.Denote(p.value)
  {
    assert key in T.Keys(a);
    var i :| 0 <= i < |a| && a[i].key == key;
    p := a[i];
    DenoteMember(a, p);
  }

  /** Two lists denote the same members when each pair of either has a namesake of equal value in the other. */
  lemma SameMembers(a: seq<J.Pair>, b: seq<J.Pair>)
    requires T.Distinct(a) && T.Distinct(b)
    requires forall p :: p in a ==> Namesake(p, b)
    requires forall p :: p in b ==> Namesake(p, a)
    ensures J.DenoteMembers(a) == J.DenoteMembers(b)
  {
    hide J.Denote, J.DenoteMembers, Namesake;
    var ma, mb := J.DenoteMembers(a), J.DenoteMembers(b);
    forall key | key in ma ensures key in mb && mb[key] == ma[key] {
      var p := KeysDenoted(a, key);
      NamesakeDenotes(p, b);
    }
    forall key | key in mb ensures key in ma {
      var p := KeysDenoted(b, key);
      NamesakeDenotes(p, a);
    }
    assert ma == mb;
  }

  lemma {:induction false} ReloadDenotesSame(j: J.Json, f: DumpFlags)
    requires J.Wf(j)
    ensures J.Denote(Reload(j, f)) == J.Denote(j)
    decreases Depth(j), 0
  {
    match j {
      case Arr(elems) =>
        forall i | 0 <= i < |elems| ensures J.Denote(ReloadAll(elems, f)[i]) == J.Denote(elems[i]) {
          ReloadAt(elems, f, i);
          ReloadDenotesSame(elems[i], f);
        }
        ArrayDenotesSame(elems, ReloadAll(elems, f));
      case Obj(table, serial) => ObjectReloadDenotesSame(table, serial, f);
      case _ =>
    }
  }

  lemma ArrayDenotesSame(a: seq<J.Json>, b: seq<J.Json>)
    requires |a| == |b| && forall i :: 0 <= i < |a| ==> J.Denote(b[i]) == J.Denote(a[i])
    ensures J.Denote(J.Arr(b)) == J.Denote(J.Arr(a))
  {
    assert J.Denote(J.Arr(b)).elems == J.Denote(J.Arr(a)).elems;
  }

  lemma {:induction false} ObjectReloadDenotesSame(table: T.Table<J.Json>, serial: nat, f: DumpFlags)
    requires J.Wf(J.Obj(table, serial))
    ensures J.Denote(Reload(J.Obj(table, serial), f)) == J.Denote(J.Obj(table, serial))
    decreases PairsDepth(table.pairs), 1
  {
    var pairs := table.pairs;
    var ps := PrintOrder(pairs, f);
    assert T.Distinct(pairs) && J.WfEntries(pairs);
    hide J.Wf, PrintOrder, Build, J.Denote;
    var bs := Rebind(ps, f);
    PrintOrderMembers(pairs, f);
    OrderKeepsDistinct(pairs, f);
    RebindKeepsDistinct(ps, f);
    BuildLists(bs);
    var built := Build(bs).table.pairs;
    forall i | 0 <= i < |ps|
      ensures bs[i].0 == ps[i].key && J.Denote(bs[i].1) == J.Denote(ps[i].value) && ps[i] in pairs
    {
      RebindAt(ps, f, i);
      assert ps[i] in ps;
      var k :| 0 <= k < |pairs| && pairs[k] == ps[i];
      ReloadDenotesSame(pairs[k].value, f);
    }
    ReloadNamesakes(pairs, ps, bs, built);
    SameMembers(built, pairs);
    assert J.Denote(J.Obj(table, serial)) == J.VObj(J.DenoteMembers(pairs)) by { ObjectDenotes(J.Obj(table, serial)); }
    ObjectDenotes(Build(bs));
  }

  lemma ObjectDenotes(o: J.Json)
    requires o.Obj?
    ensures J.Denote(o) == J.VObj(J.DenoteMembers(o.table.pairs))
  {}

  lemma ReloadNamesakes(pairs: seq<J.Pair>, ps: seq<J.Pair>, bs: G.Bindings, built: seq<J.Pair>)
    requires |ps| == |bs| && (forall p :: p in ps <==> p in pairs)
    requires forall p :: p in built <==> p in Listing(bs)
    requires forall i :: 0 <= i < |ps| ==>
      bs[i].0 == ps[i].key && J.Denote(bs[i].1) == J.Denote(ps[i].value) && ps[i] in pairs
    ensures forall p :: p in built ==> Namesake(p, pairs)
    ensures forall p :: p in pairs ==> Namesake(p, built)
  {
    hide J.Denote;
    forall p | p in built ensures Namesake(p, pairs) {
      assert p in Listing(bs);
      var i :| 0 <= i < |bs| && Listing(bs)[i] == p;
      assert ps[i] in pairs && ps[i].key == p.key && J.Denote(ps[i].value) == J.Denote(p.value);
    }
    forall p | p in pairs ensures Namesake(p, built) {
      assert p in ps;
      var i :| 0 <= i < |ps| && ps[i] == p;
      var q := Listing(bs)[i];
      assert q in Listing(bs);
      assert q in built && q.key == p.key && J.Denote(q.value) == J.Denote(p.value);
    }
  }

  // ----- print, parse, print -----

  lemma ListingSorted(ps: seq<J.Pair>, bs: G.Bindings, byKey: bool)
    requires |ps| == |bs| && forall i :: 0 <= i < |ps| ==> bs[i].0 == ps[i].key
    requires byKey ==> Sorted(ps, true)
    ensures Sorted(Listing(bs), byKey)
  {
    hide KeyLess;
    var r := Listing(bs);
    forall i, j | 0 <= i < j < |r| ensures Before(r[i], r[j], byKey) {
      if byKey { assert Before(ps[i], ps[j], true); }
    }
  }

  lemma BuiltComparable(bs: G.Bindings, byKey: bool)
    requires DistinctKeys(bs)
    ensures Comparable(Build(bs).table.pairs, byKey)
  {
    BuildLists(bs);
    hide Build;
    var built := Build(bs).table.pairs;
    forall i, j | 0 <= i < j < |built|
      ensures if byKey then built[i].key != built[j].key else built[i].serial != built[j].serial
    {
      assert built[i] in built && built[j] in built;
      assert built[i] in Listing(bs) && built[j] in Listing(bs);
      assert built[i].key != built[j].key;
      var k :| 0 <= k < |bs| && Listing(bs)[k] == built[i];
      var m :| 0 <= m < |bs| && Listing(bs)[m] == built[j];
    }
  }

  /** An object built from members in print order is printed in that order again. */
  lemma {:induction false} BuiltPrintsInOrder(pairs: seq<J.Pair>, f: DumpFlags)
    requires T.Distinct(pairs) && (f.sortKeys || f.preserveOrder)
    ensures var bs := Rebind(PrintOrder(pairs, f), f);
      PrintOrder(Build(bs).table.pairs, f) == Listing(bs)
  {
    var ps := PrintOrder(pairs, f);
    var bs := Rebind(ps, f);
    var byKey := f.sortKeys;
    OrderKeepsDistinct(pairs, f);
    RebindKeepsDistinct(ps, f);
    BuildLists(bs);
    BuiltComparable(bs, byKey);
    var built := Build(bs).table.pairs;
    SortSorts(built, byKey);
    SortMembers(built, byKey);
    if byKey {
      DistinctAreComparable(pairs);
      SortSorts(pairs, true);
    }
    hide Rebind, Build, Sort, Sorted;
    forall i | 0 <= i < |ps| ensures bs[i].0 == ps[i].key { RebindAt(ps, f, i); }
    ListingSorted(ps, bs, byKey);
    SortedIsUnique(Sort(built, byKey), Listing(bs), byKey);
  }

  lemma DistinctAreComparable(pairs: seq<J.Pair>)
    requires T.Distinct(pairs)
    ensures Comparable(pairs, true)
  {}

  /** Printing only looks at keys and at the text of values. */
  lemma {:induction false} SameEntriesText(ps: seq<J.Pair>, qs: seq<J.Pair>, f: DumpFlags, fmt: Dtostr, depth: nat)
    requires |ps| == |qs| && ps != []
    requires forall i :: 0 <= i < |ps| ==>
      qs[i].key == ps[i].key && Text(qs[i].value, f, fmt, depth + 1) == Text(ps[i].value, f, fmt, depth + 1)
    ensures EntriesText(qs, f, fmt, depth) == EntriesText(ps, f, fmt, depth)
    decreases |ps|
  {
    hide Text, StringText, Indent, Separator;
    assert qs[0].key == ps[0].key;
    if |ps| > 1 {
      SameEntriesText(ps[1..], qs[1..], f, fmt, depth);
    }
  }

  lemma {:induction false} SameElemsText(a: seq<J.Json>, b: seq<J.Json>, f: DumpFlags, fmt: Dtostr, depth: nat)
    requires |a| == |b| && a != []
    requires forall i :: 0 <= i < |a| ==> Text(b[i], f, fmt, depth + 1) == Text(a[i], f, fmt, depth + 1)
    ensures ElemsText(b, f, fmt, depth) == ElemsText(a, f, fmt, depth)
    decreases |a|
  {
    hide Text, Indent;
    assert Text(b[0], f, fmt, depth + 1) == Text(a[0], f, fmt, depth + 1);
    if |a| > 1 {
      SameElemsText(a[1..], b[1..], f, fmt, depth);
    }
  }

  /** With keys sorted or kept in insertion order, a reloaded value prints to the very same bytes. */
  lemma {:induction false} ReloadPrintsSame(j: J.Json, f: DumpFlags, fmt: Dtostr, depth: nat)
    requires J.Wf(j) && (f.sortKeys || f.preserveOrder)
    ensures Text(Reload(j, f), f, fmt, depth) == Text(j, f, fmt, depth)
    decreases Depth(j), 0
  {
    match j {
      case Arr(elems) =>
        forall i | 0 <= i < |elems|
          ensures Text(ReloadAll(elems, f)[i], f, fmt, depth + 1) == Text(elems[i], f, fmt, depth + 1)
        {
          ReloadAt(elems, f, i);
          ReloadPrintsSame(elems[i], f, fmt, depth + 1);
        }
        if elems != [] {
          SameElemsText(elems, ReloadAll(elems, f), f, fmt, depth);
        }
      case Obj(table, serial) => ObjectReloadPrintsSame(table, serial, f, fmt, depth);
      case _ =>
    }
  }

  lemma {:induction false} ObjectReloadPrintsSame(
    table: T.Table<J.Json>, serial: nat, f: DumpFlags, fmt: Dtostr, depth: nat)
    requires J.Wf(J.Obj(table, serial)) && (f.sortKeys || f.preserveOrder)
    ensures Text(Reload(J.Obj(table, serial), f), f, fmt, depth) == Text(J.Obj(table, serial), f, fmt, depth)
    decreases PairsDepth(table.pairs), 1
  {
    var pairs := table.pairs;
    assert T.Distinct(pairs) && J.WfEntries(pairs);
    var ps := PrintOrder(pairs, f);
    var bs := Rebind(ps, f);
    assert Reload(J.Obj(table, serial), f) == Build(bs);
    hide J.Wf, Build, PrintOrder;
    BuiltPrintsInOrder(pairs, f);
    PrintOrderMembers(pairs, f);
    forall i | 0 <= i < |ps|
      ensures Listing(bs)[i].key == ps[i].key
      ensures Text(Listing(bs)[i].value, f, fmt, depth + 1) == Text(ps[i].value, f, fmt, depth + 1)
    {
      RebindAt(ps, f, i);
      assert ps[i] in ps;
      assert ps[i] in pairs;
      var k :| 0 <= k < |pairs| && pairs[k] == ps[i];
      ReloadPrintsSame(pairs[k].value, f, fmt, depth + 1);
    }
    if ps != [] {
      SameEntriesText(ps, Listing(bs), f, fmt, depth);
    }
    ObjectText(Build(bs), f, fmt, depth);
    ObjectText(J.Obj(table, serial), f, fmt, depth);
  }

  lemma ObjectText(o: J.Json, f: DumpFlags, fmt: Dtostr, depth: nat)
    requires o.Obj?
    ensures Text(o, f, fmt, depth) == MembersText(PrintOrder(o.table.pairs, f), f, fmt, depth)
  {}

  // ----- the theorems -----

  lemma {:induction false} PrintedParses(j: J.Json, f: DumpFlags, lib: Lib, flags: P.LoadFlags)
    requires Ok(j, lib) && (flags.decodeAny || IsContainer(j))
    ensures P.Loads(Text(j, f, lib.fmt, 0), flags, lib.conv) == Some(Reload(j, f))
  {
    hide Ok, Utf8.ValidUtf8, P.Loads, Reload, G.Wf, G.Mean, G.Spell, Text;
    var text := Text(j, f, lib.fmt, 0);
    var v := PrintTree(j, f, lib, 0);
    TreeSpellsText(j, f, lib, 0, []);
    TreeMeansReload(j, f, lib, 0, flags.rejectDuplicates);
    A.SpellIsUtf8(v, []);
    A.EmptyIsUtf8();
    P.ReadableIsValid(text);
    assert text + [] == text && [] + text == text && A.Readable(text) == text;
    A.LoadsComplete(text, flags, lib.conv, Reload(j, f), [], v, []);
  }

  /**
   * Round trip: whatever the printing flags, the printed text parses, and the result is json_equal to
   * what was printed. Values without reals meet the condition on the conversions vacuously.
   */
  lemma {:induction false} RoundTripTheorem(j: J.Json, f: DumpFlags, lib: Lib, flags: P.LoadFlags)
    requires J.Wf(j) && RealsReadBack(j, lib.fmt, lib.conv)
    requires (f.encodeAny || IsContainer(j)) && (flags.decodeAny || IsContainer(j))
    ensures var text := Dumps(j, f, lib.fmt);
      && text.Some?
      && var back := P.Loads(text.value, flags, lib.conv);
      back.Some? && J.Wf(back.value) && J.Equal(j, back.value)
  {
    PrintedParses(j, f, lib, flags);
    hide P.Loads, Reload, Text, J.Wf, J.Equal, RealsReadBack, J.Denote;
    ReloadDenotesSame(j, f);
    A.LoadedIsWf(Text(j, f, lib.fmt, 0), flags, lib.conv);
    J.EqualIffSameDenotation(j, Reload(j, f));
  }

  /** Print, parse, print is a fixpoint, byte for byte, when keys are sorted or kept in insertion order. */
  lemma {:induction false} PrintParsePrint(j: J.Json, f: DumpFlags, lib: Lib, flags: P.LoadFlags)
    requires J.Wf(j) && RealsReadBack(j, lib.fmt, lib.conv) && (f.sortKeys || f.preserveOrder)
    requires (f.encodeAny || IsContainer(j)) && (flags.decodeAny || IsContainer(j))
    ensures var text := Dumps(j, f, lib.fmt);
      && text.Some?
      && var back := P.Loads(text.value, flags, lib.conv);
      back.Some? && Dumps(back.value, f, lib.fmt) == text
  {
    PrintedParses(j, f, lib, flags);
    ReloadPrintsSame(j, f, lib.fmt, 0);
    ReloadIsContainer(j, f);
  }

  lemma ReloadIsContainer(j: J.Json, f: DumpFlags)
    ensures IsContainer(Reload(j, f)) == IsContainer(j)
  {}
}
