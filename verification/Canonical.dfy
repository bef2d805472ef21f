/** With keys sorted, the printed text of a value is canonical: json_equal values, and only those, print alike. */
module Canonical {
  import opened DumpSpec
  import J = Json
  import T = Table
  import P = ParseSpec
  import R = RoundTrip
  import Reload

  /** A pair as its key and what its value denotes. */
  ghost function Bare(p: J.Pair): T.Pair<J.Value> { T.Pair(p.key, 0, J.Denote(p.value)) }

  ghost function BareAll(ps: seq<J.Pair>): (r: seq<T.Pair<J.Value>>)
    ensures |r| == |ps| && forall i :: 0 <= i < |r| ==> r[i] == Bare(ps[i])
  {
    seq(|ps|, i requires 0 <= i < |ps| => Bare(ps[i]))
  }

  lemma BareKeepsSorted(ps: seq<J.Pair>)
    requires Sorted(ps, true)
    ensures Sorted(BareAll(ps), true)
  {
    hide J.Denote, KeyLess;
    var r := BareAll(ps);
    forall i, j | 0 <= i < j < |r| ensures Before(r[i], r[j], true) {
      assert Before(ps[i], ps[j], true);
    }
  }

  /** Objects that denote the same map list the same keys and values, one order or the other. */
  lemma BareSubset(ps: seq<J.Pair>, a: seq<J.Pair>, qs: seq<J.Pair>, b: seq<J.Pair>, q: T.Pair<J.Value>)
    requires T.Distinct(a) && T.Distinct(b) && J.DenoteMembers(a) == J.DenoteMembers(b)
    requires (forall p :: p in ps <==> p in a) && (forall p :: p in qs <==> p in b)
    requires q in BareAll(ps)
    ensures q in BareAll(qs)
  {
    hide J.Denote, J.DenoteMembers;
    var i :| 0 <= i < |ps| && BareAll(ps)[i] == q;
    assert ps[i] in ps;
    Reload.DenoteMember(a, ps[i]);
    var p := Reload.KeysDenoted(b, q.key);
    assert p in qs;
    var j :| 0 <= j < |qs| && qs[j] == p;
    assert BareAll(qs)[j] == q;
  }

  lemma SameSortedOrder(a: seq<J.Pair>, b: seq<J.Pair>)
    requires T.Distinct(a) && T.Distinct(b) && J.DenoteMembers(a) == J.DenoteMembers(b)
    ensures BareAll(Sort(a, true)) == BareAll(Sort(b, true))
  {
    hide J.Denote, J.DenoteMembers, Sort, Sorted;
    var ps, qs := Sort(a, true), Sort(b, true);
    Reload.DistinctAreComparable(a);
    Reload.DistinctAreComparable(b);
    SortSorts(a, true);
    SortSorts(b, true);
    SortMembers(a, true);
    SortMembers(b, true);
    BareKeepsSorted(ps);
    BareKeepsSorted(qs);
    forall q: T.Pair<J.Value> ensures q in BareAll(ps) <==> q in BareAll(qs) {
      if q in BareAll(ps) { BareSubset(ps, a, qs, b, q); }
      if q in BareAll(qs) { BareSubset(qs, b, ps, a, q); }
    }
    SortedIsUnique(BareAll(ps), BareAll(qs), true);
  }

  /** Values that denote the same print the same under sorted keys. */
  lemma {:induction false} SameValueSameText(a: J.Json, b: J.Json, f: DumpFlags, fmt: Dtostr, depth: nat)
    requires J.Wf(a) && J.Wf(b) && J.Denote(a) == J.Denote(b) && f.sortKeys
    ensures Text(a, f, fmt, depth) == Text(b, f, fmt, depth)
    decreases Depth(a), 0
  {
    match a {
      case Arr(elems) => ArraysSameText(elems, b.elems, f, fmt, depth);
      case Obj(table, _) => ObjectsSameText(a, b, f, fmt, depth);
      case _ =>
    }
  }

  lemma {:induction false} ArraysSameText(a: seq<J.Json>, b: seq<J.Json>, f: DumpFlags, fmt: Dtostr, depth: nat)
    requires J.Wf(J.Arr(a)) && J.Wf(J.Arr(b)) && J.Denote(J.Arr(a)) == J.Denote(J.Arr(b)) && f.sortKeys
    ensures Text(J.Arr(a), f, fmt, depth) == Text(J.Arr(b), f, fmt, depth)
    decreases Depth(J.Arr(a)), -1
  {
    var va, vb := J.Denote(J.Arr(a)).elems, J.Denote(J.Arr(b)).elems;
    assert |a| == |va| == |vb| == |b|;
    forall i | 0 <= i < |a| ensures Text(b[i], f, fmt, depth + 1) == Text(a[i], f, fmt, depth + 1) {
      assert va[i] == vb[i];
      SameValueSameText(a[i], b[i], f, fmt, depth + 1);
    }
    if a != [] {
      Reload.SameElemsText(a, b, f, fmt, depth);
    }
  }

  lemma {:induction false} ObjectsSameText(a: J.Json, b: J.Json, f: DumpFlags, fmt: Dtostr, depth: nat)
    requires J.Wf(a) && J.Wf(b) && a.Obj? && b.Obj? && J.Denote(a) == J.Denote(b) && f.sortKeys
    ensures Text(a, f, fmt, depth) == Text(b, f, fmt, depth)
    decreases Depth(a), -1
  {
    var ap, bp := a.table.pairs, b.table.pairs;
    assert T.Distinct(ap) && T.Distinct(bp) && J.WfEntries(ap) && J.WfEntries(bp);
    hide J.Denote, J.Wf, J.DenoteMembers, Sort;
    Reload.ObjectDenotes(a);
    Reload.ObjectDenotes(b);
    SameSortedOrder(ap, bp);
    var ps, qs := Sort(ap, true), Sort(bp, true);
    SortMembers(ap, true);
    SortMembers(bp, true);
    forall i | 0 <= i < |ps|
      ensures qs[i].key == ps[i].key && Text(qs[i].value, f, fmt, depth + 1) == Text(ps[i].value, f, fmt, depth + 1)
    {
      assert BareAll(ps)[i] == BareAll(qs)[i];
      assert ps[i] in ps && qs[i] in qs;
      var k :| 0 <= k < |ap| && ap[k] == ps[i];
      var m :| 0 <= m < |bp| && bp[m] == qs[i];
      SameValueSameText(ap[k].value, bp[m].value, f, fmt, depth + 1);
    }
    assert |ps| == |BareAll(ps)| == |BareAll(qs)| == |qs|;
    if ps != [] {
      Reload.SameEntriesText(ps, qs, f, fmt, depth);
    }
    Reload.ObjectText(a, f, fmt, depth);
    Reload.ObjectText(b, f, fmt, depth);
  }

  /** Whatever the flags, values that print alike are json_equal: printing loses nothing json_equal can see. */
  lemma {:induction false} SameTextIsEqual(a: J.Json, b: J.Json, f: DumpFlags, lib: R.Lib)
    requires R.Ok(a, lib) && R.Ok(b, lib)
    requires f.encodeAny || (IsContainer(a) && IsContainer(b))
    requires Dumps(a, f, lib.fmt) == Dumps(b, f, lib.fmt)
    ensures J.Equal(a, b)
  {
    hide J.Wf, J.Equal, R.RealsReadBack, P.Loads, Text;
    var flags := P.LoadFlags(false, false, true);
    Reload.RoundTripTheorem(a, f, lib, flags);
    Reload.RoundTripTheorem(b, f, lib, flags);
    var back := P.Loads(Dumps(a, f, lib.fmt).value, flags, lib.conv).value;
    J.EqualIsEquivalence(b, back, a);
    J.EqualIsEquivalence(a, back, b);
  }

  /** With sorted keys, json_equal is equality of the printed texts. */
  lemma {:induction false} EqualIffSameSortedText(a: J.Json, b: J.Json, f: DumpFlags, lib: R.Lib)
    requires R.Ok(a, lib) && R.Ok(b, lib) && f.sortKeys
    requires f.encodeAny || (IsContainer(a) && IsContainer(b))
    ensures J.Equal(a, b) <==> Dumps(a, f, lib.fmt) == Dumps(b, f, lib.fmt)
  {
    J.EqualIffSameDenotation(a, b);
    hide J.Wf, J.Equal, J.Denote, R.RealsReadBack, Text;
    if J.Equal(a, b) {
      SameValueSameText(a, b, f, lib.fmt, 0);
    }
    if Dumps(a, f, lib.fmt) == Dumps(b, f, lib.fmt) {
      SameTextIsEqual(a, b, f, lib);
    }
  }
}
