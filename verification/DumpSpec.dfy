/** What jansson/dump.c prints for a value, as functions. Module Dumper proves the code against them. */
module DumpSpec {
  import opened Basics
  import Utf8
  import J = Json
  import T = Table
  import L = LexSpec

  /** JSON_INDENT is the low five bits of the flags. */
  datatype DumpFlags = DumpFlags(
    indent: nat, compact: bool, ensureAscii: bool, sortKeys: bool, preserveOrder: bool,
    encodeAny: bool, escapeSlash: bool)

  /** jsonp_dtostr: the text printed for a real. */
  type Dtostr = real -> bytes

  function Spaces(n: nat): bytes { seq(n, _ => SPACE) }

  /** dump_indent */
  function Indent(f: DumpFlags, depth: nat, space: bool): bytes {
    if f.indent > 0 then [LF] + Spaces(f.indent * depth)
    else if space && !f.compact then [SPACE]
    else []
  }

  // ----- strings -----

  predicate NeedsEscape(cp: int, f: DumpFlags) {
    || cp == BACKSLASH || cp == QUOTE || cp < 0x20
    || (f.escapeSlash && cp == SLASH)
    || (f.ensureAscii && cp > 0x7F)
  }

  function HexDigit(v: int): byte
    requires 0 <= v < 16
  {
    if v < 10 then ZERO + v else 0x61 + (v - 10)
  }

  /** The four digits printf's %04x gives for a 16-bit value. */
  function Hex04(v: int): (s: bytes)
    requires 0 <= v < 0x10000
    ensures |s| == 4
  {
    [HexDigit(v / 0x1000), HexDigit(v / 0x100 % 16), HexDigit(v / 0x10 % 16), HexDigit(v % 16)]
  }

  /** The letter of a two-character escape, None when the code point has none. */
  function ShortEscape(cp: int): Option<byte> {
    if cp == BACKSLASH || cp == QUOTE || cp == SLASH then Some(cp)
    else if cp == 0x08 then Some(LOWER_B)
    else if cp == 0x0C then Some(LOWER_F)
    else if cp == LF then Some(LOWER_N)
    else if cp == CR then Some(LOWER_R)
    else if cp == TAB then Some(LOWER_T)
    else None
  }

  function HighHalf(cp: int): int { 0xD800 + (cp - 0x10000) / 0x400 }
  function LowHalf(cp: int): int { 0xDC00 + (cp - 0x10000) % 0x400 }

  function EscapeText(cp: Utf8.scalar): bytes {
    match ShortEscape(cp)
    case Some(c) => [BACKSLASH, c]
    case None =>
      if cp < 0x10000 then [BACKSLASH, LOWER_U] + Hex04(cp)
      else [BACKSLASH, LOWER_U] + Hex04(HighHalf(cp)) + ([BACKSLASH, LOWER_U] + Hex04(LowHalf(cp)))
  }

  function CharText(cp: Utf8.scalar, f: DumpFlags): bytes {
    if NeedsEscape(cp, f) then EscapeText(cp) else Utf8.Encoding(cp)
  }

  function CharsText(cps: seq<Utf8.scalar>, f: DumpFlags): bytes {
    if cps == [] then [] else CharText(cps[0], f) + CharsText(cps[1..], f)
  }

  function CodePoints(s: bytes): seq<Utf8.scalar> {
    if Utf8.ValidUtf8(s) then Utf8.Decoded(s) else []
  }

  /** dump_string; it fails on text that is not UTF-8, where this function says nothing of interest. */
  function StringText(s: bytes, f: DumpFlags): bytes {
    [QUOTE] + (CharsText(CodePoints(s), f) + [QUOTE])
  }

  // ----- numbers -----

  function NatText(n: nat): (s: bytes)
    ensures s != [] && L.AllDigits(s) && (|s| > 1 ==> s[0] != ZERO) && (n > 0 ==> s[0] != ZERO)
    decreases n
  {
    if n < 10 then [ZERO + n] else NatText(n / 10) + [ZERO + n % 10]
  }

  /** snprintf with %lld */
  function IntText(i: int): bytes {
    if i < 0 then [MINUS] + NatText(-i) else NatText(i)
  }

  // ----- key order -----

  /** strcmp(a, b) < 0 */
  predicate KeyLess(a: bytes, b: bytes)
    decreases |a|
  {
    b != [] && (a == [] || a[0] < b[0] || (a[0] == b[0] && KeyLess(a[1..], b[1..])))
  }

  predicate Before<V>(p: T.Pair<V>, q: T.Pair<V>, byKey: bool) {
    if byKey then KeyLess(p.key, q.key) else p.serial < q.serial
  }

  ghost predicate Sorted<V>(ps: seq<T.Pair<V>>, byKey: bool) {
    forall i, j :: 0 <= i < j < |ps| ==> Before(ps[i], ps[j], byKey)
  }

  function InsertSorted<V>(p: T.Pair<V>, ps: seq<T.Pair<V>>, byKey: bool): seq<T.Pair<V>> {
    if ps == [] then [p]
    else if Before(p, ps[0], byKey) then [p] + ps
    else [ps[0]] + InsertSorted(p, ps[1..], byKey)
  }

  /** qsort, on keys or serials that are all different: the sorted order is then unique. */
  function Sort<V>(ps: seq<T.Pair<V>>, byKey: bool): seq<T.Pair<V>> {
    if ps == [] then [] else InsertSorted(ps[0], Sort(ps[1..], byKey), byKey)
  }

  /** The order in which an object's members are printed. */
  function PrintOrder<V>(ps: seq<T.Pair<V>>, f: DumpFlags): seq<T.Pair<V>> {
    if f.sortKeys then Sort(ps, true) else if f.preserveOrder then Sort(ps, false) else ps
  }

  // ----- values -----

  function Max(a: nat, b: nat): nat { if a > b then a else b }

  /** The nesting depth of a value. */
  function Depth(j: J.Json): nat {
    match j
    case Arr(elems) => 1 + ElemsDepth(elems)
    case Obj(table, _) => 1 + PairsDepth(table.pairs)
    case _ => 0
  }

  function ElemsDepth(js: seq<J.Json>): (d: nat)
    ensures forall i :: 0 <= i < |js| ==> Depth(js[i]) <= d
  {
    if js == [] then 0 else Max(Depth(js[0]), ElemsDepth(js[1..]))
  }

  function PairsDepth(ps: seq<J.Pair>): (d: nat)
    ensures forall i :: 0 <= i < |ps| ==> Depth(ps[i].value) <= d
  {
    if ps == [] then 0
    else
      assert ps[0].value < ps[0];
      Max(Depth(ps[0].value), PairsDepth(ps[1..]))
  }

  lemma DepthOfMembers(a: seq<J.Pair>, b: seq<J.Pair>)
    requires forall p :: p in a ==> p in b
    ensures PairsDepth(a) <= PairsDepth(b)
  {
    if a != [] {
      assert a[0] in b;
      var k :| 0 <= k < |b| && b[k] == a[0];
      assert Depth(b[k].value) <= PairsDepth(b);
      DepthOfMembers(a[1..], b);
    }
  }

  function IsContainer(j: J.Json): bool { j.Arr? || j.Obj? }

  /** do_dump at a given depth. */
  function Text(j: J.Json, f: DumpFlags, fmt: Dtostr, depth: nat): bytes
    decreases Depth(j), 0
  {
    match j
    case Null => NULL_TEXT
    case True => TRUE_TEXT
    case False => FALSE_TEXT
    case Int(i) => IntText(i)
    case Real(r) => fmt(r)
    case Str(s) => StringText(s, f)
    case Arr(elems) =>
      [LBRACKET] + (if elems == [] then [RBRACKET] else Indent(f, depth + 1, false) + ElemsText(elems, f, fmt, depth))
    case Obj(table, _) =>
      var ps := PrintOrder(table.pairs, f);
      PrintOrderMembers(table.pairs, f);
      assert forall p :: p in ps ==> p in table.pairs;
      DepthOfMembers(ps, table.pairs);
      MembersText(ps, f, fmt, depth)
  }

  /** An object whose members are printed in the order ps. */
  function MembersText(ps: seq<J.Pair>, f: DumpFlags, fmt: Dtostr, depth: nat): bytes
    decreases PairsDepth(ps), |ps| + 1
  {
    [LBRACE] + (if ps == [] then [RBRACE] else Indent(f, depth + 1, false) + EntriesText(ps, f, fmt, depth))
  }

  /** The elements js, then the closing bracket. */
  function ElemsText(js: seq<J.Json>, f: DumpFlags, fmt: Dtostr, depth: nat): bytes
    requires js != []
    decreases ElemsDepth(js), |js|
  {
    Text(js[0], f, fmt, depth + 1) + (
      if |js| == 1 then Indent(f, depth, false) + [RBRACKET]
      else [COMMA] + (Indent(f, depth + 1, true) + ElemsText(js[1..], f, fmt, depth)))
  }

  function Separator(f: DumpFlags): bytes { if f.compact then [COLON] else [COLON, SPACE] }

  /** The members ps, then the closing brace. */
  function EntriesText(ps: seq<J.Pair>, f: DumpFlags, fmt: Dtostr, depth: nat): bytes
    requires ps != []
    decreases PairsDepth(ps), |ps|
  {
    StringText(ps[0].key, f) + (Separator(f) + (Text(ps[0].value, f, fmt, depth + 1) + (
      if |ps| == 1 then Indent(f, depth, false) + [RBRACE]
      else [COMMA] + (Indent(f, depth + 1, true) + EntriesText(ps[1..], f, fmt, depth)))))
  }

  /** json_dumps: None unless the root is a container or any value may be encoded. */
  function Dumps(j: J.Json, f: DumpFlags, fmt: Dtostr): Option<bytes> {
    if !f.encodeAny && !IsContainer(j) then None else Some(Text(j, f, fmt, 0))
  }

  // ----- sorting -----

  lemma {:induction false} KeyOrderIsTotal(a: bytes, b: bytes)
    ensures KeyLess(a, b) ==> a != b && !KeyLess(b, a)
    ensures !KeyLess(a, b) && !KeyLess(b, a) ==> a == b
    decreases |a|
  {
    if a != [] && b != [] && a[0] == b[0] {
      KeyOrderIsTotal(a[1..], b[1..]);
      assert a == [a[0]] + a[1..] && b == [b[0]] + b[1..];
    }
  }

  lemma {:induction false} KeyOrderIsTransitive(a: bytes, b: bytes, c: bytes)
    requires KeyLess(a, b) && KeyLess(b, c)
    ensures KeyLess(a, c)
    decreases |a|
  {
    if a != [] && a[0] == b[0] == c[0] {
      KeyOrderIsTransitive(a[1..], b[1..], c[1..]);
    }
  }

  lemma {:induction false} InsertSortedMembers<V(!new)>(p: T.Pair<V>, ps: seq<T.Pair<V>>, byKey: bool)
    ensures |InsertSorted(p, ps, byKey)| == |ps| + 1
    ensures forall q :: q in InsertSorted(p, ps, byKey) <==> q == p || q in ps
  {
    if ps != [] && !Before(p, ps[0], byKey) {
      InsertSortedMembers(p, ps[1..], byKey);
      assert ps == [ps[0]] + ps[1..];
    }
  }

  lemma {:induction false} SortMembers<V(!new)>(ps: seq<T.Pair<V>>, byKey: bool)
    ensures |Sort(ps, byKey)| == |ps|
    ensures forall q :: q in Sort(ps, byKey) <==> q in ps
  {
    if ps != [] {
      SortMembers(ps[1..], byKey);
      InsertSortedMembers(ps[0], Sort(ps[1..], byKey), byKey);
      assert ps == [ps[0]] + ps[1..];
    }
  }

  lemma PrintOrderMembers<V(!new)>(ps: seq<T.Pair<V>>, f: DumpFlags)
    ensures |PrintOrder(ps, f)| == |ps|
    ensures forall q :: q in PrintOrder(ps, f) <==> q in ps
  {
    SortMembers(ps, true);
    SortMembers(ps, false);
  }

  /** Any two of the pairs are ordered one way or the other. */
  ghost predicate Comparable<V>(ps: seq<T.Pair<V>>, byKey: bool) {
    forall i, j :: 0 <= i < j < |ps| ==> if byKey then ps[i].key != ps[j].key else ps[i].serial != ps[j].serial
  }

  lemma BeforeIsOrder<V(!new)>(p: T.Pair<V>, q: T.Pair<V>, r: T.Pair<V>, byKey: bool)
    ensures Before(p, q, byKey) ==> !Before(q, p, byKey) && p != q
    ensures (if byKey then p.key != q.key else p.serial != q.serial) ==> Before(p, q, byKey) || Before(q, p, byKey)
    ensures Before(p, q, byKey) && Before(q, r, byKey) ==> Before(p, r, byKey)
  {
    KeyOrderIsTotal(p.key, q.key);
    if KeyLess(p.key, q.key) && KeyLess(q.key, r.key) { KeyOrderIsTransitive(p.key, q.key, r.key); }
  }

  lemma {:induction false} InsertKeepsSorted<V(!new)>(p: T.Pair<V>, ps: seq<T.Pair<V>>, byKey: bool)
    requires Sorted(ps, byKey)
    requires forall i :: 0 <= i < |ps| ==> if byKey then p.key != ps[i].key else p.serial != ps[i].serial
    ensures Sorted(InsertSorted(p, ps, byKey), byKey)
  {
    hide Before;
    var r := InsertSorted(p, ps, byKey);
    if ps == [] {
    } else if Before(p, ps[0], byKey) {
      forall j | 0 <= j < |ps| ensures Before(p, ps[j], byKey) {
        BeforeIsOrder(p, ps[0], ps[j], byKey);
      }
    } else {
      BeforeIsOrder(p, ps[0], p, byKey);
      BeforeIsOrder(ps[0], p, p, byKey);
      InsertKeepsSorted(p, ps[1..], byKey);
      InsertSortedMembers(p, ps[1..], byKey);
      var t := InsertSorted(p, ps[1..], byKey);
      forall j | 0 <= j < |t| ensures Before(ps[0], t[j], byKey) {
        assert t[j] in t;
        if t[j] != p {
          assert t[j] in ps[1..];
          var k :| 0 <= k < |ps[1..]| && ps[1..][k] == t[j];
          assert ps[k + 1] == t[j];
        }
      }
    }
  }

  lemma {:induction false} SortSorts<V(!new)>(ps: seq<T.Pair<V>>, byKey: bool)
    requires Comparable(ps, byKey)
    ensures Sorted(Sort(ps, byKey), byKey)
  {
    if ps != [] {
      SortSorts(ps[1..], byKey);
      SortMembers(ps[1..], byKey);
      var t := Sort(ps[1..], byKey);
      forall i | 0 <= i < |t| ensures if byKey then ps[0].key != t[i].key else ps[0].serial != t[i].serial {
        assert t[i] in t;
        assert t[i] in ps[1..];
        var k :| 0 <= k < |ps[1..]| && ps[1..][k] == t[i];
        assert ps[k + 1] == t[i];
      }
      InsertKeepsSorted(ps[0], t, byKey);
    }
  }

  /** Two sorted lists with the same members are the same list: the order qsort finds is unique. */
  lemma {:induction false} SortedIsUnique<V(!new)>(a: seq<T.Pair<V>>, b: seq<T.Pair<V>>, byKey: bool)
    requires Sorted(a, byKey) && Sorted(b, byKey)
    requires forall q :: q in a <==> q in b
    ensures a == b
    decreases |a|
  {
    hide Before;
    assert b != [] ==> b[0] in a;
    if a != [] {
      assert a[0] in b;
      FirstIsLeast(a, b[0], byKey);
      FirstIsLeast(b, a[0], byKey);
      BeforeIsOrder(a[0], b[0], a[0], byKey);
      assert a[0] == b[0];
      TailMembers(a, byKey);
      TailMembers(b, byKey);
      SortedIsUnique(a[1..], b[1..], byKey);
      assert a == [a[0]] + a[1..] && b == [b[0]] + b[1..];
    }
  }

  lemma FirstIsLeast<V(!new)>(a: seq<T.Pair<V>>, q: T.Pair<V>, byKey: bool)
    requires Sorted(a, byKey) && q in a
    ensures q == a[0] || Before(a[0], q, byKey)
  {
    var i :| 0 <= i < |a| && a[i] == q;
  }

  lemma TailMembers<V(!new)>(a: seq<T.Pair<V>>, byKey: bool)
    requires Sorted(a, byKey) && a != []
    ensures Sorted(a[1..], byKey)
    ensures forall q :: q in a[1..] <==> q in a && q != a[0]
  {
    assert a == [a[0]] + a[1..];
    forall q | q in a[1..] ensures q != a[0] {
      var i :| 0 <= i < |a[1..]| && a[1..][i] == q;
      assert Before(a[0], a[i + 1], byKey);
      BeforeIsOrder(a[0], q, q, byKey);
    }
  }
}
