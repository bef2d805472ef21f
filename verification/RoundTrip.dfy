/**
 * Printing and parsing undo each other. Every printed text is a text of the grammar: PrintTree builds
 * its derivation, so the theorems of module Accepts apply to it.
 */
module RoundTrip {
  import opened Basics
  import opened DumpSpec
  import G = Grammar
  import PG = ParseGrammar
  import Utf8
  import J = Json
  import T = Table
  import L = LexSpec

  // ----- strings -----

  function EscapeItems(cp: Utf8.scalar): seq<G.Item> {
    match ShortEscape(cp)
    case Some(c) => [G.Escaped(c)]
    case None =>
      if cp < 0x10000 then [G.Unicode(Hex04(cp))]
      else [G.Unicode(Hex04(HighHalf(cp))), G.Unicode(Hex04(LowHalf(cp)))]
  }

  function CharItems(cp: Utf8.scalar, f: DumpFlags): seq<G.Item> {
    if NeedsEscape(cp, f) then EscapeItems(cp) else [G.Unescaped(cp)]
  }

  function StringItems(cps: seq<Utf8.scalar>, f: DumpFlags): seq<G.Item> {
    if cps == [] then [] else CharItems(cps[0], f) + StringItems(cps[1..], f)
  }

  lemma Hex04Digits(v: int)
    requires 0 <= v < 0x10000
    ensures G.FourHexDigits(Hex04(v)) && G.CodeUnit(Hex04(v)) == v
  {
    HexDigitValue(v / 0x1000);
    HexDigitValue(v / 0x100 % 16);
    HexDigitValue(v / 0x10 % 16);
    HexDigitValue(v % 16);
    assert v / 0x100 == v / 0x10 / 16 && v / 0x1000 == v / 0x100 / 16;
  }

  lemma HexDigitValue(d: int)
    requires 0 <= d < 16
    ensures G.HexDigit(HexDigit(d)) && G.HexDigitValue(HexDigit(d)) == d
  {}

  lemma HalvesPair(cp: Utf8.scalar)
    requires cp >= 0x10000
    ensures G.HighSurrogate(HighHalf(cp)) && G.LowSurrogate(LowHalf(cp))
    ensures G.FromSurrogates(HighHalf(cp), LowHalf(cp)) == cp
  {}

  /** The items of one character: well-formed, spelled as printed, and decoded back in front of any others. */
  lemma CharRoundTrip(cp: Utf8.scalar, f: DumpFlags, more: seq<G.Item>, k: bytes)
    requires cp > 0 && G.WfItems(more)
    ensures var items := CharItems(cp, f);
      && G.WfItems(items + more)
      && G.SpellItems(items + more, k) == CharText(cp, f) + G.SpellItems(more, k)
      && G.MeanItems(items + more) == Prepend(Utf8.Encoding(cp), G.MeanItems(more))
  {
    var items := CharItems(cp, f);
    var all := items + more;
    if !NeedsEscape(cp, f) {
      assert all[1..] == more;
    } else if ShortEscape(cp).Some? {
      assert all[1..] == more;
    } else if cp < 0x10000 {
      Hex04Digits(cp);
      hide G.CodeUnit, G.FourHexDigits, Hex04;
      assert all[1..] == more;
    } else {
      HalvesPair(cp);
      PairRoundTrip(cp, more, k);
    }
  }

  lemma PairRoundTrip(cp: Utf8.scalar, more: seq<G.Item>, k: bytes)
    requires cp >= 0x10000 && G.WfItems(more) && G.HighSurrogate(HighHalf(cp)) && G.LowSurrogate(LowHalf(cp))
    requires G.FromSurrogates(HighHalf(cp), LowHalf(cp)) == cp
    ensures var all := [G.Unicode(Hex04(HighHalf(cp))), G.Unicode(Hex04(LowHalf(cp)))] + more;
      && G.WfItems(all)
      && G.SpellItems(all, k) == EscapeText(cp) + G.SpellItems(more, k)
      && G.MeanItems(all) == Prepend(Utf8.Encoding(cp), G.MeanItems(more))
  {
    hide Hex04, Utf8.Encoding, G.CodeUnit, G.FourHexDigits;
    var high, low := G.Unicode(Hex04(HighHalf(cp))), G.Unicode(Hex04(LowHalf(cp)));
    var all := [high, low] + more;
    Hex04Digits(HighHalf(cp));
    Hex04Digits(LowHalf(cp));
    assert all[1..] == [low] + more && all[2..] == more && ([low] + more)[1..] == more;
    assert G.SpellItems(all, k) == G.SpellItem(high) + (G.SpellItem(low) + G.SpellItems(more, k));
  }

  lemma {:induction false} StringRoundTrip(cps: seq<Utf8.scalar>, f: DumpFlags, k: bytes)
    requires forall i :: 0 <= i < |cps| ==> cps[i] > 0
    ensures var items := StringItems(cps, f);
      && G.WfItems(items)
      && G.SpellItems(items, k) == CharsText(cps, f) + k
      && G.MeanItems(items) == Some(Utf8.EncodingAll(cps))
  {
    hide CharText, CharItems, Utf8.Encoding;
    if cps == [] {
      assert [] + k == k;
    } else {
      StringRoundTrip(cps[1..], f, k);
      CharRoundTrip(cps[0], f, StringItems(cps[1..], f), k);
      assert CharText(cps[0], f) + (CharsText(cps[1..], f) + k) == CharsText(cps, f) + k;
    }
  }

  lemma {:induction false} NulFreeCodePoints(cps: seq<Utf8.scalar>)
    requires NulFree(Utf8.EncodingAll(cps))
    ensures forall i :: 0 <= i < |cps| ==> cps[i] > 0
  {
    if cps != [] {
      var a, b := Utf8.Encoding(cps[0]), Utf8.EncodingAll(cps[1..]);
      assert forall i :: 0 <= i < |b| ==> b[i] == (a + b)[|a| + i];
      NulFreeCodePoints(cps[1..]);
      assert (a + b)[0] == a[0];
    }
  }

  function TextItems(s: bytes, f: DumpFlags): seq<G.Item> { StringItems(CodePoints(s), f) }

  /** Parsing a printed string gives the string back, under every flag. */
  lemma {:induction false} PrintedStringMeans(s: bytes, f: DumpFlags, k: bytes)
    requires J.ValidText(s)
    ensures G.WfItems(TextItems(s, f)) && G.MeanItems(TextItems(s, f)) == Some(s)
    ensures G.SpellString(TextItems(s, f), k) == StringText(s, f) + k
  {
    hide Utf8.ValidUtf8;
    var cps := CodePoints(s);
    NulFreeCodePoints(cps);
    StringRoundTrip(cps, f, [QUOTE] + k);
    assert [QUOTE] + (CharsText(cps, f) + ([QUOTE] + k)) == StringText(s, f) + k;
  }

  // ----- integers -----

  lemma {:induction false} DecimalOfText(n: nat)
    ensures G.Natural(NatText(n)) == n
    decreases n
  {
    if n < 10 {
      assert [ZERO + n][..0] == [];
    } else {
      DecimalOfText(n / 10);
      var s := NatText(n);
      assert s[..|s| - 1] == NatText(n / 10);
    }
  }

  function IntNumber(i: int): G.Number { G.Number(i < 0, NatText(if i < 0 then -i else i), [], G.NoExponent) }

  lemma IntRoundTrip(i: int, conv: L.Strtod)
    requires J.InRange(i)
    ensures G.WfNumber(IntNumber(i)) && G.SpellNumber(IntNumber(i)) == IntText(i)
    ensures G.MeanNumber(IntNumber(i), conv) == Some(J.Int(i))
  {
    hide G.Natural, NatText;
    var n := if i < 0 then -i else i;
    DecimalOfText(n);
    ZeroText();
    var number := IntNumber(i);
    assert G.SpellNumber(number) == G.SpellInt(number);
  }

  lemma ZeroText()
    ensures NatText(0) == [ZERO]
  {}

  // ----- values -----

  /** What printing assumes of the two conversions of libc: a printed real reads back as itself. */
  ghost predicate RealReadsBack(r: real, fmt: Dtostr, conv: L.Strtod) {
    exists n :: G.WfNumber(n) && !G.IsIntegral(n) && G.SpellNumber(n) == fmt(r) && conv(fmt(r)) == Some(r)
  }

  ghost predicate RealsReadBack(j: J.Json, fmt: Dtostr, conv: L.Strtod) {
    match j
    case Real(r) => RealReadsBack(r, fmt, conv)
    case Arr(elems) => forall i :: 0 <= i < |elems| ==> RealsReadBack(elems[i], fmt, conv)
    case Obj(table, _) => EntriesReadBack(table.pairs, fmt, conv)
    case _ => true
  }

  ghost predicate EntriesReadBack(ps: seq<J.Pair>, fmt: Dtostr, conv: L.Strtod) {
    forall i :: 0 <= i < |ps| ==> RealsReadBack(ps[i].value, fmt, conv)
  }

  datatype Lib = Lib(fmt: Dtostr, conv: L.Strtod)

  ghost predicate Ok(j: J.Json, lib: Lib) { J.Wf(j) && RealsReadBack(j, lib.fmt, lib.conv) }

  ghost predicate AllOk(js: seq<J.Json>, lib: Lib) { forall i :: 0 <= i < |js| ==> Ok(js[i], lib) }

  ghost predicate EntriesOk(ps: seq<J.Pair>, lib: Lib) {
    forall i :: 0 <= i < |ps| ==> J.ValidText(ps[i].key) && Ok(ps[i].value, lib)
  }

  ghost function RealNumber(r: real, lib: Lib): G.Number
    requires RealReadsBack(r, lib.fmt, lib.conv)
  {
    var n :| G.WfNumber(n) && !G.IsIntegral(n) && G.SpellNumber(n) == lib.fmt(r) && lib.conv(lib.fmt(r)) == Some(r);
    n
  }

  /** White space in front of a closing bracket. */
  function CloseSep(f: DumpFlags, depth: nat): G.Sep { G.Sep(Indent(f, depth, false), []) }
  function OpenSep(f: DumpFlags, depth: nat): G.Sep { G.Sep([], Indent(f, depth + 1, false)) }
  function CommaSep(f: DumpFlags, depth: nat): G.Sep { G.Sep([], Indent(f, depth + 1, true)) }
  function ColonSep(f: DumpFlags): G.Sep { G.Sep([], if f.compact then [] else [SPACE]) }
  const NO_SEP: G.Sep := G.Sep([], [])

  /** The derivation of the text do_dump prints. */
  ghost function PrintTree(j: J.Json, f: DumpFlags, lib: Lib, depth: nat): G.Value
    requires Ok(j, lib)
    decreases Depth(j), 0
  {
    match j
    case Null => G.NullLit
    case True => G.TrueLit
    case False => G.FalseLit
    case Int(i) => G.NumberLit(IntNumber(i))
    case Real(r) => G.NumberLit(RealNumber(r, lib))
    case Str(s) => G.StringLit(TextItems(s, f))
    case Arr(elems) =>
      if elems == [] then G.ArrayLit(NO_SEP, G.NoElems(NO_SEP))
      else
        assert ElemsDepth(elems[1..]) <= ElemsDepth(elems);
        G.ArrayLit(OpenSep(f, depth),
                   G.SomeElems(PrintTree(elems[0], f, lib, depth + 1), ElemsTree(elems[1..], f, lib, depth)))
    case Obj(table, _) =>
      var ps := PrintOrder(table.pairs, f);
      OrderOk(table.pairs, f, lib);
      MembersTree(ps, f, lib, depth)
  }

  ghost function MembersTree(ps: seq<J.Pair>, f: DumpFlags, lib: Lib, depth: nat): G.Value
    requires EntriesOk(ps, lib)
    decreases PairsDepth(ps), |ps| + 1
  {
    if ps == [] then G.ObjectLit(NO_SEP, G.NoMembers(NO_SEP))
    else
      var value, more := PrintTree(ps[0].value, f, lib, depth + 1), EntriesTree(ps[1..], f, lib, depth);
      G.ObjectLit(OpenSep(f, depth), G.SomeMembers(TextItems(ps[0].key, f), ColonSep(f), value, more))
  }

  ghost function ElemsTree(js: seq<J.Json>, f: DumpFlags, lib: Lib, depth: nat): G.MoreElems
    requires AllOk(js, lib)
    decreases ElemsDepth(js), |js|
  {
    if js == [] then G.LastElem(CloseSep(f, depth))
    else G.NextElem(CommaSep(f, depth), PrintTree(js[0], f, lib, depth + 1), ElemsTree(js[1..], f, lib, depth))
  }

  ghost function EntriesTree(ps: seq<J.Pair>, f: DumpFlags, lib: Lib, depth: nat): G.MoreMembers
    requires EntriesOk(ps, lib)
    decreases PairsDepth(ps), |ps|
  {
    if ps == [] then G.LastMember(CloseSep(f, depth))
    else
      var value, more := PrintTree(ps[0].value, f, lib, depth + 1), EntriesTree(ps[1..], f, lib, depth);
      G.NextMember(CommaSep(f, depth), TextItems(ps[0].key, f), ColonSep(f), value, more)
  }

  lemma OrderOk(pairs: seq<J.Pair>, f: DumpFlags, lib: Lib)
    requires J.WfEntries(pairs) && EntriesReadBack(pairs, lib.fmt, lib.conv)
    ensures EntriesOk(PrintOrder(pairs, f), lib) && PairsDepth(PrintOrder(pairs, f)) <= PairsDepth(pairs)
    ensures |PrintOrder(pairs, f)| == |pairs|
  {
    hide PrintOrder, J.Wf, RealsReadBack, J.ValidText;
    var ps := PrintOrder(pairs, f);
    PrintOrderMembers(pairs, f);
    assert forall p :: p in ps ==> p in pairs;
    DepthOfMembers(ps, pairs);
    forall i | 0 <= i < |ps| ensures J.ValidText(ps[i].key) && Ok(ps[i].value, lib) {
      assert ps[i] in ps;
      var k :| 0 <= k < |pairs| && pairs[k] == ps[i];
      assert J.ValidText(pairs[k].key) && J.Wf(pairs[k].value) && RealsReadBack(pairs[k].value, lib.fmt, lib.conv);
    }
  }

  // ----- the tree spells the text -----

  lemma IndentIsWs(f: DumpFlags, depth: nat, space: bool)
    ensures G.AllWs(Indent(f, depth, space))
  {}

  lemma SepsAreWf(f: DumpFlags, depth: nat)
    ensures G.WfSep(CloseSep(f, depth)) && G.WfSep(OpenSep(f, depth)) && G.WfSep(CommaSep(f, depth))
    ensures G.WfSep(ColonSep(f)) && G.WfSep(NO_SEP)
  {
    IndentIsWs(f, depth, false);
    IndentIsWs(f, depth + 1, false);
    IndentIsWs(f, depth + 1, true);
  }

  lemma ColonText(f: DumpFlags, k: bytes)
    ensures G.SpellSep(ColonSep(f), COLON, k) == Separator(f) + k
  {
    assert [COLON] + ([SPACE] + k) == [COLON, SPACE] + k;
    assert [] + k == k;
  }

  /** What follows the first element of an array. */
  function ElemsRest(js: seq<J.Json>, f: DumpFlags, fmt: Dtostr, depth: nat): bytes {
    if js == [] then Indent(f, depth, false) + [RBRACKET]
    else [COMMA] + (Indent(f, depth + 1, true) + ElemsText(js, f, fmt, depth))
  }

  function EntriesRest(ps: seq<J.Pair>, f: DumpFlags, fmt: Dtostr, depth: nat): bytes {
    if ps == [] then Indent(f, depth, false) + [RBRACE]
    else [COMMA] + (Indent(f, depth + 1, true) + EntriesText(ps, f, fmt, depth))
  }

  lemma Nest(a: bytes, b: bytes, c: bytes, d: bytes, k: bytes)
    ensures (a + (b + (c + d))) + k == a + (b + (c + (d + k)))
  {
    assert (a + (b + (c + d))) + k == a + b + c + d + k;
    assert a + (b + (c + (d + k))) == a + b + c + d + k;
  }

  lemma CloseText(s: bytes, c: byte, k: bytes)
    ensures G.SpellSep(G.Sep(s, []), c, k) == (s + [c]) + k
  {
    assert [] + k == k;
    assert s + ([c] + k) == (s + [c]) + k;
  }

  lemma OpenText(s: bytes, c: byte, k: bytes)
    ensures G.SpellSep(G.Sep([], s), c, k) == [c] + (s + k)
  {
    assert [] + ([c] + (s + k)) == [c] + (s + k);
  }

  lemma EmptyText(open: byte, close: byte, k: bytes)
    ensures G.SpellSep(NO_SEP, open, G.SpellSep(NO_SEP, close, k)) == ([open] + [close]) + k
  {
    CloseText([], close, k);
    OpenText([], open, [close] + k);
    assert [] + [close] == [close] && [] + ([close] + k) == [close] + k;
    assert [open] + ([close] + k) == ([open] + [close]) + k;
  }

  /** The derivation is well-formed and spells exactly the text do_dump prints. */
  lemma {:induction false} TreeSpellsText(j: J.Json, f: DumpFlags, lib: Lib, depth: nat, k: bytes)
    requires Ok(j, lib)
    ensures G.Wf(PrintTree(j, f, lib, depth))
    ensures G.Spell(PrintTree(j, f, lib, depth), k) == Text(j, f, lib.fmt, depth) + k
    decreases Depth(j), 0
  {
    match j {
      case Null =>
      case True =>
      case False =>
      case Int(i) => IntRoundTrip(i, lib.conv);
      case Real(r) =>
      case Str(s) => PrintedStringMeans(s, f, k);
      case Arr(elems) => ArraySpellsText(elems, f, lib, depth, k);
      case Obj(table, serial) => ObjectSpellsText(table, serial, f, lib, depth, k);
    }
  }

  lemma ElemsAreOk(elems: seq<J.Json>, lib: Lib)
    requires Ok(J.Arr(elems), lib)
    ensures AllOk(elems, lib)
  {
    hide RealReadsBack, J.WfEntries;
  }

  lemma {:induction false} ArraySpellsText(elems: seq<J.Json>, f: DumpFlags, lib: Lib, depth: nat, k: bytes)
    requires Ok(J.Arr(elems), lib)
    ensures G.Wf(PrintTree(J.Arr(elems), f, lib, depth))
    ensures G.Spell(PrintTree(J.Arr(elems), f, lib, depth), k) == Text(J.Arr(elems), f, lib.fmt, depth) + k
    decreases ElemsDepth(elems), |elems| + 1
  {
    ElemsAreOk(elems, lib);
    hide Ok, Indent, J.Wf, RealsReadBack;
    SepsAreWf(f, depth);
    if elems == [] {
      EmptyText(LBRACKET, RBRACKET, k);
    } else {
      assert ElemsDepth(elems[1..]) <= ElemsDepth(elems);
      var rest := ElemsRest(elems[1..], f, lib.fmt, depth);
      ElemsSpellRest(elems[1..], f, lib, depth, k);
      TreeSpellsText(elems[0], f, lib, depth + 1, rest + k);
      var first := Text(elems[0], f, lib.fmt, depth + 1);
      OpenText(Indent(f, depth + 1, false), LBRACKET, first + (rest + k));
      Nest([LBRACKET], Indent(f, depth + 1, false), first, rest, k);
    }
  }

  lemma {:induction false} ElemsSpellRest(js: seq<J.Json>, f: DumpFlags, lib: Lib, depth: nat, k: bytes)
    requires AllOk(js, lib)
    ensures G.WfMoreElems(ElemsTree(js, f, lib, depth))
    ensures G.SpellMoreElems(ElemsTree(js, f, lib, depth), k) == ElemsRest(js, f, lib.fmt, depth) + k
    decreases ElemsDepth(js), |js|
  {
    hide Ok, Indent, PrintTree;
    SepsAreWf(f, depth);
    if js == [] {
      CloseText(Indent(f, depth, false), RBRACKET, k);
    } else {
      var rest := ElemsRest(js[1..], f, lib.fmt, depth);
      ElemsSpellRest(js[1..], f, lib, depth, k);
      TreeSpellsText(js[0], f, lib, depth + 1, rest + k);
      var first := Text(js[0], f, lib.fmt, depth + 1);
      assert ElemsText(js, f, lib.fmt, depth) == first + rest;
      OpenText(Indent(f, depth + 1, true), COMMA, first + (rest + k));
      Nest([COMMA], Indent(f, depth + 1, true), first, rest, k);
    }
  }

  lemma EntriesOfOk(table: T.Table<J.Json>, serial: nat, lib: Lib)
    requires Ok(J.Obj(table, serial), lib)
    ensures J.WfEntries(table.pairs) && EntriesReadBack(table.pairs, lib.fmt, lib.conv)
  {
    hide RealReadsBack;
  }

  lemma TailDepth(ps: seq<J.Pair>)
    requires ps != []
    ensures Depth(ps[0].value) <= PairsDepth(ps) && PairsDepth(ps[1..]) <= PairsDepth(ps)
  {}

  lemma {:induction false} ObjectSpellsText(
    table: T.Table<J.Json>, serial: nat, f: DumpFlags, lib: Lib, depth: nat, k: bytes)
    requires Ok(J.Obj(table, serial), lib)
    ensures G.Wf(PrintTree(J.Obj(table, serial), f, lib, depth))
    ensures G.Spell(PrintTree(J.Obj(table, serial), f, lib, depth), k)
      == Text(J.Obj(table, serial), f, lib.fmt, depth) + k
    decreases PairsDepth(table.pairs), |table.pairs| + 3
  {
    EntriesOfOk(table, serial, lib);
    OrderOk(table.pairs, f, lib);
    hide Ok, PrintOrder, EntriesReadBack, J.WfEntries, MembersText, MembersTree, EntriesOk, G.Wf, G.Spell;
    MembersSpellText(PrintOrder(table.pairs, f), f, lib, depth, k);
  }

  lemma {:induction false} MembersSpellText(ps: seq<J.Pair>, f: DumpFlags, lib: Lib, depth: nat, k: bytes)
    requires EntriesOk(ps, lib)
    ensures G.Wf(MembersTree(ps, f, lib, depth))
    ensures G.Spell(MembersTree(ps, f, lib, depth), k) == MembersText(ps, f, lib.fmt, depth) + k
    decreases PairsDepth(ps), |ps| + 2
  {
    hide Ok, Indent, EntriesText, EntriesTree, TextItems, PrintTree, J.ValidText;
    SepsAreWf(f, depth);
    if ps == [] {
      EmptyText(LBRACE, RBRACE, k);
    } else {
      var rest := EntriesRest(ps[1..], f, lib.fmt, depth);
      TailDepth(ps);
      EntriesSpellRest(ps[1..], f, lib, depth, k);
      MemberSpellsText(ps[0], f, lib, depth, rest, EntriesTree(ps[1..], f, lib, depth), k);
      var member := MemberText(ps[0], f, lib.fmt, depth);
      MemberSplit(ps, f, lib.fmt, depth);
      OpenText(Indent(f, depth + 1, false), LBRACE, member + (rest + k));
      Nest([LBRACE], Indent(f, depth + 1, false), member, rest, k);
    }
  }

  /** One printed member: key, separator, value. */
  function MemberText(p: J.Pair, f: DumpFlags, fmt: Dtostr, depth: nat): bytes {
    StringText(p.key, f) + (Separator(f) + Text(p.value, f, fmt, depth + 1))
  }

  lemma MemberSplit(ps: seq<J.Pair>, f: DumpFlags, fmt: Dtostr, depth: nat)
    requires ps != []
    ensures EntriesText(ps, f, fmt, depth) == MemberText(ps[0], f, fmt, depth) + EntriesRest(ps[1..], f, fmt, depth)
  {
    hide Text, StringText, Indent, Separator;
    var key, sep, value := StringText(ps[0].key, f), Separator(f), Text(ps[0].value, f, fmt, depth + 1);
    var rest := EntriesRest(ps[1..], f, fmt, depth);
    assert key + (sep + (value + rest)) == (key + (sep + value)) + rest;
  }

  lemma {:induction false} MemberSpellsText(
    p: J.Pair, f: DumpFlags, lib: Lib, depth: nat, rest: bytes, more: G.MoreMembers, k: bytes)
    requires J.ValidText(p.key) && Ok(p.value, lib) && G.SpellMoreMembers(more, k) == rest + k
    ensures G.WfItems(TextItems(p.key, f)) && G.WfSep(ColonSep(f)) && G.Wf(PrintTree(p.value, f, lib, depth + 1))
    ensures PG.SpellMember(TextItems(p.key, f), ColonSep(f), PrintTree(p.value, f, lib, depth + 1), more, k)
      == MemberText(p, f, lib.fmt, depth) + (rest + k)
    decreases Depth(p.value), 1
  {
    hide Ok, Indent, PrintTree, StringText, Separator, Text, J.ValidText, TextItems;
    SepsAreWf(f, depth);
    TreeSpellsText(p.value, f, lib, depth + 1, rest + k);
    var value := Text(p.value, f, lib.fmt, depth + 1);
    ColonText(f, value + (rest + k));
    PrintedStringMeans(p.key, f, Separator(f) + (value + (rest + k)));
    var key, sep := StringText(p.key, f), Separator(f);
    assert key + (sep + (value + (rest + k))) == (key + (sep + value)) + (rest + k);
  }

  lemma {:induction false} EntriesSpellRest(ps: seq<J.Pair>, f: DumpFlags, lib: Lib, depth: nat, k: bytes)
    requires EntriesOk(ps, lib)
    ensures G.WfMoreMembers(EntriesTree(ps, f, lib, depth))
    ensures G.SpellMoreMembers(EntriesTree(ps, f, lib, depth), k) == EntriesRest(ps, f, lib.fmt, depth) + k
    decreases PairsDepth(ps), |ps| + 1
  {
    hide Ok, Indent, PrintTree, J.ValidText;
    SepsAreWf(f, depth);
    if ps == [] {
      CloseText(Indent(f, depth, false), RBRACE, k);
    } else {
      var rest := EntriesRest(ps[1..], f, lib.fmt, depth);
      EntriesSpellRest(ps[1..], f, lib, depth, k);
      MemberSpellsText(ps[0], f, lib, depth, rest, EntriesTree(ps[1..], f, lib, depth), k);
      var member := MemberText(ps[0], f, lib.fmt, depth);
      MemberSplit(ps, f, lib.fmt, depth);
      OpenText(Indent(f, depth + 1, true), COMMA, member + (rest + k));
      Nest([COMMA], Indent(f, depth + 1, true), member, rest, k);
    }
  }
}
