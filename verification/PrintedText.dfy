/**
 * What the text that dump.c prints looks like, said of its bytes: the order of the keys, which characters are
 * escaped, and where there is white space. Nothing here is said in terms of the functions that print.
 */
module PrintedText {
  import opened Basics
  import opened DumpSpec
  import Utf8
  import G = Grammar
  import J = Json
  import R = Reload
  import RT = RoundTrip
  import T = Table

  // ----- the order of the keys -----

  /** Up to k the strings agree; there a ends, or has the smaller byte. */
  predicate SmallerAt(a: bytes, b: bytes, k: nat) {
    k <= |a| && k < |b| && a[..k] == b[..k] && (k == |a| || a[k] < b[k])
  }

  /** strcmp(a, b) < 0 */
  ghost predicate Smaller(a: bytes, b: bytes) { exists k :: SmallerAt(a, b, k) }

  lemma {:induction false} KeyLessIff(a: bytes, b: bytes)
    ensures KeyLess(a, b) <==> Smaller(a, b)
    decreases |a|
  {
    if b != [] {
      if a == [] || a[0] < b[0] {
        assert SmallerAt(a, b, 0);
      } else if a[0] == b[0] {
        KeyLessIff(a[1..], b[1..]);
        forall k: nat | SmallerAt(a[1..], b[1..], k) ensures SmallerAt(a, b, k + 1) {
          assert a[..k + 1] == [a[0]] + a[1..][..k] && b[..k + 1] == [b[0]] + b[1..][..k];
        }
        forall k: nat | SmallerAt(a, b, k) && k > 0 ensures SmallerAt(a[1..], b[1..], k - 1) {
          assert a[1..][..k - 1] == a[..k][1..] && b[1..][..k - 1] == b[..k][1..];
        }
      } else {
        assert forall k: nat :: SmallerAt(a, b, k) && k > 0 ==> a[..k][0] == b[..k][0];
      }
    }
  }

  /** The members of an object as they are printed: by strcmp, by the order of setting, or as the list has them. */
  lemma {:induction false} PrintedInOrder(table: T.Table<J.Json>, serial: nat, f: DumpFlags)
    requires J.Wf(J.Obj(table, serial))
    ensures var ps := PrintOrder(table.pairs, f);
      && |ps| == |table.pairs| && (forall p :: p in ps <==> p in table.pairs)
      && (f.sortKeys ==> forall i, j :: 0 <= i < j < |ps| ==> Smaller(ps[i].key, ps[j].key))
      && (!f.sortKeys && f.preserveOrder ==> forall i, j :: 0 <= i < j < |ps| ==> ps[i].serial < ps[j].serial)
      && (!f.sortKeys && !f.preserveOrder ==> ps == table.pairs)
  {
    var ps := PrintOrder(table.pairs, f);
    PrintOrderMembers(table.pairs, f);
    assert T.Distinct(table.pairs) && J.SerialsOk(table.pairs, serial);
    hide J.Wf, Sort, KeyLess, Smaller;
    if f.sortKeys {
      assert Comparable(table.pairs, true);
      SortSorts(table.pairs, true);
      forall i, j | 0 <= i < j < |ps| ensures Smaller(ps[i].key, ps[j].key) {
        KeyLessIff(ps[i].key, ps[j].key);
        assert Before(ps[i], ps[j], true);
      }
    } else if f.preserveOrder {
      assert Comparable(table.pairs, false) by {
        forall i, j | 0 <= i < j < |table.pairs| ensures table.pairs[i].serial != table.pairs[j].serial {
          assert table.pairs[i] in table.pairs && table.pairs[j] in table.pairs;
        }
      }
      SortSorts(table.pairs, false);
      assert forall i, j :: 0 <= i < j < |ps| ==> Before(ps[i], ps[j], false);
    }
  }

  // ----- one character -----

  /** A byte that is printed as itself inside a string. */
  predicate Bare(b: byte, f: DumpFlags) {
    && b >= 0x20 && b != 0x22 && b != 0x5C
    && (f.escapeSlash ==> b != 0x2F)
    && (f.ensureAscii ==> b < 0x80)
  }

  predicate AllBare(s: bytes, f: DumpFlags) { forall i :: 0 <= i < |s| ==> Bare(s[i], f) }

  /** Every other character becomes an escape, and an escape is longer than the character. */
  lemma BareIff(cp: Utf8.scalar, f: DumpFlags)
    ensures AllBare(Utf8.Encoding(cp), f) <==> CharText(cp, f) == Utf8.Encoding(cp)
    ensures AllBare(Utf8.Encoding(cp), f) <==> |CharText(cp, f)| <= |Utf8.Encoding(cp)|
    ensures |CharText(cp, f)| >= |Utf8.Encoding(cp)|
  {
    hide Hex04;
    var s := Utf8.Encoding(cp);
    if cp < 0x80 {
      assert s == [cp];
      assert AllBare(s, f) <==> Bare(s[0], f);
    } else {
      assert s[0] >= 0x80;
      assert AllBare(s, f) <==> !f.ensureAscii;
    }
  }

  /** A two-character escape where the RFC has one, and lower-case \u escapes otherwise. */
  lemma EscapeForm(cp: Utf8.scalar)
    ensures EscapeText(0x22) == [0x5C, 0x22] && EscapeText(0x5C) == [0x5C, 0x5C] && EscapeText(0x2F) == [0x5C, 0x2F]
    ensures EscapeText(0x08) == [0x5C, 0x62] && EscapeText(0x0C) == [0x5C, 0x66] && EscapeText(0x0A) == [0x5C, 0x6E]
    ensures EscapeText(0x0D) == [0x5C, 0x72] && EscapeText(0x09) == [0x5C, 0x74]
    ensures cp !in {0x22, 0x5C, 0x2F, 0x08, 0x0C, 0x0A, 0x0D, 0x09} ==>
      var s := EscapeText(cp);
      if cp < 0x10000 then |s| == 6 && IsUnicodeEscape(s, cp)
      else
        && |s| == 12
        && IsUnicodeEscape(s[..6], 0xD800 + (cp - 0x10000) / 0x400)
        && IsUnicodeEscape(s[6..], 0xDC00 + (cp - 0x10000) % 0x400)
  {
    hide Hex04;
    if cp < 0x10000 {
      LowerCase(cp);
    } else {
      LowerCase(HighHalf(cp));
      LowerCase(LowHalf(cp));
    }
  }

  predicate IsUnicodeEscape(s: bytes, v: int) {
    && |s| == 6 && s[0] == 0x5C && s[1] == 0x75 && G.FourHexDigits(s[2..]) && G.CodeUnit(s[2..]) == v
    && forall i :: 2 <= i < 6 ==> !(0x41 <= s[i] <= 0x46)
  }

  lemma LowerCase(v: int)
    requires 0 <= v < 0x10000
    ensures IsUnicodeEscape([BACKSLASH, LOWER_U] + Hex04(v), v)
  {
    var s := [BACKSLASH, LOWER_U] + Hex04(v);
    RT.Hex04Digits(v);
    assert s[2..] == Hex04(v);
    HexIsLowerCase(v);
    hide Hex04, G.CodeUnit, G.FourHexDigits;
    forall i | 2 <= i < 6 ensures !(0x41 <= s[i] <= 0x46) { assert s[i] == s[2..][i - 2]; }
  }

  lemma HexIsLowerCase(v: int)
    requires 0 <= v < 0x10000
    ensures forall i :: 0 <= i < 4 ==> 0x30 <= Hex04(v)[i] <= 0x39 || 0x61 <= Hex04(v)[i] <= 0x66
  {
  }

  // ----- one string -----

  lemma {:induction false} CharsBareIff(cps: seq<Utf8.scalar>, f: DumpFlags)
    ensures |CharsText(cps, f)| >= |Utf8.EncodingAll(cps)|
    ensures AllBare(Utf8.EncodingAll(cps), f) <==> CharsText(cps, f) == Utf8.EncodingAll(cps)
    ensures AllBare(Utf8.EncodingAll(cps), f) <==> |CharsText(cps, f)| <= |Utf8.EncodingAll(cps)|
  {
    if cps != [] {
      BareIff(cps[0], f);
      CharsBareIff(cps[1..], f);
      hide CharText, Utf8.Encoding, Bare;
      var a, b := Utf8.Encoding(cps[0]), Utf8.EncodingAll(cps[1..]);
      assert forall i :: 0 <= i < |a| ==> (a + b)[i] == a[i];
      assert forall i :: 0 <= i < |b| ==> (a + b)[|a| + i] == b[i];
    }
  }

  /** A string prints as itself between quotes exactly when none of its bytes asks for an escape. */
  lemma {:induction false} PrintsBareIff(s: bytes, f: DumpFlags)
    requires Utf8.ValidUtf8(s)
    ensures StringText(s, f) == [0x22] + s + [0x22] <==> AllBare(s, f)
  {
    var cps := CodePoints(s);
    CharsBareIff(cps, f);
    hide CharsText, Utf8.ValidUtf8, Bare;
    var t := CharsText(cps, f);
    assert StringText(s, f) == [0x22] + t + [0x22];
    assert ([0x22] + t + [0x22])[1..|t| + 1] == t;
    assert ([0x22] + s + [0x22])[1..|s| + 1] == s;
  }

  // ----- JSON_ENSURE_ASCII and JSON_ESCAPE_SLASH -----

  /**
   * With the first flag all bytes are ASCII, with the second each slash stands behind a backslash; no control
   * character is printed but the newlines of JSON_INDENT.
   */
  predicate Shielded(s: bytes, f: DumpFlags) {
    && (forall i :: 0 <= i < |s| ==> s[i] >= 0x20 || (s[i] == 0x0A && f.indent > 0))
    && (f.ensureAscii ==> forall i :: 0 <= i < |s| ==> s[i] < 0x80)
    && (f.escapeSlash ==> forall i :: 0 <= i < |s| && s[i] == 0x2F ==> i > 0 && s[i - 1] == 0x5C)
  }

  lemma ShieldedJoins(a: bytes, b: bytes, f: DumpFlags)
    requires Shielded(a, f) && Shielded(b, f)
    ensures Shielded(a + b, f)
  {
    var s := a + b;
    forall i | 0 <= i < |s|
      ensures s[i] >= 0x20 || (s[i] == 0x0A && f.indent > 0)
      ensures f.ensureAscii ==> s[i] < 0x80
      ensures f.escapeSlash && s[i] == 0x2F ==> i > 0 && s[i - 1] == 0x5C
    {
      assert s[i] == if i < |a| then a[i] else b[i - |a|];
    }
  }

  lemma CharIsShielded(cp: Utf8.scalar, f: DumpFlags)
    ensures Shielded(CharText(cp, f), f)
  {
    if NeedsEscape(cp, f) {
      EscapeForm(cp);
      hide EscapeText, IsUnicodeEscape, Shielded;
      var s := EscapeText(cp);
      if |s| == 2 {
        PairIsShielded(s, f);
      } else if |s| == 6 {
        UnicodeIsShielded(s, cp, f);
      } else {
        UnicodeIsShielded(s[..6], HighHalf(cp), f);
        UnicodeIsShielded(s[6..], LowHalf(cp), f);
        assert s == s[..6] + s[6..];
        ShieldedJoins(s[..6], s[6..], f);
      }
    }
  }

  lemma PairIsShielded(s: bytes, f: DumpFlags)
    requires |s| == 2 && s[0] == 0x5C && 0x20 <= s[1] < 0x80
    ensures Shielded(s, f)
  {
  }

  lemma UnicodeIsShielded(s: bytes, v: int, f: DumpFlags)
    requires IsUnicodeEscape(s, v)
    ensures Shielded(s, f)
  {
    hide G.CodeUnit;
    forall i | 2 <= i < 6 ensures 0x30 <= s[i] < 0x80 { assert G.HexDigit(s[2..][i - 2]); }
  }

  lemma {:induction false} CharsAreShielded(cps: seq<Utf8.scalar>, f: DumpFlags)
    ensures Shielded(CharsText(cps, f), f)
  {
    if cps != [] {
      CharIsShielded(cps[0], f);
      CharsAreShielded(cps[1..], f);
      hide CharText, Shielded;
      ShieldedJoins(CharText(cps[0], f), CharsText(cps[1..], f), f);
    }
  }

  lemma StringIsShielded(s: bytes, f: DumpFlags)
    ensures Shielded(StringText(s, f), f)
  {
    hide CharsText;
    CharsAreShielded(CodePoints(s), f);
    ShieldedJoins(CharsText(CodePoints(s), f), [QUOTE], f);
    ShieldedJoins([QUOTE], CharsText(CodePoints(s), f) + [QUOTE], f);
  }

  // ----- numbers and words -----

  /** The bytes that numbers and literal names are made of. */
  predicate Wordy(b: byte) {
    b in {0x2B, 0x2D, 0x2E} || 0x30 <= b <= 0x39 || 0x41 <= b <= 0x5A || 0x61 <= b <= 0x7A
  }

  predicate AllWordy(s: bytes) { s != [] && forall i :: 0 <= i < |s| ==> Wordy(s[i]) }

  lemma NumberIsWordy(n: G.Number)
    requires G.WfNumber(n)
    ensures AllWordy(G.SpellNumber(n))
  {
    var a, b, c := G.SpellInt(n), G.SpellFrac(n.frac), G.SpellExponent(n.exp);
    assert n.whole != [];
    assert AllWordy(a);
    assert b == [] || AllWordy(b);
    assert c == [] || AllWordy(c) by {
      if n.exp.Exponent? { assert c == ([n.exp.e] + n.exp.sign) + n.exp.digits; }
    }
  }

  lemma ScalarIsWordy(j: J.Json, f: DumpFlags, lib: RT.Lib, depth: nat)
    requires RT.Ok(j, lib) && !j.Arr? && !j.Obj? && !j.Str?
    ensures AllWordy(Text(j, f, lib.fmt, depth))
  {
    match j {
      case Int(i) =>
        RT.IntRoundTrip(i, lib.conv);
        NumberIsWordy(RT.IntNumber(i));
      case Real(r) =>
        var n :| G.WfNumber(n) && G.SpellNumber(n) == lib.fmt(r);
        NumberIsWordy(n);
      case _ =>
    }
  }

  lemma WordsAreShielded(s: bytes, f: DumpFlags)
    requires AllWordy(s)
    ensures Shielded(s, f)
  {
  }

  // ----- the whole text -----

  lemma IndentIsShielded(f: DumpFlags, depth: nat, space: bool)
    ensures Shielded(Indent(f, depth, space), f)
  {
  }

  /**
   * Under JSON_ENSURE_ASCII a text is ASCII; under JSON_ESCAPE_SLASH no slash stands in it unescaped; without
   * JSON_INDENT it is one line.
   */
  lemma {:induction false} TextIsShielded(j: J.Json, f: DumpFlags, lib: RT.Lib, depth: nat)
    requires RT.Ok(j, lib)
    ensures Shielded(Text(j, f, lib.fmt, depth), f)
    decreases Depth(j), 0
  {
    match j {
      case Str(s) => StringIsShielded(s, f);
      case Arr(elems) =>
        if elems != [] {
          IndentIsShielded(f, depth + 1, false);
          ElemsAreShielded(elems, f, lib, depth);
          hide Shielded, Indent, ElemsText;
          ShieldedJoins(Indent(f, depth + 1, false), ElemsText(elems, f, lib.fmt, depth), f);
          OneByte([LBRACKET], f);
          ShieldedJoins([LBRACKET], Indent(f, depth + 1, false) + ElemsText(elems, f, lib.fmt, depth), f);
        }
      case Obj(table, serial) =>
        RT.EntriesOfOk(table, serial, lib);
        RT.OrderOk(table.pairs, f, lib);
        MembersAreShielded(PrintOrder(table.pairs, f), f, lib, depth);
      case _ =>
        ScalarIsWordy(j, f, lib, depth);
        WordsAreShielded(Text(j, f, lib.fmt, depth), f);
    }
  }

  lemma OneByte(s: bytes, f: DumpFlags)
    requires |s| <= 2 && forall i :: 0 <= i < |s| ==> 0x20 <= s[i] < 0x80 && s[i] != 0x2F
    ensures Shielded(s, f)
  {
  }

  lemma {:induction false} ElemsAreShielded(js: seq<J.Json>, f: DumpFlags, lib: RT.Lib, depth: nat)
    requires RT.AllOk(js, lib) && js != []
    ensures Shielded(ElemsText(js, f, lib.fmt, depth), f)
    decreases ElemsDepth(js), |js|
  {
    TextIsShielded(js[0], f, lib, depth + 1);
    IndentIsShielded(f, depth, false);
    IndentIsShielded(f, depth + 1, true);
    OneByte([RBRACKET], f);
    OneByte([COMMA], f);
    var rest;
    if |js| == 1 {
      rest := Indent(f, depth, false) + [RBRACKET];
      ShieldedJoins(Indent(f, depth, false), [RBRACKET], f);
    } else {
      ElemsAreShielded(js[1..], f, lib, depth);
      var more := ElemsText(js[1..], f, lib.fmt, depth);
      rest := [COMMA] + (Indent(f, depth + 1, true) + more);
      ShieldedJoins(Indent(f, depth + 1, true), more, f);
      ShieldedJoins([COMMA], Indent(f, depth + 1, true) + more, f);
    }
    hide Shielded, Text, Indent;
    ShieldedJoins(Text(js[0], f, lib.fmt, depth + 1), rest, f);
  }

  lemma {:induction false} MembersAreShielded(ps: seq<J.Pair>, f: DumpFlags, lib: RT.Lib, depth: nat)
    requires RT.EntriesOk(ps, lib)
    ensures Shielded(MembersText(ps, f, lib.fmt, depth), f)
    decreases PairsDepth(ps), |ps| + 1
  {
    if ps != [] {
      IndentIsShielded(f, depth + 1, false);
      EntriesAreShielded(ps, f, lib, depth);
      hide Shielded, Indent, EntriesText;
      ShieldedJoins(Indent(f, depth + 1, false), EntriesText(ps, f, lib.fmt, depth), f);
      OneByte([LBRACE], f);
      ShieldedJoins([LBRACE], Indent(f, depth + 1, false) + EntriesText(ps, f, lib.fmt, depth), f);
    }
  }

  lemma {:induction false} EntriesAreShielded(ps: seq<J.Pair>, f: DumpFlags, lib: RT.Lib, depth: nat)
    requires RT.EntriesOk(ps, lib) && ps != []
    ensures Shielded(EntriesText(ps, f, lib.fmt, depth), f)
    decreases PairsDepth(ps), |ps|
  {
    StringIsShielded(ps[0].key, f);
    TextIsShielded(ps[0].value, f, lib, depth + 1);
    IndentIsShielded(f, depth, false);
    IndentIsShielded(f, depth + 1, true);
    OneByte([RBRACE], f);
    OneByte([COMMA], f);
    OneByte(Separator(f), f);
    var rest;
    if |ps| == 1 {
      rest := Indent(f, depth, false) + [RBRACE];
      ShieldedJoins(Indent(f, depth, false), [RBRACE], f);
    } else {
      RT.TailDepth(ps);
      EntriesAreShielded(ps[1..], f, lib, depth);
      var more := EntriesText(ps[1..], f, lib.fmt, depth);
      rest := [COMMA] + (Indent(f, depth + 1, true) + more);
      ShieldedJoins(Indent(f, depth + 1, true), more, f);
      ShieldedJoins([COMMA], Indent(f, depth + 1, true) + more, f);
    }
    hide Shielded, Text, Indent, StringText, Separator;
    var value := Text(ps[0].value, f, lib.fmt, depth + 1);
    ShieldedJoins(value, rest, f);
    ShieldedJoins(Separator(f), value + rest, f);
    ShieldedJoins(StringText(ps[0].key, f), Separator(f) + (value + rest), f);
  }

  // ----- white space -----

  predicate White(b: byte) { b == 0x20 || b == 0x09 || b == 0x0A || b == 0x0D }

  function WhiteRun(s: bytes): (n: nat)
    ensures n <= |s| && (n < |s| ==> !White(s[n])) && forall i :: 0 <= i < n ==> White(s[i])
  {
    if s != [] && White(s[0]) then 1 + WhiteRun(s[1..]) else 0
  }

  /** The bytes of a string after its opening quote, with the closing one. */
  function StringEnd(s: bytes): (n: Option<nat>)
    ensures n.Some? ==> 1 <= n.value <= |s|
  {
    if s == [] then None
    else if s[0] == 0x22 then Some(1)
    else
      var k := if s[0] == 0x5C then 2 else 1;
      if k > |s| then None
      else
        match StringEnd(s[k..])
        case None => None
        case Some(n) => Some(k + n)
  }

  /** Where in a text white space may stand: what was read last. */
  datatype Spot = Start | Opened | AfterComma | AfterColon | AfterValue

  predicate Closing(b: byte) { b == 0x5D || b == 0x7D }

  /** A new line, indented for that many open brackets. */
  function NewLine(open: nat, f: DumpFlags): bytes {
    if f.indent == 0 then [] else [0x0A] + seq(f.indent * open, _ => 0x20)
  }

  /**
   * The white space in front of byte next, with that many brackets open. With JSON_INDENT each element
   * and each closing bracket has a line of its own, except in an empty container; otherwise a
   * comma is followed by a space unless JSON_COMPACT is set. So is a colon, always.
   */
  function Gap(spot: Spot, next: byte, open: nat, f: DumpFlags): bytes {
    match spot
    case Start => []
    case Opened => if Closing(next) then [] else NewLine(open, f)
    case AfterComma => if f.indent > 0 then NewLine(open, f) else if f.compact then [] else [0x20]
    case AfterColon => if f.compact then [] else [0x20]
    case AfterValue => if Closing(next) && open > 0 then NewLine(open - 1, f) else []
  }

  /** Read from a spot on, with that many brackets open: outside strings all white space is as it should be. */
  predicate Laid(s: bytes, spot: Spot, open: nat, f: DumpFlags)
    decreases |s|, 1
  {
    if s == [] then spot == AfterValue && open == 0
    else
      var w := WhiteRun(s);
      w < |s| && s[..w] == Gap(spot, s[w], open, f) && Goes(s[w..], open, f)
  }

  /** The same from a byte on that is not white space. */
  predicate Goes(s: bytes, open: nat, f: DumpFlags)
    requires s != []
    decreases |s|, 0
  {
    var c, rest := s[0], s[1..];
    if c == 0x22 then StringEnd(rest).Some? && Laid(rest[StringEnd(rest).value..], AfterValue, open, f)
    else if c == 0x5B || c == 0x7B then Laid(rest, Opened, open + 1, f)
    else if Closing(c) then open > 0 && Laid(rest, AfterValue, open - 1, f)
    else if c == 0x2C then Laid(rest, AfterComma, open, f)
    else if c == 0x3A then Laid(rest, AfterColon, open, f)
    else Laid(rest, AfterValue, open, f)
  }

  lemma {:induction false} WhiteRunOf(w: bytes, t: bytes)
    requires (forall i :: 0 <= i < |w| ==> White(w[i])) && t != [] && !White(t[0])
    ensures WhiteRun(w + t) == |w|
    decreases |w|
  {
    if w == [] {
      assert w + t == t;
    } else {
      assert (w + t)[1..] == w[1..] + t;
      WhiteRunOf(w[1..], t);
    }
  }

  lemma GapIsWhite(spot: Spot, next: byte, open: nat, f: DumpFlags)
    ensures forall i :: 0 <= i < |Gap(spot, next, open, f)| ==> White(Gap(spot, next, open, f)[i])
  {
  }

  lemma LaidWith(gap: bytes, t: bytes, spot: Spot, open: nat, f: DumpFlags)
    requires t != [] && !White(t[0]) && gap == Gap(spot, t[0], open, f) && Goes(t, open, f)
    ensures Laid(gap + t, spot, open, f)
  {
    hide Goes, Gap, WhiteRun;
    GapIsWhite(spot, t[0], open, f);
    WhiteRunOf(gap, t);
    assert (gap + t)[..|gap|] == gap && (gap + t)[|gap|..] == t;
  }

  // ----- strings are skipped -----

  lemma CharEnd(cp: Utf8.scalar, f: DumpFlags, t: bytes)
    ensures StringEnd(CharText(cp, f) + t) ==
      match StringEnd(t) case None => None case Some(n) => Some(|CharText(cp, f)| + n)
  {
    if NeedsEscape(cp, f) {
      hide EscapeText, StringEnd;
      EscapeEnd(cp, t);
    } else {
      OrdinaryEnd(CharText(cp, f), t);
    }
  }

  lemma EscapeEnd(cp: Utf8.scalar, t: bytes)
    requires ShortEscape(cp).Some? || cp > 0x7F || cp < 0x20
    ensures StringEnd(EscapeText(cp) + t) ==
      match StringEnd(t) case None => None case Some(n) => Some(|EscapeText(cp)| + n)
  {
    var s := EscapeText(cp);
    EscapeForm(cp);
    hide EscapeText, IsUnicodeEscape;
    if |s| == 2 {
      assert (s + t)[2..] == t;
    } else if |s| == 6 {
      UnicodeEnd(s, cp, t);
    } else {
      hide StringEnd;
      UnicodeEnd(s[6..], LowHalf(cp), t);
      UnicodeEnd(s[..6], HighHalf(cp), s[6..] + t);
      assert s[..6] + (s[6..] + t) == s + t;
    }
  }

  lemma {:induction false} OrdinaryEnd(s: bytes, t: bytes)
    requires forall i :: 0 <= i < |s| ==> s[i] != 0x22 && s[i] != 0x5C
    ensures StringEnd(s + t) == match StringEnd(t) case None => None case Some(n) => Some(|s| + n)
    decreases |s|
  {
    if s == [] {
      assert s + t == t;
    } else {
      assert (s + t)[1..] == s[1..] + t;
      OrdinaryEnd(s[1..], t);
    }
  }

  lemma UnicodeEnd(s: bytes, v: int, t: bytes)
    requires IsUnicodeEscape(s, v)
    ensures StringEnd(s + t) == match StringEnd(t) case None => None case Some(n) => Some(6 + n)
  {
    hide G.CodeUnit;
    assert (s + t)[2..] == s[2..] + t;
    forall i | 0 <= i < |s[2..]| ensures s[2..][i] != 0x22 && s[2..][i] != 0x5C {
      assert G.HexDigit(s[2..][i]);
    }
    OrdinaryEnd(s[2..], t);
  }

  lemma {:induction false} CharsEnd(cps: seq<Utf8.scalar>, f: DumpFlags, k: bytes)
    ensures StringEnd(CharsText(cps, f) + ([QUOTE] + k)) == Some(|CharsText(cps, f)| + 1)
  {
    hide CharText;
    if cps == [] {
      assert [] + ([QUOTE] + k) == [QUOTE] + k;
    } else {
      hide StringEnd;
      var a, b := CharText(cps[0], f), CharsText(cps[1..], f);
      CharsEnd(cps[1..], f, k);
      CharEnd(cps[0], f, b + ([QUOTE] + k));
      assert CharsText(cps, f) == a + b;
      assert a + (b + ([QUOTE] + k)) == (a + b) + ([QUOTE] + k);
    }
  }

  /** A text of one value, at a given depth, is laid out if what follows it is. */
  ghost predicate Placed(t: bytes, open: nat, f: DumpFlags) {
    t != [] && !White(t[0]) && !Closing(t[0]) && Goes(t, open, f)
  }

  lemma StringPlaced(s: bytes, f: DumpFlags, open: nat, k: bytes)
    requires Laid(k, AfterValue, open, f)
    ensures Placed(StringText(s, f) + k, open, f)
  {
    hide CharsText, StringEnd, Laid;
    var chars := CharsText(CodePoints(s), f);
    CharsEnd(CodePoints(s), f, k);
    assert (StringText(s, f) + k)[1..] == chars + ([QUOTE] + k);
    assert (chars + ([QUOTE] + k))[|chars| + 1..] == k;
  }

  lemma {:induction false} WordPlaced(w: bytes, open: nat, f: DumpFlags, k: bytes)
    requires AllWordy(w) && Laid(k, AfterValue, open, f)
    ensures Placed(w + k, open, f)
    decreases |w|
  {
    hide Laid, StringEnd;
    var rest := w[1..];
    assert (w + k)[1..] == rest + k;
    if rest == [] {
      assert rest + k == k;
    } else {
      WordPlaced(rest, open, f, k);
      StartsLaid(rest + k, open, f);
    }
  }

  // ----- values -----

  lemma CommaPlaced(open: nat, f: DumpFlags, t: bytes)
    requires Placed(t, open, f)
    ensures Laid([COMMA] + (Indent(f, open, true) + t), AfterValue, open, f)
  {
    hide Goes;
    var gap := Indent(f, open, true);
    assert gap == Gap(AfterComma, t[0], open, f);
    LaidWith(gap, t, AfterComma, open, f);
    hide Laid, Gap, Indent;
    var s := [COMMA] + (gap + t);
    assert s[1..] == gap + t;
    ThenGoes(s, AfterComma, open, f);
    StartsLaid(s, open, f);
  }

  lemma ThenGoes(s: bytes, spot: Spot, open: nat, f: DumpFlags)
    requires s != [] && Laid(s[1..], spot, open, f)
    requires (spot == AfterComma && s[0] == COMMA) || (spot == AfterColon && s[0] == COLON)
    ensures Goes(s, open, f)
  {
    hide Laid, StringEnd;
  }

  /** No white space in front of what follows a value, unless it closes a bracket. */
  lemma StartsLaid(s: bytes, open: nat, f: DumpFlags)
    requires s != [] && !White(s[0]) && !Closing(s[0]) && Goes(s, open, f)
    ensures Laid(s, AfterValue, open, f)
  {
    hide Goes, Laid;
    assert [] + s == s;
    LaidWith([], s, AfterValue, open, f);
  }

  lemma ClosePlaced(open: nat, f: DumpFlags, c: byte, k: bytes)
    requires c == RBRACKET || c == RBRACE
    requires Laid(k, AfterValue, open, f)
    ensures Laid(Indent(f, open, false) + ([c] + k), AfterValue, open + 1, f)
    ensures Laid([c] + k, Opened, open + 1, f)
  {
    hide Laid;
    assert ([c] + k)[1..] == k;
    LaidWith(Indent(f, open, false), [c] + k, AfterValue, open + 1, f);
    LaidWith([], [c] + k, Opened, open + 1, f);
    assert [] + ([c] + k) == [c] + k;
  }

  /** An opening bracket, a new line, and what is inside. */
  lemma OpenPlaced(open: nat, f: DumpFlags, c: byte, t: bytes)
    requires c == LBRACKET || c == LBRACE
    requires Placed(t, open + 1, f)
    ensures Placed([c] + (Indent(f, open + 1, false) + t), open, f)
  {
    var gap := Indent(f, open + 1, false);
    assert gap == Gap(Opened, t[0], open + 1, f);
    hide Laid, Indent, Goes, StringEnd, WhiteRun;
    LaidWith(gap, t, Opened, open + 1, f);
    var s := [c] + (gap + t);
    assert s[1..] == gap + t;
    OpenGoes(s, open, f);
  }

  lemma OpenGoes(s: bytes, open: nat, f: DumpFlags)
    requires s != [] && (s[0] == LBRACKET || s[0] == LBRACE) && Laid(s[1..], Opened, open + 1, f)
    ensures Goes(s, open, f)
  {
    hide Laid, StringEnd;
  }

  lemma EmptyPlaced(open: nat, f: DumpFlags, c: byte, d: byte, k: bytes)
    requires c == LBRACKET || c == LBRACE
    requires d == RBRACKET || d == RBRACE
    requires Laid(k, AfterValue, open, f)
    ensures Placed([c] + [d] + k, open, f)
  {
    hide Laid, StringEnd;
    ClosePlaced(open, f, d, k);
    var s := [c] + [d] + k;
    assert s[1..] == [d] + k;
  }

  lemma {:induction false} TextPlaced(j: J.Json, f: DumpFlags, lib: RT.Lib, depth: nat, k: bytes)
    requires RT.Ok(j, lib) && Laid(k, AfterValue, depth, f)
    ensures Placed(Text(j, f, lib.fmt, depth) + k, depth, f)
    decreases Depth(j), 0
  {
    hide Laid, Placed, Indent;
    match j {
      case Str(s) => StringPlaced(s, f, depth, k);
      case Arr(elems) =>
        if elems == [] {
          EmptyPlaced(depth, f, LBRACKET, RBRACKET, k);
        } else {
          ElemsPlaced(elems, f, lib, depth, k);
          var gap, t := Indent(f, depth + 1, false), ElemsText(elems, f, lib.fmt, depth);
          OpenPlaced(depth, f, LBRACKET, t + k);
          assert [LBRACKET] + (gap + (t + k)) == ([LBRACKET] + (gap + t)) + k;
        }
      case Obj(table, serial) =>
        RT.EntriesOfOk(table, serial, lib);
        RT.OrderOk(table.pairs, f, lib);
        MembersPlaced(PrintOrder(table.pairs, f), f, lib, depth, k);
      case _ =>
        ScalarIsWordy(j, f, lib, depth);
        WordPlaced(Text(j, f, lib.fmt, depth), depth, f, k);
    }
  }

  lemma {:induction false} ElemsPlaced(js: seq<J.Json>, f: DumpFlags, lib: RT.Lib, depth: nat, k: bytes)
    requires RT.AllOk(js, lib) && js != [] && Laid(k, AfterValue, depth, f)
    ensures Placed(ElemsText(js, f, lib.fmt, depth) + k, depth + 1, f)
    decreases ElemsDepth(js), |js|
  {
    hide Laid, Placed, Indent, Text;
    var head, rest := Text(js[0], f, lib.fmt, depth + 1), [];
    if |js| == 1 {
      rest := Indent(f, depth, false) + [RBRACKET];
      ClosePlaced(depth, f, RBRACKET, k);
      assert rest + k == Indent(f, depth, false) + ([RBRACKET] + k);
    } else {
      ElemsPlaced(js[1..], f, lib, depth, k);
      var gap, more := Indent(f, depth + 1, true), ElemsText(js[1..], f, lib.fmt, depth);
      rest := [COMMA] + (gap + more);
      CommaPlaced(depth + 1, f, more + k);
      assert rest + k == [COMMA] + (gap + (more + k));
    }
    TextPlaced(js[0], f, lib, depth + 1, rest + k);
    assert head + (rest + k) == (head + rest) + k;
  }

  lemma {:induction false} MembersPlaced(ps: seq<J.Pair>, f: DumpFlags, lib: RT.Lib, depth: nat, k: bytes)
    requires RT.EntriesOk(ps, lib) && Laid(k, AfterValue, depth, f)
    ensures Placed(MembersText(ps, f, lib.fmt, depth) + k, depth, f)
    decreases PairsDepth(ps), |ps| + 1
  {
    hide Laid, Placed, Indent;
    if ps == [] {
      EmptyPlaced(depth, f, LBRACE, RBRACE, k);
    } else {
      EntriesPlaced(ps, f, lib, depth, k);
      var gap, t := Indent(f, depth + 1, false), EntriesText(ps, f, lib.fmt, depth);
      OpenPlaced(depth, f, LBRACE, t + k);
      assert [LBRACE] + (gap + (t + k)) == ([LBRACE] + (gap + t)) + k;
    }
  }

  lemma ColonPlaced(open: nat, f: DumpFlags, t: bytes)
    requires Placed(t, open, f)
    ensures Laid(Separator(f) + t, AfterValue, open, f)
  {
    var gap := if f.compact then [] else [SPACE];
    assert gap == Gap(AfterColon, t[0], open, f);
    LaidWith(gap, t, AfterColon, open, f);
    hide Laid, Goes;
    var s := [COLON] + (gap + t);
    assert s[1..] == gap + t && s == Separator(f) + t;
    ThenGoes(s, AfterColon, open, f);
    StartsLaid(s, open, f);
  }

  lemma FourParts(a: bytes, b: bytes, c: bytes, d: bytes, k: bytes)
    ensures a + (b + (c + (d + k))) == (a + (b + (c + d))) + k
  {
  }

  lemma {:induction false} EntriesPlaced(ps: seq<J.Pair>, f: DumpFlags, lib: RT.Lib, depth: nat, k: bytes)
    requires RT.EntriesOk(ps, lib) && ps != [] && Laid(k, AfterValue, depth, f)
    ensures Placed(EntriesText(ps, f, lib.fmt, depth) + k, depth + 1, f)
    decreases PairsDepth(ps), |ps|
  {
    hide Laid, Placed, Indent, Text, StringText, Separator;
    var key, value, rest := StringText(ps[0].key, f), Text(ps[0].value, f, lib.fmt, depth + 1), [];
    if |ps| == 1 {
      rest := Indent(f, depth, false) + [RBRACE];
      ClosePlaced(depth, f, RBRACE, k);
      assert rest + k == Indent(f, depth, false) + ([RBRACE] + k);
    } else {
      RT.TailDepth(ps);
      EntriesPlaced(ps[1..], f, lib, depth, k);
      var gap, more := Indent(f, depth + 1, true), EntriesText(ps[1..], f, lib.fmt, depth);
      rest := [COMMA] + (gap + more);
      CommaPlaced(depth + 1, f, more + k);
      assert rest + k == [COMMA] + (gap + (more + k));
    }
    TextPlaced(ps[0].value, f, lib, depth + 1, rest + k);
    ColonPlaced(depth + 1, f, value + (rest + k));
    StringPlaced(ps[0].key, f, depth + 1, Separator(f) + (value + (rest + k)));
    FourParts(key, Separator(f), value, rest, k);
  }

  /** The layout of every printed text, under every combination of flags. */
  lemma {:induction false} TextIsLaidOut(j: J.Json, f: DumpFlags, lib: RT.Lib)
    requires RT.Ok(j, lib)
    ensures Laid(Text(j, f, lib.fmt, 0), Start, 0, f)
  {
    var t := Text(j, f, lib.fmt, 0);
    TextPlaced(j, f, lib, 0, []);
    hide Laid, Text, Goes;
    assert t + [] == t && [] + t == t;
    LaidWith([], t, Start, 0, f);
  }

  // ----- the members of an object, as its text has them -----

  lemma {:induction false} MembersMean(ps: seq<J.Pair>, f: DumpFlags, lib: RT.Lib, depth: nat, reject: bool)
    requires RT.EntriesOk(ps, lib)
    ensures var tree := RT.MembersTree(ps, f, lib, depth);
      tree.ObjectLit? && G.Wf(tree) && G.MeanMembers(tree.members, lib.conv, reject) == Some(R.Rebind(ps, f))
  {
    hide G.Spell, MembersText, RT.EntriesTree, StringText, RT.Ok, Indent, J.ValidText, RT.TextItems;
    RT.MembersSpellText(ps, f, lib, depth, []);
    if ps != [] {
      RT.TailDepth(ps);
      RT.PrintedStringMeans(ps[0].key, f, []);
      R.TreeMeansReload(ps[0].value, f, lib, depth + 1, reject);
      R.EntriesMeanReload(ps[1..], f, lib, depth, reject);
    }
  }

  /**
   * The text of an object is spelled by an object of the grammar whose members stand in that order: under
   * JSON_SORT_KEYS each name is smaller than the ones after it.
   */
  lemma {:induction false} TextMembersInOrder(
      table: T.Table<J.Json>, serial: nat, f: DumpFlags, lib: RT.Lib, reject: bool)
    returns (tree: G.Value, bs: G.Bindings)
    requires RT.Ok(J.Obj(table, serial), lib)
    ensures tree.ObjectLit? && G.Wf(tree) && G.Spell(tree, []) == Text(J.Obj(table, serial), f, lib.fmt, 0)
    ensures G.MeanMembers(tree.members, lib.conv, reject) == Some(bs)
    ensures |bs| == |table.pairs| == |PrintOrder(table.pairs, f)|
    ensures forall i :: 0 <= i < |bs| ==> bs[i].0 == PrintOrder(table.pairs, f)[i].key
    ensures f.sortKeys ==> forall i, j :: 0 <= i < j < |bs| ==> Smaller(bs[i].0, bs[j].0)
  {
    var o, ps := J.Obj(table, serial), PrintOrder(table.pairs, f);
    PrintedInOrder(table, serial, f);
    RT.EntriesOfOk(table, serial, lib);
    RT.OrderOk(table.pairs, f, lib);
    RT.TreeSpellsText(o, f, lib, 0, []);
    MembersMean(ps, f, lib, 0, reject);
    tree, bs := RT.PrintTree(o, f, lib, 0), R.Rebind(ps, f);
    assert tree == RT.MembersTree(ps, f, lib, 0);
    hide Text, G.Spell, RT.MembersTree, RT.PrintTree, PrintOrder, R.Rebind, Smaller, RT.Ok;
    forall i | 0 <= i < |ps| ensures |bs| == |ps| && bs[i].0 == ps[i].key { R.RebindAt(ps, f, i); }
    assert Text(o, f, lib.fmt, 0) + [] == Text(o, f, lib.fmt, 0);
  }
}
