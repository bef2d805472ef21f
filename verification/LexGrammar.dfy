/** The lexer of module LexSpec reads exactly the terminals of module Grammar. */
module LexGrammar {
  import opened Basics
  import opened Grammar
  import Utf8
  import J = Json
  import L = LexSpec

  /** No byte that could lengthen a number or a word. */
  predicate Delimited(k: bytes) {
    k == [] || L.IsWs(k[0]) || k[0] == COMMA || k[0] == RBRACKET || k[0] == RBRACE
  }

  // ----- the terminals of the lexer are those of the grammar -----

  lemma SameTerminals(b: byte)
    ensures L.IsWs(b) <==> Ws(b)
    ensures L.IsDigit(b) <==> Digit(b)
    ensures L.IsE(b) <==> ExponentLetter(b)
    ensures L.IsHex(b) <==> HexDigit(b)
    ensures HexDigit(b) ==> L.HexValue(b) == HexDigitValue(b)
    ensures L.Unescape(b) == Escape(b)
  {
  }

  lemma SameHex(hex: bytes)
    requires |hex| == 4
    ensures L.FourHex(hex) <==> FourHexDigits(hex)
    ensures FourHexDigits(hex) ==> L.Hex4(hex) == CodeUnit(hex)
  {
    forall i | 0 <= i < 4 ensures (L.IsHex(hex[i]) <==> HexDigit(hex[i])) { SameTerminals(hex[i]); }
    if FourHexDigits(hex) {
      SameTerminals(hex[0]);
      SameTerminals(hex[1]);
      SameTerminals(hex[2]);
      SameTerminals(hex[3]);
      hide L.HexValue, HexDigitValue;
    }
  }

  lemma SameSurrogates(high: int, low: int)
    ensures L.IsHigh(high) <==> HighSurrogate(high)
    ensures L.IsLow(low) <==> LowSurrogate(low)
    ensures HighSurrogate(high) && LowSurrogate(low) ==> L.Pair(high, low) == FromSurrogates(high, low)
  {
  }

  lemma {:induction false} SameNatural(s: bytes)
    ensures L.AllDigits(s) <==> AllDigits(s)
    ensures AllDigits(s) ==> L.Decimal(s) == Natural(s)
    decreases |s|
  {
    if s != [] {
      SameNatural(s[..|s| - 1]);
    }
  }

  // ----- runs -----

  lemma {:induction false} WsRunOf(w: bytes, t: bytes)
    requires L.AllWs(w) && (t == [] || !L.IsWs(t[0]))
    ensures L.WsRun(w + t) == |w|
    decreases |w|
  {
    if w == [] {
      assert w + t == t;
    } else {
      assert (w + t)[1..] == w[1..] + t;
      WsRunOf(w[1..], t);
    }
  }

  lemma {:induction false} DigitRunOf(d: bytes, t: bytes)
    requires L.AllDigits(d) && (t == [] || !L.IsDigit(t[0]))
    ensures L.DigitRun(d + t) == |d|
    decreases |d|
  {
    if d == [] {
      assert d + t == t;
    } else {
      assert (d + t)[1..] == d[1..] + t;
      DigitRunOf(d[1..], t);
    }
  }

  lemma {:induction false} AlphaRunOf(a: bytes, t: bytes)
    requires (forall i :: 0 <= i < |a| ==> L.IsAlpha(a[i])) && (t == [] || !L.IsAlpha(t[0]))
    ensures L.AlphaRun(a + t) == |a|
    decreases |a|
  {
    if a == [] {
      assert a + t == t;
    } else {
      assert (a + t)[1..] == a[1..] + t;
      AlphaRunOf(a[1..], t);
    }
  }

  /** White space in front of a token is skipped. */
  lemma SkipWs(w: bytes, t: bytes, bad: bool, conv: L.Strtod)
    requires L.AllWs(w) && t != [] && !L.IsWs(t[0])
    ensures L.ScanToken(w + t, bad, conv) == L.ScanHere(t, conv)
  {
    WsRunOf(w, t);
    assert (w + t)[|w|..] == t;
  }

  // ----- strings -----

  predicate Ordinary(b: byte) { b >= 0x20 && b != QUOTE && b != BACKSLASH }

  lemma PassOne(c: byte, t: bytes)
    requires Ordinary(c)
    ensures L.FirstPass([c] + t) == L.More(1, L.FirstPass(t))
    ensures L.FirstPass(t).Some? ==> L.SecondPass([c] + t) == Prepend([c], L.SecondPass(t))
  {
    assert ([c] + t)[1..] == t;
  }

  lemma PrependTwice(a: bytes, b: bytes, t: Option<bytes>)
    ensures Prepend(a, Prepend(b, t)) == Prepend(a + b, t)
  {
    if t.Some? {
      assert a + (b + t.value) == a + b + t.value;
    }
  }

  lemma {:induction false} PassesCopy(b: bytes, t: bytes)
    requires forall i :: 0 <= i < |b| ==> Ordinary(b[i])
    ensures L.FirstPass(b + t) == L.More(|b|, L.FirstPass(t))
    ensures L.FirstPass(t).Some? ==> L.SecondPass(b + t) == Prepend(b, L.SecondPass(t))
    decreases |b|
  {
    hide L.FirstPass, L.SecondPass;
    if b == [] {
      assert b + t == t;
      assert L.FirstPass(t).Some? && L.SecondPass(t).Some? ==> [] + L.SecondPass(t).value == L.SecondPass(t).value;
    } else {
      assert b + t == [b[0]] + (b[1..] + t) && [b[0]] + b[1..] == b;
      PassesCopy(b[1..], t);
      PassOne(b[0], b[1..] + t);
      if L.FirstPass(t).Some? {
        PrependTwice([b[0]], b[1..], L.SecondPass(t));
      }
    }
  }

  lemma PassesUnicode(hex: bytes, t: bytes)
    requires FourHexDigits(hex)
    ensures var s := [BACKSLASH, LOWER_U] + hex + t;
      L.FourHex(s[2..]) && L.Hex4(s[2..]) == CodeUnit(hex) && s[6..] == t && L.FirstPass(s) == L.More(6, L.FirstPass(t))
  {
    SameHex(hex);
    hide CodeUnit, FourHexDigits;
    var s := [BACKSLASH, LOWER_U] + hex + t;
    assert s[2..] == hex + t && s[6..] == t;
  }

  lemma PassesEscape(c: byte, t: bytes)
    requires Escape(c).Some? && L.FirstPass(t).Some?
    ensures var s := [BACKSLASH, c] + t;
      L.FirstPass(s) == L.More(2, L.FirstPass(t)) && s[2..] == t
        && L.SecondPass(s) == Prepend([Escape(c).value], L.SecondPass(t))
  {
    SameTerminals(c);
    var s := [BACKSLASH, c] + t;
    assert s[2..] == t;
  }

  lemma SpellOrdinary(cp: Utf8.scalar)
    requires cp >= 0x20 && cp != QUOTE && cp != BACKSLASH
    ensures forall i :: 0 <= i < |Utf8.Encoding(cp)| ==> Ordinary(Utf8.Encoding(cp)[i])
  {}

  /** Both passes over the text of a string: where the first stops, and what the second yields. */
  lemma {:induction false} PassesReadItems(items: seq<Item>, k: bytes)
    requires WfItems(items)
    ensures var s := SpellItems(items, [QUOTE] + k);
      && L.FirstPass(s).Some?
      && s[L.FirstPass(s).value..] == k
      && L.SecondPass(s) == MeanItems(items)
    decreases |items|
  {
    hide CodeUnit, FourHexDigits, L.FourHex, L.Hex4, FromSurrogates, L.Pair, Utf8.Encoding;
    var s := SpellItems(items, [QUOTE] + k);
    if items == [] {
    } else {
      var t := SpellItems(items[1..], [QUOTE] + k);
      PassesReadItems(items[1..], k);
      assert s == SpellItem(items[0]) + t;
      match items[0] {
        case Unescaped(cp) =>
          SpellOrdinary(cp);
          PassesCopy(Utf8.Encoding(cp), t);
        case Escaped(c) =>
          PassesEscape(c, t);
        case Unicode(hex) =>
          PassesUnicode(hex, t);
          UnicodeItem(items, k);
      }
    }
  }

  lemma {:induction false} UnicodeItem(items: seq<Item>, k: bytes)
    requires WfItems(items) && items != [] && items[0].Unicode?
    requires var t := SpellItems(items[1..], [QUOTE] + k);
      L.FirstPass(t).Some? && L.SecondPass(t) == MeanItems(items[1..])
    ensures var s := SpellItems(items, [QUOTE] + k);
      L.FirstPass(s).Some? && L.SecondPass(s) == MeanItems(items)
    decreases |items|, 0
  {
    var s := SpellItems(items, [QUOTE] + k);
    var t := SpellItems(items[1..], [QUOTE] + k);
    var hex := items[0].hex;
    PassesUnicode(hex, t);
    assert s == [BACKSLASH, LOWER_U] + hex + t;
    hide CodeUnit, FourHexDigits, L.FourHex, L.Hex4, FromSurrogates, L.Pair;
    if HighSurrogate(CodeUnit(hex)) {
      if items[1..] != [] {
        var u := SpellItems(items[2..], [QUOTE] + k);
        assert items[1..][1..] == items[2..];
        assert t == SpellItem(items[1]) + u;
        if items[1].Unicode? {
          PassesUnicode(items[1].hex, u);
          assert t == [BACKSLASH, LOWER_U] + items[1].hex + u;
          SameSurrogates(CodeUnit(hex), CodeUnit(items[1].hex));
          PassesReadItems(items[2..], k);
        } else if items[1].Unescaped? {
          SpellOrdinary(items[1].cp);
          assert t[0] == SpellItem(items[1])[0];
        } else {
          assert t[1] == items[1].c;
        }
      }
    }
  }

  ghost predicate ItemsRead(s: bytes, items: seq<Item>) {
    && WfItems(items)
    && L.FirstPass(s).Some?
    && var k := s[L.FirstPass(s).value..];
      s == SpellItems(items, [QUOTE] + k) && Utf8.ValidUtf8(k)
  }

  lemma OneMoreItem(s: bytes, n: nat, head: Item, tail: seq<Item>)
    requires n <= |s| && WfItem(head) && s[..n] == SpellItem(head)
    requires ItemsRead(s[n..], tail) && L.FirstPass(s) == L.More(n, L.FirstPass(s[n..]))
    ensures ItemsRead(s, [head] + tail)
  {
    hide L.FirstPass, Utf8.ValidUtf8, SpellItem, WfItem;
    var items := [head] + tail;
    assert items[1..] == tail;
    var m := L.FirstPass(s[n..]).value;
    assert s[n..][m..] == s[n + m..];
    assert s == s[..n] + s[n..];
  }

  /** Every string text the first pass accepts is spelled by some items of the grammar. */
  lemma {:induction false} PassesImplyItems(s: bytes) returns (items: seq<Item>)
    requires Utf8.ValidUtf8(s) && L.FirstPass(s).Some?
    ensures ItemsRead(s, items)
    decreases |s|
  {
    if s[0] == QUOTE {
      items := [];
      assert s == [QUOTE] + s[1..];
      AsciiPrefix(s, 1);
    } else {
      var n, head := FirstItem(s);
      var tail := PassesImplyItems(s[n..]);
      OneMoreItem(s, n, head, tail);
      items := [head] + tail;
    }
  }

  lemma FirstItem(s: bytes) returns (n: nat, head: Item)
    requires Utf8.ValidUtf8(s) && L.FirstPass(s).Some? && s[0] != QUOTE
    ensures 1 <= n <= |s| && WfItem(head) && s[..n] == SpellItem(head)
    ensures L.FirstPass(s) == L.More(n, L.FirstPass(s[n..])) && Utf8.ValidUtf8(s[n..])
  {
    if s[0] == BACKSLASH {
      n, head := FirstEscape(s);
      hide L.FirstPass, WfItem, SpellItem, Utf8.ValidUtf8;
      AsciiPrefix(s, n);
    } else {
      n, head := FirstOrdinary(s);
    }
  }

  lemma FirstEscape(s: bytes) returns (n: nat, head: Item)
    requires L.FirstPass(s).Some? && s[0] == BACKSLASH
    ensures 1 <= n <= |s| && WfItem(head) && s[..n] == SpellItem(head) && forall i :: 0 <= i < n ==> s[i] < 0x80
    ensures L.FirstPass(s) == L.More(n, L.FirstPass(s[n..]))
  {
    if s[1] == LOWER_U {
      assert forall i :: 0 <= i < 4 ==> s[2..][i] == s[2 + i];
      n, head := 6, Unicode(s[2..6]);
    } else {
      n, head := 2, Escaped(s[1]);
    }
  }

  lemma FirstOrdinary(s: bytes) returns (n: nat, head: Item)
    requires Utf8.ValidUtf8(s) && L.FirstPass(s).Some? && s[0] != QUOTE && s[0] != BACKSLASH
    ensures 1 <= n <= |s| && WfItem(head) && s[..n] == SpellItem(head)
    ensures L.FirstPass(s) == L.More(n, L.FirstPass(s[n..])) && Utf8.ValidUtf8(s[n..])
  {
    assert Ordinary(s[0]);
    Utf8.EncodeInvertsCheck(s);
    hide L.FirstPass, Utf8.FirstChar, Utf8.ValidUtf8, Utf8.Encoding;
    var c := Utf8.FirstChar(s).value;
    n, head := c.0, Unescaped(c.1);
    assert s == s[..n] + s[n..];
    FirstByteOrdinary(s);
    SpellOrdinary(c.1);
    PassesCopy(s[..n], s[n..]);
  }

  lemma FirstByteOrdinary(s: bytes)
    requires s != [] && Utf8.FirstChar(s).Some? && Ordinary(s[0])
    ensures var cp := Utf8.FirstChar(s).value.1; cp >= 0x20 && cp != QUOTE && cp != BACKSLASH
  {
    Utf8.EncodeInvertsCheck(s);
  }

  /** Cutting ASCII bytes off the front keeps UTF-8 valid. */
  lemma {:induction false} AsciiPrefix(s: bytes, n: nat)
    requires n <= |s| && forall i :: 0 <= i < n ==> s[i] < 0x80
    ensures Utf8.ValidUtf8(s[n..]) == Utf8.ValidUtf8(s)
    decreases n
  {
    if n == 0 {
      assert s[n..] == s;
    } else {
      AsciiPrefix(s[1..], n - 1);
      assert s[1..][n - 1..] == s[n..];
    }
  }

  // ----- numbers -----

  lemma IntRead(minus: bool, whole: bytes, t: bytes)
    requires WfInt(whole) && (t == [] || !L.IsDigit(t[0]))
    ensures var text := (if minus then [MINUS] else []) + whole;
      L.IntPart(text + t) == Some(|text|)
  {
    var text := (if minus then [MINUS] else []) + whole;
    var p := if minus then 1 else 0;
    assert (text + t)[p..] == whole + t;
    assert (text + t)[p] == whole[0];
    if whole == [ZERO] {
      assert p + 1 < |text + t| ==> (text + t)[p + 1] == t[0];
    } else {
      DigitRunOf(whole, t);
    }
  }

  lemma FracRead(frac: bytes, t: bytes)
    requires AllDigits(frac) && (t == [] || (!L.IsDigit(t[0]) && (frac == [] ==> t[0] != DOT)))
    ensures L.FracPart(SpellFrac(frac) + t) == Some(|SpellFrac(frac)|)
  {
    var s := SpellFrac(frac) + t;
    if frac != [] {
      assert s[1..] == frac + t;
      DigitRunOf(frac, t);
    } else {
      assert s == t;
    }
  }

  lemma SplitThree(a: bytes, b: bytes, c: bytes, k: bytes)
    ensures var s := (a + b + c) + k;
      && s == a + (b + (c + k)) && s[|a|..] == b + (c + k) && s[|a| + |b|..] == c + k
      && s[..|a| + |b| + |c|] == a + b + c && s[|a| + |b| + |c|..] == k
  {
    var s := (a + b + c) + k;
    assert s == a + (b + (c + k));
    assert s[|a|..] == b + (c + k);
    assert s[|a| + |b|..] == c + k;
  }

  lemma ExpHead(x: Exponent, t: bytes)
    requires x.Exponent? && |x.sign| <= 1 && x.digits != []
    ensures var s := SpellExponent(x) + t;
      && |s| > 1 && s[0] == x.e && s[1] == (if x.sign == [] then x.digits[0] else x.sign[0])
      && s[1 + |x.sign|..] == x.digits + t
  {
    SplitThree([x.e], x.sign, x.digits, t);
    assert SpellExponent(x) + t == [x.e] + (x.sign + (x.digits + t));
    assert x.sign == [] ==> x.sign + (x.digits + t) == x.digits + t;
  }

  lemma ExpRead(x: Exponent, t: bytes)
    requires WfExponent(x) && (t == [] || (!L.IsDigit(t[0]) && (x.NoExponent? ==> !L.IsE(t[0]))))
    ensures L.ExpPart(SpellExponent(x) + t) == Some(|SpellExponent(x)|)
  {
    hide L.DigitRun, L.IsE;
    if x.NoExponent? {
      assert SpellExponent(x) + t == t;
    } else {
      assert L.IsDigit(x.digits[0]);
      assert |SpellExponent(x)| == 1 + |x.sign| + |x.digits|;
      SameNatural(x.digits);
      SameTerminals(x.e);
      DigitRunOf(x.digits, t);
      hide SpellExponent, L.AllDigits, AllDigits;
      ExpHead(x, t);
    }
  }

  /** The text k does not lengthen the number n. */
  predicate NumberEnds(n: Number, k: bytes) {
    k == [] || (
      && !Digit(k[0])
      && (IsIntegral(n) ==> k[0] != 0x2E)
      && (n.exp.NoExponent? ==> !ExponentLetter(k[0])))
  }

  function NumberToken(m: Option<J.Json>): L.Token {
    match m
    case None => L.Invalid
    case Some(j) => if j.Int? then L.IntToken(j.i) else if j.Real? then L.RealToken(j.r) else L.Invalid
  }

  /** What follows the integer part, and what follows the fraction. */
  lemma PartsFollow(n: Number, k: bytes)
    requires WfNumber(n) && NumberEnds(n, k)
    ensures var x := SpellExponent(n.exp) + k;
      && (x == [] || (!L.IsDigit(x[0]) && (n.frac == [] ==> x[0] != DOT)))
      && var f := SpellFrac(n.frac) + x; f == [] || !L.IsDigit(f[0])
  {
    var x := SpellExponent(n.exp) + k;
    if n.exp.Exponent? { assert x[0] == n.exp.e; } else { assert x == k; }
    if n.frac == [] { assert SpellFrac(n.frac) + x == x; }
  }

  lemma PartsRead(n: Number, k: bytes)
    requires WfNumber(n) && NumberEnds(n, k)
    ensures var s := SpellNumber(n) + k;
      var a, b, c := |SpellInt(n)|, |SpellFrac(n.frac)|, |SpellExponent(n.exp)|;
      && L.IntPart(s) == Some(a) && L.FracPart(s[a..]) == Some(b) && L.ExpPart(s[a + b..]) == Some(c)
      && s[..a + b + c] == SpellNumber(n) && s[a + b + c..] == k
  {
    hide L.IntPart, L.FracPart, L.ExpPart, L.DigitRun, SpellFrac, SpellExponent;
    SplitThree(SpellInt(n), SpellFrac(n.frac), SpellExponent(n.exp), k);
    PartsFollow(n, k);
    IntRead(n.minus, n.whole, SpellFrac(n.frac) + (SpellExponent(n.exp) + k));
    FracRead(n.frac, SpellExponent(n.exp) + k);
    ExpRead(n.exp, k);
  }

  /** Conversion of the text of a number gives what the number means. */
  lemma MeansItsText(n: Number, conv: L.Strtod)
    requires WfNumber(n)
    ensures IsIntegral(n) <==> |SpellFrac(n.frac)| + |SpellExponent(n.exp)| == 0
    ensures IsIntegral(n) ==> var t := SpellNumber(n);
      t != [] && L.AllDigits(if t[0] == MINUS then t[1..] else t) && L.Integer(t) == NumberToken(MeanNumber(n, conv))
    ensures !IsIntegral(n) ==> L.RealOf(SpellNumber(n), conv) == NumberToken(MeanNumber(n, conv))
  {
    hide L.Decimal, Natural;
    if IsIntegral(n) {
      SameNatural(n.whole);
      assert SpellNumber(n) == SpellInt(n);
      assert n.minus ==> SpellInt(n)[1..] == n.whole;
      assert !n.minus ==> SpellInt(n) == n.whole;
    }
  }

  /** The text of a number, followed by nothing that lengthens it, scans to its meaning. */
  lemma {:induction false} NumberRead(n: Number, k: bytes, conv: L.Strtod)
    requires WfNumber(n) && NumberEnds(n, k)
    ensures var r := L.ScanNumber(SpellNumber(n) + k, conv);
      r.token == NumberToken(MeanNumber(n, conv)) && (r.token != L.Invalid ==> r.rest == k)
  {
    hide L.IntPart, L.FracPart, L.ExpPart, SpellNumber, SpellInt, SpellFrac, SpellExponent, MeanNumber, L.Integer,
      L.RealOf;
    PartsRead(n, k);
    MeansItsText(n, conv);
  }

  lemma IntSplit(s: bytes) returns (minus: bool, whole: bytes)
    requires L.IntPart(s).Some?
    ensures WfInt(whole) && s[..L.IntPart(s).value] == (if minus then [MINUS] else []) + whole
  {
    var n := L.IntPart(s).value;
    minus := s[0] == MINUS;
    var p := if minus then 1 else 0;
    whole := s[p..n];
    if s[p] != ZERO {
      assert whole == s[p..][..n - p];
    }
  }

  lemma FracSplit(s: bytes) returns (frac: bytes)
    requires L.FracPart(s).Some?
    ensures AllDigits(frac) && s[..L.FracPart(s).value] == SpellFrac(frac)
  {
    var n := L.FracPart(s).value;
    frac := if n == 0 then [] else s[1..n];
    if n > 0 {
      assert s[1..][..n - 1] == frac;
    }
  }

  lemma ExpSplit(s: bytes) returns (x: Exponent)
    requires L.ExpPart(s).Some?
    ensures WfExponent(x) && s[..L.ExpPart(s).value] == SpellExponent(x)
  {
    var n := L.ExpPart(s).value;
    if n == 0 {
      x := NoExponent;
    } else {
      var p := if s[1] == PLUS || s[1] == MINUS then 2 else 1;
      assert s[p..][..n - p] == s[p..n];
      x := Exponent(s[0], s[1..p], s[p..n]);
      assert s[..n] == [s[0]] + s[1..p] + s[p..n];
    }
  }

  lemma PartsSplit(s: bytes, a: nat, b: nat, c: nat) returns (n: Number)
    requires L.IntPart(s) == Some(a) && L.FracPart(s[a..]) == Some(b)
    requires a + b <= |s| && L.ExpPart(s[a + b..]) == Some(c)
    ensures WfNumber(n) && a + b + c <= |s|
    ensures s[..a] == SpellInt(n) && s[a..a + b] == SpellFrac(n.frac) && s[a + b..a + b + c] == SpellExponent(n.exp)
    ensures NumberEnds(n, s[a + b + c..])
  {
    hide L.IntPart, L.FracPart, L.ExpPart, L.DigitRun, L.AllDigits, AllDigits;
    var minus, whole := IntSplit(s);
    var frac := FracSplit(s[a..]);
    var x := ExpSplit(s[a + b..]);
    n := Number(minus, whole, frac, x);
    assert s[a..a + b] == s[a..][..b];
    assert s[a + b..a + b + c] == s[a + b..][..c];
    PartsEnd(s, a, b, c);
  }

  /** A part that ends, ends because its next byte cannot continue it. */
  lemma PartsEnd(s: bytes, a: nat, b: nat, c: nat)
    requires L.IntPart(s) == Some(a) && L.FracPart(s[a..]) == Some(b)
    requires a + b <= |s| && L.ExpPart(s[a + b..]) == Some(c)
    ensures a + b + c < |s| ==> var d := s[a + b + c];
      !L.IsDigit(d) && (b + c == 0 ==> d != DOT) && (c == 0 ==> !L.IsE(d))
  {
    IntEnds(s);
    FracEnds(s[a..]);
    ExpEnds(s[a + b..]);
    if a + b + c < |s| {
      assert s[a + b..][c] == s[a + b + c];
      if c == 0 {
        assert s[a..][b] == s[a + b];
      }
    }
  }

  lemma IntEnds(s: bytes)
    requires L.IntPart(s).Some?
    ensures var n := L.IntPart(s).value; n < |s| ==> !L.IsDigit(s[n])
  {
    var n := L.IntPart(s).value;
    var p := if s[0] == MINUS then 1 else 0;
    if s[p] != ZERO && n < |s| {
      assert s[p..][n - p] == s[n];
    }
  }

  lemma FracEnds(s: bytes)
    requires L.FracPart(s).Some?
    ensures var n := L.FracPart(s).value; n < |s| ==> (n > 0 ==> !L.IsDigit(s[n])) && (n == 0 ==> s[n] != DOT)
  {
    var n := L.FracPart(s).value;
    if n > 0 && n < |s| {
      assert s[1..][n - 1] == s[n];
    }
  }

  lemma ExpEnds(s: bytes)
    requires L.ExpPart(s).Some?
    ensures var n := L.ExpPart(s).value; n < |s| ==> (n > 0 ==> !L.IsDigit(s[n])) && (n == 0 ==> !L.IsE(s[n]))
  {
    var n := L.ExpPart(s).value;
    if n > 0 && n < |s| {
      var p := if s[1] == PLUS || s[1] == MINUS then 2 else 1;
      assert s[p..][n - p] == s[n];
    }
  }

  lemma Cut(s: bytes, a: nat, b: nat, c: nat)
    requires a + b + c <= |s|
    ensures s[..a + b + c] == s[..a] + s[a..a + b] + s[a + b..a + b + c]
    ensures s == s[..a + b + c] + s[a + b + c..]
  {}

  /** Every number the lexer accepts is spelled by the grammar, and scans to its meaning. */
  lemma {:induction false} NumberSplit(s: bytes, conv: L.Strtod) returns (n: Number)
    requires L.ScanNumber(s, conv).token != L.Invalid
    ensures var r := L.ScanNumber(s, conv);
      WfNumber(n) && s == SpellNumber(n) + r.rest && NumberToken(MeanNumber(n, conv)) == r.token
        && NumberEnds(n, r.rest)
  {
    hide L.IntPart, L.FracPart, L.ExpPart, SpellInt, SpellFrac, SpellExponent, MeanNumber, L.Integer, L.RealOf;
    var a := L.IntPart(s).value;
    var b := L.FracPart(s[a..]).value;
    var c := L.ExpPart(s[a + b..]).value;
    n := PartsSplit(s, a, b, c);
    Cut(s, a, b, c);
    MeansItsText(n, conv);
  }

  // ----- words -----

  lemma WordRead(text: bytes, k: bytes, conv: L.Strtod)
    requires text == TRUE_TEXT || text == FALSE_TEXT || text == NULL_TEXT
    requires k == [] || !L.IsAlpha(k[0])
    ensures L.ScanHere(text + k, conv) == L.Scan(L.Word(text), k)
  {
    AlphaRunOf(text, k);
    var s := text + k;
    assert s[0] == text[0];
    assert s[..|text|] == text && s[|text|..] == k;
  }

  /** A letter, which would lengthen a literal name. */
  predicate Letter(b: byte) { 0x41 <= b <= 0x5A || 0x61 <= b <= 0x7A }

  /** The text k after v does not run into v's last token. */
  predicate Ends(v: Value, k: bytes) {
    match v
    case NumberLit(n) => NumberEnds(n, k)
    case NullLit => k == [] || !Letter(k[0])
    case TrueLit => k == [] || !Letter(k[0])
    case FalseLit => k == [] || !Letter(k[0])
    case _ => true
  }

  lemma DelimitedEnds(v: Value, k: bytes)
    requires Delimited(k)
    ensures Ends(v, k)
  {}
}
