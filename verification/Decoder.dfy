/**
 * The second pass of lex_scan_string in jansson/load.c: decoding escapes into a buffer sized by the
 * source text. Its assertions are never reached and its writes stay inside the buffer.
 */
module Decoder {
  import opened Basics
  import L = LexSpec
  import Utf8
  import Utf8Code

  /** The first pass accepted the rest of text from p on, up to its last byte. */
  predicate Closed(text: bytes, p: nat) {
    p < |text| && L.FirstPass(text[p..]) == Some(|text| - p)
  }

  /** What one round of the second pass reads at p, and the bytes it stands for; None where it rejects. */
  function Item(text: bytes, p: nat): (r: Option<(nat, bytes)>)
    requires Closed(text, p) && text[p] != QUOTE
  {
    if text[p] != BACKSLASH then Some((1, [text[p]]))
    else
      assert EscapeAt(text, p) by { AcceptedEscape(text, p); }
      if text[p + 1] != LOWER_U then Some((2, [L.Unescape(text[p + 1]).value]))
      else
        var v := L.Hex4(text[p + 2..]);
        assert SixMore(text, p) by { SixFurther(text, p); }
        if L.IsHigh(v) then
          if text[p + 6] == BACKSLASH && text[p + 7] == LOWER_U && L.IsLow(L.Hex4(text[p + 8..])) then
            Some((12, Utf8.Encoding(L.Pair(v, L.Hex4(text[p + 8..])))))
          else None
        else if L.IsLow(v) || v == 0 then None
        else Some((6, Utf8.Encoding(v)))
  }

  predicate EscapeAt(text: bytes, p: nat) {
    && p + 1 < |text|
    && (text[p + 1] != LOWER_U ==> L.Unescape(text[p + 1]).Some?)
    && (text[p + 1] == LOWER_U ==> L.FourHex(text[p + 2..]))
  }

  lemma AcceptedEscape(text: bytes, p: nat)
    requires Closed(text, p) && text[p] == BACKSLASH
    ensures EscapeAt(text, p)
  {
    var s := text[p..];
    assert s[1] == text[p + 1] && s[2..] == text[p + 2..];
  }

  predicate SixMore(text: bytes, p: nat) {
    && Closed(text, p + 6)
    && (text[p + 6] == BACKSLASH ==> p + 7 < |text| && (text[p + 7] == LOWER_U ==>
      L.FourHex(text[p + 8..]) && Closed(text, p + 12)))
  }

  lemma SixFurther(text: bytes, p: nat)
    requires Closed(text, p) && text[p] == BACKSLASH && p + 1 < |text| && text[p + 1] == LOWER_U
    ensures SixMore(text, p)
  {
    var s := text[p..];
    assert s[1] == text[p + 1] && s[2..] == text[p + 2..] && s[6..] == text[p + 6..];
    var t := text[p + 6..];
    assert L.FirstPass(t).Some?;
    assert t[0] == text[p + 6];
    if t[0] == BACKSLASH {
      assert t[1] == text[p + 7] && t[2..] == text[p + 8..];
      if t[1] == LOWER_U {
        assert t[6..] == text[p + 12..];
      }
    }
  }

  /** A round of the second pass: it reads at least as many bytes as it writes. */
  lemma ItemDecodes(text: bytes, p: nat)
    requires Closed(text, p) && text[p] != QUOTE
    ensures match Item(text, p)
            case None => L.SecondPass(text[p..]) == None
            case Some(r) =>
              && |r.1| <= r.0 && Closed(text, p + r.0)
              && L.SecondPass(text[p..]) == Prepend(r.1, L.SecondPass(text[p + r.0..]))
  {
    var s := text[p..];
    if text[p] != BACKSLASH {
      assert s[1..] == text[p + 1..];
    } else if s[1] != LOWER_U {
      assert s[1] == text[p + 1] && s[2..] == text[p + 2..];
    } else {
      UnicodeDecodes(text, p);
    }
  }

  lemma UnicodeDecodes(text: bytes, p: nat)
    requires Closed(text, p) && text[p] == BACKSLASH && p + 1 < |text| && text[p + 1] == LOWER_U
    ensures match Item(text, p)
            case None => L.SecondPass(text[p..]) == None
            case Some(r) =>
              && |r.1| <= r.0 && Closed(text, p + r.0)
              && L.SecondPass(text[p..]) == Prepend(r.1, L.SecondPass(text[p + r.0..]))
  {
    hide L.Hex4, L.FourHex, L.FirstPass, Utf8.Encoding;
    SixFurther(text, p);
    var s := text[p..];
    assert s[1] == text[p + 1] && s[2..] == text[p + 2..] && s[6..] == text[p + 6..];
    var t := s[6..];
    assert t[0] == text[p + 6];
    if t[0] == BACKSLASH {
      assert t[1] == text[p + 7] && t[2..] == text[p + 8..];
      if t[1] == LOWER_U {
        assert t[6..] == text[p + 12..];
      }
    }
  }

  /** decode_unicode_escape: p is the position of the u. */
  method DecodeEscape(text: bytes, p: nat) returns (value: int)
    requires p < |text| && text[p] == LOWER_U && L.FourHex(text[p + 1..])
    ensures value == L.Hex4(text[p + 1..])
  {
    ghost var s := text[p + 1..];
    value := 0;
    for i := 1 to 5
      invariant value == if i == 1 then 0 else if i == 2 then L.HexValue(s[0])
                         else if i == 3 then L.HexValue(s[0]) * 16 + L.HexValue(s[1])
                         else if i == 4 then (L.HexValue(s[0]) * 16 + L.HexValue(s[1])) * 16 + L.HexValue(s[2])
                         else L.Hex4(s)
    {
      var c := text[p + i];
      assert c == s[i - 1] && L.IsHex(c);
      value := value * 16;
      if ZERO <= c <= NINE {
        value := value + (c - ZERO);
      } else if 0x61 <= c <= 0x7A {
        value := value + (c - 0x61 + 10);
      } else if 0x41 <= c <= 0x5A {
        value := value + (c - 0x41 + 10);
      } else {
        assert false;
      }
    }
  }

  /** A \u escape in the second pass, up to the code point; p is the position of the u. */
  method DecodeUnicode(text: bytes, start: nat) returns (ok: bool, value: int, p: nat)
    requires Closed(text, start) && text[start] == BACKSLASH && start + 1 < |text| && text[start + 1] == LOWER_U
    ensures ok <==> Item(text, start).Some?
    ensures ok ==> Utf8.IsScalar(value) && Item(text, start).value == (p - start, Utf8.Encoding(value))
  {
    hide L.Hex4, L.FourHex, L.FirstPass, Utf8.Encoding;
    AcceptedEscape(text, start);
    SixFurther(text, start);
    p := start + 1;
    value := DecodeEscape(text, p);
    p := p + 5;
    if 0xD800 <= value <= 0xDBFF {
      if text[p] == BACKSLASH && text[p + 1] == LOWER_U {
        p := p + 1;
        var value2 := DecodeEscape(text, p);
        p := p + 5;
        if 0xDC00 <= value2 <= 0xDFFF {
          value := (value - 0xD800) * 0x400 + (value2 - 0xDC00) + 0x10000;
        } else {
          return false, value, p;
        }
      } else {
        return false, value, p;
      }
    } else if 0xDC00 <= value <= 0xDFFF {
      return false, value, p;
    } else if value == 0 {
      return false, value, p;
    }
    ok := true;
  }

  /** One round of the second pass: t never passes p, so the writes stay inside the buffer. */
  method DecodeItem(text: bytes, start: nat, target: array<byte>, from: nat) returns (ok: bool, p: nat, t: nat)
    requires Closed(text, start) && text[start] != QUOTE && from < start && target.Length == |text| + 1
    modifies target
    ensures ok <==> Item(text, start).Some?
    ensures ok ==>
      && p == start + Item(text, start).value.0 < |text| && t == from + |Item(text, start).value.1| < p
      && target[..t] == old(target[..from]) + Item(text, start).value.1
  {
    hide L.FirstPass, L.FourHex, L.Hex4, Utf8.Encoding;
    ItemDecodes(text, start);
    p, t := start, from;
    if text[p] == BACKSLASH {
      AcceptedEscape(text, p);
      if text[p + 1] == LOWER_U {
        var value;
        ok, value, p := DecodeUnicode(text, start);
        if !ok {
          return;
        }
        var buffer := new byte[4];
        var encoded, length := Utf8Code.Encode(value, buffer);
        assert encoded;
        forall i | 0 <= i < length {
          target[t + i] := buffer[i];
        }
        t := t + length;
      } else {
        p := p + 1;
        var c := text[p];
        if c == QUOTE || c == BACKSLASH || c == SLASH {
          target[t] := c;
        } else if c == LOWER_B {
          target[t] := 0x08;
        } else if c == LOWER_F {
          target[t] := 0x0C;
        } else if c == LOWER_N {
          target[t] := LF;
        } else if c == LOWER_R {
          target[t] := CR;
        } else if c == LOWER_T {
          target[t] := TAB;
        } else {
          assert false;
        }
        t := t + 1;
        p := p + 1;
      }
    } else {
      target[t] := text[p];
      t := t + 1;
      p := p + 1;
    }
    ok := true;
  }

  predicate StopsAtQuote(s: bytes) {
    && L.FirstPass(s).Some?
    && var t := s[..L.FirstPass(s).value]; L.FirstPass(t) == L.FirstPass(s) && L.SecondPass(t) == L.SecondPass(s)
  }

  /** Both passes look no further than the closing quote. */
  lemma {:induction false} PassesStopAtQuote(s: bytes)
    requires L.FirstPass(s).Some?
    ensures StopsAtQuote(s)
    decreases |s|
  {
    var n := L.FirstPass(s).value;
    if s[0] == QUOTE {
    } else if s[0] != BACKSLASH {
      PassesStopAtQuote(s[1..]);
      assert s[..n][1..] == s[1..][..n - 1];
    } else if s[1] != LOWER_U {
      PassesStopAtQuote(s[2..]);
      assert s[..n][2..] == s[2..][..n - 2];
    } else {
      var t := s[6..];
      PassesStopAtQuote(t);
      if t[0] == BACKSLASH && t[1] == LOWER_U {
        PassesStopAtQuote(t[6..]);
      }
      UnicodeStops(s, n);
    }
  }

  lemma CutEscape(s: bytes, n: nat)
    requires 6 <= n <= |s| && s[0] == BACKSLASH && s[1] == LOWER_U && L.FourHex(s[2..])
    ensures var a := s[..n];
      a[0] == BACKSLASH && a[1] == LOWER_U && L.FourHex(a[2..]) && L.Hex4(a[2..]) == L.Hex4(s[2..])
    ensures s[..n][6..] == s[6..][..n - 6]
    ensures L.FirstPass(s[..n]) == L.More(6, L.FirstPass(s[6..][..n - 6]))
  {
    assert forall i :: 0 <= i < 4 ==> s[..n][2..][i] == s[2..][i];
  }

  lemma UnicodeStops(s: bytes, n: nat)
    requires s != [] && L.FirstPass(s) == Some(n) && s[0] == BACKSLASH && s[1] == LOWER_U && StopsAtQuote(s[6..])
    requires var t := s[6..]; t[0] == BACKSLASH && t[1] == LOWER_U ==> StopsAtQuote(t[6..])
    ensures StopsAtQuote(s)
  {
    hide L.Hex4, L.FourHex, Utf8.Encoding;
    var t := s[6..];
    CutEscape(s, n);
    if t[0] == BACKSLASH && t[1] == LOWER_U {
      CutEscape(t, n - 6);
    }
  }

  /**
   * The second pass of lex_scan_string over the saved text, opening quote included. The buffer is
   * as long as the code makes it, and every write in here is proved to stay inside it.
   */
  method Decode(text: bytes) returns (ok: bool, value: bytes)
    requires text != [] && Closed(text, 1)
    ensures ok <==> L.SecondPass(text[1..]).Some?
    ensures ok ==> L.SecondPass(text[1..]) == Some(value)
  {
    hide L.FirstPass, L.SecondPass, Item;
    var target := new byte[|text| + 1];
    var t: nat := 0;
    var p: nat := 1;
    PrependNothing(L.SecondPass(text[1..]));
    while text[p] != QUOTE
      invariant t < p < |text| && Closed(text, p)
      invariant L.SecondPass(text[1..]) == Prepend(target[..t], L.SecondPass(text[p..]))
      decreases |text| - p
    {
      ItemDecodes(text, p);
      ItemMoves(text, p);
      ghost var done := target[..t];
      ghost var from := p;
      ok, p, t := DecodeItem(text, p, target, t);
      if !ok {
        return false, [];
      }
      PrependMore(done, Item(text, from).value.1, L.SecondPass(text[p..]));
    }
    AtQuote(text, p);
    ghost var done := target[..t];
    target[t] := 0;
    assert target[..t] == done + [];
    return true, target[..t];
  }

  lemma PrependNothing(b: Option<bytes>)
    ensures Prepend([], b) == b
  {
    assert b.Some? ==> [] + b.value == b.value;
  }

  lemma PrependMore(a: bytes, b: bytes, c: Option<bytes>)
    ensures Prepend(a, Prepend(b, c)) == Prepend(a + b, c)
  {
    assert c.Some? ==> a + (b + c.value) == a + b + c.value;
  }

  lemma ItemMoves(text: bytes, p: nat)
    requires Closed(text, p) && text[p] != QUOTE
    ensures Item(text, p).Some? ==> Item(text, p).value.0 >= 1
  {
  }

  lemma AtQuote(text: bytes, p: nat)
    requires Closed(text, p) && text[p] == QUOTE
    ensures L.SecondPass(text[p..]) == Some([]) && p == |text| - 1
  {
    assert text[p..][0] == QUOTE;
  }
}
