/** The lexer of jansson/load.c, byte by byte, proved against module LexSpec. */
module Lexer {
  import opened Basics
  import opened LexText
  import D = Decoder
  import J = Json
  import L = LexSpec
  import S = Stream

  /** The l_isxxx macros, on the value of a (signed) char. */
  predicate IsDigitCode(c: int) { ZERO <= c <= NINE }
  predicate IsAlphaCode(c: int) { 0x41 <= c <= 0x5A || 0x61 <= c <= 0x7A }
  predicate IsHexCode(c: int) { IsDigitCode(c) || 0x41 <= c <= 0x46 || 0x61 <= c <= 0x66 }
  predicate IsWsCode(c: int) { c == SPACE || c == TAB || c == LF || c == CR }
  predicate IsPunctCode(c: int) {
    c == LBRACE || c == RBRACE || c == LBRACKET || c == RBRACKET || c == COLON || c == COMMA
  }

  /** lex_t: the saved text is the byte sequence that module StrBuffer implements. */
  class Lexer {
    const stream: S.Stream
    const conv: L.Strtod
    var saved: bytes
    var token: L.Token

    ghost function Text(): bytes { stream.Text() }

    ghost predicate Valid()
      reads stream, stream.buffer
    {
      stream.Valid()
    }

    /** The last byte read is c, the one at k; or c is the code for what ends the text at k. */
    ghost predicate At(k: nat, c: int)
      reads stream, stream.buffer
    {
      && stream.Valid() && k <= |Text()|
      && (k < |Text()| ==>
            && stream.position == k + 1 && c == SignedChar(Text()[k]) && c != S.STATE_EOF && c != S.STATE_ERROR
            && stream.state == S.STATE_OK && stream.unread)
      && (k == |Text()| ==> stream.position == k && c == stream.Ending())
    }

    /** What was read since base is saved. */
    ghost predicate Saved(base: nat)
      reads `saved, stream
    {
      base <= stream.position <= |Text()| && saved == Text()[base..stream.position]
    }

    ghost predicate Ahead(base: nat, k: nat, c: int)
      reads `saved, stream, stream.buffer
    {
      base <= k && At(k, c) && Saved(base)
    }

    /** What the byte just read tells about the text. */
    lemma Seen(base: nat, k: nat, c: int)
      requires Ahead(base, k, c)
      ensures Valid() && Saved(base) && base <= k <= |Text()|
      ensures stream.position == if k < |Text()| then k + 1 else k
      ensures c >= 0 ==> k < |Text()| && Text()[k] == c
      ensures c < 0 ==> k == |Text()| || Text()[k] >= 0x80
    {
    }

    /** lex_init. */
    constructor (data: bytes, conv: L.Strtod)
      requires NulFree(data)
      ensures Valid() && fresh(stream) && fresh(stream.buffer) && stream.data == data && this.conv == conv
      ensures stream.position == 0 && token == L.Invalid
    {
      stream := new S.Stream(data);
      this.conv := conv;
      saved := [];
      token := L.Invalid;
    }

    /** lex_get. */
    method Get() returns (c: int)
      requires Valid()
      modifies stream, stream.buffer
      ensures At(old(stream.position), c)
    {
      hide S.Stream.Counted, S.Stream.Buffered, S.Stream.Split, S.Stream.Undoable;
      c := stream.Get();
    }

    /** lex_get_save. */
    method GetSave(ghost base: nat) returns (c: int)
      requires Valid() && Saved(base)
      modifies stream, stream.buffer, this`saved
      ensures Valid() && Ahead(base, old(stream.position), c)
    {
      hide S.Stream.Counted, S.Stream.Buffered, S.Stream.Split, S.Stream.Undoable;
      c := stream.Get();
      if c != S.STATE_EOF && c != S.STATE_ERROR {
        saved := saved + [if c < 0 then c + 0x100 else c];
      }
    }

    /** lex_unget_unsave: its assertion is the one below. */
    method UngetUnsave(c: int, ghost base: nat, ghost k: nat)
      requires Ahead(base, k, c)
      modifies stream, this`saved
      ensures Valid() && stream.position == k && Saved(base)
    {
      hide S.Stream.Counted, S.Stream.Buffered, S.Stream.Split, S.Stream.Undoable;
      if c != S.STATE_EOF && c != S.STATE_ERROR {
        stream.Unget(c);
        var d := saved[|saved| - 1];
        saved := saved[..|saved| - 1];
        assert c == SignedChar(d);
      }
    }

    /** lex_unget. */
    method Unget(c: int, ghost k: nat)
      requires At(k, c)
      modifies stream
      ensures Valid() && stream.position == k
    {
      hide S.Stream.Counted, S.Stream.Buffered, S.Stream.Split, S.Stream.Undoable;
      stream.Unget(c);
    }

    /** The digit loops of lex_scan_number, from the first digit on. */
    method Digits(first: int, ghost base: nat, ghost k: nat) returns (c: int)
      requires Ahead(base, k, first) && IsDigitCode(first)
      modifies stream, stream.buffer, this`saved
      ensures Valid() && Ahead(base, k + L.DigitRun(Text()[k..]), c)
      ensures L.DigitRun(Text()[k..]) > 0
    {
      hide S.Stream.Valid, S.Stream.Text, Ahead, L.DigitRun;
      Seen(base, k, first);
      DigitsFrom(Text(), k);
      c := GetSave(base);
      ghost var n := k + 1;
      while IsDigitCode(c)
        invariant k < n <= |Text()| && Ahead(base, n, c)
        invariant L.DigitRun(Text()[k..]) == n - k + L.DigitRun(Text()[n..])
        decreases |Text()| - n
      {
        Seen(base, n, c);
        DigitsFrom(Text(), n);
        c := GetSave(base);
        n := n + 1;
      }
      Seen(base, n, c);
      DigitsFrom(Text(), n);
    }

    /** lex_scan_number up to the last digit of the integer part; c is the byte after it. */
    method IntegerPart(first: int, ghost base: nat) returns (ok: bool, c: int)
      requires Ahead(base, base, first) && base < |Text()|
      modifies stream, stream.buffer, this`saved
      ensures Valid() && (ok <==> L.IntPart(Text()[base..]).Some?)
      ensures ok ==> Ahead(base, base + L.IntPart(Text()[base..]).value, c)
    {
      hide S.Stream.Valid, S.Stream.Text, Ahead, L.IntPart, L.DigitRun;
      ghost var k := base;
      Seen(base, k, first);
      IntPartAt(Text(), base);
      c := first;
      if c == MINUS {
        c := GetSave(base);
        k := k + 1;
        Seen(base, k, c);
      }
      if c == ZERO {
        c := GetSave(base);
        Seen(base, k + 1, c);
        if IsDigitCode(c) {
          UngetUnsave(c, base, k + 1);
          return false, c;
        }
      } else if IsDigitCode(c) {
        c := Digits(c, base, k);
      } else {
        UngetUnsave(c, base, k);
        return false, c;
      }
      ok := true;
    }

    /** The optional fraction. The byte after the dot is saved only when it is a digit. */
    method Fraction(first: int, ghost base: nat, ghost k: nat) returns (ok: bool, c: int)
      requires Ahead(base, k, first)
      modifies stream, stream.buffer, this`saved
      ensures Valid() && (ok <==> L.FracPart(Text()[k..]).Some?)
      ensures ok ==> Ahead(base, k + L.FracPart(Text()[k..]).value, c)
    {
      hide S.Stream.Valid, S.Stream.Text;
      Seen(base, k, first);
      c := first;
      if c == DOT {
        Shift(Text(), k);
        c := Get();
        if k + 1 < |Text()| {
          Shift(Text(), k + 1);
        }
        if !IsDigitCode(c) {
          Unget(c, k + 1);
          return false, c;
        }
        saved := saved + [c];
        c := Digits(c, base, k + 1);
      }
      ok := true;
    }

    /** The optional exponent. */
    method Exponent(first: int, ghost base: nat, ghost k: nat) returns (ok: bool, c: int)
      requires Ahead(base, k, first)
      modifies stream, stream.buffer, this`saved
      ensures Valid() && (ok <==> L.ExpPart(Text()[k..]).Some?)
      ensures ok ==> Ahead(base, k + L.ExpPart(Text()[k..]).value, c)
    {
      hide S.Stream.Valid, S.Stream.Text, Ahead, L.ExpPart, L.DigitRun;
      Seen(base, k, first);
      ExpPartAt(Text(), k);
      c := first;
      if c == UPPER_E || c == LOWER_E {
        c := GetSave(base);
        ghost var n := k + 1;
        Seen(base, n, c);
        if c == PLUS || c == MINUS {
          c := GetSave(base);
          n := n + 1;
          Seen(base, n, c);
        }
        if !IsDigitCode(c) {
          UngetUnsave(c, base, n);
          return false, c;
        }
        c := Digits(c, base, n);
      }
      ok := true;
    }

    /** lex_scan_number. */
    method ScanNumber(first: int, ghost base: nat)
      requires Ahead(base, base, first) && base < |Text()|
      modifies stream, stream.buffer, this`saved, this`token
      ensures Valid() && token == L.ScanNumber(Text()[base..], conv).token
      ensures token != L.Invalid ==> Text()[stream.position..] == L.ScanNumber(Text()[base..], conv).rest
    {
      hide S.Stream.Valid, S.Stream.Text, L.IntPart, L.FracPart, L.ExpPart, L.Integer, L.RealOf, Ahead;
      token := L.Invalid;
      ghost var s := Text()[base..];
      var ok, c := IntegerPart(first, base);
      if !ok {
        return;
      }
      ghost var a := L.IntPart(s).value;
      Ends(base, base + a, c);
      assert s[a..] == Text()[base + a..];
      if c != DOT && c != UPPER_E && c != LOWER_E {
        UngetUnsave(c, base, base + a);
        L.IntPartDigits(s);
        assert saved == s[..a];
        IntegerToken();
      } else {
        ok := RealTail(c, base, base + a);
        if ok {
          assert saved == s[..a + RealLength(s[a..])];
          RealToken();
        }
      }
    }

    /** The end of an integer: strtoll sees exactly the saved text. */
    method IntegerToken()
      requires saved != [] && L.AllDigits(if saved[0] == MINUS then saved[1..] else saved)
      modifies this`token
      ensures token == L.Integer(saved)
    {
      var value := L.Strtoll(saved);
      if J.InRange(value) {
        token := L.IntToken(value);
      } else {
        token := L.Invalid;
      }
    }

    /** The end of a real: jsonp_strtod sees exactly the saved text. */
    method RealToken()
      modifies this`token
      ensures token == L.RealOf(saved, conv)
    {
      match conv(saved) {
        case None => token := L.Invalid;
        case Some(value) => token := L.RealToken(value);
      }
    }

    /** The fraction and the exponent of a real. */
    method RealTail(first: int, ghost base: nat, ghost k: nat) returns (ok: bool)
      requires Ahead(base, k, first)
      modifies stream, stream.buffer, this`saved
      ensures Valid()
      ensures ok <==> L.FracPart(Text()[k..]).Some? && L.ExpPart(Text()[k..][L.FracPart(Text()[k..]).value..]).Some?
      ensures ok ==> stream.position == k + RealLength(Text()[k..]) && Saved(base)
    {
      hide S.Stream.Valid, S.Stream.Text, L.FracPart, L.ExpPart, Ahead;
      Seen(base, k, first);
      ghost var s := Text()[k..];
      var c;
      ok, c := Fraction(first, base, k);
      if !ok {
        return;
      }
      ghost var b := L.FracPart(s).value;
      assert s[b..] == Text()[k + b..];
      ok, c := Exponent(c, base, k + b);
      if ok {
        UngetUnsave(c, base, k + b + L.ExpPart(s[b..]).value);
      }
    }

    static ghost function RealLength(s: bytes): nat {
      match L.FracPart(s)
      case None => 0
      case Some(b) => match L.ExpPart(s[b..]) case None => 0 case Some(e) => b + e
    }

    /** Whether a fraction or exponent follows the integer part shows in the next byte. */
    lemma Ends(base: nat, k: nat, c: int)
      requires Ahead(base, k, c)
      ensures var s := Text()[k..];
        && (c != DOT && c != UPPER_E && c != LOWER_E ==> L.FracPart(s) == Some(0) && L.ExpPart(s) == Some(0))
        && (c == DOT || c == UPPER_E || c == LOWER_E ==>
              L.FracPart(s).Some? && L.ExpPart(s[L.FracPart(s).value..]).Some? ==> RealLength(s) > 0)
    {
      Seen(base, k, c);
      hide S.Stream.Valid, S.Stream.Text, Ahead;
      if k < |Text()| {
        Shift(Text(), k);
      }
    }

    /** The four rounds that read the digits of a \u escape; c is the byte after them. */
    method HexDigits(ghost base: nat, ghost k: nat) returns (ok: bool, c: int)
      requires Valid() && Saved(base) && base <= k == stream.position
      modifies stream, stream.buffer, this`saved
      ensures Valid() && (ok <==> L.FourHex(Text()[k..]))
      ensures ok ==> Ahead(base, k + 4, c)
    {
      hide S.Stream.Valid, S.Stream.Text, Ahead;
      c := GetSave(base);
      Seen(base, k, c);
      ghost var s := Text()[k..];
      for i := 0 to 4
        invariant Valid() && Ahead(base, k + i, c) && k + i <= |Text()|
        invariant forall m :: 0 <= m < i ==> L.IsHex(s[m])
      {
        Seen(base, k + i, c);
        assert i < |s| ==> s[i] == Text()[k + i];
        if !IsHexCode(c) {
          return false, c;
        }
        c := GetSave(base);
        Seen(base, k + i + 1, c);
      }
      ok := true;
    }

    /** What the first pass does after a backslash. */
    method Escape(ghost base: nat, ghost k: nat) returns (ok: bool, c: int)
      requires k < |Text()| && Text()[k] == BACKSLASH
      requires Valid() && Saved(base) && base <= k && k + 1 == stream.position
      modifies stream, stream.buffer, this`saved
      ensures Valid() && (ok <==> Step(Text(), k).Some?)
      ensures ok ==> Ahead(base, k + Step(Text(), k).value, c)
    {
      hide S.Stream.Valid, S.Stream.Text, Ahead, L.FourHex;
      c := GetSave(base);
      Seen(base, k + 1, c);
      if c == LOWER_U {
        ok, c := HexDigits(base, k + 2);
      } else if c == QUOTE || c == BACKSLASH || c == SLASH || c == LOWER_B || c == LOWER_F
          || c == LOWER_N || c == LOWER_R || c == LOWER_T {
        c := GetSave(base);
        ok := true;
      } else {
        ok := false;
      }
    }

    /** The first pass of lex_scan_string: finds the closing quote. */
    method FindQuote(ghost base: nat) returns (closed: bool)
      requires Valid() && Saved(base) && base < stream.position == base + 1
      modifies stream, stream.buffer, this`saved
      ensures Valid() && (closed <==> L.FirstPass(Text()[base + 1..]).Some?)
      ensures closed ==> stream.position == base + 1 + L.FirstPass(Text()[base + 1..]).value && Saved(base)
    {
      hide S.Stream.Valid, S.Stream.Text, Ahead, Step, L.FirstPass;
      var c := GetSave(base);
      ghost var k := base + 1;
      while c != QUOTE
        invariant base < k <= |Text()| && Valid() && Ahead(base, k, c)
        invariant L.FirstPass(Text()[base + 1..]) == L.More(k - base - 1, L.FirstPass(Text()[k..]))
        decreases |Text()| - k
      {
        Seen(base, k, c);
        FirstPassAt(Text(), k);
        StepAt(base, k, c);
        if c == S.STATE_ERROR || c == S.STATE_EOF {
          return false;
        } else if 0 <= c <= 0x1F {
          UngetUnsave(c, base, k);
          return false;
        } else if c == BACKSLASH {
          var ok;
          ok, c := Escape(base, k);
          if !ok {
            return false;
          }
        } else {
          c := GetSave(base);
        }
        k := k + Step(Text(), k).value;
      }
      Seen(base, k, c);
      FirstPassAt(Text(), k);
      closed := true;
    }

    lemma StepAt(base: nat, k: nat, c: int)
      requires Ahead(base, k, c)
      ensures c == S.STATE_ERROR || c == S.STATE_EOF || 0 <= c <= 0x1F ==> Step(Text(), k) == None
      ensures c != S.STATE_ERROR && c != S.STATE_EOF && !(0 <= c <= 0x1F) && c != BACKSLASH ==>
        Step(Text(), k) == Some(1)
    {
    }

    /** lex_scan_string, after the opening quote. */
    method ScanString(ghost base: nat)
      requires Valid() && Saved(base) && base < stream.position == base + 1
      modifies stream, stream.buffer, this`saved, this`token
      ensures Valid() && token == L.ScanString(Text()[base + 1..]).token
      ensures token != L.Invalid ==> Text()[stream.position..] == L.ScanString(Text()[base + 1..]).rest
    {
      hide S.Stream.Valid, S.Stream.Text, L.FirstPass, L.SecondPass;
      token := L.Invalid;
      ghost var s := Text()[base + 1..];
      var closed := FindQuote(base);
      if !closed {
        return;
      }
      ghost var n := L.FirstPass(s).value;
      D.PassesStopAtQuote(s);
      assert saved[1..] == s[..n];
      var ok, value := D.Decode(saved);
      if ok {
        token := L.StringToken(value);
      }
      assert s[n..] == Text()[stream.position..];
    }

    /** A word: the longest run of letters. */
    method ScanWord(first: int, ghost base: nat)
      requires Ahead(base, base, first) && IsAlphaCode(first)
      modifies stream, stream.buffer, this`saved, this`token
      ensures var s := Text()[base..]; Valid() && token == L.Word(s[..L.AlphaRun(s)])
      ensures Text()[stream.position..] == Text()[base..][L.AlphaRun(Text()[base..])..]
    {
      hide S.Stream.Valid, S.Stream.Text, Ahead, L.AlphaRun;
      Seen(base, base, first);
      AlphaFrom(Text(), base);
      var c := GetSave(base);
      ghost var n := base + 1;
      while IsAlphaCode(c)
        invariant base < n <= |Text()| && Valid() && Ahead(base, n, c)
        invariant L.AlphaRun(Text()[base..]) == n - base + L.AlphaRun(Text()[n..])
        decreases |Text()| - n
      {
        Seen(base, n, c);
        AlphaFrom(Text(), n);
        c := GetSave(base);
        n := n + 1;
      }
      Seen(base, n, c);
      AlphaFrom(Text(), n);
      UngetUnsave(c, base, n);
      assert saved == Text()[base..][..L.AlphaRun(Text()[base..])];
      if saved == TRUE_TEXT {
        token := L.TrueToken;
      } else if saved == FALSE_TEXT {
        token := L.FalseToken;
      } else if saved == NULL_TEXT {
        token := L.NullToken;
      } else {
        token := L.Invalid;
      }
    }

    /** The loop of lex_scan that skips white space: c is the byte after it. */
    method SkipWs(ghost from: nat) returns (c: int, ghost k: nat)
      requires Valid() && stream.position == from
      modifies stream, stream.buffer
      ensures Valid() && k == from + L.WsRun(Text()[from..]) && At(k, c)
    {
      hide S.Stream.Valid, S.Stream.Text, L.WsRun, At;
      c := Get();
      k := from;
      Noticed(k, c);
      while IsWsCode(c)
        invariant from <= k <= |Text()| && At(k, c) && Valid()
        invariant L.WsRun(Text()[from..]) == k - from + L.WsRun(Text()[k..])
        decreases |Text()| - k
      {
        Noticed(k, c);
        WsFrom(Text(), k);
        c := Get();
        k := k + 1;
        Noticed(k, c);
      }
      Noticed(k, c);
      WsFrom(Text(), k);
    }

    lemma Noticed(k: nat, c: int)
      requires At(k, c)
      ensures Valid() && k <= |Text()| && stream.position == if k < |Text()| then k + 1 else k
      ensures c >= 0 ==> k < |Text()| && Text()[k] == c
      ensures c < 0 ==> k == |Text()| || Text()[k] >= 0x80
      ensures c == S.STATE_EOF <==> k == |Text()| && !stream.Bad()
      ensures c == S.STATE_ERROR <==> k == |Text()| && stream.Bad()
      ensures k < |Text()| ==>
        c == SignedChar(Text()[k]) && stream.state == S.STATE_OK && stream.start < stream.position
    {
    }

    /** lex_scan: the next token, on the bytes not read yet. */
    method Scan()
      requires Valid()
      modifies this`saved, this`token, stream, stream.buffer
      ensures Valid()
      ensures var r := L.ScanToken(Text()[old(stream.position)..], stream.Bad(), conv);
        token == r.token && (token != L.Invalid ==> Text()[stream.position..] == r.rest)
    {
      ghost var s := Text()[stream.position..];
      hide S.Stream.Valid, S.Stream.Text, S.Stream.Bad, L.WsRun, At, L.ScanString, L.ScanNumber, L.Word, L.AlphaRun;
      saved := [];
      var c;
      ghost var k;
      c, k := SkipWs(stream.position);
      Noticed(k, c);
      assert s[L.WsRun(s)..] == Text()[k..];
      if c == S.STATE_EOF {
        token := L.Eof;
        return;
      }
      if c == S.STATE_ERROR {
        token := L.Invalid;
        return;
      }
      saved := saved + [if c < 0 then c + 0x100 else c];
      Shift(Text(), k);
      assert saved == Text()[k..k + 1];
      ScanFrom(c, k);
    }

    /** The part of lex_scan after the white space. */
    method ScanFrom(c: int, ghost k: nat)
      requires At(k, c) && k < |Text()| && Saved(k)
      modifies this`saved, this`token, stream, stream.buffer
      ensures Valid()
      ensures var r := L.ScanHere(Text()[k..], conv);
        token == r.token && (token != L.Invalid ==> Text()[stream.position..] == r.rest)
    {
      hide S.Stream.Valid, S.Stream.Text, S.Stream.Bad, At, L.ScanString, L.ScanNumber, L.Word, L.AlphaRun;
      Noticed(k, c);
      Shift(Text(), k);
      if IsPunctCode(c) {
        token := L.Punct(c);
      } else if c == QUOTE {
        ScanString(k);
      } else if IsDigitCode(c) || c == MINUS {
        ScanNumber(c, k);
      } else if IsAlphaCode(c) {
        ScanWord(c, k);
      } else {
        SaveCached(k);
        token := L.Invalid;
      }
    }

    /** lex_save_cached: the saved text ends with the whole character. */
    method SaveCached(ghost k: nat)
      requires Valid() && stream.state == S.STATE_OK && stream.start < stream.position && Saved(k)
      modifies this`saved, stream
      ensures Valid() && stream.position == stream.pos && Saved(k)
    {
      var rest := stream.SkipCached();
      saved := saved + rest;
    }
  }
}
