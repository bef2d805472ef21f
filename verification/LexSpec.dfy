/**
 * What the lexer of jansson/load.c recognises, as functions of the bytes still to be read.
 * Module Lexer proves the byte-by-byte code against them.
 */
module LexSpec {
  import opened Basics
  import Utf8
  import J = Json

  datatype Token =
    | Invalid
    | Eof
    | Punct(c: byte)
    | StringToken(s: bytes)
    | IntToken(i: int)
    | RealToken(r: real)
    | TrueToken
    | FalseToken
    | NullToken

  /** The token read, and the bytes after it. */
  datatype Scan = Scan(token: Token, rest: bytes)

  type Strtod = J.Strtod

  predicate IsWs(b: byte) { b == SPACE || b == TAB || b == LF || b == CR }
  predicate IsDigit(b: byte) { ZERO <= b <= NINE }
  predicate IsAlpha(b: byte) { 0x41 <= b <= 0x5A || 0x61 <= b <= 0x7A }
  predicate IsHex(b: byte) { IsDigit(b) || 0x41 <= b <= 0x46 || 0x61 <= b <= 0x66 }
  predicate IsPunct(b: byte) {
    b == LBRACE || b == RBRACE || b == LBRACKET || b == RBRACKET || b == COLON || b == COMMA
  }

  predicate AllWs(s: bytes) { forall i :: 0 <= i < |s| ==> IsWs(s[i]) }
  predicate AllDigits(s: bytes) { forall i :: 0 <= i < |s| ==> IsDigit(s[i]) }

  function WsRun(s: bytes): (n: nat)
    ensures n <= |s| && AllWs(s[..n]) && (n < |s| ==> !IsWs(s[n]))
    decreases |s|
  {
    if s != [] && IsWs(s[0]) then 1 + WsRun(s[1..]) else 0
  }

  function DigitRun(s: bytes): (n: nat)
    ensures n <= |s| && AllDigits(s[..n]) && (n < |s| ==> !IsDigit(s[n]))
    decreases |s|
  {
    if s != [] && IsDigit(s[0]) then 1 + DigitRun(s[1..]) else 0
  }

  function AlphaRun(s: bytes): (n: nat)
    ensures n <= |s| && (forall i :: 0 <= i < n ==> IsAlpha(s[i])) && (n < |s| ==> !IsAlpha(s[n]))
    decreases |s|
  {
    if s != [] && IsAlpha(s[0]) then 1 + AlphaRun(s[1..]) else 0
  }

  // ----- numbers -----

  /** The length of the integer part of a number, None when it is malformed. */
  function IntPart(s: bytes): (n: Option<nat>)
    ensures n.Some? ==> 1 <= n.value <= |s|
  {
    var p := if s != [] && s[0] == MINUS then 1 else 0;
    if p < |s| && s[p] == ZERO then
      if p + 1 < |s| && IsDigit(s[p + 1]) then None else Some(p + 1)
    else if p < |s| && IsDigit(s[p]) then Some(p + DigitRun(s[p..]))
    else None
  }

  /** The length of an optional fraction: 0 without a dot, None for a dot without digits. */
  function FracPart(s: bytes): (n: Option<nat>)
    ensures n.Some? ==> n.value <= |s|
  {
    if s != [] && s[0] == DOT then
      var d := DigitRun(s[1..]);
      if d == 0 then None else Some(1 + d)
    else Some(0)
  }

  predicate IsE(b: byte) { b == UPPER_E || b == LOWER_E }

  function ExpPart(s: bytes): (n: Option<nat>)
    ensures n.Some? ==> n.value <= |s|
  {
    if s != [] && IsE(s[0]) then
      var p := if |s| > 1 && (s[1] == PLUS || s[1] == MINUS) then 2 else 1;
      var d := DigitRun(s[p..]);
      if d == 0 then None else Some(p + d)
    else Some(0)
  }

  /** The value of a run of decimal digits, most significant first. */
  function Decimal(s: bytes): nat
    requires AllDigits(s)
    decreases |s|
  {
    if s == [] then 0 else Decimal(s[..|s| - 1]) * 10 + (s[|s| - 1] - ZERO)
  }

  /** What strtoll makes of the text of an integer. */
  function Strtoll(s: bytes): int
    requires s != [] && AllDigits(if s[0] == MINUS then s[1..] else s)
  {
    if s[0] == MINUS then -(Decimal(s[1..]) as int) else Decimal(s)
  }

  lemma IntPartDigits(s: bytes)
    requires IntPart(s).Some?
    ensures var t := s[..IntPart(s).value]; t != [] && AllDigits(if t[0] == MINUS then t[1..] else t)
  {
    var n := IntPart(s).value;
    var t := s[..n];
    var p := if s[0] == MINUS then 1 else 0;
    if s[p] != ZERO {
      assert forall i :: p <= i < n ==> t[i] == s[p..][..n - p][i - p];
    }
  }

  function ScanNumber(s: bytes, conv: Strtod): (r: Scan)
    ensures r.token != Invalid ==> (r.token.IntToken? || r.token.RealToken?) && |r.rest| < |s|
  {
    match IntPart(s)
    case None => Scan(Invalid, s)
    case Some(a) =>
      match FracPart(s[a..])
      case None => Scan(Invalid, s)
      case Some(b) =>
        match ExpPart(s[a + b..])
        case None => Scan(Invalid, s)
        case Some(c) =>
          var text, rest := s[..a + b + c], s[a + b + c..];
          IntPartDigits(s);
          Scan(if b + c == 0 then Integer(text) else RealOf(text, conv), rest)
  }

  /** errno == ERANGE makes the token invalid. */
  function Integer(text: bytes): Token
    requires text != [] && AllDigits(if text[0] == MINUS then text[1..] else text)
  {
    if J.InRange(Strtoll(text)) then IntToken(Strtoll(text)) else Invalid
  }

  function RealOf(text: bytes, conv: Strtod): Token {
    match conv(text) case None => Invalid case Some(r) => RealToken(r)
  }

  // ----- strings -----

  predicate FourHex(s: bytes) { |s| >= 4 && IsHex(s[0]) && IsHex(s[1]) && IsHex(s[2]) && IsHex(s[3]) }

  function HexValue(b: byte): (v: nat)
    requires IsHex(b)
    ensures v < 16
  {
    if IsDigit(b) then b - ZERO else if b >= 0x61 then b - 0x61 + 10 else b - 0x41 + 10
  }

  function Hex4(s: bytes): (v: nat)
    requires FourHex(s)
    ensures v < 0x10000
  {
    ((HexValue(s[0]) * 16 + HexValue(s[1])) * 16 + HexValue(s[2])) * 16 + HexValue(s[3])
  }

  predicate IsHigh(v: int) { 0xD800 <= v <= 0xDBFF }
  predicate IsLow(v: int) { 0xDC00 <= v <= 0xDFFF }

  function Pair(high: int, low: int): (cp: int)
    requires IsHigh(high) && IsLow(low)
    ensures Utf8.IsScalar(cp) && cp >= 0x10000
  {
    (high - 0xD800) * 0x400 + (low - 0xDC00) + 0x10000
  }

  /** The byte a two-character escape stands for; None when c starts no such escape. */
  function Unescape(c: byte): Option<byte> {
    if c == QUOTE || c == BACKSLASH || c == SLASH then Some(c)
    else if c == LOWER_B then Some(0x08)
    else if c == LOWER_F then Some(0x0C)
    else if c == LOWER_N then Some(LF)
    else if c == LOWER_R then Some(CR)
    else if c == LOWER_T then Some(TAB)
    else None
  }

  /** First pass: the number of bytes up to and including the closing quote, None when it meets an error. */
  function FirstPass(s: bytes): (n: Option<nat>)
    ensures n.Some? ==> 1 <= n.value <= |s|
    ensures n.Some? && s[0] == BACKSLASH ==> |s| >= 2 && (s[1] == LOWER_U ==> FourHex(s[2..]))
    decreases |s|
  {
    if s == [] then None
    else if s[0] == QUOTE then Some(1)
    else if s[0] <= 0x1F then None
    else if s[0] == BACKSLASH then
      if |s| >= 2 && s[1] == LOWER_U then
        if FourHex(s[2..]) then More(6, FirstPass(s[6..])) else None
      else if |s| >= 2 && Unescape(s[1]).Some? then More(2, FirstPass(s[2..]))
      else None
    else More(1, FirstPass(s[1..]))
  }

  function More(k: nat, n: Option<nat>): Option<nat> {
    match n case None => None case Some(v) => Some(k + v)
  }

  /** Second pass, over text the first pass accepted: the decoded string, None for a forbidden escape. */
  function SecondPass(s: bytes): Option<bytes>
    requires FirstPass(s).Some?
    decreases |s|
  {
    if s[0] == QUOTE then Some([])
    else if s[0] == BACKSLASH then
      if s[1] == LOWER_U then
        var v := Hex4(s[2..]);
        var t := s[6..];
        if IsHigh(v) then
          if t[0] == BACKSLASH && t[1] == LOWER_U && IsLow(Hex4(t[2..])) then
            assert FirstPass(t) == More(6, FirstPass(t[6..]));
            Prepend(Utf8.Encoding(Pair(v, Hex4(t[2..]))), SecondPass(t[6..]))
          else None
        else if IsLow(v) || v == 0 then None
        else Prepend(Utf8.Encoding(v), SecondPass(t))
      else Prepend([Unescape(s[1]).value], SecondPass(s[2..]))
    else Prepend([s[0]], SecondPass(s[1..]))
  }

  /** A string, after its opening quote. */
  function ScanString(s: bytes): (r: Scan)
    ensures r.token != Invalid ==> r.token.StringToken? && |r.rest| < |s|
  {
    match FirstPass(s)
    case None => Scan(Invalid, s)
    case Some(n) =>
      match SecondPass(s)
      case None => Scan(Invalid, s[n..])
      case Some(t) => Scan(StringToken(t), s[n..])
  }

  // ----- tokens -----

  function Word(s: bytes): (t: Token)
    ensures t != Eof && (t != Invalid ==> s != [])
  {
    if s == TRUE_TEXT then TrueToken
    else if s == FALSE_TEXT then FalseToken
    else if s == NULL_TEXT then NullToken
    else Invalid
  }

  /** A token at the first byte of s. */
  function ScanHere(s: bytes, conv: Strtod): (r: Scan)
    requires s != []
    ensures |r.rest| <= |s| && r.token != Eof && (r.token != Invalid ==> |r.rest| < |s|)
  {
    var c := s[0];
    if IsPunct(c) then Scan(Punct(c), s[1..])
    else if c == QUOTE then ScanString(s[1..])
    else if IsDigit(c) || c == MINUS then ScanNumber(s, conv)
    else if IsAlpha(c) then Scan(Word(s[..AlphaRun(s)]), s[AlphaRun(s)..])
    else Scan(Invalid, s)
  }

  /**
   * lex_scan on the bytes s that can still be read. They end where the input ends, or, when bad
   * holds, in front of a sequence that is not UTF-8.
   */
  function ScanToken(s: bytes, bad: bool, conv: Strtod): (r: Scan)
    ensures |r.rest| <= |s| && (r.token != Invalid && r.token != Eof ==> |r.rest| < |s|)
    ensures r.token == Eof <==> AllWs(s) && !bad
  {
    var t := s[WsRun(s)..];
    assert WsRun(s) < |s| ==> !IsWs(s[WsRun(s)]);
    if t == [] then Scan(if bad then Invalid else Eof, [])
    else ScanHere(t, conv)
  }
}
