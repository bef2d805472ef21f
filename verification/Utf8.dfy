/** The UTF-8 codec (jansson/utf.c). */
module Utf8 {
  import opened Basics

  /** The code points UTF-8 may carry: everything up to 0x10FFFF but the surrogates. */
  predicate IsScalar(cp: int) {
    0 <= cp <= 0x10FFFF && !(0xD800 <= cp <= 0xDFFF)
  }

  type scalar = cp: int | 0 <= cp < 0xD800 || 0xE000 <= cp <= 0x10FFFF

  /** The encoding table of section 3 of RFC 3629. */
  function Encoding(cp: int): (s: bytes)
    requires 0 <= cp <= 0x10FFFF
    ensures 1 <= |s| <= 4
    ensures |s| == 1 <==> cp < 0x80
    ensures |s| >= 2 ==> forall i :: 0 <= i < |s| ==> s[i] >= 0x80
  {
    if cp < 0x80 then [cp]
    else if cp < 0x800 then [0xC0 + cp / 0x40, 0x80 + cp % 0x40]
    else if cp < 0x10000 then [0xE0 + cp / 0x1000, 0x80 + cp / 0x40 % 0x40, 0x80 + cp % 0x40]
    else [0xF0 + cp / 0x40000, 0x80 + cp / 0x1000 % 0x40, 0x80 + cp / 0x40 % 0x40, 0x80 + cp % 0x40]
  }

  function EncodingAll(cps: seq<scalar>): bytes
  {
    if cps == [] then [] else Encoding(cps[0]) + EncodingAll(cps[1..])
  }

  /** The length a leading byte announces, 0 when the byte cannot lead. */
  function CheckFirst(u: byte): nat {
    if u < 0x80 then 1
    else if u <= 0xBF then 0
    else if u == 0xC0 || u == 0xC1 then 0
    else if u <= 0xDF then 2
    else if u <= 0xEF then 3
    else if u <= 0xF4 then 4
    else 0
  }

  /** The value bits of continuation bytes s, added below value; None unless all are continuation bytes. */
  function Continue(value: int, s: bytes): Option<int>
    decreases |s|
  {
    if s == [] then Some(value)
    else if s[0] < 0x80 || s[0] > 0xBF then None
    else Continue(value * 0x40 + s[0] % 0x40, s[1..])
  }

  function LeadBits(u: byte, size: int): int {
    if size == 2 then u % 0x20 else if size == 3 then u % 0x10 else u % 0x08
  }

  predicate Overlong(size: int, value: int) {
    (size == 2 && value < 0x80) || (size == 3 && value < 0x800) || (size == 4 && value < 0x10000)
  }

  /** The code point a whole multi-byte sequence stands for, None when it is ill-formed. */
  function CheckFull(s: bytes): Option<int> {
    if |s| < 2 || |s| > 4 then None
    else
      match Continue(LeadBits(s[0], |s|), s[1..])
      case None => None
      case Some(value) =>
        if !IsScalar(value) || Overlong(|s|, value) then None else Some(value)
  }

  /** The first character of s, as (length, code point); None when s does not start with a well-formed one. */
  function FirstChar(s: bytes): (r: Option<(nat, int)>)
    requires s != []
    ensures r.Some? ==> 1 <= r.value.0 <= |s|
  {
    var count := CheckFirst(s[0]);
    if count == 0 then None
    else if count == 1 then Some((1, s[0]))
    else if count > |s| then None
    else match CheckFull(s[..count]) case None => None case Some(value) => Some((count, value))
  }

  predicate ValidUtf8(s: bytes)
    decreases |s|
  {
    s == [] || (FirstChar(s).Some? && ValidUtf8(s[FirstChar(s).value.0..]))
  }

  // ----- one character: encoding and checking are inverse bijections -----

  lemma ContinueTwo(value: int, a: byte)
    requires 0x80 <= a <= 0xBF
    ensures Continue(value, [a]) == Some(value * 0x40 + a % 0x40)
  {
    assert [a][1..] == [];
  }

  lemma ContinueThree(value: int, a: byte, b: byte)
    requires 0x80 <= a <= 0xBF && 0x80 <= b <= 0xBF
    ensures Continue(value, [a, b]) == Some((value * 0x40 + a % 0x40) * 0x40 + b % 0x40)
  {
    assert [a, b][1..] == [b];
    ContinueTwo(value * 0x40 + a % 0x40, b);
  }

  lemma ContinueFour(value: int, a: byte, b: byte, c: byte)
    requires 0x80 <= a <= 0xBF && 0x80 <= b <= 0xBF && 0x80 <= c <= 0xBF
    ensures Continue(value, [a, b, c]) == Some(((value * 0x40 + a % 0x40) * 0x40 + b % 0x40) * 0x40 + c % 0x40)
  {
    assert [a, b, c][1..] == [b, c];
    ContinueThree(value * 0x40 + a % 0x40, b, c);
  }

  lemma ContinueOnlyContinuations(value: int, s: bytes)
    decreases |s|
    ensures Continue(value, s).Some? <==> forall i :: 0 <= i < |s| ==> 0x80 <= s[i] <= 0xBF
  {
    if s != [] {
      ContinueOnlyContinuations(value * 0x40 + s[0] % 0x40, s[1..]);
      if forall i :: 0 <= i < |s[1..]| ==> 0x80 <= s[1..][i] <= 0xBF {
        assert forall i :: 1 <= i < |s| ==> s[i] == s[1..][i - 1];
      }
    }
  }

  function Value2(a: byte, b: byte): int { a % 0x20 * 0x40 + b % 0x40 }
  function Value3(a: byte, b: byte, c: byte): int { (a % 0x10 * 0x40 + b % 0x40) * 0x40 + c % 0x40 }
  function Value4(a: byte, b: byte, c: byte, d: byte): int {
    ((a % 0x08 * 0x40 + b % 0x40) * 0x40 + c % 0x40) * 0x40 + d % 0x40
  }

  predicate Trail(b: byte) { 0x80 <= b <= 0xBF }

  /** CheckFull, read off byte by byte. */
  lemma CheckFullByByte(s: bytes)
    requires 2 <= |s| <= 4
    ensures forall i :: 1 <= i < |s| && !Trail(s[i]) ==> CheckFull(s) == None
    ensures |s| == 2 && Trail(s[1]) ==>
      CheckFull(s) == var v := Value2(s[0], s[1]); if !IsScalar(v) || v < 0x80 then None else Some(v)
    ensures |s| == 3 && Trail(s[1]) && Trail(s[2]) ==>
      CheckFull(s) == var v := Value3(s[0], s[1], s[2]); if !IsScalar(v) || v < 0x800 then None else Some(v)
    ensures |s| == 4 && Trail(s[1]) && Trail(s[2]) && Trail(s[3]) ==>
      CheckFull(s) == var v := Value4(s[0], s[1], s[2], s[3]); if !IsScalar(v) || v < 0x10000 then None else Some(v)
  {
    ContinueOnlyContinuations(LeadBits(s[0], |s|), s[1..]);
    forall i | 1 <= i < |s| && !Trail(s[i]) ensures CheckFull(s) == None {
      assert s[1..][i - 1] == s[i];
    }
    if |s| == 2 && Trail(s[1]) {
      assert s[1..] == [s[1]];
      ContinueTwo(LeadBits(s[0], 2), s[1]);
    } else if |s| == 3 && Trail(s[1]) && Trail(s[2]) {
      assert s[1..] == [s[1], s[2]];
      ContinueThree(LeadBits(s[0], 3), s[1], s[2]);
    } else if |s| == 4 && Trail(s[1]) && Trail(s[2]) && Trail(s[3]) {
      assert s[1..] == [s[1], s[2], s[3]];
      ContinueFour(LeadBits(s[0], 4), s[1], s[2], s[3]);
    }
  }

  lemma LowBits(x: int)
    ensures 0x80 <= x <= 0xBF ==> x % 0x40 == x - 0x80
    ensures 0xC0 <= x <= 0xDF ==> x % 0x20 == x - 0xC0
    ensures 0xE0 <= x <= 0xEF ==> x % 0x10 == x - 0xE0
    ensures 0xF0 <= x <= 0xF7 ==> x % 0x08 == x - 0xF0
  {}

  lemma ValueOfEncoding2(cp: int)
    requires 0x80 <= cp < 0x800
    ensures var s := Encoding(cp); Trail(s[1]) && Value2(s[0], s[1]) == cp && CheckFirst(s[0]) == 2
  {
    LowBits(0xC0 + cp / 0x40);
    LowBits(0x80 + cp % 0x40);
  }

  lemma ValueOfEncoding3(cp: int)
    requires 0x800 <= cp < 0x10000
    ensures var s := Encoding(cp);
      Trail(s[1]) && Trail(s[2]) && Value3(s[0], s[1], s[2]) == cp && CheckFirst(s[0]) == 3
  {
    LowBits(0xE0 + cp / 0x1000);
    LowBits(0x80 + cp / 0x40 % 0x40);
    LowBits(0x80 + cp % 0x40);
    assert cp / 0x1000 == cp / 0x40 / 0x40;
  }

  lemma ValueOfEncoding4(cp: int)
    requires 0x10000 <= cp <= 0x10FFFF
    ensures var s := Encoding(cp);
      Trail(s[1]) && Trail(s[2]) && Trail(s[3]) && Value4(s[0], s[1], s[2], s[3]) == cp && CheckFirst(s[0]) == 4
  {
    LowBits(0xF0 + cp / 0x40000);
    LowBits(0x80 + cp / 0x1000 % 0x40);
    LowBits(0x80 + cp / 0x40 % 0x40);
    LowBits(0x80 + cp % 0x40);
    assert cp / 0x1000 == cp / 0x40 / 0x40 && cp / 0x40000 == cp / 0x1000 / 0x40;
  }

  lemma EncodingOfValue2(a: byte, b: byte)
    requires 0xC2 <= a <= 0xDF && Trail(b)
    ensures 0x80 <= Value2(a, b) < 0x800 && Encoding(Value2(a, b)) == [a, b]
  {}

  lemma EncodingOfDigits3(x: int, y: int, z: int)
    requires 0 <= x < 0x10 && 0 <= y < 0x40 && 0 <= z < 0x40
    ensures var v := (x * 0x40 + y) * 0x40 + z;
      0x800 <= v ==> Encoding(v) == [0xE0 + x, 0x80 + y, 0x80 + z]
  {
    LastDigit(x, y);
    LastDigit(x * 0x40 + y, z);
  }

  lemma EncodingOfValue3(a: byte, b: byte, c: byte)
    requires 0xE0 <= a <= 0xEF && Trail(b) && Trail(c)
    ensures Value3(a, b, c) < 0x10000
    ensures 0x800 <= Value3(a, b, c) ==> Encoding(Value3(a, b, c)) == [a, b, c]
  {
    LowBits(a); LowBits(b); LowBits(c);
    EncodingOfDigits3(a - 0xE0, b - 0x80, c - 0x80);
  }

  lemma EncodingOfValue4(a: byte, b: byte, c: byte, d: byte)
    requires 0xF0 <= a <= 0xF4 && Trail(b) && Trail(c) && Trail(d)
    ensures 0x10000 <= Value4(a, b, c, d) <= 0x10FFFF ==> Encoding(Value4(a, b, c, d)) == [a, b, c, d]
  {
    LowBits(a); LowBits(b); LowBits(c); LowBits(d);
    var hi := (a - 0xF0) * 0x40 + (b - 0x80);
    var w := hi * 0x40 + (c - 0x80);
    assert Value4(a, b, c, d) == w * 0x40 + (d - 0x80);
    LastDigit(a - 0xF0, b - 0x80);
    LastDigit(hi, c - 0x80);
    LastDigit(w, d - 0x80);
  }

  lemma LastDigit(w: int, d: int)
    requires 0 <= w && 0 <= d < 0x40
    ensures var v := w * 0x40 + d;
      v / 0x40 == w && v % 0x40 == d && v / 0x1000 == w / 0x40 && v / 0x40000 == w / 0x1000
  {}

  /** Checking the encoding of a scalar value gives that value back, whatever follows it. */
  lemma {:induction false} CheckInvertsEncode(cp: scalar, rest: bytes)
    ensures FirstChar(Encoding(cp) + rest) == Some((|Encoding(cp)|, cp))
  {
    var s := Encoding(cp);
    assert (s + rest)[0] == s[0] && (s + rest)[..|s|] == s;
    if cp >= 0x80 {
      CheckFullByByte(s);
      if cp < 0x800 { ValueOfEncoding2(cp); }
      else if cp < 0x10000 { ValueOfEncoding3(cp); }
      else { ValueOfEncoding4(cp); }
    }
  }

  /** Whatever passes the check is the one encoding of the value the check reports. */
  lemma {:induction false} EncodeInvertsCheck(s: bytes)
    requires s != [] && FirstChar(s).Some?
    ensures IsScalar(FirstChar(s).value.1)
    ensures Encoding(FirstChar(s).value.1) == s[..FirstChar(s).value.0]
  {
    var (count, cp) := FirstChar(s).value;
    if count > 1 {
      CheckFullByByte(s[..count]);
      if count == 2 { EncodingOfValue2(s[0], s[1]); }
      else if count == 3 { EncodingOfValue3(s[0], s[1], s[2]); }
      else { EncodingOfValue4(s[0], s[1], s[2], s[3]); }
    }
  }

  // ----- whole strings -----

  /** A string is valid exactly when it concatenates encodings of scalar values. */
  lemma {:induction false} ValidIffEncoded(s: bytes)
    ensures ValidUtf8(s) <==> exists cps: seq<scalar> :: EncodingAll(cps) == s
  {
    if ValidUtf8(s) {
      var cps := Decoded(s);
    }
    if exists cps: seq<scalar> :: EncodingAll(cps) == s {
      var cps: seq<scalar> :| EncodingAll(cps) == s;
      EncodedIsValid(cps, []);
      assert EncodingAll(cps) + [] == s;
    }
  }

  lemma {:induction false} EncodedIsValid(cps: seq<scalar>, rest: bytes)
    ensures ValidUtf8(EncodingAll(cps) + rest) == ValidUtf8(rest)
  {
    if cps == [] {
      assert EncodingAll(cps) + rest == rest;
    } else {
      var more := EncodingAll(cps[1..]) + rest;
      assert EncodingAll(cps) + rest == Encoding(cps[0]) + more;
      CheckInvertsEncode(cps[0], more);
      assert (Encoding(cps[0]) + more)[|Encoding(cps[0])|..] == more;
      EncodedIsValid(cps[1..], rest);
    }
  }

  /** The code points of a valid string. */
  function Decoded(s: bytes): (cps: seq<scalar>)
    requires ValidUtf8(s)
    ensures EncodingAll(cps) == s
    decreases |s|
  {
    if s == [] then []
    else
      EncodeInvertsCheck(s);
      var (n, cp) := FirstChar(s).value;
      assert s == s[..n] + s[n..];
      [cp] + Decoded(s[n..])
  }

  lemma {:induction false} ValidConcat(a: bytes, b: bytes)
    requires ValidUtf8(a)
    ensures ValidUtf8(a + b) == ValidUtf8(b)
  {
    EncodedIsValid(Decoded(a), b);
  }

  /** The decoding is unique: no string encodes two different sequences of code points. */
  lemma {:induction false} EncodingInjective(a: seq<scalar>, b: seq<scalar>)
    requires EncodingAll(a) == EncodingAll(b)
    ensures a == b
  {
    if a != [] && b != [] {
      CheckInvertsEncode(a[0], EncodingAll(a[1..]));
      CheckInvertsEncode(b[0], EncodingAll(b[1..]));
      assert EncodingAll(a[1..]) == EncodingAll(a)[|Encoding(a[0])|..];
      assert EncodingAll(b[1..]) == EncodingAll(b)[|Encoding(b[0])|..];
      EncodingInjective(a[1..], b[1..]);
      assert a == [a[0]] + a[1..] && b == [b[0]] + b[1..];
    }
  }
}
