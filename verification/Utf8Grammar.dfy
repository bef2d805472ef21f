/**
 * The syntax of section 4 of RFC 3629, byte range by byte range, and the order of section 1: together they
 * leave one encoding, which is the one of module Utf8.
 */
module Utf8Grammar {
  import opened Basics
  import opened Utf8

  /** UTF8-tail = %x80-BF */
  predicate Tail(b: byte) { 0x80 <= b <= 0xBF }

  /** UTF8-char = UTF8-1 / UTF8-2 / UTF8-3 / UTF8-4 */
  predicate IsChar(s: bytes) {
    || (|s| == 1 && s[0] <= 0x7F)
    || (|s| == 2 && 0xC2 <= s[0] <= 0xDF && Tail(s[1]))
    || (|s| == 3 && Tail(s[2]) && (
          || (s[0] == 0xE0 && 0xA0 <= s[1] <= 0xBF)
          || (0xE1 <= s[0] <= 0xEC && Tail(s[1]))
          || (s[0] == 0xED && 0x80 <= s[1] <= 0x9F)
          || (0xEE <= s[0] <= 0xEF && Tail(s[1]))))
    || (|s| == 4 && Tail(s[2]) && Tail(s[3]) && (
          || (s[0] == 0xF0 && 0x90 <= s[1] <= 0xBF)
          || (0xF1 <= s[0] <= 0xF3 && Tail(s[1]))
          || (s[0] == 0xF4 && 0x80 <= s[1] <= 0x8F)))
  }

  lemma EncodingIsChar(cp: scalar)
    ensures IsChar(Encoding(cp))
  {
  }

  lemma ThreeIsScalar(s: bytes)
    requires IsChar(s) && |s| == 3
    ensures IsScalar(Value3(s[0], s[1], s[2])) && Value3(s[0], s[1], s[2]) >= 0x800
  {
    var x: int, y: int, z: int := s[0] - 0xE0, s[1] - 0x80, s[2] - 0x80;
    LowBits(s[0]);
    LowBits(s[1]);
    LowBits(s[2]);
    assert Value3(s[0], s[1], s[2]) == (x * 0x40 + y) * 0x40 + z;
  }

  lemma FourIsScalar(s: bytes)
    requires IsChar(s) && |s| == 4
    ensures IsScalar(Value4(s[0], s[1], s[2], s[3])) && Value4(s[0], s[1], s[2], s[3]) >= 0x10000
  {
    var w: int, x: int, y: int, z: int := s[0] - 0xF0, s[1] - 0x80, s[2] - 0x80, s[3] - 0x80;
    LowBits(s[0]);
    LowBits(s[1]);
    LowBits(s[2]);
    LowBits(s[3]);
    assert Value4(s[0], s[1], s[2], s[3]) == ((w * 0x40 + x) * 0x40 + y) * 0x40 + z;
  }

  /** Every character of the syntax is the encoding of a scalar value. */
  lemma CharIsEncoding(s: bytes) returns (cp: scalar)
    requires IsChar(s)
    ensures Encoding(cp) == s
  {
    if |s| == 1 {
      cp := s[0];
    } else if |s| == 2 {
      EncodingOfValue2(s[0], s[1]);
      cp := Value2(s[0], s[1]);
    } else if |s| == 3 {
      ThreeIsScalar(s);
      EncodingOfValue3(s[0], s[1], s[2]);
      hide Value3, Encoding;
      cp := Value3(s[0], s[1], s[2]);
    } else {
      FourIsScalar(s);
      EncodingOfValue4(s[0], s[1], s[2], s[3]);
      hide Value4, Encoding;
      cp := Value4(s[0], s[1], s[2], s[3]);
    }
  }

  /** What the check accepts at the start of a text is a character of the syntax, and every such character. */
  lemma {:induction false} CheckedIffChar(s: bytes, n: nat)
    requires n <= |s|
    ensures IsChar(s[..n]) <==> n > 0 && FirstChar(s).Some? && FirstChar(s).value.0 == n
  {
    if IsChar(s[..n]) {
      var cp := CharIsEncoding(s[..n]);
      hide IsChar, Encoding;
      CheckInvertsEncode(cp, s[n..]);
      assert s[..n] + s[n..] == s;
    }
    if n > 0 && FirstChar(s).Some? && FirstChar(s).value.0 == n {
      hide IsChar, Encoding;
      EncodeInvertsCheck(s);
      EncodingIsChar(FirstChar(s).value.1);
    }
  }

  /** a comes before b in the lexicographic order of bytes. */
  ghost predicate Precedes(a: bytes, b: bytes) {
    exists k :: 0 <= k < |a| && k < |b| && a[..k] == b[..k] && a[k] < b[k]
  }

  lemma QuotientFirst(a: nat, b: nat)
    requires a < b
    ensures a / 0x40 < b / 0x40 || (a / 0x40 == b / 0x40 && a % 0x40 < b % 0x40)
  {
    assert a == a / 0x40 * 0x40 + a % 0x40 && b == b / 0x40 * 0x40 + b % 0x40;
  }

  lemma Quotients(a: nat)
    ensures a / 0x1000 == a / 0x40 / 0x40 && a / 0x40000 == a / 0x40 / 0x40 / 0x40
  {
  }

  lemma FirstDifference(s: bytes, t: bytes, k: nat)
    requires k < |s| && k < |t| && (forall i :: 0 <= i < k ==> s[i] == t[i]) && s[k] < t[k]
    ensures Precedes(s, t)
  {
    assert s[..k] == t[..k];
  }

  /** Encodings of one length, digit by digit. */
  lemma SameLength(a: scalar, b: scalar)
    requires a < b && |Encoding(a)| == |Encoding(b)|
    ensures Precedes(Encoding(a), Encoding(b))
  {
    hide Precedes;
    if a < 0x80 {
      FirstDifference(Encoding(a), Encoding(b), 0);
    } else if a < 0x800 {
      QuotientFirst(a, b);
      FirstDifference(Encoding(a), Encoding(b), if a / 0x40 < b / 0x40 then 0 else 1);
    } else if a < 0x10000 {
      SameLength3(a, b);
    } else {
      SameLength4(a, b);
    }
  }

  /** The most significant digit to the base 0x40 in which they differ. */
  lemma DigitsDiffer(a: nat, b: nat)
    requires a < b
    ensures LexLess([a / 0x40000, a / 0x1000 % 0x40, a / 0x40 % 0x40, a % 0x40],
                    [b / 0x40000, b / 0x1000 % 0x40, b / 0x40 % 0x40, b % 0x40])
  {
    Quotients(a);
    Quotients(b);
    QuotientFirst(a, b);
    if a / 0x40 < b / 0x40 {
      QuotientFirst(a / 0x40, b / 0x40);
      if a / 0x1000 < b / 0x1000 {
        QuotientFirst(a / 0x1000, b / 0x1000);
      }
    }
  }

  predicate LexLess(s: seq<int>, t: seq<int>)
    requires |s| == 4 && |t| == 4
  {
    || s[0] < t[0]
    || (s[0] == t[0] && s[1] < t[1])
    || (s[0] == t[0] && s[1] == t[1] && s[2] < t[2])
    || (s[0] == t[0] && s[1] == t[1] && s[2] == t[2] && s[3] < t[3])
  }

  lemma SameLength3(a: scalar, b: scalar)
    requires 0x800 <= a < b < 0x10000
    ensures Precedes(Encoding(a), Encoding(b))
  {
    hide Precedes;
    DigitsDiffer(a, b);
    Quotients(a);
    Quotients(b);
    var k := if a / 0x1000 != b / 0x1000 then 0 else if a / 0x40 != b / 0x40 then 1 else 2;
    FirstDifference(Encoding(a), Encoding(b), k);
  }

  lemma FourBytes(cp: scalar)
    requires cp >= 0x10000
    ensures Encoding(cp) ==
      [0xF0 + cp / 0x40000, 0x80 + cp / 0x1000 % 0x40, 0x80 + cp / 0x40 % 0x40, 0x80 + cp % 0x40]
  {
  }

  lemma LexPrecedes(s: bytes, t: bytes)
    requires |s| == 4 && |t| == 4 && LexLess(s, t)
    ensures Precedes(s, t)
  {
    FirstDifference(s, t, if s[0] != t[0] then 0 else if s[1] != t[1] then 1 else if s[2] != t[2] then 2 else 3);
  }

  lemma SameLength4(a: scalar, b: scalar)
    requires 0x10000 <= a < b
    ensures Precedes(Encoding(a), Encoding(b))
  {
    hide Precedes, Encoding;
    DigitsDiffer(a, b);
    FourBytes(a);
    FourBytes(b);
    LexPrecedes(Encoding(a), Encoding(b));
  }

  /** The order of code points is the order of their encodings. */
  lemma OrderIsKept(a: scalar, b: scalar)
    requires a < b
    ensures Precedes(Encoding(a), Encoding(b))
  {
    if |Encoding(a)| == |Encoding(b)| {
      SameLength(a, b);
    } else {
      FirstDifference(Encoding(a), Encoding(b), 0);
    }
  }
}
