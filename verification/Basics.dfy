/** Vocabulary shared by every module: bytes, optional results and ASCII codes. */
module Basics {
  type byte = b: int | 0 <= b < 0x100
  type bytes = seq<byte>

  datatype Option<+T> = None | Some(value: T)

  const TAB: byte := 0x09
  const LF: byte := 0x0A
  const CR: byte := 0x0D
  const SPACE: byte := 0x20
  const QUOTE: byte := 0x22
  const PLUS: byte := 0x2B
  const COMMA: byte := 0x2C
  const MINUS: byte := 0x2D
  const DOT: byte := 0x2E
  const SLASH: byte := 0x2F
  const ZERO: byte := 0x30
  const NINE: byte := 0x39
  const COLON: byte := 0x3A
  const UPPER_E: byte := 0x45
  const LBRACKET: byte := 0x5B
  const BACKSLASH: byte := 0x5C
  const RBRACKET: byte := 0x5D
  const LOWER_B: byte := 0x62
  const LOWER_E: byte := 0x65
  const LOWER_F: byte := 0x66
  const LOWER_N: byte := 0x6E
  const LOWER_R: byte := 0x72
  const LOWER_T: byte := 0x74
  const LOWER_U: byte := 0x75
  const LBRACE: byte := 0x7B
  const RBRACE: byte := 0x7D

  const NULL_TEXT: bytes := [0x6E, 0x75, 0x6C, 0x6C]
  const TRUE_TEXT: bytes := [0x74, 0x72, 0x75, 0x65]
  const FALSE_TEXT: bytes := [0x66, 0x61, 0x6C, 0x73, 0x65]

  /** The codes of an ASCII text. */
  function Ascii(text: string): (s: bytes)
    requires forall i :: 0 <= i < |text| ==> text[i] as int < 0x80
    ensures |s| == |text| && forall i :: 0 <= i < |s| ==> s[i] == text[i] as int
  {
    seq(|text|, i requires 0 <= i < |text| => text[i] as int)
  }

  /** The names above are those of ASCII. */
  lemma NamesAreAscii()
    ensures [TAB, LF, CR, SPACE] == Ascii("\t\n\r ")
    ensures [QUOTE, PLUS, COMMA, MINUS, DOT, SLASH, ZERO, NINE, COLON] == Ascii("\"+,-./09:")
    ensures [UPPER_E, LBRACKET, BACKSLASH, RBRACKET, LBRACE, RBRACE] == Ascii("E[\\]{}")
    ensures [LOWER_B, LOWER_E, LOWER_F, LOWER_N, LOWER_R, LOWER_T, LOWER_U] == Ascii("befnrtu")
    ensures NULL_TEXT == Ascii("null") && TRUE_TEXT == Ascii("true") && FALSE_TEXT == Ascii("false")
  {
  }

  function Prepend(a: bytes, b: Option<bytes>): Option<bytes> {
    match b case None => None case Some(t) => Some(a + t)
  }

  /** A C string never holds its own terminator. */
  predicate NulFree(s: bytes) {
    forall i :: 0 <= i < |s| ==> s[i] != 0
  }

  /** The value a C program sees when it reads byte b through a (signed) char. */
  function SignedChar(b: byte): (c: int)
    ensures -0x80 <= c < 0x80
    ensures c >= 0 <==> b < 0x80
  {
    if b < 0x80 then b else b - 0x100
  }
}
