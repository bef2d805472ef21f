/**
 * The JSON grammar of section 2 of RFC 4627, independent of the parser: derivation trees, the text
 * each one spells, and the value it means. Every spelling function appends what follows the tree,
 * so Spell(v, []) is the text of v alone.
 */
module Grammar {
  import opened Basics
  import Utf8
  import J = Json

  /** The white space the RFC allows on both sides of a structural character. */
  datatype Sep = Sep(before: bytes, after: bytes)

  /** char = unescaped / escape letter / escape "u" 4HEXDIG */
  datatype Item =
    | Unescaped(cp: Utf8.scalar)
    | Escaped(c: byte)
    | Unicode(hex: bytes)

  datatype Exponent =
    | NoExponent
    | Exponent(e: byte, sign: bytes, digits: bytes)

  /** number = [ minus ] int [ frac ] [ exp ]; an absent fraction has no digits. */
  datatype Number = Number(minus: bool, whole: bytes, frac: bytes, exp: Exponent)

  datatype Value =
    | NullLit
    | TrueLit
    | FalseLit
    | NumberLit(number: Number)
    | StringLit(items: seq<Item>)
    | ArrayLit(openArray: Sep, elems: Elems)
    | ObjectLit(openObject: Sep, members: Members)

  datatype Elems =
    | NoElems(closeEmpty: Sep)
    | SomeElems(first: Value, more: MoreElems)

  datatype MoreElems =
    | LastElem(close: Sep)
    | NextElem(comma: Sep, value: Value, more: MoreElems)

  datatype Members =
    | NoMembers(closeEmpty: Sep)
    | SomeMembers(name: seq<Item>, colon: Sep, value: Value, more: MoreMembers)

  datatype MoreMembers =
    | LastMember(close: Sep)
    | NextMember(comma: Sep, name: seq<Item>, colon: Sep, value: Value, more: MoreMembers)

  // ----- the terminal rules, byte by byte -----

  /** ws = *( %x20 / %x09 / %x0A / %x0D ) */
  predicate Ws(b: byte) { b == 0x20 || b == 0x09 || b == 0x0A || b == 0x0D }

  predicate AllWs(s: bytes) { forall i :: 0 <= i < |s| ==> Ws(s[i]) }

  /** DIGIT = %x30-39 */
  predicate Digit(b: byte) { 0x30 <= b <= 0x39 }

  predicate AllDigits(s: bytes) { forall i :: 0 <= i < |s| ==> Digit(s[i]) }

  /** e = %x65 / %x45 */
  predicate ExponentLetter(b: byte) { b == 0x65 || b == 0x45 }

  /** HEXDIG = DIGIT / "A" to "F", in either case. */
  predicate HexDigit(b: byte) { Digit(b) || 0x41 <= b <= 0x46 || 0x61 <= b <= 0x66 }

  predicate FourHexDigits(s: bytes) { |s| == 4 && forall i :: 0 <= i < 4 ==> HexDigit(s[i]) }

  /** What one hexadecimal digit counts. */
  function HexDigitValue(b: byte): (v: nat)
    requires HexDigit(b)
    ensures v < 16
  {
    if Digit(b) then b - 0x30 else if b <= 0x46 then b - 0x41 + 0xA else b - 0x61 + 0xA
  }

  /** The number four hexadecimal digits write, most significant first. */
  function CodeUnit(hex: bytes): (v: nat)
    requires FourHexDigits(hex)
    ensures v < 0x10000
  {
    HexDigitValue(hex[0]) * 0x1000 + HexDigitValue(hex[1]) * 0x100 + HexDigitValue(hex[2]) * 0x10
      + HexDigitValue(hex[3])
  }

  /** The letters that may follow a backslash, and the character each pair stands for. */
  function Escape(c: byte): Option<byte> {
    if c == 0x22 then Some(0x22) // quotation mark
    else if c == 0x5C then Some(0x5C) // reverse solidus
    else if c == 0x2F then Some(0x2F) // solidus
    else if c == 0x62 then Some(0x08) // backspace
    else if c == 0x66 then Some(0x0C) // form feed
    else if c == 0x6E then Some(0x0A) // line feed
    else if c == 0x72 then Some(0x0D) // carriage return
    else if c == 0x74 then Some(0x09) // tab
    else None
  }

  /** Section 2.2 of RFC 2781: the values of a surrogate pair, and the character it stands for. */
  predicate HighSurrogate(w: int) { 0xD800 <= w <= 0xDBFF }

  predicate LowSurrogate(w: int) { 0xDC00 <= w <= 0xDFFF }

  function FromSurrogates(w1: int, w2: int): (cp: int)
    requires HighSurrogate(w1) && LowSurrogate(w2)
    ensures Utf8.IsScalar(cp) && cp >= 0x10000
  {
    w1 % 0x400 * 0x400 + w2 % 0x400 + 0x10000
  }

  /** The number a run of decimal digits writes, most significant first. */
  function Natural(s: bytes): nat
    requires AllDigits(s)
    decreases |s|
  {
    if s == [] then 0 else 10 * Natural(s[..|s| - 1]) + (s[|s| - 1] - 0x30)
  }

  // ----- well-formedness -----

  predicate WfSep(s: Sep) { AllWs(s.before) && AllWs(s.after) }

  /** unescaped = %x20-21 / %x23-5B / %x5D-10FFFF, as UTF-8 can carry it. */
  predicate WfItem(i: Item) {
    match i
    case Unescaped(cp) => 0x20 <= cp <= 0x21 || 0x23 <= cp <= 0x5B || 0x5D <= cp <= 0x10FFFF
    case Escaped(c) => Escape(c).Some?
    case Unicode(hex) => FourHexDigits(hex)
  }

  predicate WfItems(items: seq<Item>) { forall i :: 0 <= i < |items| ==> WfItem(items[i]) }

  predicate WfInt(s: bytes) { s == [ZERO] || (s != [] && AllDigits(s) && s[0] != ZERO) }

  predicate WfExponent(x: Exponent) {
    x.NoExponent? || (
      && ExponentLetter(x.e) && (x.sign == [] || x.sign == [PLUS] || x.sign == [MINUS])
      && x.digits != [] && AllDigits(x.digits))
  }

  predicate WfNumber(n: Number) { WfInt(n.whole) && AllDigits(n.frac) && WfExponent(n.exp) }

  predicate Wf(v: Value) {
    match v
    case NullLit => true
    case TrueLit => true
    case FalseLit => true
    case NumberLit(n) => WfNumber(n)
    case StringLit(items) => WfItems(items)
    case ArrayLit(open, elems) => WfSep(open) && WfElems(elems)
    case ObjectLit(open, members) => WfSep(open) && WfMembers(members)
  }

  predicate WfElems(e: Elems) {
    match e
    case NoElems(close) => WfSep(close)
    case SomeElems(first, more) => Wf(first) && WfMoreElems(more)
  }

  predicate WfMoreElems(e: MoreElems) {
    match e
    case LastElem(close) => WfSep(close)
    case NextElem(comma, value, more) => WfSep(comma) && Wf(value) && WfMoreElems(more)
  }

  predicate WfMembers(m: Members) {
    match m
    case NoMembers(close) => WfSep(close)
    case SomeMembers(name, colon, value, more) => WfItems(name) && WfSep(colon) && Wf(value) && WfMoreMembers(more)
  }

  predicate WfMoreMembers(m: MoreMembers) {
    match m
    case LastMember(close) => WfSep(close)
    case NextMember(comma, name, colon, value, more) =>
      WfSep(comma) && WfItems(name) && WfSep(colon) && Wf(value) && WfMoreMembers(more)
  }

  // ----- spelling -----

  function SpellSep(s: Sep, c: byte, k: bytes): bytes { s.before + ([c] + (s.after + k)) }

  function SpellItem(i: Item): bytes {
    match i
    case Unescaped(cp) => Utf8.Encoding(cp)
    case Escaped(c) => [BACKSLASH, c]
    case Unicode(hex) => [BACKSLASH, LOWER_U] + hex
  }

  function SpellItems(items: seq<Item>, k: bytes): bytes {
    if items == [] then k else SpellItem(items[0]) + SpellItems(items[1..], k)
  }

  /** string = quotation-mark *char quotation-mark */
  function SpellString(items: seq<Item>, k: bytes): bytes {
    [QUOTE] + SpellItems(items, [QUOTE] + k)
  }

  function SpellFrac(frac: bytes): bytes { if frac == [] then [] else [DOT] + frac }

  function SpellExponent(x: Exponent): bytes {
    if x.NoExponent? then [] else [x.e] + x.sign + x.digits
  }

  function SpellInt(n: Number): bytes { (if n.minus then [MINUS] else []) + n.whole }

  function SpellNumber(n: Number): bytes {
    SpellInt(n) + SpellFrac(n.frac) + SpellExponent(n.exp)
  }

  function Spell(v: Value, k: bytes): bytes {
    match v
    case NullLit => NULL_TEXT + k
    case TrueLit => TRUE_TEXT + k
    case FalseLit => FALSE_TEXT + k
    case NumberLit(n) => SpellNumber(n) + k
    case StringLit(items) => SpellString(items, k)
    case ArrayLit(open, elems) => SpellSep(open, LBRACKET, SpellElems(elems, k))
    case ObjectLit(open, members) => SpellSep(open, LBRACE, SpellMembers(members, k))
  }

  function SpellElems(e: Elems, k: bytes): bytes {
    match e
    case NoElems(close) => SpellSep(close, RBRACKET, k)
    case SomeElems(first, more) => Spell(first, SpellMoreElems(more, k))
  }

  function SpellMoreElems(e: MoreElems, k: bytes): bytes {
    match e
    case LastElem(close) => SpellSep(close, RBRACKET, k)
    case NextElem(comma, value, more) => SpellSep(comma, COMMA, Spell(value, SpellMoreElems(more, k)))
  }

  function SpellMembers(m: Members, k: bytes): bytes {
    match m
    case NoMembers(close) => SpellSep(close, RBRACE, k)
    case SomeMembers(name, colon, value, more) =>
      SpellString(name, SpellSep(colon, COLON, Spell(value, SpellMoreMembers(more, k))))
  }

  function SpellMoreMembers(m: MoreMembers, k: bytes): bytes {
    match m
    case LastMember(close) => SpellSep(close, RBRACE, k)
    case NextMember(comma, name, colon, value, more) =>
      SpellSep(comma, COMMA, SpellString(name, SpellSep(colon, COLON, Spell(value, SpellMoreMembers(more, k)))))
  }

  // ----- meaning -----

  /** The bytes a string stands for; None for \u0000 and for a surrogate that is not one of a pair. */
  function MeanItems(items: seq<Item>): Option<bytes>
    requires WfItems(items)
    decreases |items|
  {
    if items == [] then Some([])
    else
      match items[0]
      case Unescaped(cp) => Prepend(Utf8.Encoding(cp), MeanItems(items[1..]))
      case Escaped(c) => Prepend([Escape(c).value], MeanItems(items[1..]))
      case Unicode(hex) =>
        var w := CodeUnit(hex);
        if HighSurrogate(w) then
          if |items| > 1 && items[1].Unicode? && LowSurrogate(CodeUnit(items[1].hex)) then
            Prepend(Utf8.Encoding(FromSurrogates(w, CodeUnit(items[1].hex))), MeanItems(items[2..]))
          else None
        else if LowSurrogate(w) || w == 0 then None
        else Prepend(Utf8.Encoding(w), MeanItems(items[1..]))
  }

  predicate IsIntegral(n: Number) { n.frac == [] && n.exp.NoExponent? }

  /** An integer means its value if 64 bits hold it; a real, what strtod makes of it. */
  function MeanNumber(n: Number, conv: J.Strtod): Option<J.Json>
    requires WfNumber(n)
  {
    if IsIntegral(n) then
      var i := if n.minus then -(Natural(n.whole) as int) else Natural(n.whole);
      if -0x8000_0000_0000_0000 <= i <= 0x7FFF_FFFF_FFFF_FFFF then Some(J.Int(i)) else None
    else
      match conv(SpellNumber(n)) case None => None case Some(r) => Some(J.Real(r))
  }

  /** The members of an object text, in order. */
  type Bindings = seq<(bytes, J.Json)>

  /** Setting the members one by one; None when duplicates are rejected and a key comes twice. */
  function BuildOn(done: J.Json, members: Bindings, reject: bool): (r: Option<J.Json>)
    requires done.Obj?
    ensures r.Some? ==> r.value.Obj?
    ensures !reject ==> r.Some?
    decreases |members|
  {
    if members == [] then Some(done)
    else if reject && J.ObjectGet(done, members[0].0).Some? then None
    else BuildOn(J.ObjectSet(done, members[0].0, members[0].1), members[1..], reject)
  }

  function Mean(v: Value, conv: J.Strtod, reject: bool): Option<J.Json>
    requires Wf(v)
  {
    match v
    case NullLit => Some(J.Null)
    case TrueLit => Some(J.True)
    case FalseLit => Some(J.False)
    case NumberLit(n) => MeanNumber(n, conv)
    case StringLit(items) => (match MeanItems(items) case None => None case Some(s) => Some(J.Str(s)))
    case ArrayLit(_, elems) => (match MeanElems(elems, conv, reject) case None => None case Some(js) => Some(J.Arr(js)))
    case ObjectLit(_, members) =>
      match MeanMembers(members, conv, reject)
      case None => None
      case Some(bs) => BuildOn(J.EMPTY_OBJECT, bs, reject)
  }

  function Cons<X>(x: Option<X>, xs: Option<seq<X>>): Option<seq<X>> {
    if x.None? || xs.None? then None else Some([x.value] + xs.value)
  }

  function MeanElems(e: Elems, conv: J.Strtod, reject: bool): Option<seq<J.Json>>
    requires WfElems(e)
  {
    match e
    case NoElems(_) => Some([])
    case SomeElems(first, more) => Cons(Mean(first, conv, reject), MeanMoreElems(more, conv, reject))
  }

  function MeanMoreElems(e: MoreElems, conv: J.Strtod, reject: bool): Option<seq<J.Json>>
    requires WfMoreElems(e)
  {
    match e
    case LastElem(_) => Some([])
    case NextElem(_, value, more) => Cons(Mean(value, conv, reject), MeanMoreElems(more, conv, reject))
  }

  function Bind(name: Option<bytes>, value: Option<J.Json>): Option<(bytes, J.Json)> {
    if name.None? || value.None? then None else Some((name.value, value.value))
  }

  function MeanMembers(m: Members, conv: J.Strtod, reject: bool): Option<Bindings>
    requires WfMembers(m)
  {
    match m
    case NoMembers(_) => Some([])
    case SomeMembers(name, _, value, more) =>
      Cons(Bind(MeanItems(name), Mean(value, conv, reject)), MeanMoreMembers(more, conv, reject))
  }

  function MeanMoreMembers(m: MoreMembers, conv: J.Strtod, reject: bool): Option<Bindings>
    requires WfMoreMembers(m)
  {
    match m
    case LastMember(_) => Some([])
    case NextMember(_, name, _, value, more) =>
      Cons(Bind(MeanItems(name), Mean(value, conv, reject)), MeanMoreMembers(more, conv, reject))
  }

  /** JSON-text = object / array */
  predicate IsText(v: Value) { v.ArrayLit? || v.ObjectLit? }
}
